/**
 * The HTTP actions. Each action is a decision from the route id and the
 * service's outcome to an action result; the service is a parameter, so what
 * it is called with is visible, and a thrown exception is the value `Threw`.
 */
module Controller {
  import opened Wrappers
  import opened Models
  import Decimal

  /** What a service call did: returned a value, or threw. */
  datatype Outcome<+T> = Returned(value: T) | Threw

  /** The action results the controller produces, one per ASP.NET result kind it uses. */
  datatype ActionResult =
    | CreatedAtAction(actionName: string, createdId: Option<string>)
    | Ok(list: Option<seq<UserResponse>>)
    | NoContent
    | BadRequestResult(reason: string)
    | NotFoundResult(message: Option<string>)
    | ConflictResult(message: Option<string>)
    | ServerError
  {
    function Status(): int {
      match this
      case CreatedAtAction(_, _) => 201
      case Ok(_) => 200
      case NoContent => 204
      case BadRequestResult(_) => 400
      case NotFoundResult(_) => 404
      case ConflictResult(_) => 409
      case ServerError => 500
    }
  }

  const InvalidIdMessage: string := "User ID was either not specified or was invalid"

  /** The route id as an int, or `None` when it is null, empty or not a 32-bit integer. */
  function RouteId(id: Option<string>): (r: Option<int>)
    ensures id.None? || id == Some("") ==> r.None?
    ensures id.Some? ==> r == Decimal.TryParseInt(id.value)
  {
    if id.None? || id.value == "" then None else Decimal.TryParseInt(id.value)
  }

  /** Whether a returned service response is a conflict the action reports as 409. */
  predicate IsConflict(response: ServiceResponse) {
    response.isError && response.responseType == Conflict
  }

  /** Whether a returned service response is a not-found the update reports as 404. */
  predicate IsNotFound(response: ServiceResponse) {
    response.isError && response.responseType == NotFound
  }

  /**
   * POST: a conflict becomes 409 with its message; every other returned response,
   * whatever its error tag, becomes 201 with the created id; a throw becomes 500.
   */
  function CreateUser(request: UserRequest, service: string -> Outcome<ServiceResponse>): (r: ActionResult)
    ensures r.Status() in {201, 409, 500}
    ensures r.Status() == 500 <==> service(request.username).Threw?
    ensures r.Status() == 409 <==> service(request.username).Returned? && IsConflict(service(request.username).value)
    ensures r.Status() == 409 ==> r == ConflictResult(service(request.username).value.errorMessage)
    ensures r.Status() == 201 ==> r == CreatedAtAction("GetAllUsers", service(request.username).value.createdId)
    ensures r == ServerError || r.Status() != 500
  {
    match service(request.username)
    case Threw => ServerError
    case Returned(result) =>
      if IsConflict(result) then ConflictResult(result.errorMessage)
      else CreatedAtAction("GetAllUsers", result.createdId)
  }

  /** GET: 200 in every returned case, with no body for a null or empty list; a throw becomes 500. */
  function GetAllUsers(outcome: Outcome<Option<seq<UserResponse>>>): (r: ActionResult)
    ensures outcome.Threw? <==> r == ServerError
    ensures outcome.Returned? ==> r.Status() == 200
    ensures outcome.Returned? && (outcome.value.None? || outcome.value == Some([])) ==> r == Ok(None)
    ensures outcome.Returned? && outcome.value.Some? && outcome.value.value != [] ==> r == Ok(outcome.value)
  {
    match outcome
    case Threw => ServerError
    case Returned(responses) =>
      if responses.None? || |responses.value| == 0 then Ok(None) else Ok(responses)
  }

  /**
   * PUT: an invalid id is 400 and the service is not consulted; otherwise the
   * service is called with the parsed id, a conflict is 409 and a not-found 404,
   * each with its message, anything else returned is 204, and a throw is 500.
   */
  function UpdateUser(id: Option<string>, request: UserRequest, service: (int, string) -> Outcome<ServiceResponse>): (r: ActionResult)
    ensures RouteId(id).None? <==> r == BadRequestResult(InvalidIdMessage)
    ensures RouteId(id).Some? ==>
      var outcome := service(RouteId(id).value, request.username);
      && (r.Status() == 500 <==> outcome.Threw?)
      && (r.Status() == 409 <==> outcome.Returned? && IsConflict(outcome.value))
      && (r.Status() == 404 <==> outcome.Returned? && IsNotFound(outcome.value))
      && (r.Status() == 204 <==> outcome.Returned? && !IsConflict(outcome.value) && !IsNotFound(outcome.value))
      && (r.Status() == 409 || r.Status() == 404 ==> r.message == outcome.value.errorMessage)
  {
    match RouteId(id)
    case None => BadRequestResult(InvalidIdMessage)
    case Some(userId) =>
      match service(userId, request.username)
      case Threw => ServerError
      case Returned(result) =>
        if IsConflict(result) then ConflictResult(result.errorMessage)
        else if IsNotFound(result) then NotFoundResult(result.errorMessage)
        else NoContent
  }

  /**
   * DELETE: an invalid id is 400 and the service is not consulted; otherwise the
   * service is called with the parsed id, `false` is 404 naming the id, `true`
   * is 204, and a throw is 500.
   */
  function DeleteUser(id: Option<string>, service: int -> Outcome<bool>): (r: ActionResult)
    ensures RouteId(id).None? <==> r == BadRequestResult(InvalidIdMessage)
    ensures RouteId(id).Some? ==>
      var userId := RouteId(id).value;
      && (r.Status() == 500 <==> service(userId).Threw?)
      && (r.Status() == 404 <==> service(userId) == Returned(false))
      && (r.Status() == 204 <==> service(userId) == Returned(true))
      && (r.Status() == 404 ==> r.message == Some("User ID " + Decimal.IntToString(userId) + " not found"))
  {
    match RouteId(id)
    case None => BadRequestResult(InvalidIdMessage)
    case Some(userId) =>
      match service(userId)
      case Threw => ServerError
      case Returned(deleted) =>
        if !deleted then NotFoundResult(Some("User ID " + Decimal.IntToString(userId) + " not found"))
        else NoContent
  }

  /** For every well-formed response (`WellFormed`), a success is 201 and a conflict is 409. */
  lemma CreateStatusTable(request: UserRequest, response: ServiceResponse)
    requires response.WellFormed()
    ensures response.responseType == Success ==> CreateUser(request, _ => Returned(response)).Status() == 201
    ensures response.responseType == Conflict ==> CreateUser(request, _ => Returned(response)).Status() == 409
  {
  }

  /**
   * For a well-formed response and a valid id, update is 204 on success, 409 on
   * conflict and 404 on not-found.
   */
  lemma UpdateStatusTable(id: string, request: UserRequest, response: ServiceResponse)
    requires response.WellFormed() && RouteId(Some(id)).Some?
    ensures response.responseType == Success ==> UpdateUser(Some(id), request, (_, _) => Returned(response)).Status() == 204
    ensures response.responseType == Conflict ==> UpdateUser(Some(id), request, (_, _) => Returned(response)).Status() == 409
    ensures response.responseType == NotFound ==> UpdateUser(Some(id), request, (_, _) => Returned(response)).Status() == 404
  {
  }

  /** A route id written by `Int32.ToString` is accepted and reaches the service as the same integer. */
  lemma RouteIdRoundTrip(userId: int)
    requires Decimal.MinInt32 <= userId <= Decimal.MaxInt32
    ensures RouteId(Some(Decimal.IntToString(userId))) == Some(userId)
  {
  }
}
