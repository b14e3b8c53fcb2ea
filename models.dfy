/**
 * The records passed between the layers: the stored user entity, the inbound
 * request, the outbound response and the service's tagged outcome.
 */
module Models {
  import opened Wrappers
  import Decimal

  /** The persisted entity (`User`, also named `EF_User`): a store-assigned id and a username. */
  datatype User = User(id: int, username: string)

  /** The body of a create or update request. */
  datatype UserRequest = UserRequest(username: string)

  /** One entry of the list the service returns. */
  datatype UserResponse = UserResponse(userId: int, username: string)

  datatype ServiceResponseType = NotFound | Conflict | BadRequest | InternalError | Success

  /**
   * The service's outcome record. Its four properties are independent, as in the
   * source: nothing stops a caller from building one with `isError` false and an
   * error tag, so the controller is modelled over all of them.
   */
  datatype ServiceResponse = ServiceResponse(
    isError: bool,
    responseType: ServiceResponseType,
    errorMessage: Option<string>,
    createdId: Option<string>)
  {
    /** An error exactly when the tag is not `Success`, and then a message: the shape of every response the service builds. */
    predicate WellFormed() {
      (isError <==> responseType != Success) && (isError ==> errorMessage.Some?)
    }
  }

  function UsernameTakenMessage(username: string): string {
    "Username " + username + " already exists"
  }

  function IdNotFoundMessage(id: int): string {
    "User not found with given ID " + Decimal.IntToString(id)
  }

  /** The response for a username that is already in use. */
  function ConflictResponse(username: string): (r: ServiceResponse)
    ensures r.WellFormed() && r.isError && r.responseType == Conflict
    ensures r.errorMessage == Some(UsernameTakenMessage(username))
  {
    ServiceResponse(true, Conflict, Some(UsernameTakenMessage(username)), None)
  }

  /** The response for an id that names no user. */
  function NotFoundResponse(id: int): (r: ServiceResponse)
    ensures r.WellFormed() && r.isError && r.responseType == NotFound
    ensures r.errorMessage == Some(IdNotFoundMessage(id))
  {
    ServiceResponse(true, NotFound, Some(IdNotFoundMessage(id)), None)
  }

  /** A success, with the created id's text when a user was created. */
  function SuccessResponse(createdId: Option<string>): (r: ServiceResponse)
    ensures r.WellFormed() && !r.isError && r.responseType == Success
    ensures r.errorMessage == None && r.createdId == createdId
  {
    ServiceResponse(false, Success, None, createdId)
  }
}
