# Users microservice — a Dafny model of the request pipeline

This project models the request pipeline of a small user-management
microservice: an HTTP controller, a service that enforces the one business
rule (no two users share a username), and a repository over a single `Users`
table of `{Id, Username}` records.

- `Repository` (repository.dfy) holds the table as a sequence of records in
  store order, inside a class `UsersRepository` whose methods are the
  repository's operations: add, list, fetch by id, write back, remove, and
  username lookup. `Valid()` is the primary-key invariant (ids are distinct). A
  ghost log `writes` records each write the repository performs. Contracts can
  then say that a service call wrote once or never wrote. Pure functions over
  the table (`AnyWithUsername`, `FirstWithId`, `ReplaceById`, `RemoveById`,
  `FreshId`) say what each query and write does.
- `Service` (service.dfy) is a class `UsersService` over one repository. Each
  operation's contract gives the outcome for every case, the new table, and
  the writes made. It also states that a table with unique usernames keeps
  them after the operation, when operations run one after another.
- `Controller` (controller.dfy) is pure. Each action is a function from the
  route id, the request and the service call to an `ActionResult`. The service
  call is a function-valued parameter returning `Returned(v)` or `Threw` (an
  exception). This shows which integer the service is called with, and that it
  is not called at all when the route id is invalid.
- `Decimal` (decimal.dfy) models `Int32.ToString` and `int.TryParse`, and
  proves that every 32-bit integer parses back from its text.
- `Models` (models.dfy) holds the records and the service's tagged outcome.
  `Seeding` (seeding.dfy) is the start-up seeding. `Pipeline` (pipeline.dfy)
  runs the three layers together over one sequence of requests.

## Model

| member | source | states |
|---|---|---|
| Decimal.IntToString | UsersMicroservice/Services/UsersService.cs:49 | the text of an id starts with '-' exactly for negative ids, and is then the digits whose value is the id's magnitude, with no leading zero |
| Decimal.TryParseInt | UsersMicroservice/Controllers/UsersController.cs:102 | digits with an optional leading `+` or `-` parse to their signed value when it fits in 32 bits and fail otherwise; an empty string or any other character makes the parse fail |
| Decimal.ParseRoundTrip | UsersMicroservice/Controllers/UsersController.cs:102 | every 32-bit integer parses back from its own decimal text |
| Decimal.NatToDigits | UsersMicroservice/Services/UsersService.cs:49 | the decimal digits of a natural number are a non-empty run of digit characters with no leading zero (only 0 itself is "0") |
| Decimal.DigitsRoundTrip | UsersMicroservice/Services/UsersService.cs:49 | the digits of `n` denote `n` |
| Models.ConflictResponse | UsersMicroservice/Services/UsersService.cs:34-39 | the conflict outcome is a well-formed error tagged `Conflict` with the message "Username {username} already exists" |
| Models.NotFoundResponse | UsersMicroservice/Services/UsersService.cs:85-90 | the not-found outcome is a well-formed error tagged `NotFound` with the message "User not found with given ID {id}" |
| Models.SuccessResponse | UsersMicroservice/Services/UsersService.cs:49 | the success outcome is not an error, has no message and carries the given created id |
| Repository.AnyWithUsername | UsersMicroservice/Data/UsersRepository.cs:65-66 | true exactly when some record has that username |
| Repository.FirstWithId | UsersMicroservice/Data/UsersRepository.cs:46-47 | `None` exactly when no record has the id; otherwise a stored record with that id |
| Repository.RemoveById | UsersMicroservice/Data/UsersRepository.cs:59-60 | the remaining records are exactly the stored ones whose id differs |
| Repository.ReplaceById | UsersMicroservice/Data/UsersRepository.cs:52-55 | the write-back keeps length and every id, replaces the record with the edited record's id, and leaves every other record unchanged |
| Repository.FreshId | UsersMicroservice/Data/UsersRepository.cs:31-32 | the id the store assigns to a new record is positive and not in use |
| Repository.RemoveByIdExact | UsersMicroservice/Data/UsersRepository.cs:57-61 | with distinct ids, removing a stored record drops exactly that record (as a multiset) and shortens the table by one |
| Repository.RemoveByIdNoop | UsersMicroservice/Data/UsersRepository.cs:57-61 | removing an id nobody has leaves the table as it is |
| Repository.RemoveByIdKeepsDistinctIds | UsersMicroservice/Data/UsersRepository.cs:57-61 | removal keeps ids distinct |
| Repository.RemoveByIdKeepsUniqueUsernames | UsersMicroservice/Services/UsersService.cs:100-112 | removal keeps usernames distinct |
| Repository.ReplaceByIdPreservesUnique | UsersMicroservice/Services/UsersService.cs:69-95 | writing back a record under a username nobody holds keeps ids and usernames distinct |
| Repository.AppendPreservesUnique | UsersMicroservice/Services/UsersService.cs:30-47 | adding a record with a fresh id and a username nobody holds keeps ids and usernames distinct |
| Repository.UsersRepository.CreateUser | UsersMicroservice/Data/UsersRepository.cs:29-33 | appends one record with the given username under a fresh id, keeping every earlier record; logs one add |
| Repository.UsersRepository.GetAllUsers | UsersMicroservice/Data/UsersRepository.cs:35-42 | returns every stored record in store order, as a value that later edits cannot reach |
| Repository.UsersRepository.GetUserWithTracking | UsersMicroservice/Data/UsersRepository.cs:44-50 | returns the stored record with that id, or `None` exactly when there is none |
| Repository.UsersRepository.UpdateContext | UsersMicroservice/Data/UsersRepository.cs:52-55 | writes the edited record back over the record with its id and changes nothing else; logs one save |
| Repository.UsersRepository.DeleteUser | UsersMicroservice/Data/UsersRepository.cs:57-61 | removes exactly the given record and keeps all others; logs one remove |
| Repository.UsersRepository.DoesUsernameExist | UsersMicroservice/Data/UsersRepository.cs:63-69 | true exactly when some stored record has that username |
| Service.ToUserResponses | UsersMicroservice/Services/UsersService.cs:58-62 | same length and order as the records, each entry's `userId`/`username` equal to the record's `id`/`username` |
| Service.OwnUsernameIsTaken | UsersMicroservice/Services/UsersService.cs:69-79 | a user's own current username counts as taken, so renaming a user to it is a conflict |
| Service.UsersService.constructor | UsersMicroservice/Services/UsersService.cs:23-26 | the service works on the repository it is given |
| Service.UsersService.CreateUser | UsersMicroservice/Services/UsersService.cs:28-50 | a taken username gives `Conflict` with its message and no write; a free one adds exactly one record under a fresh id, returns `Success` with that id's text, and logs one add; unique usernames stay unique |
| Service.UsersService.GetAllUsers | UsersMicroservice/Services/UsersService.cs:52-65 | one response entry per stored record, in order, with id and username copied; an empty store gives an empty list |
| Service.UsersService.UpdateUser | UsersMicroservice/Services/UsersService.cs:67-98 | username checked first: taken gives `Conflict` and no write, whatever the id; then an unknown id gives `NotFound` with its message and no write; otherwise only that record's username changes, one save is logged, and `Success` is returned; unique usernames stay unique |
| Service.UsersService.DeleteUser | UsersMicroservice/Services/UsersService.cs:100-112 | `true` exactly when the id is stored; then exactly that record is removed with one logged remove; otherwise nothing is written; unique usernames stay unique |
| Controller.RouteId | UsersMicroservice/Controllers/UsersController.cs:102 | a null or empty route id is rejected; any other is the result of `int.TryParse` |
| Controller.CreateUser | UsersMicroservice/Controllers/UsersController.cs:36-61 | 409 with the message exactly for a returned conflict error; 500 exactly when the service throws; every other returned response, whatever its error tag, is 201 carrying `CreatedId` |
| Controller.GetAllUsers | UsersMicroservice/Controllers/UsersController.cs:69-89 | 200 with no body for a null or empty list, 200 with the list unchanged otherwise, 500 exactly when the service throws |
| Controller.UpdateUser | UsersMicroservice/Controllers/UsersController.cs:100-133 | an invalid id is 400 with its message, and only then, whatever the service would do; otherwise the service gets the parsed id and the outcome maps to 409 / 404 (with the message) / 204 / 500 |
| Controller.DeleteUser | UsersMicroservice/Controllers/UsersController.cs:143-169 | an invalid id is 400, and only then; otherwise the service gets the parsed id; `false` is 404 "User ID {userId} not found", `true` is 204, a throw is 500 |
| Controller.CreateStatusTable | UsersMicroservice/Controllers/UsersController.cs:42-53 | for every response the service can produce, success is 201 and conflict is 409 |
| Controller.UpdateStatusTable | UsersMicroservice/Controllers/UsersController.cs:112-126 | for every response the service can produce, success is 204, conflict 409, not-found 404 |
| Controller.RouteIdRoundTrip | UsersMicroservice/Controllers/UsersController.cs:145 | the text of a 32-bit id is a valid route id that reaches the service as the same integer |
| Seeding.Initialize | UsersMicroservice/Data/DataGenerator.cs:18-35 | a non-empty store is left alone; an empty one gets Bob1965 (1) and Alice1991 (2), which satisfies both the id and the username invariant |
| Pipeline.EndToEnd | UsersMicroservice/Controllers/UsersController.cs:36-169 | on an empty store: create 201, duplicate create 409, list shows `{1, alice}`, rename 204, list shows `{1, bob}`, delete 204, second delete 404, update with id "abc" 400 |

## Left out

- The `async`/`Task` plumbing. The model is sequential, and the username invariant is proved only for operations that run one after another. Two concurrent requests can both pass the existence check and then both write.
- EF Core change tracking. `GetUserWithTracking` returns a copy of the record, and `UpdateContext` takes the edited copy and writes it back. The source's parameterless `UpdateContext` commits whatever the tracked entity holds. Aliasing between the fetched entity and the store is not modelled.
- Repository.UsersRepository.CreateUser: the source leaves id generation to the store. The model assigns one more than the largest id in use (`FreshId`). Every property except the end-to-end ids relies only on `FreshId` being positive and unused.
- Id width: stored ids are unbounded integers. The model does not treat running out of 32-bit ids as a failure. Route ids are limited to the 32-bit range by parsing.
- Repository.UsersRepository.DeleteUser and Repository.UsersRepository.UpdateContext require a record that was fetched from the store. The service only calls them that way. Passing an untracked entity, which EF rejects at save time, is not modelled.
- Storage failures from `SaveChangesAsync` and queries. These are the `Threw` outcome at the controller; the repository and service model only the success path of each call.
- Decimal.TryParseInt: `int.TryParse` also accepts leading and trailing white space, trailing '\0' characters and culture-specific sign symbols; the model rejects all of these (" 5" does not parse).
- Username comparison is plain string equality. Store collation and case rules are not modelled.
- Logging, Swagger attributes, dependency-injection wiring (Startup.cs) and the `DbContext` declaration (UsersContext.cs).
- The `[Required]` check on `UserRequest.Username`, which the framework applies before the controller runs. A null username is not modelled.
- The drafts `Controllers/UsersController.cs` and `Data/UsersRepository.cs` at the repository root. They are not the code that runs.
