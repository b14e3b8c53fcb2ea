/**
 * The three layers composed for one sequence of requests on an empty store:
 * each HTTP action is decided by the controller from the outcome of the
 * service call it makes, and the service runs against one shared repository.
 */
module Pipeline {
  import opened Wrappers
  import opened Models
  import opened Repository
  import opened Service
  import Controller

  /**
   * POST alice (201), POST alice again (409), GET (200, one entry), PUT 1 bob (204),
   * GET (200, renamed), DELETE 1 (204), DELETE 1 again (404), PUT abc (400).
   */
  method EndToEnd() returns (statuses: seq<int>, listed: seq<UserResponse>, relisted: seq<UserResponse>)
    ensures statuses == [201, 409, 200, 204, 200, 204, 404, 400]
    ensures listed == [UserResponse(1, "alice")]
    ensures relisted == [UserResponse(1, "bob")]
  {
    var repo := new UsersRepository();
    var service := new UsersService(repo);

    var created := service.CreateUser("alice");
    assert repo.users == [User(1, "alice")];
    assert created == SuccessResponse(Some("1"));
    var post := Controller.CreateUser(UserRequest("alice"), _ => Controller.Returned(created));

    assert AnyWithUsername(repo.users, "alice");
    var duplicate := service.CreateUser("alice");
    assert duplicate == ConflictResponse("alice");
    var postAgain := Controller.CreateUser(UserRequest("alice"), _ => Controller.Returned(duplicate));

    listed := service.GetAllUsers();
    var get := Controller.GetAllUsers(Controller.Returned(Some(listed)));

    var putId := Controller.RouteId(Some("1"));
    assert putId == Some(1);
    assert !AnyWithUsername(repo.users, "bob");
    var renamed := service.UpdateUser(putId.value, "bob");
    assert repo.users == [User(1, "bob")];
    var put := Controller.UpdateUser(Some("1"), UserRequest("bob"), (_, _) => Controller.Returned(renamed));

    relisted := service.GetAllUsers();
    var getAgain := Controller.GetAllUsers(Controller.Returned(Some(relisted)));

    var deleted := service.DeleteUser(putId.value);
    assert deleted && repo.users == [];
    var delete := Controller.DeleteUser(Some("1"), _ => Controller.Returned(deleted));

    var deletedAgain := service.DeleteUser(putId.value);
    var deleteAgain := Controller.DeleteUser(Some("1"), _ => Controller.Returned(deletedAgain));

    assert Controller.RouteId(Some("abc")).None?;
    var badPut := Controller.UpdateUser(Some("abc"), UserRequest("x"), (_, _) => Controller.Threw);

    statuses := [post.Status(), postAgain.Status(), get.Status(), put.Status(),
                 getAgain.Status(), delete.Status(), deleteAgain.Status(), badPut.Status()];
  }
}
