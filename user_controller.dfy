/**
 * The user routes' handlers: validate the path and body, call the service,
 * and map each outcome to a status code; any thrown error becomes a 500.
 */
module UserControllers {
  import opened Wrappers
  import opened Issues
  import opened Schema
  import opened UserModel
  import opened UserDto
  import opened Repositories
  import opened Services
  import opened Http

  /**
   * What `getUserById` writes once the lookup has returned `user`. A null user
   * gets the 404 and then, since that branch does not return, the 200 as well.
   */
  function AfterLookup(id: string, user: Option<UserWithoutPassword>): (replies: seq<Reply>)
    ensures |replies| >= 1 && replies[|replies| - 1] == Reply(200, UserBody(user))
    ensures |replies| == 2 <==> user.None?
    ensures user.None? ==> replies[0].status == 404
  {
    if user.None? then
      [Reply(404, MessageBody("User with id " + id + " not found")), Reply(200, UserBody(user))]
    else
      [Reply(200, UserBody(user))]
  }

  /** A found user gets one 200 reply carrying it. */
  lemma AfterLookupFound(id: string, u: UserWithoutPassword)
    ensures AfterLookup(id, Some(u)) == [Reply(200, UserBody(Some(u)))]
  {
  }

  /** A null user would get two replies, a 404 followed by a 200 with a null user. */
  lemma AfterLookupMissing(id: string)
    ensures |AfterLookup(id, None)| == 2
    ensures AfterLookup(id, None)[0].status == 404 && AfterLookup(id, None)[1] == Reply(200, UserBody(None))
  {
  }

  class UserController {
    const service: UserService

    constructor (service: UserService)
      ensures this.service == service
    {
      this.service := service;
    }

    /**
     * PATCH /users/:id/set-role. An invalid id is reported before the role;
     * neither reaches the service. A valid request on an existing user sets the
     * role and replies 200 with the stripped record when the lookup, the
     * service's read and its write are all answered; a missing user, like any
     * other thrown error, ends in 500.
     */
    method SetUserRole(id: string, role: Raw, res: Response)
      requires service.repository.Valid()
      modifies res, service.repository
      ensures service.repository.Valid()
      ensures old(service.repository.Stamped()) ==> service.repository.Stamped()
      ensures ParseUserId(id).Err? ==>
        && res.sent == old(res.sent) + [Reply(400, InvalidPayload(ParseUserId(id).error))]
        && unchanged(service.repository)
      ensures ParseUserId(id).Ok? && ParseUserRole(role).Err? ==>
        && res.sent == old(res.sent) + [Reply(400, InvalidPayload(ParseUserRole(role).error))]
        && unchanged(service.repository)
      ensures ParseUserId(id).Ok? && ParseUserRole(role).Ok? ==>
        var key := CanonicalId(ParseUserId(id).value);
        var link := old(service.repository.link);
        && service.repository.link ==
             (if !Answers(link) || key !in old(service.repository.rows) then Rest(link)
              else if !Answers(Rest(link)) then Rest(Rest(link))
              else Rest(Rest(Rest(link))))
        && if Answers(link) && key in old(service.repository.rows) && Answers(Rest(link)) && Answers(Rest(Rest(link))) then
          && service.repository.clock == old(service.repository.clock) + 1
          && service.repository.rows == old(service.repository.rows)[key :=
               old(service.repository.rows)[key].(userRole := ParseUserRole(role).value, updatedAt := service.repository.clock)]
          && res.sent == old(res.sent) + [Reply(200, UpdatedUserBody(Strip(service.repository.rows[key])))]
        else
          && res.sent == old(res.sent) + [InternalServerError]
          && service.repository.rows == old(service.repository.rows)
          && service.repository.clock == old(service.repository.clock)
    {
      var parsedId := ParseUserId(id);
      var parsedRole := ParseUserRole(role);
      if parsedId.Err? {
        res.Send(400, InvalidPayload(parsedId.error));
        return;
      }
      if parsedRole.Err? {
        res.Send(400, InvalidPayload(parsedRole.error));
        return;
      }
      var key := parsedId.value;
      // The service's record is an object, never null, so the `!user` 404 branch cannot be taken.
      var user := service.GetUserById(key);
      if user.Err? {
        res.Send(500, InternalServerError.body);
        return;
      }
      var updatedUser := service.SetUserRole(key, parsedRole.value);
      if updatedUser.Err? {
        res.Send(500, InternalServerError.body);
        return;
      }
      res.Send(200, UpdatedUserBody(updatedUser.value));
    }

    /**
     * GET /users/:id. An invalid id gets 400 and no service call; an existing
     * user gets 200 with its stripped record; a missing one makes the service
     * throw, so the reply is 500, never 404.
     */
    method GetUserById(id: string, res: Response)
      requires service.repository.Valid()
      modifies res, service.repository
      ensures service.repository.Valid()
      ensures service.repository.rows == old(service.repository.rows)
      ensures service.repository.clock == old(service.repository.clock)
      ensures ParseUserId(id).Err? ==>
        && res.sent == old(res.sent) + [Reply(400, InvalidPayload(ParseUserId(id).error))]
        && service.repository.link == old(service.repository.link)
      ensures ParseUserId(id).Ok? ==>
        var key := CanonicalId(ParseUserId(id).value);
        && service.repository.link == Rest(old(service.repository.link))
        && if Answers(old(service.repository.link)) && key in service.repository.rows then
          res.sent == old(res.sent) + [Reply(200, UserBody(Some(Strip(service.repository.rows[key]))))]
        else
          res.sent == old(res.sent) + [InternalServerError]
    {
      var parsedId := ParseUserId(id);
      if parsedId.Err? {
        res.Send(400, InvalidPayload(parsedId.error));
        return;
      }
      var key := parsedId.value;
      var user := service.GetUserById(key);
      if user.Err? {
        res.Send(500, InternalServerError.body);
        return;
      }
      var replies := AfterLookup(key, Some(user.value));
      res.Send(replies[0].status, replies[0].body);
    }

    /** GET /users: 200 with the public view of every row, or 500 when the store fails. */
    method GetAllUsers(res: Response)
      requires service.repository.Valid()
      modifies res, service.repository
      ensures service.repository.Valid()
      ensures service.repository.rows == old(service.repository.rows)
      ensures service.repository.clock == old(service.repository.clock)
      ensures service.repository.link == Rest(old(service.repository.link))
      ensures |res.sent| == |old(res.sent)| + 1 && res.sent[..|old(res.sent)|] == old(res.sent)
      ensures !Answers(old(service.repository.link)) ==> res.sent[|old(res.sent)|] == InternalServerError
      ensures Answers(old(service.repository.link)) ==>
        && res.sent[|old(res.sent)|].status == 200
        && res.sent[|old(res.sent)|].body.UsersBody?
        && ListsPublicTable(res.sent[|old(res.sent)|].body.users, service.repository.rows)
    {
      var users := service.GetAllUsers();
      if users.Err? {
        res.Send(500, InternalServerError.body);
        return;
      }
      res.Send(200, UsersBody(users.value));
    }
  }
}
