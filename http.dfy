/** The Express response, seen as the list of (status, JSON body) replies written to it. */
module Http {
  import opened Wrappers
  import opened Issues
  import opened UserModel

  /** The JSON bodies the controllers send. */
  datatype Body =
    | InvalidPayload(issues: seq<Issue>)              // { message: 'Invalid payload', issues }
    | MessageBody(message: string)                    // { message }
    | UserBody(user: Option<UserWithoutPassword>)     // { user }, user possibly null
    | UpdatedUserBody(updatedUser: UserWithoutPassword)
    | UsersBody(users: seq<UserWithoutPassword>)
    | NewUserBody(newUser: UserWithoutPassword)

  datatype Reply = Reply(status: int, body: Body)

  const InternalServerError := Reply(500, MessageBody("Internal server error"))

  class Response {
    var sent: seq<Reply>

    constructor ()
      ensures sent == []
    {
      sent := [];
    }

    /** `res.status(status).json(body)`. */
    method Send(status: int, body: Body)
      modifies this
      ensures sent == old(sent) + [Reply(status, body)]
    {
      sent := sent + [Reply(status, body)];
    }
  }
}
