/** The registration handler: parse the body, create the user, reply 400, 201 or 500. */
module RegistrationControllers {
  import opened Wrappers
  import opened Schema
  import opened UserModel
  import opened RegisterUserDto
  import opened Repositories
  import opened Services
  import opened Http

  /** The parsed registration data as the service receives it: no id, role, activity flag or timestamp. */
  function RegistrationInput(data: RegisterUserData): (n: NewUser)
    ensures n.id.None? && n.userRole.None? && n.isActive.None? && n.createdAt.None? && n.updatedAt.None?
    ensures n.password == data.password && Some(data.dateOfBirth) == n.dateOfBirth
  {
    NewUser(
      None,
      data.firstName,
      data.middleName,
      data.lastName,
      Some(data.dateOfBirth),
      data.email,
      data.password,
      None,
      None,
      None,
      None)
  }

  class RegistrationController {
    const service: UserService
    /** zod's email check, abstract. */
    const isEmail: string -> bool

    constructor (service: UserService, isEmail: string -> bool)
      ensures this.service == service && this.isEmail == isEmail
    {
      this.service := service;
      this.isEmail := isEmail;
    }

    /**
     * POST /register. Exactly one reply: 400 with the issues when the body
     * fails validation (the service is not called), 201 with the stripped new
     * record when the parsed data is stored, 500 when hashing or the insert
     * fails.
     */
    method RegisterUser(body: RegisterUserBody, generatedId: string, res: Response)
      requires service.repository.Valid()
      modifies res, service.repository
      ensures service.repository.Valid()
      ensures old(service.repository.Stamped()) ==> service.repository.Stamped()
      ensures ParseRegisterUser(body, isEmail).Err? ==>
        && res.sent == old(res.sent) + [Reply(400, InvalidPayload(ParseRegisterUser(body, isEmail).error))]
        && unchanged(service.repository)
      ensures ParseRegisterUser(body, isEmail).Ok? ==>
        var input := RegistrationInput(ParseRegisterUser(body, isEmail).value);
        var digest := service.hash(input.password);
        if digest.Err? then
          res.sent == old(res.sent) + [InternalServerError] && unchanged(service.repository)
        else
          var row := InsertedRow(input, digest.value, generatedId, old(service.repository.clock) + 1);
          && service.repository.link == Rest(old(service.repository.link))
          && if Answers(old(service.repository.link)) && ConstraintViolation(old(service.repository.rows), row).None? then
            && service.repository.clock == old(service.repository.clock) + 1
            && service.repository.rows == old(service.repository.rows)[row.id := Coerce(row)]
            && res.sent == old(res.sent) + [Reply(201, NewUserBody(Strip(Coerce(row))))]
          else
            && res.sent == old(res.sent) + [InternalServerError]
            && service.repository.rows == old(service.repository.rows)
            && service.repository.clock == old(service.repository.clock)
    {
      var parsed := ParseRegisterUser(body, isEmail);
      if parsed.Err? {
        res.Send(400, InvalidPayload(parsed.error));
        return;
      }
      CreateAndReply(RegistrationInput(parsed.value), generatedId, res);
    }

    /** The guarded part of the handler: create the user and reply 201, or 500 on any failure. */
    method CreateAndReply(input: NewUser, generatedId: string, res: Response)
      requires service.repository.Valid()
      modifies res, service.repository
      ensures service.repository.Valid()
      ensures old(service.repository.Stamped()) ==> service.repository.Stamped()
      ensures
        var digest := service.hash(input.password);
        if digest.Err? then
          res.sent == old(res.sent) + [InternalServerError] && unchanged(service.repository)
        else
          var row := InsertedRow(input, digest.value, generatedId, old(service.repository.clock) + 1);
          && service.repository.link == Rest(old(service.repository.link))
          && if Answers(old(service.repository.link)) && ConstraintViolation(old(service.repository.rows), row).None? then
            && service.repository.clock == old(service.repository.clock) + 1
            && service.repository.rows == old(service.repository.rows)[row.id := Coerce(row)]
            && res.sent == old(res.sent) + [Reply(201, NewUserBody(Strip(Coerce(row))))]
          else
            && res.sent == old(res.sent) + [InternalServerError]
            && service.repository.rows == old(service.repository.rows)
            && service.repository.clock == old(service.repository.clock)
    {
      var newUser := service.CreateUser(input, generatedId);
      if newUser.Err? {
        res.Send(500, InternalServerError.body);
      } else {
        res.Send(201, NewUserBody(newUser.value));
      }
    }
  }
}
