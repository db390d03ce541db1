# User accounts: validation and persistence

A Dafny model of the user-account pipeline of an Express/TypeScript service.
It covers the request validators, the `users` table, the repository over
that table, the user service, and the two controllers that turn outcomes into
HTTP replies.

- **Validators** (`RegisterUserDto`, `UserDto`) are pure functions from the
  raw JSON fields to either the parsed value or zod's list of issues. Every
  failing check of every field is reported, in the schema's key order. The
  issue codes and texts, and this reporting of every failed check rather
  than the first, are those of zod 3.
  - Names: 2 to 255 characters, each in `[a-zA-Zа-яА-ЯёЁ]`.
  - Birth date: strict `DD.MM.YYYY`, a real Gregorian date, turned into noon
    UTC of that day.
  - Email: an abstract predicate.
  - Password: six independent rules. Its uppercase class is ASCII only, so a
    Cyrillic capital counts as a special character.
  - User id: trimmed of ECMAScript white space, then checked for the
    8-4-4-4-12 hexadecimal shape.
  - Role: lower-cased, then `admin` or `user`.
- **The table** (`Schema`, `UserModel`) is a map from primary key to row. It
  has:
  - the column defaults (id, role `user`, active, both timestamps at insert),
    each of which an insert may override;
  - nullability as `Option`;
  - the `uuid` type of the key: the store keeps the lower-case text, and a
    lookup in any case finds the row (`Casing`, `Schema.CanonicalId`);
  - the constraints the store enforces: varchar length 255, primary key,
    unique email. A longer value whose excess is all spaces is cut to 255
    characters instead of being refused (`Schema.Clip`, `Schema.Coerce`);
  - the merge-update;
  - the public projection without the password.
- **The repository** (`Repositories.UserRepository`) is a class holding the
  table, a clock, and the reachability of the store for each coming query
  (`link`; each query consumes one entry). `CreateUser` and `UpdateUser`
  change the table in place, and every successful write advances the clock.
  `FindById` and `FindAll` only read. The class invariant is "keyed by
  canonical id, columns fit, emails unique", and every method preserves it.
  "No row stamped after the clock" (`Stamped`) is preserved by every write
  that does not set `updatedAt` itself, which is every write the service
  makes.
- **The service** (`Services.UserService`) works on top of the repository:
  - it hashes the password with an uninterpreted `hash` function before the
    insert;
  - it strips the password from every result;
  - role changes and deactivation read the row, check that it exists, and
    write the full record back with one column changed. The store can fail
    between the read and the write, and that failure is rethrown as it is.
- **The controllers** (`UserControllers`, `RegistrationControllers`) validate
  input, call the service and write replies. `Http.Response` records the
  `(status, body)` replies written to it.

Inputs the code takes from its environment are parameters of the model:
- the random UUID of a new row (`generatedId`);
- the email pattern (`isEmail`);
- the password hash (`hash`);
- whether the database can be reached, query by query (`link`).

Two behaviours differ from what the repository's own route documentation
promises: it lists a 404 'User not found' reply for `GET /users/:id` and
`PATCH /users/:id/set-role` (src/routes/user.route.ts:142 and :206). The
model follows the code in both:
- `UserService.getUserById` on a missing id throws, because it destructures
  the `null` row (src/services/user.service.ts:55-56). So `GET /users/:id`
  and `PATCH /users/:id/set-role` on a missing user end in 500, not in the
  described 404.
- The 404 branch of `UserController.getUserById` has no `return`, so a null
  user would get a 404 followed by a 200. The model keeps this in
  `UserControllers.AfterLookup`. The branch is never reached.

## Model

| member | source | states |
|---|---|---|
| Schema.RoleName | src/db/schema.ts:12 | the role enum's values are the strings 'admin' and 'user' |
| Schema.RoleNameInjective | src/models/user.model.ts:3 | the two roles have different names, so a name determines its role |
| Schema.CanonicalId | src/db/schema.ts:15 | a uuid key is stored in lower case: the stored form is the given text with each character lower-cased, it is canonical, and a canonical id is kept as it is |
| Schema.Clip | src/db/schema.ts:16-21 | a varchar(255) column stores a prefix of the value of at most 255 characters; a value that fits is stored whole, and an accepted longer value loses only spaces |
| Schema.PaddingCut | src/db/schema.ts:16-21 | a 255-character value followed by any number of spaces is accepted and stored without the spaces |
| Schema.Coerce | src/db/schema.ts:16-21 | the row as stored has every varchar column within 255 characters, differs from the written row only in those columns, and is the written row when it already fits |
| Schema.ConstraintViolation | src/db/schema.ts:14-21 | a row is admitted beside the other rows exactly when every varchar column is accepted (at most 255 characters, or only spaces beyond), its primary key is new and its email, as stored, is not taken; a refusal is one of the three constraint errors |
| Schema.AdmittedRowKeepsInvariant | src/db/schema.ts:15-20 | writing an admitted row with a canonical id, as stored, keeps the table keyed by canonical id, within its column lengths and with unique emails, and adds exactly one row |
| Schema.RemovalKeepsInvariant | src/db/schema.ts:15-20 | taking a row out keeps the table invariant |
| Schema.InsertRow | src/db/schema.ts:15-25 | the inserted row's id is the canonical form of the given or generated id, and each timestamp not given is the insert time |
| Schema.InsertDefaults | src/db/schema.ts:15-25 | an insert that names no id, role, activity flag or timestamp gets the generated id, role 'user', active, both timestamps at the insert time, and every given column unchanged |
| Schema.Merge | src/repositories/user.repository.ts:30-35 | the merged row is stamped with the update time whatever the patch says, has a canonical id, and keeps the email, the id and `createdAt` when the patch does not give them |
| Schema.MergeFullRecord | src/repositories/user.repository.ts:30-35 | setting every column of a record replaces the row by that record, except that `updatedAt` is the update time and the id is stored in canonical form |
| Schema.MergeNothing | src/repositories/user.repository.ts:30-35 | an update that sets no column still restamps `updatedAt` and changes nothing else but the id's case |
| Schema.RewriteAdmitted | src/db/schema.ts:15-21 | writing a row back with the same id, email and varchar columns never violates a constraint against the other rows, and it is stored as written |
| UserModel.Strip | src/models/user.model.ts:8 | the public projection loses the password and nothing else: putting the password back gives the row |
| UserModel.StripOfWithPassword | src/models/user.model.ts:8 | projecting a record with any password put back gives the record |
| UserModel.StripEqualIff | src/models/user.model.ts:8 | two rows have the same public view exactly when they differ at most in the password |
| Issues.TypeIssue | src/dtos/register-user.dto.ts:8 | a string field holding no string gets one `invalid_type` issue at its path, with message 'Required' exactly when the field is absent |
| Issues.Check | src/dtos/register-user.dto.ts:9-11 | one check of a chain reports nothing when it holds, and exactly its own issue when it does not |
| RegisterUserDto.MatchesLetters | src/dtos/register-user.dto.ts:11 | the anchored letter pattern matches exactly the non-empty strings whose every character is a Latin or Cyrillic letter, ё and Ё included |
| RegisterUserDto.NameIssues | src/dtos/register-user.dto.ts:7-11 | a name string gets no issue exactly when it has 2 to 255 characters, all letters; every issue is on that field's path |
| RegisterUserDto.NameFieldIssues | src/dtos/register-user.dto.ts:18-22 | a required name field passes exactly when it is a string that is a valid name |
| RegisterUserDto.MiddleNameIssues | src/dtos/register-user.dto.ts:12-17 | the middle name passes exactly when it is absent or a string that is a valid name |
| RegisterUserDto.ParseDateOfBirth | src/dtos/register-user.dto.ts:23-32 | an accepted date is a real calendar date with year 100 to 9999, at hour 12 |
| RegisterUserDto.FormatThenParse | src/dtos/register-user.dto.ts:23-32 | every real date from year 100 on, written DD.MM.YYYY, is accepted as that date at noon UTC |
| RegisterUserDto.ParseThenFormat | src/dtos/register-user.dto.ts:24-25 | strictness: an accepted string is exactly the DD.MM.YYYY rendering of the date it yields |
| RegisterUserDto.DateExamples | src/dtos/register-user.dto.ts:23-32 | 27.10.1995 and 29.02.2020 are accepted; 31.02.2020, 29.02.2019, 29.02.1900, 01.01.0050 and 1.1.2020 are rejected |
| RegisterUserDto.DateOfBirthIssues | src/dtos/register-user.dto.ts:23-31 | the date field passes exactly when it is a string the strict parse accepts; a rejected string gets the one custom issue 'Invalid dateOfBirth; use DD.MM.YYYY' |
| RegisterUserDto.EmailIssues | src/dtos/register-user.dto.ts:34 | the email field passes exactly when it is a string the email check accepts |
| RegisterUserDto.Search | src/dtos/register-user.dto.ts:39-45 | an unanchored class pattern matches exactly when some character of the password is in the class |
| RegisterUserDto.RuleCheck | src/dtos/register-user.dto.ts:35-45 | each password rule reports nothing when the password satisfies it and its own issue when not; so at most one issue, on the `password` path |
| RegisterUserDto.PasswordIssues | src/dtos/register-user.dto.ts:35-45 | the password's issues are at most six, and every one is on the `password` path |
| RegisterUserDto.OncePerRule | src/dtos/register-user.dto.ts:35-45 | a rule's issue occurs exactly once among the password's issues when the rule is violated, and not at all when it holds |
| RegisterUserDto.PasswordIssueIff | src/dtos/register-user.dto.ts:35-45 | a rule's issue is in the password's issues exactly when that rule is violated, whatever the other rules say |
| RegisterUserDto.PasswordIssuesEmptyIff | src/dtos/register-user.dto.ts:35-45 | a password is accepted exactly when it satisfies all six rules |
| RegisterUserDto.OnlyViolation | src/dtos/register-user.dto.ts:35-45 | a password that breaks exactly one rule gets exactly that rule's issue |
| RegisterUserDto.PasswordAbc | src/dtos/register-user.dto.ts:35-45 | "abc" gets the length, uppercase, digit and special-character issues, in that order |
| RegisterUserDto.PasswordSecure | src/dtos/register-user.dto.ts:35-45 | "Secure123!" passes every rule |
| RegisterUserDto.PasswordTwenty | src/dtos/register-user.dto.ts:37-38 | a 20-character password passes the length limit, although its message says "less than 20" |
| RegisterUserDto.PasswordTwentyOne | src/dtos/register-user.dto.ts:37-38 | a 21-character password breaks only the length limit |
| RegisterUserDto.PasswordCyrillicNotUpper | src/dtos/register-user.dto.ts:39 | a Cyrillic capital does not satisfy the uppercase rule |
| RegisterUserDto.PasswordCyrillicSpecial | src/dtos/register-user.dto.ts:42-45 | a Cyrillic capital satisfies the special-character rule |
| RegisterUserDto.PasswordFieldIssues | src/dtos/register-user.dto.ts:35-45 | the password field passes exactly when it is a string satisfying all six rules |
| RegisterUserDto.BodyIssues | src/dtos/register-user.dto.ts:6-46 | a body has no issue exactly when every field is valid |
| RegisterUserDto.ParseRegisterUser | src/dtos/register-user.dto.ts:6-46 | parsing succeeds exactly when every field is valid; the data then carries the string fields unchanged and the parsed birth date; otherwise the result is every issue of every field, never empty |
| RegisterUserDto.NonLetterRejected | src/dtos/register-user.dto.ts:7-11 | a first name with any non-letter (digit, space, hyphen, punctuation) fails the parse with the letters-only issue |
| UserDto.Trim | src/dtos/user.dto.ts:3 | the trimmed string is the middle of the input: nothing but white space lies around it and it neither starts nor ends with white space |
| UserDto.TrimOfPadded | src/dtos/user.dto.ts:3 | white space around a trimmed string is exactly what trimming takes off |
| UserDto.TrimIdempotent | src/dtos/user.dto.ts:3 | trimming twice is trimming once |
| UserDto.TrimAbsorbsPadding | src/dtos/user.dto.ts:3 | extra white space around the input does not change the trimmed result |
| UserDto.UuidIsGroupedHex | src/dtos/user.dto.ts:3 | an id has UUID form exactly when it is 32 hexadecimal digits laid out in groups of 8, 4, 4, 4 and 12 |
| UserDto.ParseUserId | src/dtos/user.dto.ts:3 | an id is accepted exactly when its trimmed form has UUID form; the result is the trimmed id; otherwise one 'Invalid UUID format' issue |
| UserDto.UserIdIdempotent | src/dtos/user.dto.ts:3 | validating an accepted id again gives the same id |
| UserDto.UserIdIgnoresPadding | src/dtos/user.dto.ts:3 | white space around an id changes neither the verdict nor the value |
| Casing.ToLower | src/dtos/user.dto.ts:8 | lower-casing keeps the length and maps each character on its own |
| Casing.ToLowerIdempotent | src/dtos/user.dto.ts:8 | lower-casing twice is lower-casing once |
| UserDto.ParseUserRole | src/dtos/user.dto.ts:6-9 | a role is accepted exactly when it is a string whose lower-cased form is 'admin' or 'user', and the result's name is that form; otherwise one issue |
| UserDto.RoleNameRoundTrip | src/dtos/user.dto.ts:9 | each role's own name is accepted as that role |
| UserDto.UserRoleIdempotent | src/dtos/user.dto.ts:6-9 | validating an accepted role's name again gives the same role |
| UserDto.UserRoleIgnoresCase | src/dtos/user.dto.ts:8 | a string and its lower-cased form get the same verdict and the same issue |
| UserDto.RoleExamples | src/dtos/user.dto.ts:6-9 | 'ADMIN' is accepted as admin and 'User' as user; 'admin ' is rejected |
| Repositories.UpdateFailure | src/repositories/user.repository.ts:40-41 | a rethrown update failure's message is 'Failed to update user: ' followed by the original error as text |
| Repositories.UserRepository.Query | src/repositories/user.repository.ts:13-43 | one query is answered exactly when the store is reachable at that point, and consumes one entry of the reachability script; the table and clock are untouched |
| Repositories.UserRepository.CreateUser | src/repositories/user.repository.ts:13-16 | an admitted insert adds exactly one row, the defaulted row as stored, returns it, and advances the clock; a violated constraint or an unreachable store fails and leaves the table unchanged |
| Repositories.UserRepository.FindById | src/repositories/user.repository.ts:18-21 | returns the row whose id is the given uuid in any case, or none when there is no such row; it fails only when the store is unreachable and never changes the table |
| Repositories.UserRepository.FindAll | src/repositories/user.repository.ts:23-26 | returns every row exactly once and nothing else, and never changes the table |
| Repositories.ListRows | src/repositories/user.repository.ts:24 | the listing of a table keyed by id holds each row once and nothing else |
| Repositories.UserRepository.UpdateUser | src/repositories/user.repository.ts:28-43 | on the row whose id is the given uuid in any case, overwrites the given columns, restamps `updatedAt` with the advanced clock and returns the new row as stored; no match gives none and no change; a failure, unreachable store or violated constraint, is rethrown with the 'Failed to update user: ' prefix and no change; other rows are never touched |
| Repositories.UserRepository.MergeInto | src/repositories/user.repository.ts:30-39 | once the store answers, the update merges the patch onto the row under the key, or gives none, or fails on a constraint with no change; other rows are never touched |
| Repositories.RestampKeepsStamped | src/repositories/user.repository.ts:34 | replacing a row by one stamped at the next tick keeps every row stamped no later than the clock |
| Services.NewUserData | src/services/user.service.ts:15-36 | the insert built by `createUser` carries the hash as password, the given email and names, a role always given, and no id, activity flag or timestamp |
| Services.StoredRowContents | src/services/user.service.ts:15-36 | the row `createUser` stores holds the hash as its password, the given personal columns (each cut to 255 characters), the given role or 'user', the generated id in canonical form, active, and the insert time in both stamps; an id, activity flag or timestamp in the input is ignored |
| Services.StripAll | src/services/user.service.ts:62-64 | one stripped record per row, in the same order |
| Services.StripAllListsPublicTable | src/services/user.service.ts:60-65 | stripping a listing of the table gives the public view of every row exactly once |
| Services.UserService.CreateUser | src/services/user.service.ts:14-52 | a hash failure propagates unwrapped and changes nothing; otherwise the hashed row is inserted and returned without its password, or any store failure becomes 'Error creating new user' with the table unchanged |
| Services.UserService.GetUserById | src/services/user.service.ts:54-58 | an existing id, in any case, gives its row without the password; a missing id throws the null-destructuring error; an unreachable store throws; the table never changes |
| Services.UserService.GetAllUsers | src/services/user.service.ts:60-65 | the result is the public view of every row exactly once, or the store's error when it is unreachable |
| Services.UserService.DeactivateUser | src/services/user.service.ts:67-91 | on an unreachable store or a missing id throws with no change; when the write after the read fails, rethrows the update failure with no change; otherwise the row afterwards is the old row with `isActive` false and a later `updatedAt`, no other row changes, and the result is that row without the password |
| Services.UserService.SetUserRole | src/services/user.service.ts:93-117 | on an unreachable store or a missing id throws with no change; when the write after the read fails, rethrows the update failure with no change; otherwise the row afterwards is the old row with the new role and a later `updatedAt`, no other row changes, and the result is that row without the password |
| Services.UserService.WriteBack | src/services/user.service.ts:77-90 | writing an existing row's full record back replaces only that row, stamped with the advanced clock, and returns it without the password; when the store is unreachable the update failure is rethrown and nothing changes |
| Http.Response.Send | src/controllers/user.controller.ts:22-24 | a reply write appends exactly that status and body to the replies sent |
| UserControllers.AfterLookup | src/controllers/user.controller.ts:69-73 | after the lookup the last reply is always 200 carrying the user; there are two replies, the first a 404, exactly when the user is null |
| UserControllers.AfterLookupFound | src/controllers/user.controller.ts:69-73 | a found user gets one 200 reply carrying it |
| UserControllers.AfterLookupMissing | src/controllers/user.controller.ts:70-73 | a null user would get two replies: 404, then 200 with a null user, as the branch does not return |
| UserControllers.UserController.SetUserRole | src/controllers/user.controller.ts:14-54 | a bad id gets 400 with the id issues even if the role is bad too; a bad role gets 400 with the role issues; neither touches the store; an existing user, when the lookup, the service's read and its write are all answered, gets the new role, a clock advanced by one, and 200 with the stripped record; any failure gets 500 with the table unchanged; one, two or three queries are consumed, as far as the handler got |
| UserControllers.UserController.GetUserById | src/controllers/user.controller.ts:56-80 | a bad id gets 400 with its issues and makes no query; an existing user, looked up in any case, gets 200 with the stripped record; a missing user or an unreachable store gets 500; a valid id consumes one query; the table never changes |
| UserControllers.UserController.GetAllUsers | src/controllers/user.controller.ts:82-92 | exactly one reply: 200 with the public view of every row, or 500 when the store is unreachable; one query is consumed and the table never changes |
| RegistrationControllers.RegistrationInput | src/controllers/registration.controller.ts:19-20 | the service receives the parsed data, with the birth date as an instant and no id, role, activity flag or timestamp |
| RegistrationControllers.RegistrationController.RegisterUser | src/controllers/registration.controller.ts:9-28 | exactly one reply: 400 with every issue and no store change when the body is invalid; otherwise one query is made, and the reply is 201 with the stripped stored row and a clock advanced by one when the insert is answered and admitted, or 500 with the table unchanged |
| RegistrationControllers.RegistrationController.CreateAndReply | src/controllers/registration.controller.ts:18-27 | a successful creation gets 201 with the stripped new row and advances the clock by one; a hash failure gets 500 with no query; a store failure gets 500 with the table unchanged after one query |

## Left out

- The email pattern: zod's email regular expression is library code, so `isEmail` is an abstract predicate.
- argon2: `hash` is an uninterpreted function of the password. Its salting, cost parameters and output format are not modelled.
- The random UUID generator of the `id` column: a new row's id is the `generatedId` parameter.
- The clock: `new Date()` and `defaultNow()` are modelled as a counter that advances on each successful write. Real clocks need not be strictly increasing.
- Reachability is a script of answers, one per query, fixed in advance; a query that times out after the store has already acted on it is not modelled.
- Epoch milliseconds: the noon-UTC `Date` is kept as a (year, month, day, hour) record. Storing it in the `date` column, which keeps only the day, is not modelled.
- RegisterUserDto.NameIssues, RegisterUserDto.PasswordIssues: lengths are counted in characters, while JavaScript counts UTF-16 code units. The two differ only for characters outside the Basic Multilingual Plane.
- Casing.ToLower: only ASCII capitals are mapped. No non-ASCII character lower-cases to a letter of 'admin' or 'user', so the verdict is unaffected; only the received text in the enum issue can differ.
- Issues keep only their code, path and message. The further fields zod 3 attaches per code (`minimum`, `maximum`, `inclusive`, `exact`, `type`, `validation`, `expected`, `received`, `options`), which the 400 replies pass on unchanged, are not modelled.
- The request body's outer shape: a body that is not an object is out of scope. So is a missing body, which makes `req.body.role` throw. The body is the six fields as raw JSON values.
- Repositories.UserRepository.FindById, Repositories.UserRepository.UpdateUser: PostgreSQL rejects a malformed UUID in the query, while the model returns none (so `updateUser` would rethrow the error with its 'Failed to update user: ' prefix where the model gives none), and it also accepts spellings other than the hyphenated one (braces, no hyphens), which the model treats as different keys. Both controllers validate the hyphenated form before any lookup.
- The order in which the store reports constraints is fixed here: length, then primary key, then email. The error texts are representative of the database driver's messages.
- Services.UserService.CreateUser: the branch that rethrows a non-`Error` value (src/services/user.service.ts:49-50) is not modelled. Every store failure is an `Error`, and the model wraps it as 'Error creating new user'.
- Express raising on a second write to the same response: only the unreachable 404 branch of `getUserById` would write twice.
- Concurrency: the read-then-write race in `setUserRole` and `deactivateUser` is not modelled; calls are sequential.
- Logging calls, the connection pool and its lifecycle, the Express application and middleware, the routers, and the API-documentation generator.
