/** The parts of zod's validation results that the schemas of this service produce. */
module Issues {

  /** zod's issue codes, as far as these schemas can raise them. */
  datatype IssueCode = InvalidType | TooSmall | TooBig | InvalidString | InvalidEnumValue | Custom

  /** One field-level failure: its code, the path to the field and the message. */
  datatype Issue = Issue(code: IssueCode, path: seq<string>, message: string)

  /** A JSON value as a string schema sees it: absent, a string, or a value of another type. */
  datatype Raw = Missing | Text(s: string) | NotText(typeName: string)

  /** The single issue zod reports when a string schema receives something else. */
  function TypeIssue(path: seq<string>, r: Raw): (i: Issue)
    requires !r.Text?
    ensures i.code == InvalidType && i.path == path
    ensures i.message == "Required" <==> r.Missing?
  {
    if r.Missing? then Issue(InvalidType, path, "Required")
    else Issue(InvalidType, path, "Expected string, received " + r.typeName)
  }

  /** One check of a chain: no issue when it holds, its own issue when it does not. */
  function Check(holds: bool, code: IssueCode, path: seq<string>, message: string): (r: seq<Issue>)
    ensures r == [] <==> holds
    ensures !holds ==> r == [Issue(code, path, message)]
  {
    if holds then [] else [Issue(code, path, message)]
  }
}
