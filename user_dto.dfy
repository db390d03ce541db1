/**
 * The path-parameter and body validators of the user routes: an id is trimmed
 * and must then have the 8-4-4-4-12 hexadecimal shape of a UUID; a role is
 * lower-cased and must then be 'admin' or 'user'.
 */
module UserDto {
  import opened Wrappers
  import opened Issues
  import opened Schema
  import opened Casing

  // ---------------------------------------------------------------- trim

  /** The characters `String.prototype.trim` removes: ECMAScript white space and line terminators. */
  predicate IsJsWhitespace(c: char) {
    || c == '\t' || c == '\n' || c == '\U{000B}' || c == '\U{000C}' || c == '\r' || c == ' '
    || c == '\U{00A0}' || c == '\U{1680}' || ('\U{2000}' <= c <= '\U{200A}')
    || c == '\U{2028}' || c == '\U{2029}' || c == '\U{202F}' || c == '\U{205F}'
    || c == '\U{3000}' || c == '\U{FEFF}'
  }

  predicate AllWhitespace(s: string) {
    forall i :: 0 <= i < |s| ==> IsJsWhitespace(s[i])
  }

  /** Neither end of the string is white space. */
  predicate Trimmed(s: string) {
    |s| == 0 || (!IsJsWhitespace(s[0]) && !IsJsWhitespace(s[|s| - 1]))
  }

  /** The first index at or after `i` that is not white space, or `|s|` when there is none. */
  function StartFrom(s: string, i: nat): (k: nat)
    requires i <= |s|
    ensures i <= k <= |s|
    ensures forall j :: i <= j < k ==> IsJsWhitespace(s[j])
    ensures k < |s| ==> !IsJsWhitespace(s[k])
    decreases |s| - i
  {
    if i < |s| && IsJsWhitespace(s[i]) then StartFrom(s, i + 1) else i
  }

  /** The end of what is left when the white space before `j`, down to `lo`, is dropped. */
  function EndFrom(s: string, lo: nat, j: nat): (e: nat)
    requires lo <= j <= |s|
    ensures lo <= e <= j
    ensures forall i :: e <= i < j ==> IsJsWhitespace(s[i])
    ensures e > lo ==> !IsJsWhitespace(s[e - 1])
    decreases j
  {
    if j > lo && IsJsWhitespace(s[j - 1]) then EndFrom(s, lo, j - 1) else j
  }

  /** Where the kept middle of `s` starts. */
  function Start(s: string): nat
    ensures Start(s) <= |s|
  {
    StartFrom(s, 0)
  }

  /**
   * `s.trim()`: the middle of `s` once white space is taken off both ends;
   * it starts at `Start(s)` and everything around it is white space.
   */
  function Trim(s: string): (r: string)
    ensures Trimmed(r)
    ensures var k := Start(s);
      && k + |r| <= |s| && r == s[k..k + |r|]
      && (forall i :: 0 <= i < k ==> IsJsWhitespace(s[i]))
      && (forall i :: k + |r| <= i < |s| ==> IsJsWhitespace(s[i]))
  {
    var k := Start(s);
    var e := EndFrom(s, k, |s|);
    assert e > k ==> s[k..e][0] == s[k];
    s[k..e]
  }

  /** The start index is determined by its defining properties. */
  lemma StartUnique(s: string, k: nat)
    requires k <= |s| && (forall i :: 0 <= i < k ==> IsJsWhitespace(s[i]))
    requires k < |s| ==> !IsJsWhitespace(s[k])
    ensures Start(s) == k
  {
  }

  /** So is the end index. */
  lemma EndUnique(s: string, lo: nat, e: nat)
    requires lo <= e <= |s| && (forall i :: e <= i < |s| ==> IsJsWhitespace(s[i]))
    requires e > lo ==> !IsJsWhitespace(s[e - 1])
    ensures EndFrom(s, lo, |s|) == e
  {
  }

  /** White space around a trimmed string is exactly what `trim` takes off. */
  lemma {:induction false} TrimOfPadded(a: string, t: string, b: string)
    requires AllWhitespace(a) && AllWhitespace(b) && Trimmed(t)
    ensures Trim(a + t + b) == t
  {
    var s := a + t + b;
    var k := if |t| > 0 then |a| else |s|;
    var e := if |t| > 0 then |a| + |t| else |s|;
    forall i | 0 <= i < k
      ensures IsJsWhitespace(s[i])
    {
      if i >= |a| + |t| {
        assert s[i] == b[i - |a| - |t|];
      } else {
        assert s[i] == a[i];
      }
    }
    forall i | e <= i < |s|
      ensures IsJsWhitespace(s[i])
    {
      assert s[i] == b[i - |a| - |t|];
    }
    if |t| > 0 {
      assert s[|a|] == t[0] && s[e - 1] == t[|t| - 1];
    }
    StartUnique(s, k);
    EndUnique(s, k, e);
    assert s[k..e] == t;
  }

  /** Trimming twice is trimming once. */
  lemma {:induction false} TrimIdempotent(s: string)
    ensures Trim(Trim(s)) == Trim(s)
  {
    var t := Trim(s);
    assert [] + t + [] == t;
    TrimOfPadded([], t, []);
  }

  /** Extra white space around the input does not change what `trim` returns. */
  lemma {:induction false} TrimAbsorbsPadding(a: string, s: string, b: string)
    requires AllWhitespace(a) && AllWhitespace(b)
    ensures Trim(a + s + b) == Trim(s)
  {
    var t := Trim(s);
    var k := Start(s);
    var a', b' := s[..k], s[k + |t|..];
    assert s == a' + t + b';
    Regroup(a, a', t, b', b);
    assert AllWhitespace(a + a') by {
      forall i | 0 <= i < |a + a'|
        ensures IsJsWhitespace((a + a')[i])
      {
        if i >= |a| {
          assert (a + a')[i] == s[i - |a|];
        }
      }
    }
    assert AllWhitespace(b' + b) by {
      forall i | 0 <= i < |b' + b|
        ensures IsJsWhitespace((b' + b)[i])
      {
        if i < |b'| {
          assert (b' + b)[i] == s[k + |t| + i];
        }
      }
    }
    TrimOfPadded(a + a', t, b' + b);
  }

  lemma Regroup(a: string, x: string, t: string, y: string, b: string)
    ensures a + (x + t + y) + b == (a + x) + t + (y + b)
  {
  }

  // ---------------------------------------------------------------- UUID

  predicate IsHexDigit(c: char) {
    ('0' <= c <= '9') || ('a' <= c <= 'f') || ('A' <= c <= 'F')
  }

  /** Positions of the four hyphens in the 8-4-4-4-12 form. */
  predicate IsHyphenPosition(i: int) {
    i == 8 || i == 13 || i == 18 || i == 23
  }

  /** The 8-4-4-4-12 hexadecimal form, in either case, with no version or variant check. */
  predicate IsUuid(s: string) {
    && |s| == 36
    && forall i :: 0 <= i < 36 ==> if IsHyphenPosition(i) then s[i] == '-' else IsHexDigit(s[i])
  }

  /** Lays 32 hexadecimal digits out in groups of 8, 4, 4, 4 and 12. */
  function Grouped(h: string): (s: string)
    requires |h| == 32
    ensures |s| == 36
  {
    h[..8] + "-" + h[8..12] + "-" + h[12..16] + "-" + h[16..20] + "-" + h[20..]
  }

  /** The 32 digits of an id, hyphens dropped. */
  function Digits(s: string): (h: string)
    requires |s| == 36
    ensures |h| == 32
  {
    s[..8] + s[9..13] + s[14..18] + s[19..23] + s[24..]
  }

  /** An id is in UUID form exactly when it is 32 hexadecimal digits laid out in the five groups. */
  lemma {:induction false} UuidIsGroupedHex(s: string)
    ensures IsUuid(s) <==> |s| == 36 && Grouped(Digits(s)) == s && forall i :: 0 <= i < 32 ==> IsHexDigit(Digits(s)[i])
  {
    if |s| == 36 {
      var h := Digits(s);
      var g := Grouped(h);
      assert forall i :: 0 <= i < 8 ==> h[i] == s[i];
      assert forall i :: 8 <= i < 12 ==> h[i] == s[i + 1];
      assert forall i :: 12 <= i < 16 ==> h[i] == s[i + 2];
      assert forall i :: 16 <= i < 20 ==> h[i] == s[i + 3];
      assert forall i :: 20 <= i < 32 ==> h[i] == s[i + 4];
      assert forall i :: 0 <= i < 8 ==> g[i] == h[i];
      assert forall i :: 9 <= i < 13 ==> g[i] == h[i - 1];
      assert forall i :: 14 <= i < 18 ==> g[i] == h[i - 2];
      assert forall i :: 19 <= i < 23 ==> g[i] == h[i - 3];
      assert forall i :: 24 <= i < 36 ==> g[i] == h[i - 4];
      assert g[8] == '-' && g[13] == '-' && g[18] == '-' && g[23] == '-';
      if IsUuid(s) {
        assert forall i :: 0 <= i < 36 ==> g[i] == s[i];
      }
    }
  }

  const UuidMessage := "Invalid UUID format"

  /** `UserIdSchema.safeParse(id)`: the trimmed id when it has UUID form, one issue otherwise. */
  function ParseUserId(id: string): (r: Result<string, seq<Issue>>)
    ensures r.Ok? <==> IsUuid(Trim(id))
    ensures r.Ok? ==> r.value == Trim(id) && Trimmed(r.value)
    ensures r.Err? ==> r.error == [Issue(InvalidString, [], UuidMessage)]
  {
    var t := Trim(id);
    if IsUuid(t) then Ok(t) else Err([Issue(InvalidString, [], UuidMessage)])
  }

  /** Validating an accepted id again gives it back unchanged. */
  lemma {:induction false} UserIdIdempotent(id: string)
    requires ParseUserId(id).Ok?
    ensures ParseUserId(ParseUserId(id).value) == ParseUserId(id)
  {
    TrimIdempotent(id);
  }

  /** White space around an id never changes the verdict or the value. */
  lemma {:induction false} UserIdIgnoresPadding(a: string, id: string, b: string)
    requires AllWhitespace(a) && AllWhitespace(b)
    ensures ParseUserId(a + id + b) == ParseUserId(id)
  {
    TrimAbsorbsPadding(a, id, b);
  }

  // ---------------------------------------------------------------- role

  function EnumMessage(received: string): string {
    "Invalid enum value. Expected 'admin' | 'user', received '" + received + "'"
  }

  /**
   * `UserRoleSchema.safeParse(role)`: a string is lower-cased and must then be
   * one of the two role names; anything else gets one issue.
   */
  function ParseUserRole(raw: Raw): (r: Result<UserRole, seq<Issue>>)
    ensures r.Ok? <==> raw.Text? && (ToLower(raw.s) == "admin" || ToLower(raw.s) == "user")
    ensures r.Ok? ==> RoleName(r.value) == ToLower(raw.s)
    ensures r.Err? ==> |r.error| == 1
  {
    if !raw.Text? then Err([TypeIssue([], raw)])
    else
      var lowered := ToLower(raw.s);
      if lowered == "admin" then Ok(RoleAdmin)
      else if lowered == "user" then Ok(RoleUser)
      else Err([Issue(InvalidEnumValue, [], EnumMessage(lowered))])
  }

  /** Each role's own name is accepted as that role. */
  lemma {:induction false} RoleNameRoundTrip(role: UserRole)
    ensures ParseUserRole(Text(RoleName(role))) == Ok(role)
  {
    var name := RoleName(role);
    assert ToLower(name) == name;
    RoleNameInjective(role, RoleAdmin);
  }

  /** Validating an accepted role's name again gives the same role. */
  lemma {:induction false} UserRoleIdempotent(raw: Raw)
    requires ParseUserRole(raw).Ok?
    ensures ParseUserRole(Text(RoleName(ParseUserRole(raw).value))) == ParseUserRole(raw)
  {
    RoleNameRoundTrip(ParseUserRole(raw).value);
  }

  /** Case does not matter: a string and its lower-cased form get the same verdict and the same issue. */
  lemma {:induction false} UserRoleIgnoresCase(s: string)
    ensures ParseUserRole(Text(s)) == ParseUserRole(Text(ToLower(s)))
  {
    ToLowerIdempotent(s);
  }

  lemma RoleExamples()
    ensures ParseUserRole(Text("ADMIN")) == Ok(RoleAdmin)
    ensures ParseUserRole(Text("User")) == Ok(RoleUser)
    ensures ParseUserRole(Text("admin ")).Err?
  {
    assert ToLower("ADMIN") == "admin";
    assert ToLower("User") == "user";
    assert |ToLower("admin ")| == 6;
  }
}
