/** ASCII lower-casing, as `toLowerCase` does it on ASCII text and as a uuid column canonicalises its hexadecimal digits. */
module Casing {

  /** `toLowerCase` on ASCII letters; every other character is kept. */
  function LowerChar(c: char): char {
    if 'A' <= c <= 'Z' then (c as int + 32) as char else c
  }

  function ToLower(s: string): (r: string)
    ensures |r| == |s| && forall i :: 0 <= i < |s| ==> r[i] == LowerChar(s[i])
  {
    if |s| == 0 then [] else [LowerChar(s[0])] + ToLower(s[1..])
  }

  lemma {:induction false} ToLowerIdempotent(s: string)
    ensures ToLower(ToLower(s)) == ToLower(s)
  {
    var l := ToLower(s);
    assert forall i :: 0 <= i < |l| ==> ToLower(l)[i] == l[i];
  }
}
