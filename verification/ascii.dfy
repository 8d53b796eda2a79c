/** ASCII character classes and case mapping, the subset of JavaScript's
    string behaviour that the linter relies on. */
module Ascii {

  /** Membership in the regular-expression class `[A-Z]`. */
  predicate IsUpper(c: char) {
    'A' <= c <= 'Z'
  }

  /** `String.prototype.toLowerCase` restricted to ASCII letters. */
  function ToLower(c: char): (d: char)
    ensures !IsUpper(d)
    ensures IsUpper(c) ==> d as int == c as int + 32
    ensures !IsUpper(c) ==> d == c
  {
    if IsUpper(c) then (c as int + 32) as char else c
  }

  predicate NoUpper(s: string) {
    forall i :: 0 <= i < |s| ==> !IsUpper(s[i])
  }

  /** No upper-case letter except possibly the first character. */
  predicate NoUpperAfterFirst(s: string) {
    forall i :: 1 <= i < |s| ==> !IsUpper(s[i])
  }

  /** Number of upper-case letters in `s`. */
  function CountUpper(s: string): (n: nat)
    ensures n <= |s|
    ensures n == 0 <==> NoUpper(s)
  {
    if |s| == 0 then 0
    else (if IsUpper(s[0]) then 1 else 0) + CountUpper(s[1..])
  }

  /** Character-wise lower-casing of a whole string. */
  function LowerCase(s: string): (r: string)
    ensures |r| == |s|
    ensures NoUpper(r)
    ensures forall i :: 0 <= i < |s| ==> r[i] == ToLower(s[i])
  {
    seq(|s|, i requires 0 <= i < |s| => ToLower(s[i]))
  }

  lemma LowerCaseOfLowerIsIdentity(s: string)
    requires NoUpper(s)
    ensures LowerCase(s) == s
  {
  }

  /** `s.startsWith(p)`. */
  predicate StartsWith(s: string, p: string) {
    |p| <= |s| && s[..|p|] == p
  }

  /** A string starting with `p + q` starts with `p`. */
  lemma StartsWithLonger(s: string, p: string, q: string)
    requires StartsWith(s, p + q)
    ensures StartsWith(s, p)
  {
    assert s[..|p|] == (s[..|p + q|])[..|p|];
  }
}
