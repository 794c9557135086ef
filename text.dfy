/**
 * Strings as the handlers treat them: Python truthiness of an optional
 * string, and `str.lower()` restricted to ASCII (addresses are hex).
 */
module Text {
  import opened Wrappers

  /** A field that is present and non-empty, i.e. truthy in Python. */
  predicate Present(s: Option<string>) {
    s.Some? && s.value != ""
  }

  predicate IsUpper(c: char) {
    'A' <= c <= 'Z'
  }

  /** No upper-case ASCII letter occurs: the canonical form of an address. */
  predicate IsLower(s: string) {
    forall i :: 0 <= i < |s| ==> !IsUpper(s[i])
  }

  function LowerChar(c: char): (d: char)
    ensures !IsUpper(d)
  {
    if IsUpper(c) then (c as int + 32) as char else c
  }

  /** ASCII lower-casing, character by character. */
  function Lower(s: string): (r: string)
    ensures |r| == |s| && IsLower(r)
    ensures forall i :: 0 <= i < |s| && !IsUpper(s[i]) ==> r[i] == s[i]
    ensures forall i :: 0 <= i < |s| && IsUpper(s[i]) ==> r[i] as int == s[i] as int + 32
  {
    seq(|s|, i requires 0 <= i < |s| => LowerChar(s[i]))
  }

  /** Canonical strings are left alone by lower-casing. */
  lemma LowerKeepsLower(s: string)
    requires IsLower(s)
    ensures Lower(s) == s
  {
  }

  lemma LowerIdempotent(s: string)
    ensures Lower(Lower(s)) == Lower(s)
  {
    LowerKeepsLower(Lower(s));
  }
}
