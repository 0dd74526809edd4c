/** ASCII case mapping, used to look version names up case-insensitively. */
module Ascii {

  predicate IsLower(c: char) {
    'a' <= c <= 'z'
  }

  /** Maps a lower-case ASCII letter to its upper-case form and leaves
      every other character alone. */
  function UpperChar(c: char): char {
    if IsLower(c) then (c as int - 32) as char else c
  }

  /** No character of `s` is a lower-case ASCII letter. */
  predicate NoLower(s: string) {
    forall i :: 0 <= i < |s| ==> !IsLower(s[i])
  }

  /** The upper-case form of `s`: same length, mapped character by character. */
  function Upper(s: string): (r: string)
    ensures |r| == |s|
    ensures forall i :: 0 <= i < |s| ==> r[i] == UpperChar(s[i])
    ensures NoLower(r)
  {
    if s == [] then [] else [UpperChar(s[0])] + Upper(s[1..])
  }

  /** Case-insensitive equality of two strings. */
  predicate EqualFold(a: string, b: string) {
    Upper(a) == Upper(b)
  }

  /** Upper-casing changes nothing in a string without lower-case letters,
      so in particular it is idempotent. */
  lemma UpperFixesNoLower(s: string)
    ensures NoLower(s) <==> Upper(s) == s
    ensures Upper(Upper(s)) == Upper(s)
  {
    if NoLower(s) {
      assert forall i :: 0 <= i < |s| ==> Upper(s)[i] == s[i];
    }
    if Upper(s) == s {
      assert NoLower(Upper(s));
    }
  }

  /** Two characters fold to the same character exactly when they are
      equal or are the two cases of one ASCII letter. */
  lemma UpperCharSame(c: char, d: char)
    ensures UpperChar(c) == UpperChar(d) <==>
      c == d
      || (IsLower(c) && d as int == c as int - 32)
      || (IsLower(d) && c as int == d as int - 32)
  {
  }

  /** Case-insensitive equality, character by character, in both directions. */
  lemma EqualFoldPointwise(a: string, b: string)
    ensures EqualFold(a, b) <==>
      |a| == |b| && forall i :: 0 <= i < |a| ==> UpperChar(a[i]) == UpperChar(b[i])
  {
    if |a| == |b| && forall i :: 0 <= i < |a| ==> UpperChar(a[i]) == UpperChar(b[i]) {
      assert forall i :: 0 <= i < |a| ==> Upper(a)[i] == Upper(b)[i];
    }
    if EqualFold(a, b) {
      assert forall i :: 0 <= i < |a| ==> UpperChar(a[i]) == Upper(a)[i] == Upper(b)[i] == UpperChar(b[i]);
    }
  }

  /** Case-insensitive equality is an equivalence relation, and every
      string is case-insensitively equal to its upper-case form. */
  lemma EqualFoldEquivalence(a: string, b: string, c: string)
    ensures EqualFold(a, a)
    ensures EqualFold(a, b) ==> EqualFold(b, a)
    ensures EqualFold(a, b) && EqualFold(b, c) ==> EqualFold(a, c)
    ensures EqualFold(a, Upper(a))
  {
    UpperFixesNoLower(a);
  }
}
