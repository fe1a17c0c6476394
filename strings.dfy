/** ASCII string predicates. Every regular expression of the checkers is an
    alternation of literals, possibly anchored or case-insensitive, and is
    stated with these instead of a regular-expression engine. */
module Strings {

  predicate IsUpper(c: char) { 'A' <= c <= 'Z' }

  predicate IsLower(c: char) { 'a' <= c <= 'z' }

  predicate IsLetter(c: char) { IsUpper(c) || IsLower(c) }

  predicate IsDigit(c: char) { '0' <= c <= '9' }

  predicate IsAlnum(c: char) { IsLetter(c) || IsDigit(c) }

  predicate IsHexDigit(c: char) { IsDigit(c) || 'a' <= c <= 'f' || 'A' <= c <= 'F' }

  /** `\w` of a regular expression, restricted to ASCII. */
  predicate IsWordChar(c: char) { IsAlnum(c) || c == '_' }

  /** `\s` of a regular expression (and `str.isspace`), restricted to ASCII:
      space, tab, line feed, vertical tab, form feed, carriage return and the
      four separators 0x1C..0x1F. */
  predicate IsSpace(c: char) { c == ' ' || '\t' <= c <= '\r' || '\U{1C}' <= c <= '\U{1F}' }

  predicate AllSpace(s: string) { forall i | 0 <= i < |s| :: IsSpace(s[i]) }

  /** `str.lower` on one character, restricted to ASCII. */
  function LowerChar(c: char): (r: char)
    ensures !IsUpper(r)
    ensures IsLetter(c) <==> IsLetter(r)
  {
    if IsUpper(c) then (c as int + 32) as char else c
  }

  /** `str.lower`, restricted to ASCII. */
  function Lower(s: string): (r: string)
    ensures |r| == |s| && forall i | 0 <= i < |s| :: r[i] == LowerChar(s[i])
  {
    seq(|s|, i requires 0 <= i < |s| => LowerChar(s[i]))
  }

  /** `t` occurs in `s` starting at index `i`. */
  predicate OccursAt<T(==)>(s: seq<T>, t: seq<T>, i: nat)
  {
    i + |t| <= |s| && s[i..i + |t|] == t
  }

  /** Python's `t in s` for strings and bytes; also an unanchored regular
      expression search for the single literal `t`. */
  predicate Contains<T(==)>(s: seq<T>, t: seq<T>)
  {
    exists i: nat | i <= |s| :: OccursAt(s, t, i)
  }

  /** An unanchored search for the alternation `ts[0]|ts[1]|...`. */
  predicate ContainsAny<T(==)>(s: seq<T>, ts: seq<seq<T>>)
  {
    exists k | 0 <= k < |ts| :: Contains(s, ts[k])
  }

  predicate StartsWith(s: string, p: string) { |p| <= |s| && s[..|p|] == p }

  predicate EndsWith(s: string, p: string) { |p| <= |s| && s[|s| - |p|..] == p }

  /** A sequence shorter than `t` does not contain it. */
  lemma ShorterHasNoOccurrence<T>(s: seq<T>, t: seq<T>)
    requires |s| < |t|
    ensures !Contains(s, t)
  {
  }

  /** A string containing `t` contains every character of `t`. */
  lemma ContainsChars<T>(s: seq<T>, t: seq<T>, k: nat)
    requires Contains(s, t) && k < |t|
    ensures t[k] in s
  {
    var i: nat :| i <= |s| && OccursAt(s, t, i);
    assert s[i..i + |t|][k] == s[i + k];
  }

  /** Every character of an occurrence is in the string; stated as an
      implication so that it can be used to rule an occurrence out. */
  lemma OccurrenceHoldsChar<T>(s: seq<T>, t: seq<T>, i: nat, k: nat)
    requires k < |t|
    ensures OccursAt(s, t, i) ==> t[k] in s
  {
    if OccursAt(s, t, i) {
      assert s[i..i + |t|][k] == s[i + k];
    }
  }
}
