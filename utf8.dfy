/**
 * UTF-8 well-formedness after the `UTF8-octets` grammar of section 4 of
 * RFC 3629, and `Str`, the byte sequences Rust's `str` type may hold.
 */
module Utf8 {

  /** An octet (Rust `u8`). */
  type Byte = b: int | 0 <= b < 0x100

  /** `UTF8-tail = %x80-BF` */
  predicate IsTail(b: Byte) {
    0x80 <= b <= 0xBF
  }

  /**
   * The number of octets of the `UTF8-char` that begins `s`, or 0 when `s`
   * does not begin with one (section 4 of RFC 3629: `UTF8-1` to `UTF8-4`,
   * which exclude overlong forms, surrogates and code points above U+10FFFF).
   */
  function CharWidth(s: seq<Byte>): (w: nat)
    ensures w <= 4 && w <= |s|
  {
    if |s| == 0 then 0
    else if s[0] <= 0x7F then 1
    else if 0xC2 <= s[0] <= 0xDF then
      if |s| >= 2 && IsTail(s[1]) then 2 else 0
    else if s[0] == 0xE0 then
      if |s| >= 3 && 0xA0 <= s[1] <= 0xBF && IsTail(s[2]) then 3 else 0
    else if 0xE1 <= s[0] <= 0xEC || 0xEE <= s[0] <= 0xEF then
      if |s| >= 3 && IsTail(s[1]) && IsTail(s[2]) then 3 else 0
    else if s[0] == 0xED then
      if |s| >= 3 && 0x80 <= s[1] <= 0x9F && IsTail(s[2]) then 3 else 0
    else if s[0] == 0xF0 then
      if |s| >= 4 && 0x90 <= s[1] <= 0xBF && IsTail(s[2]) && IsTail(s[3]) then 4 else 0
    else if 0xF1 <= s[0] <= 0xF3 then
      if |s| >= 4 && IsTail(s[1]) && IsTail(s[2]) && IsTail(s[3]) then 4 else 0
    else if s[0] == 0xF4 then
      if |s| >= 4 && 0x80 <= s[1] <= 0x8F && IsTail(s[2]) && IsTail(s[3]) then 4 else 0
    else 0
  }

  /** `UTF8-octets = *( UTF8-char )` */
  predicate IsWellFormed(s: seq<Byte>)
    decreases |s|
  {
    |s| == 0 || (CharWidth(s) > 0 && IsWellFormed(s[CharWidth(s)..]))
  }

  /** The contents of a Rust `str`: always well-formed UTF-8. */
  type Str = s: seq<Byte> | IsWellFormed(s) witness []

  /** A sequence is well-formed when its first character is and the rest is. */
  lemma WellFormedStep(s: seq<Byte>)
    requires CharWidth(s) > 0 && IsWellFormed(s[CharWidth(s)..])
    ensures IsWellFormed(s)
  {
  }

  /** A character is recognised from its own octets alone: what follows it does not matter. */
  lemma CharWidthOfPrefix(s: seq<Byte>, t: seq<Byte>)
    requires CharWidth(s) > 0
    requires |t| >= CharWidth(s) && t[..CharWidth(s)] == s[..CharWidth(s)]
    ensures CharWidth(t) == CharWidth(s)
  {
  }

  /** Concatenating two well-formed sequences yields a well-formed sequence. */
  lemma {:induction false} ConcatWellFormed(a: seq<Byte>, b: seq<Byte>)
    requires IsWellFormed(a) && IsWellFormed(b)
    ensures IsWellFormed(a + b)
    decreases |a|
  {
    if |a| > 0 {
      var w := CharWidth(a);
      var ab := a + b;
      assert ab[..w] == a[..w];
      CharWidthOfPrefix(a, ab);
      ConcatWellFormed(a[w..], b);
      assert ab[w..] == a[w..] + b;
      assert CharWidth(ab) == w && IsWellFormed(ab[w..]);
      WellFormedStep(ab);
      assert CharWidth(ab) > 0 && IsWellFormed(ab[CharWidth(ab)..]);
    } else {
      assert a + b == b;
    }
  }

  /**
   * Dropping a final 0x00 from a well-formed sequence keeps it well-formed:
   * 0x00 is a character of its own (`UTF8-1`) and can never be the tail of a
   * longer one.
   */
  lemma {:induction false} DropTrailingNul(s: seq<Byte>)
    requires IsWellFormed(s) && |s| > 0 && s[|s| - 1] == 0
    ensures IsWellFormed(s[..|s| - 1])
    decreases |s|
  {
    var w := CharWidth(s);
    if w == |s| {
      // a multi-octet character ends in a tail octet, never in 0x00
      assert w == 1;
      assert s[..|s| - 1] == [];
    } else {
      var rest := s[w..];
      DropTrailingNul(rest);
      var shorter := s[..|s| - 1];
      assert shorter[..w] == s[..w];
      CharWidthOfPrefix(s, shorter);
      assert shorter[w..] == rest[..|rest| - 1];
    }
  }

  /** A sequence with a 0x00 appended is well-formed exactly when the sequence is. */
  lemma AppendNulWellFormed(s: seq<Byte>)
    ensures IsWellFormed(s + [0]) <==> IsWellFormed(s)
  {
    var t := s + [0];
    if IsWellFormed(s) {
      assert CharWidth([0]) == 1 && [0][1..] == [];
      ConcatWellFormed(s, [0]);
    }
    if IsWellFormed(t) {
      DropTrailingNul(t);
      assert t[..|t| - 1] == s;
    }
  }
}
