/** `DString` (src/dstring.rs): an owned buffer holding a `DStr`'s bytes. */
module Dstring {
  import opened Utf8
  import opened Dstr

  /** The owned `String`, nul included; the derived equality compares it. */
  datatype DString = DString(inner: Str) {

    /** Every `DString` is meant to hold bytes that form a valid `DStr`. */
    ghost predicate Valid() {
      IsDStrBytes(inner)
    }

    /** `From<&DStr>`: an owned copy of `as_str_with_nul()`, which carries the `DStr` invariant over. */
    static function FromDStr(value: DStr): (s: DString)
      requires value.Valid()
      ensures s.Valid() && s.inner == value.AsStrWithNul()
      ensures |s.inner| == value.LenWithNul() && s.inner[..value.Len()] == value.AsStr()
    {
      DString(value.AsStrWithNul())
    }

    /** `From<&mut DStr>`: the same copy; the borrowed string is only read. */
    static method FromDStrMut(value: DStrMut) returns (s: DString)
      requires value.Valid()
      ensures s == FromDStr(value.View())
    {
      s := DString(value.View().AsStrWithNul());
    }
  }

  /** Two `DString`s are equal exactly when their inner strings are. */
  lemma EqIffInnerEq(a: DString, b: DString)
    ensures a == b <==> a.inner == b.inner
  {
  }

  /** Equal views give equal copies, and the copy reads back as the view it came from. */
  lemma FromDStrFaithful(x: DStr, y: DStr)
    requires x.Valid() && y.Valid()
    ensures DString.FromDStr(x) == DString.FromDStr(y) <==> x == y
    ensures DStr.FromStrWithNulUnchecked(DString.FromDStr(x).inner) == x
  {
  }
}
