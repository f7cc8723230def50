/**
 * `DStr` (src/dstr.rs): a borrowed, nul-terminated UTF-8 string whose
 * length is stored rather than scanned for.
 */
module Dstr {
  import opened Wrappers
  import opened Utf8
  import Mem

  /** The last byte is the nul. */
  predicate IsNulTerminated(b: seq<Byte>) {
    |b| > 0 && b[|b| - 1] == 0
  }

  /** No zero byte anywhere before the last byte. */
  predicate HasNoInteriorNul(b: seq<Byte>) {
    forall i :: 0 <= i < |b| - 1 ==> b[i] != 0
  }

  /** The safety invariant of a `DStr`: valid UTF-8, no interior nul, nul-terminated. */
  predicate IsDStrBytes(b: seq<Byte>) {
    IsWellFormed(b) && HasNoInteriorNul(b) && IsNulTerminated(b)
  }

  /**
   * The layout of a `DStr`: contents that are valid UTF-8 and hold no zero
   * byte, followed by exactly one nul.
   */
  lemma DStrBytesLayout(content: seq<Byte>)
    ensures IsDStrBytes(content + [0]) <==> IsWellFormed(content) && 0 !in content
  {
    var b := content + [0];
    AppendNulWellFormed(content);
    assert b[..|b| - 1] == content;
    if 0 in content {
      var i :| 0 <= i < |content| && content[i] == 0;
      assert b[i] == 0;
    }
  }

  /** The view `CStr::from_bytes_with_nul_unchecked` produces. */
  datatype CStr = CStr(bytesWithNul: seq<Byte>) {

    /** What `CStr` demands of its bytes: nul-terminated with no interior nul. */
    predicate Valid() {
      IsNulTerminated(bytesWithNul) && HasNoInteriorNul(bytesWithNul)
    }

    /** `CStr::from_bytes_with_nul_unchecked`, with its safety contract as the precondition. */
    static function FromBytesWithNulUnchecked(bytes: seq<Byte>): (c: CStr)
      requires IsNulTerminated(bytes) && HasNoInteriorNul(bytes)
      ensures c.Valid() && c.bytesWithNul == bytes
    {
      CStr(bytes)
    }
  }

  /** A `DStr` is the byte sequence `raw` (a Rust `str`, nul included). */
  datatype DStr = DStr(raw: seq<Byte>) {

    ghost predicate Valid() {
      IsDStrBytes(raw)
    }

    /** `len_with_nul`: the length including the nul, read off the slice, never zero. */
    function LenWithNul(): (n: nat)
      requires Valid()
      ensures n >= 1
      ensures Mem.IndexOf(0, raw) == Some(n - 1)
    {
      |raw|
    }

    /** `len`: the length excluding the nul, `len_with_nul() - 1`, equal to what `strlen` would count. */
    function Len(): (n: nat)
      requires Valid()
      ensures n + 1 == LenWithNul()
      ensures Mem.IndexOf(0, raw) == Some(n)
    {
      LenWithNul() - 1
    }

    /** `is_empty`: only the first byte is tested; under the invariant this means no contents. */
    function IsEmpty(): (r: bool)
      requires Valid()
      ensures r <==> Len() == 0
    {
      raw[0] == 0
    }

    /** `as_bytes_with_nul`: all the bytes, ending in the only nul. */
    function AsBytesWithNul(): (b: seq<Byte>)
      requires Valid()
      ensures |b| == LenWithNul() && IsDStrBytes(b)
    {
      raw
    }

    /** `as_bytes`: the first `len()` bytes, that is, everything but the nul. */
    function AsBytes(): (b: seq<Byte>)
      requires Valid()
      ensures |b| == Len() && b + [0] == AsBytesWithNul()
      ensures 0 !in b
    {
      raw[..Len()]
    }

    /** `as_str_with_nul`: the same bytes as `as_bytes_with_nul`, typed as text. */
    function AsStrWithNul(): (s: Str)
      requires Valid()
      ensures s == AsBytesWithNul()
    {
      raw
    }

    /**
     * `as_str`: the same bytes as `as_bytes`, typed as text. The unchecked
     * conversion is sound because dropping the trailing nul keeps the bytes
     * valid UTF-8.
     */
    function AsStr(): (s: Str)
      requires Valid()
      ensures s == AsBytes() && s + [0] == AsStrWithNul()
    {
      DropTrailingNul(raw);
      raw[..Len()]
    }

    /** `as_cstr`: the with-nul bytes meet `CStr`'s unchecked-constructor contract. */
    function AsCStr(): (c: CStr)
      requires Valid()
      ensures c.Valid() && c.bytesWithNul == AsBytesWithNul()
    {
      CStr.FromBytesWithNulUnchecked(AsBytesWithNul())
    }

    /** `from_str_with_nul_unchecked`: the caller vouches for the nul; `str` vouches for UTF-8. */
    static function FromStrWithNulUnchecked(s: Str): (d: DStr)
      requires IsNulTerminated(s) && HasNoInteriorNul(s)
      ensures d.Valid() && d.AsStrWithNul() == s
    {
      DStr(s)
    }

    /** `from_bytes_with_nul_unchecked`: the caller vouches for all three conditions. */
    static function FromBytesWithNulUnchecked(bytes: seq<Byte>): (d: DStr)
      requires IsDStrBytes(bytes)
      ensures d.Valid() && d.AsBytesWithNul() == bytes
    {
      DStr(bytes)
    }
  }

  /** Emptiness three ways: `is_empty()`, the first byte is the nul, no contents. */
  lemma IsEmptyIffNoContents(d: DStr)
    requires d.Valid()
    ensures d.IsEmpty() <==> d.raw[0] == 0
    ensures d.IsEmpty() <==> d.AsBytes() == []
  {
  }

  /** Reading the bytes back from an unchecked byte construction, and rebuilding from them, change nothing. */
  lemma BytesRoundTrip(d: DStr)
    requires d.Valid()
    ensures DStr.FromBytesWithNulUnchecked(d.AsBytesWithNul()) == d
    ensures DStr.FromStrWithNulUnchecked(d.AsStrWithNul()) == d
  {
  }

  /**
   * `strlen(self.as_c_ptr())` is `len()`: a slice never exceeds `isize::MAX`
   * bytes, which is what `strlen`'s contract asks for.
   */
  method StrlenOfCPtr(d: DStr) returns (n: nat)
    requires d.Valid() && d.LenWithNul() <= Mem.IsizeMax
    ensures n == d.Len() && n + 1 == d.LenWithNul()
  {
    var c := d.AsCStr();
    n := Mem.Strlen(c.bytesWithNul);
  }

  /**
   * A `&mut DStr`. Each `_mut` accessor hands the caller the buffer to
   * change in place; a method here takes what the caller has left in it when
   * the borrow ends, and its precondition is the accessor's safety section.
   * The borrowed slice cannot grow or shrink.
   */
  class DStrMut {
    var raw: seq<Byte>

    ghost predicate Valid()
      reads this
    {
      IsDStrBytes(raw)
    }

    /** The shared view of the current contents. */
    function View(): (d: DStr)
      reads this
      ensures Valid() <==> d.Valid()
    {
      DStr(raw)
    }

    /** `from_str_with_nul_unchecked_mut` */
    constructor FromStrWithNulUncheckedMut(s: Str)
      requires IsNulTerminated(s) && HasNoInteriorNul(s)
      ensures Valid() && raw == s
    {
      raw := s;
    }

    /** `from_bytes_with_nul_unchecked_mut` */
    constructor FromBytesWithNulUncheckedMut(bytes: seq<Byte>)
      requires IsDStrBytes(bytes)
      ensures Valid() && raw == bytes
    {
      raw := bytes;
    }

    /** `as_bytes_with_nul_mut`: the caller must leave valid UTF-8, no interior nul, a final nul. */
    method AsBytesWithNulMut(edited: seq<Byte>)
      requires Valid()
      requires |edited| == |raw|
      requires IsWellFormed(edited) && HasNoInteriorNul(edited) && IsNulTerminated(edited)
      modifies this
      ensures Valid() && raw == edited
      ensures View().LenWithNul() == old(View().LenWithNul())
    {
      raw := edited;
    }

    /** `as_bytes_mut`: the caller rewrites only the contents and must leave valid UTF-8 without nuls. */
    method AsBytesMut(edited: seq<Byte>)
      requires Valid()
      requires |edited| == |raw| - 1
      requires IsWellFormed(edited) && 0 !in edited
      modifies this
      ensures Valid() && raw == edited + [0]
      ensures View().AsBytes() == edited && View().Len() == old(View().Len())
    {
      DStrBytesLayout(edited);
      raw := edited + [0];
    }

    /** `as_str_with_nul_mut`: the text stays UTF-8 by type; the caller must keep the single final nul. */
    method AsStrWithNulMut(edited: Str)
      requires Valid()
      requires |edited| == |raw|
      requires HasNoInteriorNul(edited) && IsNulTerminated(edited)
      modifies this
      ensures Valid() && raw == edited
      ensures View().AsStrWithNul() == edited
    {
      raw := edited;
    }

    /** `as_str_mut`: the text stays UTF-8 by type; the caller must leave no nul in it. */
    method AsStrMut(edited: Str)
      requires Valid()
      requires |edited| == |raw| - 1
      requires 0 !in edited
      modifies this
      ensures Valid() && raw == edited + [0]
      ensures View().AsStr() == edited
    {
      DStrBytesLayout(edited);
      raw := edited + [0];
    }
  }
}
