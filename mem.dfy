/** The two byte scanners of src/mem.rs. */
module Mem {
  import opened Wrappers
  import opened Utf8

  /** `isize::MAX` on a 64-bit target. */
  const IsizeMax: nat := 0x7FFF_FFFF_FFFF_FFFF

  /**
   * The index of the first occurrence of `needle` in `haystack`, if any:
   * the reference definition both scanners are proved against.
   */
  function IndexOf(needle: Byte, haystack: seq<Byte>): (r: Option<nat>)
    ensures r.Some? ==> r.value < |haystack| && haystack[r.value] == needle
    ensures r.Some? ==> forall j :: 0 <= j < r.value ==> haystack[j] != needle
    ensures r.None? <==> needle !in haystack
    decreases |haystack|
  {
    if |haystack| == 0 then None
    else if haystack[0] == needle then Some(0)
    else match IndexOf(needle, haystack[1..])
      case None => None
      case Some(i) => Some(i + 1)
  }

  /** `memchr`: scans `haystack` left to right and stops at the first byte equal to `needle`. */
  method Memchr(needle: Byte, haystack: seq<Byte>) returns (r: Option<nat>)
    ensures r == IndexOf(needle, haystack)
  {
    var index: nat := 0;
    while index < |haystack|
      invariant index <= |haystack|
      invariant forall j :: 0 <= j < index ==> haystack[j] != needle
    {
      if haystack[index] == needle {
        return Some(index);
      }
      index := index + 1;
    }
    return None;
  }

  /**
   * `strlen`: `memory` is the readable memory starting at the pointer. The
   * safety contract becomes the precondition: a zero byte lies within
   * `isize::MAX` bytes of the start. The count therefore never wraps.
   */
  method Strlen(memory: seq<Byte>) returns (len: nat)
    requires exists i :: 0 <= i < |memory| && i <= IsizeMax && memory[i] == 0
    ensures len < |memory| && len <= IsizeMax && memory[len] == 0
    ensures forall j :: 0 <= j < len ==> memory[j] != 0
    ensures IndexOf(0, memory) == Some(len)
  {
    ghost var nul :| 0 <= nul < |memory| && nul <= IsizeMax && memory[nul] == 0;
    len := 0;
    while memory[len] != 0
      invariant len <= nul
      invariant forall j :: 0 <= j < len ==> memory[j] != 0
      decreases nul - len
    {
      len := len + 1;
    }
  }

  /** Both scanners agree: on memory holding a zero, `memchr(0, ..)` finds what `strlen` counts. */
  method MemchrFindsStrlen(memory: seq<Byte>) returns (found: Option<nat>, len: nat)
    requires exists i :: 0 <= i < |memory| && i <= IsizeMax && memory[i] == 0
    ensures found == Some(len)
  {
    found := Memchr(0, memory);
    len := Strlen(memory);
  }
}
