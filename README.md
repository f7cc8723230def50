# dstr in Dafny

A model of the `dstr` crate: `DStr`, a borrowed UTF-8 string that keeps its
nul terminator and its length together. A valid `DStr` is a byte sequence
that is well-formed UTF-8, has no zero byte before its last byte, and ends
with a zero. So its length without the nul is always the stored length minus
one, and no scan is ever needed. Around it the model covers:

- the two byte scanners the crate ships, `memchr` and `strlen`;
- the error taxonomy, `FromStrError` and `FromBytesError`;
- the owned `DString` built by copying a `DStr`.

Files and modules:

- `wrappers.dfy` (`Wrappers`): `Option` and `Result`.
- `utf8.dfy` (`Utf8`): bytes, UTF-8 well-formedness as the `UTF8-octets`
  grammar of section 4 of RFC 3629, and `Str`, the byte sequences a Rust
  `str` may hold. Its lemmas prove two things. Appending a `0x00` to a
  well-formed sequence keeps it well-formed. Removing a final `0x00` does too.
- `mem.dfy` (`Mem`): `IndexOf`, the reference definition of "first occurrence".
  `Memchr` and `Strlen` are loops proved against it.
- `dstr.dfy` (`Dstr`): the `DStr` invariant, every accessor, the `CStr` view,
  the unchecked constructors, and `DStrMut` for `&mut DStr`. Each `_mut`
  accessor is a method that takes what the caller leaves in the borrowed
  buffer. Its precondition is that accessor's safety section.
- `dstr_error.dfy` (`DstrError`): both error enums, `message`, `Display`,
  `source`, the conversions both ways and both cross-type equalities.
- `dstring.dfy` (`Dstring`): `DString` and its two `From` conversions.

Text and bytes are the same storage in the source, so one byte sequence
serves as both here. A text view is that sequence typed as `Str`.

## Model

| member | source | states |
|---|---|---|
| `Dstr.DStrBytesLayout` | src/dstr.rs:25-38 | a buffer is a valid `DStr` exactly when it is valid-UTF-8 contents with no zero byte followed by one nul |
| `Dstr.DStr.LenWithNul` | src/dstr.rs:50-67 | the length including the nul is at least 1, and `strlen` over the bytes finds the nul at `len_with_nul() - 1` |
| `Dstr.DStr.Len` | src/dstr.rs:69-78 | the length excluding the nul is `len_with_nul() - 1` and is where the first zero byte sits, which is what `strlen` returns |
| `Dstr.DStr.IsEmpty` | src/dstr.rs:80-94 | testing only the first byte for zero gives true exactly when `len()` is 0 |
| `Dstr.IsEmptyIffNoContents` | src/dstr.rs:80-94 | `is_empty()` holds iff the first byte is the nul, iff `as_bytes()` is empty |
| `Dstr.DStr.AsBytesWithNul` | src/dstr.rs:96-102 | the with-nul bytes are `len_with_nul()` long, valid UTF-8, end in the nul and have no earlier zero |
| `Dstr.DStr.AsBytes` | src/dstr.rs:122-131 | the bytes without the nul are `len()` long, contain no zero, and with a nul appended are exactly `as_bytes_with_nul()` |
| `Dstr.DStr.AsStrWithNul` | src/dstr.rs:152-158 | the with-nul text is the same bytes as `as_bytes_with_nul()` and is a valid `str` |
| `Dstr.DStr.AsStr` | src/dstr.rs:179-185 | the text without the nul is the same bytes as `as_bytes()`, is still valid UTF-8, and plus a nul gives `as_str_with_nul()` |
| `Utf8.DropTrailingNul` | src/dstr.rs:183-185 | removing a final `0x00` from well-formed UTF-8 leaves well-formed UTF-8, which makes the unchecked conversion in `as_str` sound |
| `Utf8.ConcatWellFormed` | src/dstr.rs:133-150 | two well-formed UTF-8 sequences joined are well-formed, so contents written through `as_bytes_mut` plus the kept nul stay valid |
| `Utf8.AppendNulWellFormed` | src/dstr.rs:25-38 | a sequence with `0x00` appended is well-formed exactly when the sequence is |
| `Dstr.DStr.AsCStr` | src/dstr.rs:201-206 | the with-nul bytes meet the contract of `CStr::from_bytes_with_nul_unchecked`, and the `CStr` holds exactly those bytes |
| `Dstr.CStr.FromBytesWithNulUnchecked` | src/dstr.rs:204-206 | the unchecked `CStr` construction expects a nul-terminated buffer with no interior nul and keeps it unchanged |
| `Dstr.DStr.FromStrWithNulUnchecked` | src/dstr.rs:258-269 | given nul-terminated text with no interior nul, the result is a valid `DStr` whose `as_str_with_nul()` is that text |
| `Dstr.DStr.FromBytesWithNulUnchecked` | src/dstr.rs:284-295 | given bytes meeting the `DStr` safety contract, the result is a valid `DStr` whose `as_bytes_with_nul()` is those bytes |
| `Dstr.BytesRoundTrip` | src/dstr.rs:258-295 | rebuilding a `DStr` without checks from its own with-nul bytes or with-nul text gives the same `DStr` |
| `Dstr.StrlenOfCPtr` | src/dstr.rs:69-72 | running `strlen` on the C-string bytes returns `len()`, and `len_with_nul()` is that count plus one |
| `Dstr.DStrMut.View` | src/dstr.rs:41-43 | the shared view of a `&mut DStr` is valid exactly when the mutable one is |
| `Dstr.DStrMut.FromStrWithNulUncheckedMut` | src/dstr.rs:271-282 | a mutable `DStr` made from nul-terminated text without interior nul is valid and holds that text |
| `Dstr.DStrMut.FromBytesWithNulUncheckedMut` | src/dstr.rs:297-308 | a mutable `DStr` made from bytes meeting the safety contract is valid and holds those bytes |
| `Dstr.DStrMut.AsBytesWithNulMut` | src/dstr.rs:104-120 | if the caller leaves valid UTF-8 with no interior nul and a final nul in the fixed-size slice, the `DStr` is valid again with those bytes and the same length |
| `Dstr.DStrMut.AsBytesMut` | src/dstr.rs:133-150 | if the caller leaves valid UTF-8 with no zero in the contents slice, the `DStr` is valid again with those contents and the original nul |
| `Dstr.DStrMut.AsStrWithNulMut` | src/dstr.rs:160-177 | if the caller leaves the text with no interior nul and a final nul, the `DStr` is valid again and reads back that text |
| `Dstr.DStrMut.AsStrMut` | src/dstr.rs:187-199 | if the caller leaves the contents text without nuls, the `DStr` is valid again and `as_str()` reads back that text |
| `Mem.IndexOf` | src/mem.rs:6-18 | a found index is in range, holds the needle, and no earlier byte does; none is found exactly when the needle does not occur |
| `Mem.Memchr` | src/mem.rs:6-18 | the loop returns exactly the first occurrence of the needle, or `None` when there is none |
| `Mem.Strlen` | src/mem.rs:20-39 | with a zero within `isize::MAX` bytes, the count stops at the first zero, every earlier byte is non-zero, and the count never passes `isize::MAX` |
| `Mem.MemchrFindsStrlen` | src/mem.rs:6-39 | on memory containing a zero, `memchr(0, ..)` returns `Some(strlen(..))` |
| `DstrError.FromStrError.Message` | src/dstr/error.rs:29-38 | each text error has a fixed non-empty message, whatever the position |
| `DstrError.FromStrError.ToFromBytesError` | src/dstr/error.rs:45-53 | the conversion never yields `InvalidUtf8`, keeps the message, and keeps the position of an interior nul |
| `DstrError.FromStrError.Display` | src/dstr/error.rs:56-66 | the output starts with the message and goes on with " at pos " and the position exactly for `InteriorNul` |
| `DstrError.FromStrError.EqFromBytesError` | src/dstr/error.rs:77-84 | a text error equals a bytes error exactly when converting the text error gives that bytes error, and never equals `InvalidUtf8` |
| `DstrError.FromStrError.TryFrom` | src/dstr/error.rs:86-98 | the conversion fails exactly on `InvalidUtf8`, and on success converting back gives the input |
| `DstrError.FromBytesError.Message` | src/dstr/error.rs:108-118 | each bytes error has a fixed non-empty message, whatever its payload |
| `DstrError.FromBytesError.Display` | src/dstr/error.rs:126-136 | the output starts with the message and goes on with " at pos " and the position exactly for `InteriorNul` |
| `DstrError.FromBytesError.Source` | src/dstr/error.rs:138-146 | there is an underlying error exactly for `InvalidUtf8`, and it is that variant's payload |
| `DstrError.FromBytesError.From` | src/dstr/error.rs:155-160 | the conversion is lossless: `try_from` of its result gives the original back |
| `DstrError.FromBytesError.EqFromStrError` | src/dstr/error.rs:162-166 | a bytes error equals a text error exactly when the text error equals it the other way, and exactly when `try_from` gives that text error |
| `DstrError.RoundTrip` | src/dstr/error.rs:47-53 | `try_from(from(e)) == Ok(e)` for every text error |
| `DstrError.TryFromSound` | src/dstr/error.rs:90-97 | every bytes error other than `InvalidUtf8` converts, and the result is equal to it under both cross equalities |
| `DstrError.CrossEqSymmetric` | src/dstr/error.rs:162-166 | the two cross equalities agree for every pair |
| `DstrError.MessageIgnoresPayload` | src/dstr/error.rs:111-118 | the message does not depend on the interior-nul position or the UTF-8 error detail |
| `DstrError.MessageDeterminesKind` | src/dstr/error.rs:4-20 | two bytes errors have the same message exactly when they are the same kind, so the four `msg!` texts differ |
| `DstrError.ConversionKeepsText` | src/dstr/error.rs:155-160 | converting a text error keeps its message and its `Display` output |
| `Dstring.DString.FromDStr` | src/dstring.rs:45-52 | the copy holds exactly `as_str_with_nul()` and satisfies the `DStr` invariant: non-empty, UTF-8, a final nul and no other |
| `Dstring.DString.FromDStrMut` | src/dstring.rs:54-61 | the copy from a `&mut DStr` equals the copy from its shared view, and the source is not modified |
| `Dstring.EqIffInnerEq` | src/dstring.rs:7-11 | the derived equality holds exactly when the inner strings are equal |
| `Dstring.FromDStrFaithful` | src/dstring.rs:45-61 | copies of two views are equal exactly when the views are, and the copy's bytes rebuild the original view |

## Left out

- Raw pointers (`as_ptr`, `as_ptr_mut`, `as_c_ptr`, `as_c_ptr_mut`) and the fat-pointer casts of the unchecked constructors. Addresses are not modelled, so a view is its byte sequence. `as_cstr` gives the `CStr` value of the same bytes.
- Aliasing of the `_mut` accessors. `DStrMut` holds a copy of the bytes, and each `_mut` method takes the final slice contents in one step. Writes seen while the borrow is open are not modelled, and the caller's buffer is not aliased.
- `strlen` on pointers that break its safety contract (undefined behaviour). The contract is the method's precondition. Memory is the readable bytes from the pointer on, as a sequence.
- Integer widths: lengths and positions are unbounded naturals. Rust slices are at most `isize::MAX` bytes, so `usize` arithmetic here cannot wrap. `Mem.Strlen` does prove its count stays within `isize::MAX`. `len_with_nul() - 1` cannot underflow because the length is at least 1.
- Formatter I/O and integer-to-text formatting. `Display` is string concatenation over a caller-supplied `formatPos`.
- `Utf8Error` internals: an opaque payload that nothing inspects.
- Validating constructors. The source has none, although the error types exist.
- `DString::as_dstr`, `as_dstr_mut` and the `Deref`/`DerefMut` impls: their bodies are `todo!()`.
- The commented-out `EMPTY` constant, the deprecated `description`, the `_panic` helpers, the `msg!` macro's compile-error arm, and derived `Hash`, `PartialOrd`, `Ord`, `Clone` and `Debug`. Derived `PartialEq` is Dafny's structural equality.
- `CStr` internals beyond its unchecked constructor's contract.
- src/lib.rs: module declarations and re-exports only.
