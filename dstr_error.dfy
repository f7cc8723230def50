/**
 * The error taxonomy of src/dstr/error.rs: why text (`FromStrError`) or
 * bytes (`FromBytesError`) cannot be viewed as a `DStr`.
 */
module DstrError {
  import opened Wrappers

  /** The `msg!` texts, one per error kind. */
  const NotNulTerminatedMessage: string := "input was not nul-terminated"
  const InteriorNulMessage: string := "input contains an interior nul"
  const MissingNulMessage: string := "input does not contain a nul"
  const InvalidUtf8Message: string := "input contains invalid utf-8"

  /** What `Display` writes between the message and the position of an interior nul. */
  const PositionSeparator: string := " at pos "

  /** Stand-in for `core::str::Utf8Error`; nothing here looks inside it. */
  datatype Utf8Error = Utf8Error(validUpTo: nat, errorLen: Option<nat>)

  /** Errors found while validating text known to be UTF-8. */
  datatype FromStrError = NotNulTerminated | InteriorNul(pos: nat) | MissingNul {

    /** `message`: a constant per kind, blind to the position. */
    function Message(): (m: string)
      ensures |m| > 0
    {
      match this
      case NotNulTerminated => NotNulTerminatedMessage
      case InteriorNul(_) => InteriorNulMessage
      case MissingNul => MissingNulMessage
    }

    /** `to_from_bytes_error`: the same-named bytes error, never `InvalidUtf8`. */
    function ToFromBytesError(): (r: FromBytesError)
      ensures !r.InvalidUtf8?
      ensures r.Message() == Message()
      ensures r.InteriorNul? ==> InteriorNul? && r.pos == pos
    {
      match this
      case NotNulTerminated => FromBytesError.NotNulTerminated
      case InteriorNul(p) => FromBytesError.InteriorNul(p)
      case MissingNul => FromBytesError.MissingNul
    }

    /**
     * `Display`: the message, then " at pos {pos}" for an interior nul only.
     * `formatPos` stands for the formatter's rendering of a `usize`.
     */
    function Display(formatPos: nat -> string): (out: string)
      ensures |Message()| <= |out| && out[..|Message()|] == Message()
      ensures out == Message() <==> !InteriorNul?
      ensures InteriorNul? ==> out[|Message()|..] == PositionSeparator + formatPos(pos)
    {
      if InteriorNul? then Message() + PositionSeparator + formatPos(pos) else Message()
    }

    /** `PartialEq<FromBytesError>`: converts `other` back, and is false where that fails. */
    function EqFromBytesError(other: FromBytesError): (r: bool)
      ensures r <==> other == ToFromBytesError()
      ensures other.InvalidUtf8? ==> !r
    {
      match TryFrom(other)
      case Ok(o) => this == o
      case Err(_) => false
    }

    /** `TryFrom<FromBytesError>`: undoes `ToFromBytesError`, and fails exactly on `InvalidUtf8`. */
    static function TryFrom(value: FromBytesError): (r: Result<FromStrError, ()>)
      ensures r.Err? <==> value.InvalidUtf8?
      ensures r.Ok? ==> r.value.ToFromBytesError() == value
    {
      match value
      case NotNulTerminated => Ok(FromStrError.NotNulTerminated)
      case InteriorNul(p) => Ok(FromStrError.InteriorNul(p))
      case MissingNul => Ok(FromStrError.MissingNul)
      case InvalidUtf8(_) => Err(())
    }
  }

  /** Errors found while validating arbitrary bytes: the text errors and invalid UTF-8. */
  datatype FromBytesError = NotNulTerminated | InteriorNul(pos: nat) | MissingNul | InvalidUtf8(err: Utf8Error) {

    /** `message`: a constant per kind, blind to the payload. */
    function Message(): (m: string)
      ensures |m| > 0
    {
      match this
      case NotNulTerminated => NotNulTerminatedMessage
      case InteriorNul(_) => InteriorNulMessage
      case MissingNul => MissingNulMessage
      case InvalidUtf8(_) => InvalidUtf8Message
    }

    /** `Display`: the message, then " at pos {pos}" for an interior nul only. */
    function Display(formatPos: nat -> string): (out: string)
      ensures |Message()| <= |out| && out[..|Message()|] == Message()
      ensures out == Message() <==> !InteriorNul?
      ensures InteriorNul? ==> out[|Message()|..] == PositionSeparator + formatPos(pos)
    {
      if InteriorNul? then Message() + PositionSeparator + formatPos(pos) else Message()
    }

    /** `Error::source`: the underlying UTF-8 error, present only for `InvalidUtf8`. */
    function Source(): (r: Option<Utf8Error>)
      ensures r.Some? <==> InvalidUtf8?
      ensures r.Some? ==> r.value == err
    {
      match this
      case InvalidUtf8(e) => Some(e)
      case _ => None
    }

    /** `From<FromStrError>`: lossless, as `TryFrom` recovers the original. */
    static function From(value: FromStrError): (r: FromBytesError)
      ensures FromStrError.TryFrom(r) == Ok(value)
    {
      value.ToFromBytesError()
    }

    /** `PartialEq<FromStrError>`: compares against the converted text error; agrees with the other direction. */
    function EqFromStrError(other: FromStrError): (r: bool)
      ensures r <==> other.EqFromBytesError(this)
      ensures r <==> FromStrError.TryFrom(this) == Ok(other)
    {
      this == From(other)
    }
  }

  /** Converting to a bytes error and back gives the original. */
  lemma RoundTrip(e: FromStrError)
    ensures FromStrError.TryFrom(FromBytesError.From(e)) == Ok(e)
    ensures FromStrError.TryFrom(e.ToFromBytesError()) == Ok(e)
  {
  }

  /** Every bytes error that is not `InvalidUtf8` converts to a text error equal to it under the cross equality. */
  lemma TryFromSound(b: FromBytesError)
    requires !b.InvalidUtf8?
    ensures FromStrError.TryFrom(b).Ok?
    ensures FromStrError.TryFrom(b).value.EqFromBytesError(b)
    ensures b.EqFromStrError(FromStrError.TryFrom(b).value)
  {
  }

  /** The cross equality is symmetric. */
  lemma CrossEqSymmetric(s: FromStrError, b: FromBytesError)
    ensures s.EqFromBytesError(b) <==> b.EqFromStrError(s)
  {
  }

  /** Messages depend on the kind only: the position of an interior nul does not change it, and kinds are told apart. */
  lemma MessageIgnoresPayload(p: nat, q: nat, e: Utf8Error, f: Utf8Error)
    ensures FromStrError.InteriorNul(p).Message() == FromStrError.InteriorNul(q).Message()
    ensures FromBytesError.InteriorNul(p).Message() == FromBytesError.InteriorNul(q).Message()
    ensures FromBytesError.InvalidUtf8(e).Message() == FromBytesError.InvalidUtf8(f).Message()
  {
  }

  /** Two bytes errors have the same message exactly when they are of the same kind. */
  lemma MessageDeterminesKind(a: FromBytesError, b: FromBytesError)
    ensures a.Message() == b.Message() <==>
      (a.NotNulTerminated? && b.NotNulTerminated?) || (a.InteriorNul? && b.InteriorNul?) ||
      (a.MissingNul? && b.MissingNul?) || (a.InvalidUtf8? && b.InvalidUtf8?)
  {
  }

  /** Converting a text error keeps its message and its `Display` output. */
  lemma ConversionKeepsText(e: FromStrError, formatPos: nat -> string)
    ensures FromBytesError.From(e).Message() == e.Message()
    ensures FromBytesError.From(e).Display(formatPos) == e.Display(formatPos)
  {
  }
}
