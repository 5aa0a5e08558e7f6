/**
  The whole-message decoder `RespDecode`. Unlike the extractor it must
  consume its entire input. Scalars are decoded by splitting the text after
  the type byte on every CRLF; arrays are handed to the extractor, which must
  leave nothing behind.
*/
module RespDecode {
  import opened Wrappers
  import opened GoStrings
  import opened GoStrconv
  import opened RespErrors
  import opened RespValue
  import opened RespExtract

  /** Splitting on every terminator is the first line followed by the split of what follows it. */
  lemma SplitLines(t: Bytes)
    ensures NoCRLF(t) ==> Split(t, CRLF) == [t]
    ensures !NoCRLF(t) ==> Split(t, CRLF) == [FirstLine(t)] + Split(AfterFirstLine(t), CRLF)
  {
    NoCRLFIsNotContains(t);
    match Index(t, CRLF)
    case None =>
    case Some(m) =>
      assert FirstLine(t) == t[..m] && AfterFirstLine(t) == t[m + 2..];
  }

  /**
    The check the simple-string, error-string and integer decoders share:
    `strings.Split` on CRLF must give exactly two parts, the second empty.
    Errors name the decoder `fn` and report the input after its type byte.
  */
  function DecodeLine(fn: Bytes, t: Bytes): (r: Result<Bytes, Error>)
    ensures r.Success? ==> NoCRLF(r.value) && t == r.value + CRLF
    ensures r.Failure? ==> r.error.RespSerError? && r.error.func == fn && r.error.input == t
  {
    var parts := Split(t, CRLF);
    if |parts| != 2 then Failure(InvalidInputPartsError(fn, t))
    else if parts[1] != "" then Failure(InvalidInputDataError(fn, t))
    else
      SplitPiece(t, CRLF, 0);
      NoCRLFIsNotContains(parts[0]);
      assert Join(parts, CRLF) == parts[0] + CRLF + parts[1];
      Success(parts[0])
  }

  /**
    `DecodeLine` read line by line: no terminator or a second one is
    `InvalidInputParts`, bytes after the only terminator are
    `InvalidInputData`, and one line ended by CRLF gives that line.
  */
  lemma DecodeLineCases(fn: Bytes, t: Bytes)
    ensures NoCRLF(t) ==> DecodeLine(fn, t) == Failure(InvalidInputPartsError(fn, t))
    ensures !NoCRLF(t) && !NoCRLF(AfterFirstLine(t)) ==> DecodeLine(fn, t) == Failure(InvalidInputPartsError(fn, t))
    ensures !NoCRLF(t) && NoCRLF(AfterFirstLine(t)) && AfterFirstLine(t) != [] ==>
      DecodeLine(fn, t) == Failure(InvalidInputDataError(fn, t))
    ensures !NoCRLF(t) && AfterFirstLine(t) == [] ==> DecodeLine(fn, t) == Success(FirstLine(t))
  {
    SplitLines(t);
    if !NoCRLF(t) {
      var a := AfterFirstLine(t);
      SplitLines(a);
      var parts, tail := Split(t, CRLF), Split(a, CRLF);
      assert |parts| == |tail| + 1 && parts[0] == FirstLine(t) && parts[1] == tail[0];
      if !NoCRLF(a) {
        assert |tail| >= 2;
      }
    }
  }

  /** One CRLF-free line followed by CRLF is accepted, and gives the line back. */
  lemma DecodeLineOf(fn: Bytes, x: Bytes)
    requires NoCRLF(x)
    ensures DecodeLine(fn, x + CRLF) == Success(x)
  {
    assert x + CRLF == x + CRLF + [];
    LineOf(x, []);
    DecodeLineCases(fn, x + CRLF);
  }

  /** `decodeSimpleString`: the text of the single line after `+`. */
  function DecodeSimpleString(s: Bytes): (r: Result<Value, Error>)
    ensures r.Success? ==> r.value.SimpleString? && NoCRLF(r.value.s) && TrimPrefix(s, "+") == r.value.s + CRLF
    ensures r.Failure? ==> r.error.RespSerError? && r.error.func == "decodeSimpleString" && r.error.input == TrimPrefix(s, "+")
  {
    match DecodeLine("decodeSimpleString", TrimPrefix(s, "+"))
    case Success(x) => Success(SimpleString(x))
    case Failure(e) => Failure(e)
  }

  /** `decodeErrorString`: the text of the single line after `-`. */
  function DecodeErrorString(s: Bytes): (r: Result<Value, Error>)
    ensures r.Success? ==> r.value.ErrorString? && NoCRLF(r.value.e) && TrimPrefix(s, "-") == r.value.e + CRLF
    ensures r.Failure? ==> r.error.RespSerError? && r.error.func == "decodeErrorString" && r.error.input == TrimPrefix(s, "-")
  {
    match DecodeLine("decodeErrorString", TrimPrefix(s, "-"))
    case Success(x) => Success(ErrorString(x))
    case Failure(e) => Failure(e)
  }

  /**
    `decodeInteger`: the single line after `:` read by `Atoi`; a line `Atoi`
    rejects is `InvalidInputData` joined with the conversion error.
  */
  function DecodeInteger(s: Bytes): (r: Result<Value, Error>)
    ensures r.Success? ==> r.value.Integer?
    ensures r.Success? ==> exists x :: TrimPrefix(s, ":") == x + CRLF && NoCRLF(x) && Atoi(x) == Some(r.value.n)
  {
    var t := TrimPrefix(s, ":");
    match DecodeLine("decodeInteger", t)
    case Failure(e) => Failure(e)
    case Success(x) =>
      match Atoi(x)
      case None => Failure(Joined([InvalidInputDataError("decodeInteger", t), NumError(x)]))
      case Some(n) => Success(Integer(n))
  }

  /**
    `decodeBulkString`: the text after `$` split on every CRLF. Two parts are
    accepted only as the null bulk string `-1` with nothing after it; three
    parts are a length, the payload, and a last part that is never looked at.
  */
  function DecodeBulkString(s: Bytes): (r: Result<Value, Error>)
    ensures r.Success? ==> r.value.BulkString?
    ensures r.Success? && r.value.payload.Some? ==> NoCRLF(r.value.payload.value)
  {
    var t := TrimPrefix(s, "$");
    var parts := Split(t, CRLF);
    if |parts| == 2 then
      if parts[0] != "-1" || parts[1] != "" then Failure(InvalidInputPartsError("decodeBulkString", t))
      else Success(BulkString(None))
    else if |parts| != 3 then Failure(InvalidInputPartsError("decodeBulkString", t))
    else
      match Atoi(parts[0])
      case None => Failure(Joined([InvalidInputDataError("decodeBulkString", t), NumError(parts[0])]))
      case Some(l) =>
        if l != |parts[1]| then Failure(DataMismatchError("decodeBulkString", t))
        else
          SplitPiece(t, CRLF, 1);
          NoCRLFIsNotContains(parts[1]);
          Success(BulkString(Some(parts[1])))
  }

  /** The count header of an array message, as `decodeArray` reads it: the first line without its `*`. */
  function ArrayCount(s: Bytes): Bytes {
    TrimPrefix(Split(s, CRLF)[0], "*")
  }

  /**
    `decodeArray`: a count of -1 is the null array whatever follows; any
    other count hands the whole input to `ExtractArray`, which must succeed
    and leave nothing unconsumed.
  */
  function DecodeArray(s: Bytes): (r: Result<Value, Error>)
    ensures r.Success? ==> r.value.Array?
    ensures r.Success? && r.value.elements.Present? ==> ExtractArray(s) == Extracted(r.value, [])
  {
    var count := ArrayCount(s);
    match Atoi(count)
    case None => Failure(Joined([InvalidInputDataError("decodeArray", s), NumError(count)]))
    case Some(l) =>
      if l == -1 then Success(Array(Null))
      else
        match ExtractArray(s)
        case NotExtracted(_, e) => Failure(Joined([DecodeContext("decodeArray", s), e]))
        case Extracted(v, rest) =>
          if rest != [] then Failure(InvalidInputDataError("decodeArray", s))
          else Success(v)
  }

  /** `RespDecode`: dispatch on the type byte; anything else, the empty input included, is `InvalidType`. */
  function Decode(s: Bytes): (r: Result<Value, Error>)
    ensures (|s| == 0 || s[0] !in "+-:$*") ==> r == Failure(InvalidTypeError("RespDecode", s))
  {
    if HasPrefix(s, "+") then HasPrefixByte(s, '+'); DecodeSimpleString(s)
    else if HasPrefix(s, "-") then HasPrefixByte(s, '-'); DecodeErrorString(s)
    else if HasPrefix(s, ":") then HasPrefixByte(s, ':'); DecodeInteger(s)
    else if HasPrefix(s, "$") then HasPrefixByte(s, '$'); DecodeBulkString(s)
    else if HasPrefix(s, "*") then HasPrefixByte(s, '*'); DecodeArray(s)
    else Failure(InvalidTypeError("RespDecode", s))
  }
}
