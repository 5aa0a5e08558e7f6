/**
  The codec's error taxonomy: five sentinel kinds, the `RespSerError`
  context wrapper (producing function, raw input, wrapped sentinel), joined
  errors, and `errors.Is`-style matching that walks the whole cause tree.
*/
module RespErrors {
  import opened Wrappers
  import opened GoStrings

  /** The sentinel error values `ErrInvalidType` … `ErrFailedExtraction`. */
  datatype Kind =
    | InvalidType
    | InvalidInputData
    | DataMismatch
    | InvalidInputParts
    | FailedExtraction

  datatype Error =
      /** One of the package-level sentinels. */
    | Sentinel(kind: Kind)
      /** `RespSerError{Func, In, Err}`. */
    | RespSerError(func: Bytes, input: Bytes, err: Error)
      /** `errors.Join` of several errors, in order. */
    | Joined(errs: seq<Error>)
      /** The syntax error `strconv.Atoi` reports for `num`; opaque to the codec. */
    | NumError(num: Bytes)
      /**
        The error `decodeError(fn, in)` builds when an array fails to decode;
        its definition is not part of this model, so it carries no kind.
      */
    | DecodeContext(func: Bytes, input: Bytes)

  /** `(*RespSerError).Unwrap`: the wrapped cause; None for errors that wrap nothing single. */
  function Unwrap(e: Error): (r: Option<Error>)
    ensures r.Some? <==> e.RespSerError?
    ensures e.RespSerError? ==> r.value == e.err
  {
    match e
    case RespSerError(_, _, err) => Some(err)
    case _ => None
  }

  /**
    `errors.Is(e, kind)`: the error is the sentinel itself, or some error
    reachable by unwrapping (through joins as well) is.
  */
  predicate Is(e: Error, k: Kind)
    decreases e
  {
    match e
    case Sentinel(kind) => kind == k
    case RespSerError(_, _, err) => Is(err, k)
    case Joined(errs) => exists i | 0 <= i < |errs| :: Is(errs[i], k)
    case NumError(_) => false
    case DecodeContext(_, _) => false
  }

  /**
    How `errors.Is` walks an error: it matches its own sentinel, follows
    `Unwrap` where there is one, and tries every part of a join; no other
    error matches anything.
  */
  lemma IsUnwraps(e: Error, k: Kind)
    ensures e.Sentinel? ==> (Is(e, k) <==> e == Sentinel(k))
    ensures Unwrap(e).Some? ==> (Is(e, k) <==> Is(Unwrap(e).value, k))
    ensures Is(e, k) ==> e.Sentinel? || Unwrap(e).Some? || e.Joined?
  {
  }

  /** A joined error matches a kind exactly when one of its parts does. */
  lemma JoinedIs(errs: seq<Error>, k: Kind)
    ensures Is(Joined(errs), k) <==> exists i | 0 <= i < |errs| :: Is(errs[i], k)
  {
  }

  /** The single shared shape of the five constructors below. */
  function Wrap(fn: Bytes, input: Bytes, kind: Kind): (r: Error)
    ensures r.RespSerError? && r.func == fn && r.input == input
    ensures Unwrap(r) == Some(Sentinel(kind))
    ensures forall k :: Is(r, k) <==> k == kind
  {
    RespSerError(fn, input, Sentinel(kind))
  }

  function InvalidTypeError(fn: Bytes, input: Bytes): (r: Error)
    ensures r.RespSerError? && r.func == fn && r.input == input
    ensures forall k :: Is(r, k) <==> k == InvalidType
  {
    Wrap(fn, input, InvalidType)
  }

  function InvalidInputDataError(fn: Bytes, input: Bytes): (r: Error)
    ensures r.RespSerError? && r.func == fn && r.input == input
    ensures forall k :: Is(r, k) <==> k == InvalidInputData
  {
    Wrap(fn, input, InvalidInputData)
  }

  function DataMismatchError(fn: Bytes, input: Bytes): (r: Error)
    ensures r.RespSerError? && r.func == fn && r.input == input
    ensures forall k :: Is(r, k) <==> k == DataMismatch
  {
    Wrap(fn, input, DataMismatch)
  }

  function InvalidInputPartsError(fn: Bytes, input: Bytes): (r: Error)
    ensures r.RespSerError? && r.func == fn && r.input == input
    ensures forall k :: Is(r, k) <==> k == InvalidInputParts
  {
    Wrap(fn, input, InvalidInputParts)
  }

  function FailedExtractionError(fn: Bytes, input: Bytes): (r: Error)
    ensures r.RespSerError? && r.func == fn && r.input == input
    ensures forall k :: Is(r, k) <==> k == FailedExtraction
  {
    Wrap(fn, input, FailedExtraction)
  }
}
