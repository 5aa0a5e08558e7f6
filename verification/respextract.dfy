/**
  The prefix extractor: parses one value from the front of a buffer and
  returns what follows it unconsumed. Arrays recurse through `ExtractType`,
  and every successful call consumes at least one byte, which is what makes
  the recursion terminate.
*/
module RespExtract {
  import opened Wrappers
  import opened GoStrings
  import opened GoStrconv
  import opened RespErrors
  import opened RespValue

  /** Go's `(value, remainder, error)` triple: a value and the rest, or the input handed back with an error. */
  datatype Extraction =
    | Extracted(value: Value, rest: Bytes)
    | NotExtracted(rest: Bytes, error: Error)

  /** The failure shape every extractor shares: no value, the original input as remainder, an error of kind `k`. */
  predicate FailsWith(r: Extraction, s: Bytes, k: Kind) {
    r.NotExtracted? && r.rest == s && Is(r.error, k)
  }

  /** `HasPrefix` with a one-byte prefix is a test of the first byte. */
  lemma HasPrefixByte(s: Bytes, c: Byte)
    ensures HasPrefix(s, [c]) <==> |s| > 0 && s[0] == c
  {
    if |s| > 0 && s[0] == c {
      assert s[..1] == [c];
    }
  }

  /** The bytes before the first CRLF (all of `s` when there is none). */
  function FirstLine(s: Bytes): (r: Bytes)
    ensures |s| > 0 && s[0] != '\r' ==> |r| > 0 && r[0] == s[0]
  {
    match Index(s, CRLF)
    case Some(m) =>
      OccursAtCRLF(s, m);
      s[..m]
    case None => s
  }

  /** The text of the first line after its one-byte type marker. */
  function Header(s: Bytes): Bytes {
    var line := FirstLine(s);
    if |line| == 0 then [] else line[1..]
  }

  /** The bytes after the first CRLF (nothing when there is none). */
  function AfterFirstLine(s: Bytes): Bytes {
    match Index(s, CRLF)
    case Some(m) => s[m + 2..]
    case None => []
  }

  /** Cutting at the first terminator with `SplitN(s, CRLF, 2)`. */
  lemma SplitFirstLine(s: Bytes)
    ensures |SplitN(s, CRLF, 2)| == 2 <==> !NoCRLF(s)
    ensures SplitN(s, CRLF, 2)[0] == FirstLine(s)
    ensures !NoCRLF(s) ==> SplitN(s, CRLF, 2)[1] == AfterFirstLine(s)
    ensures !NoCRLF(s) ==> NoCRLF(FirstLine(s)) && s == FirstLine(s) + CRLF + AfterFirstLine(s)
  {
    SplitNTwo(s, CRLF);
    NoCRLFIsNotContains(s);
    match Index(s, CRLF)
    case None =>
    case Some(m) =>
      assert FirstLine(s) == s[..m] && AfterFirstLine(s) == s[m + 2..];
      PrefixBeforeIndex(s, CRLF, m);
      NoCRLFIsNotContains(s[..m]);
      CutAt(s, CRLF, m);
  }

  /** When `s` starts with the type byte `c` and has a terminator, it is `c`, a CRLF-free header, CRLF, the rest. */
  lemma LineAfterPrefix(s: Bytes, c: Byte)
    requires c != '\r' && |s| > 0 && s[0] == c && !NoCRLF(s)
    ensures FirstLine(s) == [c] + Header(s)
    ensures NoCRLF(Header(s))
    ensures s == [c] + Header(s) + CRLF + AfterFirstLine(s)
    ensures |AfterFirstLine(s)| < |s|
  {
    SplitFirstLine(s);
    var line := FirstLine(s);
    assert line == [c] + line[1..];
  }

  /** Conversely, a line made of a type byte `c`, a CRLF-free header `h` and CRLF is cut right after `h`. */
  lemma FirstLineOf(c: Byte, h: Bytes, rest: Bytes)
    requires c != '\r' && NoCRLF(h)
    ensures !NoCRLF([c] + h + CRLF + rest)
    ensures FirstLine([c] + h + CRLF + rest) == [c] + h
    ensures Header([c] + h + CRLF + rest) == h
    ensures AfterFirstLine([c] + h + CRLF + rest) == rest
  {
    ConcatNoCRLF([c], h);
    FirstCRLF([c] + h, rest);
    var s := [c] + h + CRLF + rest;
    OccursAtCRLF(s, |h| + 1);
    assert s[..|h| + 1] == [c] + h;
    assert s[|h| + 3..] == rest;
  }

  /** The header line of the null bulk string and the null array: a type byte `c`, `-1`, CRLF. */
  lemma NullLineOf(c: Byte, rest: Bytes)
    requires c != '\r'
    ensures !NoCRLF([c, '-', '1'] + CRLF + rest)
    ensures FirstLine([c, '-', '1'] + CRLF + rest) == [c, '-', '1']
    ensures Header([c, '-', '1'] + CRLF + rest) == "-1"
    ensures AfterFirstLine([c, '-', '1'] + CRLF + rest) == rest
  {
    var h: Bytes := "-1";
    assert [c] + h == [c, '-', '1'];
    FirstLineOf(c, h, rest);
  }

  /** `NullLineOf` with nothing after the line. */
  lemma NullLine(c: Byte)
    requires c != '\r'
    ensures !NoCRLF([c, '-', '1'] + CRLF)
    ensures FirstLine([c, '-', '1'] + CRLF) == [c, '-', '1']
    ensures Header([c, '-', '1'] + CRLF) == "-1"
    ensures AfterFirstLine([c, '-', '1'] + CRLF) == []
  {
    AppendNil([c, '-', '1'] + CRLF);
    NullLineOf(c, []);
  }

  /** The count on such a line, as the extractors read it: the type byte stripped, `-1` parsed. */
  lemma NullCount(c: Byte)
    ensures Atoi(TrimPrefix([c, '-', '1'], [c])) == Some(-1)
  {
    var h: Bytes := "-1";
    assert [c] + h == [c, '-', '1'];
    TrimTypeByte(c, h);
    AtoiMinusOne();
  }

  /** A CRLF-free line, CRLF, and anything: the first line is that line and the rest is what follows. */
  lemma LineOf(p: Bytes, rest: Bytes)
    requires NoCRLF(p)
    ensures !NoCRLF(p + CRLF + rest)
    ensures FirstLine(p + CRLF + rest) == p
    ensures AfterFirstLine(p + CRLF + rest) == rest
  {
    var a := p + CRLF + rest;
    HasCRLF(p, rest);
    FirstCRLF(p, rest);
    assert a[..|p|] == p;
    assert a[|p| + 2..] == rest;
  }

  /** Stripping a one-byte type marker from a line that starts with it. */
  lemma TrimTypeByte(c: Byte, h: Bytes)
    ensures TrimPrefix([c] + h, [c]) == h
  {
    assert ([c] + h)[..1] == [c];
  }

  /** `ExtractType`: dispatch on the first byte; anything else, the empty input included, is `InvalidType`. */
  function ExtractType(s: Bytes): (r: Extraction)
    ensures r.NotExtracted? ==> r.rest == s
    ensures r.Extracted? ==> |r.rest| < |s|
    ensures r.Extracted? && r.value.SimpleString? ==> s[0] == '+'
    ensures r.Extracted? && r.value.ErrorString? ==> s[0] == '-'
    ensures r.Extracted? && r.value.Integer? ==> s[0] == ':'
    ensures r.Extracted? && r.value.BulkString? ==> s[0] == '$'
    ensures r.Extracted? && r.value.Array? ==> s[0] == '*'
    decreases |s|, 1
  {
    if HasPrefix(s, "+") then ExtractSimpleString(s)
    else if HasPrefix(s, "-") then ExtractErrorString(s)
    else if HasPrefix(s, ":") then ExtractInteger(s)
    else if HasPrefix(s, "$") then ExtractBulkString(s)
    else if HasPrefix(s, "*") then ExtractArray(s)
    else NotExtracted(s, InvalidTypeError("extractType", s))
  }

  /** `ExtractSimpleString`: `+`, then text up to the first CRLF. */
  function ExtractSimpleString(s: Bytes): (r: Extraction)
    ensures r.NotExtracted? ==> r.rest == s
    ensures r.Extracted? ==> |s| > 0 && s[0] == '+' && r.value.SimpleString? && |r.rest| < |s|
  {
    if !HasPrefix(s, "+") then NotExtracted(s, InvalidTypeError("extractSimpleString", s))
    else
      var parts := SplitN(s, CRLF, 2);
      if |parts| != 2 then NotExtracted(s, InvalidInputPartsError("extractSimpleString", s))
      else
        HasPrefixByte(s, '+');
        SplitFirstLine(s);
        LineAfterPrefix(s, '+');
        Extracted(SimpleString(TrimPrefix(parts[0], "+")), parts[1])
  }

  /** `ExtractErrorString`: `-`, then text up to the first CRLF. */
  function ExtractErrorString(s: Bytes): (r: Extraction)
    ensures r.NotExtracted? ==> r.rest == s
    ensures r.Extracted? ==> |s| > 0 && s[0] == '-' && r.value.ErrorString? && |r.rest| < |s|
  {
    if !HasPrefix(s, "-") then NotExtracted(s, InvalidTypeError("extractErrorString", s))
    else
      var parts := SplitN(s, CRLF, 2);
      if |parts| != 2 then NotExtracted(s, InvalidInputPartsError("extractErrorString", s))
      else
        HasPrefixByte(s, '-');
        SplitFirstLine(s);
        LineAfterPrefix(s, '-');
        Extracted(ErrorString(TrimPrefix(parts[0], "-")), parts[1])
  }

  /** `ExtractInteger`: `:`, then a base-10 integer (optional sign, leading zeros allowed) up to the first CRLF. */
  function ExtractInteger(s: Bytes): (r: Extraction)
    ensures r.NotExtracted? ==> r.rest == s
    ensures r.Extracted? ==> |s| > 0 && s[0] == ':' && r.value.Integer? && |r.rest| < |s|
  {
    if !HasPrefix(s, ":") then NotExtracted(s, InvalidTypeError("extractInteger", s))
    else
      var parts := SplitN(s, CRLF, 2);
      if |parts| != 2 then NotExtracted(s, InvalidInputPartsError("extractInteger", s))
      else
        HasPrefixByte(s, ':');
        SplitFirstLine(s);
        LineAfterPrefix(s, ':');
        match Atoi(TrimPrefix(parts[0], ":"))
        case None => NotExtracted(s, InvalidInputDataError("extractInteger", s))
        case Some(n) => Extracted(Integer(n), parts[1])
  }

  /**
    `ExtractBulkString`. The payload is the segment between the first and the
    second CRLF, not `L` bytes read by length. A header of `-1` gives the null
    bulk string and leaves everything after the header unconsumed.
  */
  function ExtractBulkString(s: Bytes): (r: Extraction)
    ensures r.NotExtracted? ==> r.rest == s
    ensures r.Extracted? ==> |s| > 0 && s[0] == '$' && r.value.BulkString? && |r.rest| < |s|
  {
    if !HasPrefix(s, "$") then NotExtracted(s, InvalidTypeError("extractBulkString", s))
    else
      var parts := SplitN(s, CRLF, 3);
      BulkLengths(s);
      if |parts| == 2 then
        if parts[0] != "$-1" || parts[1] != "" then NotExtracted(s, InvalidInputPartsError("decodeBulkString", s))
        else Extracted(BulkString(None), parts[1])
      else if |parts| != 3 then NotExtracted(s, InvalidInputPartsError("extractBulkString", s))
      else
        BulkLengths(s);
        ExtractBulkPayload(s, parts[0], parts[1], parts[2])
  }

  /**
    The second half of `ExtractBulkString`, once the input is cut at its first
    two CRLFs into the header line, the payload and the rest.
  */
  function ExtractBulkPayload(s: Bytes, line: Bytes, payload: Bytes, after: Bytes): (r: Extraction)
    requires |payload + CRLF + after| < |s|
    ensures r.NotExtracted? ==> r.rest == s
    ensures r.Extracted? ==> r.value.BulkString? && |r.rest| < |s|
    ensures r.Extracted? <==>
      Atoi(TrimPrefix(line, "$")).Some? && Atoi(TrimPrefix(line, "$")).value in {-1, |payload|}
    ensures r.Extracted? && r.value.payload.None? ==>
      Atoi(TrimPrefix(line, "$")) == Some(-1) && r.rest == payload + CRLF + after
    ensures r.Extracted? && r.value.payload.Some? ==>
      r.value.payload.value == payload && r.rest == after
  {
    match Atoi(TrimPrefix(line, "$"))
    case None => NotExtracted(s, InvalidInputDataError("extractBulkString", s))
    case Some(n) =>
      if n == -1 then Extracted(BulkString(None), payload + CRLF + after)
      else if |payload| != n then NotExtracted(s, DataMismatchError("extractBulkString", s))
      else Extracted(BulkString(Some(payload)), after)
  }

  /** Whatever `SplitN(s, CRLF, 3)` cuts off before its later parts is at least the first CRLF. */
  lemma BulkLengths(s: Bytes)
    ensures var parts := SplitN(s, CRLF, 3);
      |parts| == 3 ==> |parts[1] + CRLF + parts[2]| < |s|
  {
    var parts := SplitN(s, CRLF, 3);
    if |parts| >= 2 {
      assert Join(parts, CRLF) == parts[0] + CRLF + Join(parts[1..], CRLF);
      if |parts| == 3 {
        assert Join(parts[1..], CRLF) == parts[1] + CRLF + Join(parts[2..], CRLF);
      }
    }
  }

  /** Cutting at the first two terminators is cutting at the first one, then cutting the rest at its first. */
  lemma SplitSecondLine(s: Bytes)
    ensures NoCRLF(s) ==> SplitN(s, CRLF, 3) == [s]
    ensures !NoCRLF(s) ==> SplitN(s, CRLF, 3) == [FirstLine(s)] + SplitN(AfterFirstLine(s), CRLF, 2)
  {
    NoCRLFIsNotContains(s);
    match Index(s, CRLF)
    case None =>
    case Some(m) =>
      assert FirstLine(s) == s[..m] && AfterFirstLine(s) == s[m + 2..];
  }

  /**
    `ExtractArray`: a count header, then that many values each extracted from
    the previous remainder. A count of 0 or below extracts nothing and, since
    the element list is only created by `AddElement`, yields the null array.
  */
  function ExtractArray(s: Bytes): (r: Extraction)
    ensures r.NotExtracted? ==> r.rest == s
    ensures r.Extracted? ==> |s| > 0 && s[0] == '*' && r.value.Array? && |r.rest| < |s|
    decreases |s|, 0
  {
    if !HasPrefix(s, "*") then NotExtracted(s, InvalidTypeError("extractArray", s))
    else
      var parts := SplitN(s, CRLF, 2);
      if |parts| != 2 then NotExtracted(s, InvalidInputPartsError("extractArray", s))
      else
        HasPrefixByte(s, '*');
        SplitFirstLine(s);
        LineAfterPrefix(s, '*');
        match Atoi(TrimPrefix(parts[0], "*"))
        case None => NotExtracted(s, InvalidInputDataError("extractArray", s))
        case Some(n) => ExtractElements(s, parts[1], n, Array(Null))
  }

  /** The error an array returns when one of its elements fails: `errors.Join(failedExtractionError, cause)`. */
  predicate IsArrayFailure(e: Error, s: Bytes) {
    e.Joined? && |e.errs| == 2 && e.errs[0] == FailedExtractionError("extractArray", s)
  }

  /**
    The loop of `ExtractArray`: `k` more elements to extract from `rem` into
    the array `acc`; `orig` is the array's whole input, reported on failure.
  */
  function ExtractElements(orig: Bytes, rem: Bytes, k: int, acc: Value): (r: Extraction)
    requires acc.Array?
    ensures r.NotExtracted? ==> r.rest == orig && IsArrayFailure(r.error, orig)
    ensures r.Extracted? ==> r.value.Array? && |r.rest| <= |rem|
    ensures r.Extracted? && k > 0 ==> |r.rest| < |rem|
    decreases |rem|, 2
  {
    if k <= 0 then Extracted(acc, rem)
    else
      match ExtractType(rem)
      case NotExtracted(_, e) =>
        NotExtracted(orig, Joined([FailedExtractionError("extractArray", orig), e]))
      case Extracted(v, r) =>
        ExtractElements(orig, r, k - 1, AddElement(acc, v))
  }
}
