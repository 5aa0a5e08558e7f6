/**
  What each decoder accepts and how it fails, stated for inputs built from
  their lines, and the quirks of `decodeBulkString` and `decodeArray`.
*/
module DecodeFacts {
  import opened Wrappers
  import opened GoStrings
  import opened GoStrconv
  import opened RespErrors
  import opened RespValue
  import opened RespExtract
  import opened ExtractFacts
  import opened RespDecode

  /** A type byte stripped by `TrimPrefix` leaves the rest of the message. */
  lemma TrimMarker(c: Byte, t: Bytes)
    ensures TrimPrefix([c] + t, [c]) == t
  {
    TrimTypeByte(c, t);
  }

  /** `+text\r\n` decodes to the text exactly when the text holds no CRLF. */
  lemma DecodeSimpleStringOf(t: Bytes)
    requires NoCRLF(t)
    ensures DecodeSimpleString("+" + t + CRLF) == Success(SimpleString(t))
  {
    assert "+" + t + CRLF == "+" + (t + CRLF);
    TrimMarker('+', t + CRLF);
    DecodeLineOf("decodeSimpleString", t);
  }

  /** `-text\r\n` decodes to the text exactly when the text holds no CRLF. */
  lemma DecodeErrorStringOf(t: Bytes)
    requires NoCRLF(t)
    ensures DecodeErrorString("-" + t + CRLF) == Success(ErrorString(t))
  {
    assert "-" + t + CRLF == "-" + (t + CRLF);
    TrimMarker('-', t + CRLF);
    DecodeLineOf("decodeErrorString", t);
  }

  /**
    `:h\r\n` is the integer `Atoi` reads from `h`; a line `Atoi` rejects is
    `InvalidInputData` for the text after `:`, joined with `Atoi`'s error.
  */
  lemma DecodeIntegerOf(h: Bytes)
    requires NoCRLF(h)
    ensures Atoi(h).Some? ==> DecodeInteger(":" + h + CRLF) == Success(Integer(Atoi(h).value))
    ensures Atoi(h).None? ==>
      DecodeInteger(":" + h + CRLF) == Failure(Joined([InvalidInputDataError("decodeInteger", h + CRLF), NumError(h)]))
    ensures Atoi(h).None? ==> Is(DecodeInteger(":" + h + CRLF).error, InvalidInputData)
  {
    assert ":" + h + CRLF == ":" + (h + CRLF);
    TrimMarker(':', h + CRLF);
    DecodeLineOf("decodeInteger", h);
    if Atoi(h).None? {
      var e := DecodeInteger(":" + h + CRLF).error;
      assert Is(e.errs[0], InvalidInputData);
    }
  }

  /** Splitting a CRLF-free line, CRLF, and a rest gives the line, then the pieces of the rest. */
  lemma SplitCons(x: Bytes, rest: Bytes)
    requires NoCRLF(x)
    ensures Split(x + CRLF + rest, CRLF) == [x] + Split(rest, CRLF)
  {
    LineOf(x, rest);
    SplitLines(x + CRLF + rest);
  }

  /** The pieces `Split` gives for a length line, a payload line and a last line, all CRLF-free. */
  lemma SplitThree(h: Bytes, p: Bytes, tail: Bytes)
    requires NoCRLF(h) && NoCRLF(p) && NoCRLF(tail)
    ensures Split(h + CRLF + p + CRLF + tail, CRLF) == [h, p, tail]
  {
    assert h + CRLF + p + CRLF + tail == h + CRLF + (p + CRLF + tail);
    SplitCons(h, p + CRLF + tail);
    SplitCons(p, tail);
    SplitLines(tail);
  }

  /** `decodeBulkString` strips the `$` from a message built from its lines. */
  lemma BulkMarker(h: Bytes, p: Bytes, x: Bytes)
    ensures TrimPrefix("$" + h + CRLF + p + CRLF + x, "$") == h + CRLF + p + CRLF + x
  {
    var t := h + CRLF + p + CRLF + x;
    assert "$" + h + CRLF + p + CRLF + x == "$" + t;
    TrimMarker('$', t);
  }

  /**
    `$h\r\np\r\n` followed by a CRLF-free last line: a length `Atoi` rejects
    is `InvalidInputData`, a length other than `|p|` is `DataMismatch`, and
    the length `|p|` gives `p` whatever the last line holds.
  */
  lemma DecodeBulkStringOf(h: Bytes, p: Bytes, tail: Bytes)
    requires NoCRLF(h) && NoCRLF(p) && NoCRLF(tail)
    ensures var s, t := "$" + h + CRLF + p + CRLF + tail, h + CRLF + p + CRLF + tail;
      && (Atoi(h).None? ==>
            DecodeBulkString(s) == Failure(Joined([InvalidInputDataError("decodeBulkString", t), NumError(h)])))
      && (Atoi(h).Some? && Atoi(h).value != |p| ==>
            DecodeBulkString(s) == Failure(DataMismatchError("decodeBulkString", t)))
      && (Atoi(h) == Some(|p|) ==> DecodeBulkString(s) == Success(BulkString(Some(p))))
  {
    BulkMarker(h, p, tail);
    SplitThree(h, p, tail);
  }

  /**
    A single line after `$` is accepted only as the null bulk string: `-1`
    with nothing after the terminator; anything else there is `InvalidInputParts`.
  */
  lemma DecodeBulkStringOneLine(h: Bytes, x: Bytes)
    requires NoCRLF(h) && NoCRLF(x)
    ensures h == "-1" && x == [] ==> DecodeBulkString("$" + h + CRLF + x) == Success(BulkString(None))
    ensures h != "-1" || x != [] ==>
      DecodeBulkString("$" + h + CRLF + x) == Failure(InvalidInputPartsError("decodeBulkString", h + CRLF + x))
  {
    var t := h + CRLF + x;
    assert "$" + h + CRLF + x == "$" + t;
    TrimMarker('$', t);
    var parts := [h, x];
    assert parts[1..] == [x];
    assert Join(parts, CRLF) == t;
    SplitJoin(parts);
  }

  /** Without any terminator after `$` there is a single piece, which is `InvalidInputParts`. */
  lemma DecodeBulkStringNoLine(t: Bytes)
    requires NoCRLF(t)
    ensures DecodeBulkString("$" + t) == Failure(InvalidInputPartsError("decodeBulkString", t))
  {
    TrimMarker('$', t);
    SplitLines(t);
  }

  /** A length line, CRLF, a payload line, CRLF and a rest holding a terminator split into four or more pieces. */
  lemma SplitFourOrMore(h: Bytes, p: Bytes, more: Bytes)
    requires NoCRLF(h) && NoCRLF(p) && !NoCRLF(more)
    ensures |Split(h + CRLF + p + CRLF + more, CRLF)| >= 4
  {
    assert h + CRLF + p + CRLF + more == h + CRLF + (p + CRLF + more);
    SplitCons(h, p + CRLF + more);
    SplitCons(p, more);
    SplitLines(more);
  }

  /** Four or more lines after `$` are `InvalidInputParts`. */
  lemma DecodeBulkStringTooManyLines(h: Bytes, p: Bytes, more: Bytes)
    requires NoCRLF(h) && NoCRLF(p) && !NoCRLF(more)
    ensures DecodeBulkString("$" + h + CRLF + p + CRLF + more)
      == Failure(InvalidInputPartsError("decodeBulkString", h + CRLF + p + CRLF + more))
  {
    BulkMarker(h, p, more);
    SplitFourOrMore(h, p, more);
  }

  /** What `decodeArray` reads as the count: the first line without its `*`. */
  lemma ArrayCountIsHeader(s: Bytes)
    ensures ArrayCount(s) == TrimPrefix(FirstLine(s), "*")
    ensures |s| > 0 && s[0] == '*' && !NoCRLF(s) ==> ArrayCount(s) == Header(s)
  {
    SplitLines(s);
    if |s| > 0 && s[0] == '*' && !NoCRLF(s) {
      LineAfterPrefix(s, '*');
      TrimTypeByte('*', Header(s));
    }
  }

  /**
    `decodeArray` agrees with `ExtractArray`: once the count parses and is
    not -1, it succeeds exactly when the extraction succeeds and consumes
    the whole input, with the same value, and input left over is
    `InvalidInputData`; a count of -1 is the null array.
  */
  lemma DecodeArrayCases(s: Bytes)
    ensures Atoi(ArrayCount(s)).None? ==> Is(DecodeArray(s).error, InvalidInputData)
    ensures Atoi(ArrayCount(s)) == Some(-1) ==> DecodeArray(s) == Success(Array(Null))
    ensures Atoi(ArrayCount(s)).Some? && Atoi(ArrayCount(s)).value != -1 ==>
      (DecodeArray(s).Success? <==> ExtractArray(s).Extracted? && ExtractArray(s).rest == [])
    ensures Atoi(ArrayCount(s)).Some? && Atoi(ArrayCount(s)).value != -1 && DecodeArray(s).Success? ==>
      DecodeArray(s).value == ExtractArray(s).value
    ensures (Atoi(ArrayCount(s)).Some? && Atoi(ArrayCount(s)).value != -1 &&
             ExtractArray(s).Extracted? && ExtractArray(s).rest != []) ==>
      DecodeArray(s) == Failure(InvalidInputDataError("decodeArray", s))
  {
    if Atoi(ArrayCount(s)).None? {
      assert Is(DecodeArray(s).error.errs[0], InvalidInputData);
    }
  }

  /**
    When the count reads and is not -1 but an element does not extract,
    `decodeArray` fails with an error matching exactly the kinds of
    `ExtractArray`'s error: `FailedExtraction` among them.
  */
  lemma DecodeArrayFailureKinds(s: Bytes, k: Kind)
    requires |s| > 0 && s[0] == '*' && !NoCRLF(s) && Atoi(Header(s)).Some? && Atoi(Header(s)).value != -1
    requires ExtractArray(s).NotExtracted?
    ensures DecodeArray(s).Failure?
    ensures Is(DecodeArray(s).error, k) <==> Is(ExtractArray(s).error, k)
    ensures Is(DecodeArray(s).error, FailedExtraction)
  {
    ArrayCountIsHeader(s);
    DecodeArrayExtractFails(s);
    ArrayFailureKinds(s, k);
    ContextKinds(s, ExtractArray(s).error, k);
    ContextKinds(s, ExtractArray(s).error, FailedExtraction);
  }

  /** The context `decodeArray` joins in front of an extraction error adds no kind of its own. */
  lemma ContextKinds(s: Bytes, e: Error, k: Kind)
    ensures Is(Joined([DecodeContext("decodeArray", s), e]), k) <==> Is(e, k)
  {
    var es := [DecodeContext("decodeArray", s), e];
    JoinedIs(es, k);
    assert !Is(es[0], k) && es[1] == e;
  }

  /** Any other count that parses: a failing extraction is reported behind the decode context. */
  lemma DecodeArrayExtractFails(s: Bytes)
    requires Atoi(ArrayCount(s)).Some? && Atoi(ArrayCount(s)).value != -1
    requires ExtractArray(s).NotExtracted?
    ensures DecodeArray(s) == Failure(Joined([DecodeContext("decodeArray", s), ExtractArray(s).error]))
  {
  }

  /** Any other count that parses: an extraction that consumes everything is the decoded value. */
  lemma DecodeArrayWhole(s: Bytes, v: Value)
    requires Atoi(ArrayCount(s)).Some? && Atoi(ArrayCount(s)).value != -1
    requires ExtractArray(s) == Extracted(v, [])
    ensures DecodeArray(s) == Success(v)
  {
  }

  /** A count of -1 short-cuts to the null array, whatever follows it. */
  lemma DecodeArrayMinusOne(s: Bytes)
    requires Atoi(ArrayCount(s)) == Some(-1)
    ensures DecodeArray(s) == Success(Array(Null))
  {
  }

  /** A count of -1 short-cuts to the null array: what follows is never read, even without a terminator. */
  lemma DecodeNullArray(rest: Bytes)
    ensures DecodeArray("*-1") == Success(Array(Null))
    ensures DecodeArray("*-1" + CRLF + rest) == Success(Array(Null))
  {
    var n: Bytes := "*-1";
    assert ArrayCount(n) == TrimPrefix(['*', '-', '1'], ['*']) by {
      NoCRLFIsNotContains(n);
      SplitLines(n);
    }
    var s := "*-1" + CRLF + rest;
    assert ArrayCount(s) == TrimPrefix(['*', '-', '1'], ['*']) by {
      NullLineOf('*', rest);
      ArrayCountIsHeader(s);
    }
    NullCount('*');
    DecodeArrayMinusOne(n);
    DecodeArrayMinusOne(s);
  }

  /** The null array line `*-1\r\n` alone decodes to the null array. */
  lemma DecodeNullLine(c: Byte)
    // `c` stands for the literal `*` so that the solver does not evaluate the whole message
    requires c == '*'
    ensures DecodeArray([c, '-', '1'] + CRLF) == Success(Array(Null))
  {
    var s := [c, '-', '1'] + CRLF;
    NullLine(c);
    ArrayCountIsHeader(s);
    NullCount(c);
    TrimTypeByte(c, ['-', '1']);
    AtoiMinusOne();
    DecodeArrayMinusOne(s);
  }

  /** `RespDecode` hands each type byte to its decoder. */
  lemma DecodeDispatch(s: Bytes)
    ensures |s| > 0 && s[0] == '+' ==> Decode(s) == DecodeSimpleString(s)
    ensures |s| > 0 && s[0] == '-' ==> Decode(s) == DecodeErrorString(s)
    ensures |s| > 0 && s[0] == ':' ==> Decode(s) == DecodeInteger(s)
    ensures |s| > 0 && s[0] == '$' ==> Decode(s) == DecodeBulkString(s)
    ensures |s| > 0 && s[0] == '*' ==> Decode(s) == DecodeArray(s)
  {
    HasPrefixByte(s, '+');
    HasPrefixByte(s, '-');
    HasPrefixByte(s, ':');
    HasPrefixByte(s, '$');
    HasPrefixByte(s, '*');
  }

  /** A successful decode has the variant its first byte names. */
  lemma DecodeTypeByte(s: Bytes)
    ensures Decode(s).Success? ==> |s| > 0 && TypeByte(Decode(s).value) == s[0]
  {
    var r := Decode(s);
    if r.Success? {
      DecodeDispatch(s);
      if s[0] == '+' {
        assert r == DecodeSimpleString(s) && r.value.SimpleString?;
      } else if s[0] == '-' {
        assert r == DecodeErrorString(s) && r.value.ErrorString?;
      } else if s[0] == ':' {
        assert r == DecodeInteger(s) && r.value.Integer?;
      } else if s[0] == '$' {
        assert r == DecodeBulkString(s) && r.value.BulkString?;
      } else {
        assert s[0] == '*';
        assert r == DecodeArray(s) && r.value.Array?;
      }
    }
  }
}
