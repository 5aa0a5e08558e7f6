/**
  What each extractor promises: its error kinds, what it returns for an
  input built from its parts, and, for arrays, that the elements come from
  a left-to-right chain of extractions.
*/
module ExtractFacts {
  import opened Wrappers
  import opened GoStrings
  import opened GoStrconv
  import opened RespErrors
  import opened RespValue
  import opened RespExtract
  import opened Chains

  /** Dispatch: an unknown first byte, the empty input included, is `InvalidType`; a success keeps the type byte. */
  lemma ExtractTypeUnknown(s: Bytes)
    requires |s| == 0 || s[0] !in "+-:$*"
    ensures FailsWith(ExtractType(s), s, InvalidType)
  {
    HasPrefixByte(s, '+');
    HasPrefixByte(s, '-');
    HasPrefixByte(s, ':');
    HasPrefixByte(s, '$');
    HasPrefixByte(s, '*');
  }

  /** `ExtractType` hands each type byte to its extractor. */
  lemma ExtractDispatch(s: Bytes)
    ensures |s| > 0 && s[0] == '+' ==> ExtractType(s) == ExtractSimpleString(s)
    ensures |s| > 0 && s[0] == '-' ==> ExtractType(s) == ExtractErrorString(s)
    ensures |s| > 0 && s[0] == ':' ==> ExtractType(s) == ExtractInteger(s)
    ensures |s| > 0 && s[0] == '$' ==> ExtractType(s) == ExtractBulkString(s)
    ensures |s| > 0 && s[0] == '*' ==> ExtractType(s) == ExtractArray(s)
  {
    HasPrefixByte(s, '+');
    HasPrefixByte(s, '-');
    HasPrefixByte(s, ':');
    HasPrefixByte(s, '$');
    HasPrefixByte(s, '*');
  }

  /** Failures of `ExtractSimpleString`; it succeeds exactly on `+` inputs holding a CRLF, with the first line's text. */
  lemma ExtractSimpleStringErrors(s: Bytes)
    ensures |s| == 0 || s[0] != '+' ==> FailsWith(ExtractSimpleString(s), s, InvalidType)
    ensures |s| > 0 && s[0] == '+' && NoCRLF(s) ==> FailsWith(ExtractSimpleString(s), s, InvalidInputParts)
    ensures ExtractSimpleString(s).Extracted? <==> |s| > 0 && s[0] == '+' && !NoCRLF(s)
    ensures ExtractSimpleString(s).Extracted? ==> ExtractSimpleString(s) == Extracted(SimpleString(Header(s)), AfterFirstLine(s))
  {
    HasPrefixByte(s, '+');
    SplitFirstLine(s);
    if |s| > 0 && s[0] == '+' && !NoCRLF(s) {
      LineAfterPrefix(s, '+');
      TrimTypeByte('+', Header(s));
    }
  }

  /** `+text\r\n` followed by anything gives the text back, with the rest unconsumed. */
  lemma ExtractSimpleStringOf(t: Bytes, rest: Bytes)
    requires NoCRLF(t)
    ensures ExtractSimpleString("+" + t + CRLF + rest) == Extracted(SimpleString(t), rest)
  {
    var s := "+" + t + CRLF + rest;
    FirstLineOf('+', t, rest);
    ExtractSimpleStringErrors(s);
    LineAfterPrefix(s, '+');
  }

  /** Failures of `ExtractErrorString`; it succeeds exactly on `-` inputs holding a CRLF, with the first line's text. */
  lemma ExtractErrorStringErrors(s: Bytes)
    ensures |s| == 0 || s[0] != '-' ==> FailsWith(ExtractErrorString(s), s, InvalidType)
    ensures |s| > 0 && s[0] == '-' && NoCRLF(s) ==> FailsWith(ExtractErrorString(s), s, InvalidInputParts)
    ensures ExtractErrorString(s).Extracted? <==> |s| > 0 && s[0] == '-' && !NoCRLF(s)
    ensures ExtractErrorString(s).Extracted? ==> ExtractErrorString(s) == Extracted(ErrorString(Header(s)), AfterFirstLine(s))
  {
    HasPrefixByte(s, '-');
    SplitFirstLine(s);
    if |s| > 0 && s[0] == '-' && !NoCRLF(s) {
      LineAfterPrefix(s, '-');
      TrimTypeByte('-', Header(s));
    }
  }

  /** `-text\r\n` followed by anything gives the text back, with the rest unconsumed. */
  lemma ExtractErrorStringOf(t: Bytes, rest: Bytes)
    requires NoCRLF(t)
    ensures ExtractErrorString("-" + t + CRLF + rest) == Extracted(ErrorString(t), rest)
  {
    var s := "-" + t + CRLF + rest;
    FirstLineOf('-', t, rest);
    ExtractErrorStringErrors(s);
    LineAfterPrefix(s, '-');
  }

  /** Failures of `ExtractInteger` (wrong type byte, no CRLF, a header `Atoi` rejects), and its value otherwise. */
  lemma ExtractIntegerErrors(s: Bytes)
    ensures |s| == 0 || s[0] != ':' ==> FailsWith(ExtractInteger(s), s, InvalidType)
    ensures |s| > 0 && s[0] == ':' && NoCRLF(s) ==> FailsWith(ExtractInteger(s), s, InvalidInputParts)
    ensures |s| > 0 && s[0] == ':' && !NoCRLF(s) && Atoi(Header(s)).None? ==>
      FailsWith(ExtractInteger(s), s, InvalidInputData)
    ensures ExtractInteger(s).Extracted? <==> |s| > 0 && s[0] == ':' && !NoCRLF(s) && Atoi(Header(s)).Some?
    ensures ExtractInteger(s).Extracted? ==>
      ExtractInteger(s) == Extracted(Integer(Atoi(Header(s)).value), AfterFirstLine(s))
  {
    HasPrefixByte(s, ':');
    SplitFirstLine(s);
    if |s| > 0 && s[0] == ':' && !NoCRLF(s) {
      LineAfterPrefix(s, ':');
      TrimTypeByte(':', Header(s));
    }
  }

  /** `:h\r\n` followed by anything: the integer `Atoi` reads from `h`, or `InvalidInputData`. */
  lemma ExtractIntegerOf(h: Bytes, rest: Bytes)
    requires NoCRLF(h)
    ensures Atoi(h).Some? ==> ExtractInteger(":" + h + CRLF + rest) == Extracted(Integer(Atoi(h).value), rest)
    ensures Atoi(h).None? ==> FailsWith(ExtractInteger(":" + h + CRLF + rest), ":" + h + CRLF + rest, InvalidInputData)
  {
    var s := ":" + h + CRLF + rest;
    FirstLineOf(':', h, rest);
    ExtractIntegerErrors(s);
    LineAfterPrefix(s, ':');
  }

  /**
    `ExtractBulkString` on a `$` input with a terminator, read line by line: it
    cuts the text after the header at its first CRLF, and without one only the
    exact null bulk string `$-1\r\n` is accepted.
  */
  lemma BulkByLines(s: Bytes)
    requires |s| > 0 && s[0] == '$' && !NoCRLF(s)
    ensures var a := AfterFirstLine(s);
      !NoCRLF(a) ==> |FirstLine(a) + CRLF + AfterFirstLine(a)| < |s|
    ensures var a := AfterFirstLine(s);
      !NoCRLF(a) ==> ExtractBulkString(s) == ExtractBulkPayload(s, FirstLine(s), FirstLine(a), AfterFirstLine(a))
    ensures var a := AfterFirstLine(s);
      NoCRLF(a) ==>
        ExtractBulkString(s) ==
          if FirstLine(s) == "$-1" && a == [] then Extracted(BulkString(None), [])
          else NotExtracted(s, InvalidInputPartsError("decodeBulkString", s))
  {
    var a := AfterFirstLine(s);
    HasPrefixByte(s, '$');
    LineAfterPrefix(s, '$');
    SplitSecondLine(s);
    SplitFirstLine(a);
    var parts := SplitN(s, CRLF, 3);
    assert parts[0] == FirstLine(s);
    if NoCRLF(a) {
      NoCRLFIsNotContains(a);
      assert |parts| == 2 && parts[1] == a;
    } else {
      assert |parts| == 3 && parts[1] == FirstLine(a) && parts[2] == AfterFirstLine(a);
    }
  }

  /** The header line of a `$` input, as `ExtractBulkPayload` reads it. */
  lemma BulkHeader(s: Bytes)
    requires |s| > 0 && s[0] == '$' && !NoCRLF(s)
    ensures TrimPrefix(FirstLine(s), "$") == Header(s)
    ensures s == "$" + Header(s) + CRLF + AfterFirstLine(s)
    ensures NoCRLF(Header(s))
  {
    LineAfterPrefix(s, '$');
    TrimTypeByte('$', Header(s));
  }

  /** What a successful bulk-string extraction consumed: a header `Atoi` reads as -1 or as the payload length. */
  lemma ExtractBulkStringShape(s: Bytes)
    requires ExtractBulkString(s).Extracted?
    ensures |s| > 0 && s[0] == '$' && NoCRLF(Header(s))
    ensures var r := ExtractBulkString(s);
      r.value.payload.None? ==> Atoi(Header(s)) == Some(-1) && s == "$" + Header(s) + CRLF + r.rest
    ensures var r := ExtractBulkString(s);
      r.value.payload.Some? ==>
        var p := r.value.payload.value;
        Atoi(Header(s)) == Some(|p|) && NoCRLF(p) && s == "$" + Header(s) + CRLF + (p + CRLF + r.rest)
  {
    ExtractBulkStringErrors(s);
    BulkByLines(s);
    BulkHeader(s);
    var a := AfterFirstLine(s);
    if NoCRLF(a) {
      LineAfterPrefix(s, '$');
      assert [s[0]] + Header(s) == "$-1";
      assert Header(s) == ("$-1")[1..];
      AtoiMinusOne();
    } else {
      SplitFirstLine(a);
    }
  }

  /**
    Failures of `ExtractBulkString`: wrong type byte, no terminator, a single
    line that is not exactly the null bulk string, a length header `Atoi`
    rejects, or a payload line whose length disagrees with the header.
  */
  lemma ExtractBulkStringErrors(s: Bytes)
    ensures |s| == 0 || s[0] != '$' ==> FailsWith(ExtractBulkString(s), s, InvalidType)
    ensures |s| > 0 && s[0] == '$' && NoCRLF(s) ==> FailsWith(ExtractBulkString(s), s, InvalidInputParts)
    ensures |s| > 0 && s[0] == '$' && !NoCRLF(s) && NoCRLF(AfterFirstLine(s)) && s != "$-1" + CRLF ==>
      FailsWith(ExtractBulkString(s), s, InvalidInputParts)
    ensures |s| > 0 && s[0] == '$' && !NoCRLF(s) && !NoCRLF(AfterFirstLine(s)) && Atoi(Header(s)).None? ==>
      FailsWith(ExtractBulkString(s), s, InvalidInputData)
    ensures var n := Atoi(Header(s));
      (|s| > 0 && s[0] == '$' && !NoCRLF(s) && !NoCRLF(AfterFirstLine(s))
       && n.Some? && n.value != -1 && n.value != |FirstLine(AfterFirstLine(s))|) ==>
      FailsWith(ExtractBulkString(s), s, DataMismatch)
  {
    HasPrefixByte(s, '$');
    if |s| > 0 && s[0] == '$' {
      SplitSecondLine(s);
      if !NoCRLF(s) {
        BulkByLines(s);
        BulkHeader(s);
        var a := AfterFirstLine(s);
        if NoCRLF(a) && FirstLine(s) == "$-1" && a == [] {
          LineAfterPrefix(s, '$');
          assert s == "$-1" + CRLF;
        }
      }
    }
  }

  /**
    `$h\r\np\r\n` followed by anything: a non-numeric `h` is `InvalidInputData`;
    `h` reading -1 is the null bulk string that leaves `p\r\n` unconsumed; a
    length other than `|p|` is `DataMismatch`; otherwise `p` is the payload.
  */
  lemma ExtractBulkStringOf(h: Bytes, p: Bytes, rest: Bytes)
    requires NoCRLF(h) && NoCRLF(p)
    ensures var s := "$" + h + CRLF + p + CRLF + rest;
      && (Atoi(h).None? ==> FailsWith(ExtractBulkString(s), s, InvalidInputData))
      && (Atoi(h) == Some(-1) ==> ExtractBulkString(s) == Extracted(BulkString(None), p + CRLF + rest))
      && (Atoi(h).Some? && Atoi(h).value != -1 && Atoi(h).value != |p| ==> FailsWith(ExtractBulkString(s), s, DataMismatch))
      && (Atoi(h) == Some(|p|) ==> ExtractBulkString(s) == Extracted(BulkString(Some(p)), rest))
  {
    var s := "$" + h + CRLF + p + CRLF + rest;
    var a := p + CRLF + rest;
    assert s == "$" + h + CRLF + a;
    FirstLineOf('$', h, a);
    LineOf(p, rest);
    BulkByLines(s);
    TrimTypeByte('$', h);
  }

  /**
    The null bulk string `$-1\r\n`: alone it leaves nothing; followed by data
    holding a CRLF it leaves that data; followed by CRLF-free data it fails
    with `InvalidInputParts`.
  */
  lemma ExtractNullBulkString(rest: Bytes)
    ensures rest == [] ==> ExtractBulkString("$-1" + CRLF + rest) == Extracted(BulkString(None), [])
    ensures !NoCRLF(rest) ==> ExtractBulkString("$-1" + CRLF + rest) == Extracted(BulkString(None), rest)
    ensures rest != [] && NoCRLF(rest) ==>
      FailsWith(ExtractBulkString("$-1" + CRLF + rest), "$-1" + CRLF + rest, InvalidInputParts)
  {
    NullLineOf('$', rest);
    NullBulkLines("$-1" + CRLF + rest, rest);
  }

  /** `ExtractNullBulkString` for any input whose first line is `$-1` and whose rest after it is `rest`. */
  lemma NullBulkLines(s: Bytes, rest: Bytes)
    requires |s| > 0 && s[0] == '$' && !NoCRLF(s) && FirstLine(s) == "$-1" && AfterFirstLine(s) == rest
    ensures rest == [] ==> ExtractBulkString(s) == Extracted(BulkString(None), [])
    ensures !NoCRLF(rest) ==> ExtractBulkString(s) == Extracted(BulkString(None), rest)
    ensures rest != [] && NoCRLF(rest) ==> FailsWith(ExtractBulkString(s), s, InvalidInputParts)
  {
    BulkByLines(s);
    if !NoCRLF(rest) {
      SplitFirstLine(rest);
      NullCount('$');
    }
  }

  /** `ExtractElements` is the loop of `Chains` with `ExtractType` as its step. */
  lemma {:induction false} ElementsLoop(orig: Bytes, rem: Bytes, k: int, acc: Value)
    requires acc.Array?
    ensures ExtractElements(orig, rem, k, acc) == Loop(ExtractType, orig, rem, k, acc)
    decreases k
  {
    if k > 0 {
      match ExtractType(rem)
      case NotExtracted(_, _) =>
      case Extracted(v, r) => ElementsLoop(orig, r, k - 1, AddElement(acc, v));
    }
  }

  /** `ExtractArray`'s header failures (wrong type byte, no line end, a count that does not parse), and the loop it runs after a good header. */
  lemma ExtractArrayHeader(s: Bytes)
    ensures |s| == 0 || s[0] != '*' ==> FailsWith(ExtractArray(s), s, InvalidType)
    ensures |s| > 0 && s[0] == '*' && NoCRLF(s) ==> FailsWith(ExtractArray(s), s, InvalidInputParts)
    ensures |s| > 0 && s[0] == '*' && !NoCRLF(s) && Atoi(Header(s)).None? ==>
      FailsWith(ExtractArray(s), s, InvalidInputData)
    ensures |s| > 0 && s[0] == '*' && !NoCRLF(s) && Atoi(Header(s)).Some? ==>
      |AfterFirstLine(s)| < |s| &&
      ExtractArray(s) == ExtractElements(s, AfterFirstLine(s), Atoi(Header(s)).value, Array(Null))
  {
    HasPrefixByte(s, '*');
    SplitFirstLine(s);
    if |s| > 0 && s[0] == '*' && !NoCRLF(s) {
      LineAfterPrefix(s, '*');
      TrimTypeByte('*', Header(s));
    }
  }

  /** After a good header, `ExtractArray` runs the loop of `Chains` on the rest, with `ExtractType` as its step. */
  lemma ArrayLoop(s: Bytes)
    requires |s| > 0 && s[0] == '*' && !NoCRLF(s) && Atoi(Header(s)).Some?
    ensures ExtractArray(s) == Loop(ExtractType, s, AfterFirstLine(s), Atoi(Header(s)).value, Array(Null))
  {
    ExtractArrayHeader(s);
    ElementsLoop(s, AfterFirstLine(s), Atoi(Header(s)).value, Array(Null));
  }

  /**
    `ExtractArray` after a good header with count `n`: a count of 0 or below
    gives the null array right after the header; otherwise it succeeds with
    exactly `n` chained elements, or fails at the first element that does
    not extract.
  */
  lemma ExtractArrayElements(s: Bytes)
    requires |s| > 0 && s[0] == '*' && !NoCRLF(s) && Atoi(Header(s)).Some?
    ensures var n, r := Atoi(Header(s)).value, ExtractArray(s);
      && (n <= 0 ==> r == Extracted(Array(Null), AfterFirstLine(s)))
      && (n > 0 && r.Extracted? ==>
            exists rs, vs :: |vs| == n && Chain(ExtractType, rs, vs) && rs[0] == AfterFirstLine(s)
              && r == Extracted(Array(Present(vs)), rs[n]))
      && (r.NotExtracted? ==>
            exists rs, vs :: |vs| < n && Chain(ExtractType, rs, vs) && rs[0] == AfterFirstLine(s)
              && ExtractType(rs[|vs|]).NotExtracted?
              && r == NotExtracted(s, Joined([FailedExtractionError("extractArray", s), ExtractType(rs[|vs|]).error])))
  {
    var n, rem := Atoi(Header(s)).value, AfterFirstLine(s);
    ArrayLoop(s);
    if n > 0 && ExtractArray(s).Extracted? {
      var rs, vs := LoopChain(ExtractType, s, rem, n, Array(Null));
      assert GetElements(Array(Null)) + vs == vs;
    }
    if ExtractArray(s).NotExtracted? {
      var rs, vs := LoopFailure(ExtractType, s, rem, n, Array(Null));
    }
  }

  /**
    An array whose header reads but whose elements do not fails with an
    error that matches `FailedExtraction` and, besides, exactly the kinds
    the failing element's own error (the second part) matches.
  */
  lemma ArrayFailureKinds(s: Bytes, k: Kind)
    requires |s| > 0 && s[0] == '*' && !NoCRLF(s) && Atoi(Header(s)).Some?
    requires ExtractArray(s).NotExtracted?
    ensures var e := ExtractArray(s).error;
      IsArrayFailure(e, s) && Is(e, FailedExtraction) &&
      (Is(e, k) <==> k == FailedExtraction || Is(e.errs[1], k))
  {
    ExtractArrayHeader(s);
    ArrayErrorKinds(ExtractArray(s).error, s, k);
  }

  /** The kinds an array failure matches: `FailedExtraction` and those of its cause. */
  lemma ArrayErrorKinds(e: Error, s: Bytes, k: Kind)
    requires IsArrayFailure(e, s)
    ensures Is(e, FailedExtraction)
    ensures Is(e, k) <==> k == FailedExtraction || Is(e.errs[1], k)
  {
    JoinedIs(e.errs, FailedExtraction);
    JoinedIs(e.errs, k);
  }

  /** An array header with count `|vs| > 0` followed by a chain of `vs` extracts to exactly `vs`. */
  lemma ExtractArrayOf(h: Bytes, rs: seq<Bytes>, vs: seq<Value>)
    requires NoCRLF(h) && Atoi(h) == Some(|vs|) && |vs| > 0 && Chain(ExtractType, rs, vs)
    ensures ExtractArray("*" + h + CRLF + rs[0]) == Extracted(Array(Present(vs)), rs[|vs|])
  {
    var s := "*" + h + CRLF + rs[0];
    FirstLineOf('*', h, rs[0]);
    HasPrefixByte(s, '*');
    LineAfterPrefix(s, '*');
    assert ExtractArray(s) == ExtractElements(s, rs[0], |vs|, Array(Null));
    ElementsLoop(s, rs[0], |vs|, Array(Null));
    ChainLoop(ExtractType, s, rs, vs, Array(Null));
    assert GetElements(Array(Null)) + vs == vs;
  }

  // ---------------------------------------------------------------------
  // Every successful extraction leaves a strict suffix of its input: the
  // remainder is what follows the consumed bytes, never a rewritten copy.
  // ---------------------------------------------------------------------

  /** `r` is what is left of `s` after some prefix is consumed. */
  predicate IsSuffix(r: Bytes, s: Bytes) {
    |r| <= |s| && s[|s| - |r|..] == r
  }

  /** A suffix left after consuming at least one byte. */
  predicate IsStrictSuffix(r: Bytes, s: Bytes) {
    |r| < |s| && IsSuffix(r, s)
  }

  lemma SuffixOfConcat(x: Bytes, r: Bytes)
    ensures IsSuffix(r, x + r)
  {
    assert (x + r)[|x|..] == r;
  }

  lemma SuffixTrans(a: Bytes, b: Bytes, c: Bytes)
    requires IsSuffix(a, b) && IsSuffix(b, c)
    ensures IsSuffix(a, c)
  {
    assert c[|c| - |a|..] == c[|c| - |b|..][|b| - |a|..];
  }

  /** Consuming a first line leaves a strict suffix. */
  lemma LineSuffix(s: Bytes)
    requires |s| > 0 && s[0] != '\r' && !NoCRLF(s)
    ensures IsStrictSuffix(AfterFirstLine(s), s)
  {
    LineAfterPrefix(s, s[0]);
    SuffixOfConcat([s[0]] + Header(s) + CRLF, AfterFirstLine(s));
  }

  /** A successful bulk-string extraction leaves a strict suffix. */
  lemma BulkSuffix(s: Bytes)
    requires ExtractBulkString(s).Extracted?
    ensures IsStrictSuffix(ExtractBulkString(s).rest, s)
  {
    var r := ExtractBulkString(s);
    ExtractBulkStringShape(s);
    var h := "$" + Header(s) + CRLF;
    if r.value.payload.None? {
      SuffixOfConcat(h, r.rest);
    } else {
      var p := r.value.payload.value;
      SuffixOfConcat(p + CRLF, r.rest);
      SuffixOfConcat(h, p + CRLF + r.rest);
      SuffixTrans(r.rest, p + CRLF + r.rest, s);
    }
  }

  /** The remainder of a successful `ExtractType` is a strict suffix of its input. */
  lemma {:induction false} ExtractTypeSuffix(s: Bytes)
    requires ExtractType(s).Extracted?
    ensures IsStrictSuffix(ExtractType(s).rest, s)
    decreases |s|, 0
  {
    var r := ExtractType(s);
    HasPrefixByte(s, '+');
    HasPrefixByte(s, '-');
    HasPrefixByte(s, ':');
    HasPrefixByte(s, '$');
    HasPrefixByte(s, '*');
    if s[0] == '+' {
      ExtractSimpleStringErrors(s);
      LineSuffix(s);
    } else if s[0] == '-' {
      ExtractErrorStringErrors(s);
      LineSuffix(s);
    } else if s[0] == ':' {
      ExtractIntegerErrors(s);
      LineSuffix(s);
    } else if s[0] == '$' {
      BulkSuffix(s);
    } else {
      ExtractArrayHeader(s);
      LineSuffix(s);
      var n := Atoi(Header(s)).value;
      if n > 0 {
        ArrayLoop(s);
        var rs, vs := LoopChain(ExtractType, s, AfterFirstLine(s), n, Array(Null));
        ChainSuffix(rs, vs);
        SuffixTrans(r.rest, AfterFirstLine(s), s);
      }
    }
  }

  /** The last remainder of a chain is a suffix of its first. */
  lemma {:induction false} ChainSuffix(rs: seq<Bytes>, vs: seq<Value>)
    requires Chain(ExtractType, rs, vs)
    ensures IsSuffix(rs[|vs|], rs[0])
    decreases |rs[0]|, 1, |vs|
  {
    if |vs| > 0 {
      var rs1, vs1 := ChainTail(ExtractType, rs, vs);
      ExtractTypeSuffix(rs[0]);
      ChainSuffix(rs1, vs1);
      SuffixTrans(rs[|vs|], rs1[0], rs[0]);
    }
  }
}
