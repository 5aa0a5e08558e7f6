/**
  The shape of every encoding, read back through the line functions the
  extractor uses: the header line after the type byte, and what follows it.
*/
module EncodeFacts {
  import opened Wrappers
  import opened GoStrings
  import opened GoStrconv
  import opened RespValue
  import opened RespExtract

  /**
    A decimal as `strconv.Itoa` prints it: an optional `-`, then at least one
    digit, with no `+`, no leading zero, and no `-0`.
  */
  predicate CanonicalDecimal(h: Bytes) {
    var ds := if |h| > 0 && h[0] == '-' then h[1..] else h;
    |ds| > 0 && AllDigits(ds) && (ds[0] == '0' ==> ds == h && |ds| == 1)
  }

  /** `Itoa` prints canonical decimals. */
  lemma ItoaCanonical(n: int)
    ensures CanonicalDecimal(Itoa(n))
  {
    var r := Itoa(n);
    if n < 0 && |r| == 2 {
      // a single digit worth -n > 0 is not '0'
      assert r[1..][..0] == [];
    }
  }

  /** A text without a terminator reads back as the whole header line, with nothing after it. */
  lemma TextLine(c: Byte, t: Bytes)
    requires c != '\r' && NoCRLF(t)
    ensures !NoCRLF([c] + t + CRLF)
    ensures Header([c] + t + CRLF) == t && AfterFirstLine([c] + t + CRLF) == []
  {
    AppendNil([c] + t + CRLF);
    FirstLineOf(c, t, []);
  }

  /** A simple string is its type byte, its text verbatim, and a terminator. */
  lemma EncodeSimpleStringLines(t: Bytes)
    requires NoCRLF(t)
    ensures var s := Encode(SimpleString(t));
      s[0] == '+' && !NoCRLF(s) && Header(s) == t && AfterFirstLine(s) == []
  {
    TextLine('+', t);
  }

  /** An error string is its type byte, its text verbatim, and a terminator. */
  lemma EncodeErrorStringLines(t: Bytes)
    requires NoCRLF(t)
    ensures var s := Encode(ErrorString(t));
      s[0] == '-' && !NoCRLF(s) && Header(s) == t && AfterFirstLine(s) == []
  {
    TextLine('-', t);
  }

  /** An integer is one line whose text is the canonical decimal of the number. */
  lemma EncodeIntegerLines(n: int)
    ensures var s := Encode(Integer(n));
      s[0] == ':' && !NoCRLF(s) && AfterFirstLine(s) == [] &&
      CanonicalDecimal(Header(s)) && Atoi(Header(s)) == Some(n)
  {
    ItoaNoCRLF(n);
    TextLine(':', Itoa(n));
    ItoaCanonical(n);
    AtoiItoa(n);
  }

  /** A present bulk string: a header holding the payload's length, then the payload and a terminator. */
  lemma EncodeBulkStringLines(p: Bytes)
    ensures var s := Encode(BulkString(Some(p)));
      s[0] == '$' && !NoCRLF(s) && CanonicalDecimal(Header(s)) &&
      Atoi(Header(s)) == Some(|p|) && AfterFirstLine(s) == p + CRLF
  {
    ItoaNoCRLF(|p|);
    FirstLineOf('$', Itoa(|p|), p + CRLF);
    assert Encode(BulkString(Some(p))) == ['$'] + Itoa(|p|) + CRLF + (p + CRLF);
    ItoaCanonical(|p|);
    AtoiItoa(|p|);
  }

  /** A present array: a header holding the element count, then the element encodings. */
  lemma EncodeArrayLines(es: seq<Value>)
    ensures var s := Encode(Array(Present(es)));
      s[0] == '*' && !NoCRLF(s) && CanonicalDecimal(Header(s)) &&
      Atoi(Header(s)) == Some(|es|) && AfterFirstLine(s) == EncodeAll(es)
  {
    ItoaNoCRLF(|es|);
    FirstLineOf('*', Itoa(|es|), EncodeAll(es));
    ItoaCanonical(|es|);
    AtoiItoa(|es|);
  }

  /** The null bulk string and the null array: a count of -1 and nothing after it. */
  lemma EncodeNullLines()
    ensures var s := Encode(BulkString(None));
      s == ['$', '-', '1'] + CRLF && Atoi(Header(s)) == Some(-1) && AfterFirstLine(s) == []
    ensures var s := Encode(Array(Null));
      s == ['*', '-', '1'] + CRLF && Atoi(Header(s)) == Some(-1) && AfterFirstLine(s) == []
  {
    NullLine('$');
    NullLine('*');
    AtoiMinusOne();
  }

  /** The element encodings of a concatenation are the concatenated encodings, in order. */
  lemma {:induction false} EncodeAllAppend(xs: seq<Value>, ys: seq<Value>)
    ensures EncodeAll(xs + ys) == EncodeAll(xs) + EncodeAll(ys)
    decreases |xs|
  {
    if |xs| == 0 {
      assert xs + ys == ys;
    } else {
      assert (xs + ys)[1..] == xs[1..] + ys;
      EncodeAllAppend(xs[1..], ys);
      AppendAssoc(Encode(xs[0]), EncodeAll(xs[1..]), EncodeAll(ys));
    }
  }

  /** The encoder's fixed points from its test table. */
  lemma EncodeExamples()
    ensures Encode(Integer(0)) == ":0\r\n"
    ensures Encode(Integer(-3)) == ":-3\r\n"
    ensures Encode(BulkString(Some(""))) == "$0\r\n\r\n"
    ensures Encode(BulkString(None)) == "$-1\r\n"
    ensures Encode(Array(Present([]))) == "*0\r\n"
    ensures Encode(Array(Null)) == "*-1\r\n"
  {
  }
}
