/**
  Encoding followed by extraction or decoding gives the value back, for the
  values the wire format can carry unchanged: text and payloads without a
  CRLF, and no present-but-empty array at any depth (the decoders read a
  count of 0 as the null array).
*/
module RoundTrip {
  import opened Wrappers
  import opened GoStrings
  import opened GoStrconv
  import opened RespErrors
  import opened RespValue
  import opened RespExtract
  import opened ExtractFacts
  import opened EncodeFacts
  import opened Chains
  import opened RespDecode
  import opened DecodeFacts

  /** The values whose encoding reads back as themselves. */
  predicate WellFormed(v: Value)
    decreases v
  {
    match v
    case SimpleString(s) => NoCRLF(s)
    case ErrorString(e) => NoCRLF(e)
    case Integer(_) => true
    case BulkString(p) => p.None? || NoCRLF(p.value)
    case Array(Null) => true
    case Array(Present(es)) => |es| > 0 && forall i :: 0 <= i < |es| ==> WellFormed(es[i])
  }

  /**
    What may follow an encoding without disturbing its extraction: nothing,
    or data holding a terminator (as the next encoding always does). A
    non-empty, CRLF-free tail after a null bulk string (`$-1\r\n`) makes the
    extractor fail with `InvalidInputParts`.
  */
  predicate Resumable(rest: Bytes) {
    rest == [] || !NoCRLF(rest)
  }

  /** Anything that ends in CRLF, followed by anything, holds a terminator. */
  lemma EndsWithCRLFResumable(x: Bytes, rest: Bytes)
    requires EndsWithCRLF(x)
    ensures !NoCRLF(x + rest)
  {
    var t := x + rest;
    assert t[|x| - 2] == '\r' && t[|x| - 1] == '\n';
  }

  /** A simple string followed by any rest extracts back to itself. */
  lemma ExtractEncodeSimpleString(t: Bytes, rest: Bytes)
    requires NoCRLF(t)
    ensures ExtractType(Encode(SimpleString(t)) + rest) == Extracted(SimpleString(t), rest)
  {
    var s := "+" + t + CRLF + rest;
    assert Encode(SimpleString(t)) + rest == s;
    ExtractDispatch(s);
    ExtractSimpleStringOf(t, rest);
  }

  /** An error string followed by any rest extracts back to itself. */
  lemma ExtractEncodeErrorString(e: Bytes, rest: Bytes)
    requires NoCRLF(e)
    ensures ExtractType(Encode(ErrorString(e)) + rest) == Extracted(ErrorString(e), rest)
  {
    var s := "-" + e + CRLF + rest;
    assert Encode(ErrorString(e)) + rest == s;
    ExtractDispatch(s);
    ExtractErrorStringOf(e, rest);
  }

  /** An integer followed by anything extracts back to itself. */
  lemma ExtractEncodeInteger(n: int, rest: Bytes)
    ensures ExtractType(Encode(Integer(n)) + rest) == Extracted(Integer(n), rest)
  {
    var s := ":" + Itoa(n) + CRLF + rest;
    assert Encode(Integer(n)) + rest == s;
    ExtractDispatch(s);
    ItoaNoCRLF(n);
    AtoiItoa(n);
    ExtractIntegerOf(Itoa(n), rest);
  }

  /**
    A present bulk string followed by any rest, or the null bulk string
    followed by a resumable rest, extracts back to itself.
  */
  lemma ExtractEncodeBulkString(p: Option<Bytes>, rest: Bytes)
    requires p.None? || NoCRLF(p.value)
    requires p.None? ==> Resumable(rest)
    ensures ExtractType(Encode(BulkString(p)) + rest) == Extracted(BulkString(p), rest)
  {
    var s := Encode(BulkString(p)) + rest;
    ExtractDispatch(s);
    match p
    case None =>
      assert s == "$-1" + CRLF + rest;
      ExtractNullBulkString(rest);
    case Some(x) =>
      assert s == "$" + Itoa(|x|) + CRLF + x + CRLF + rest;
      ItoaNoCRLF(|x|);
      AtoiItoa(|x|);
      ExtractBulkStringOf(Itoa(|x|), x, rest);
  }

  /** The null array followed by anything extracts back to itself. */
  lemma ExtractEncodeNullArray(rest: Bytes)
    ensures ExtractType(Encode(Array(Null)) + rest) == Extracted(Array(Null), rest)
  {
    var s := "*-1" + CRLF + rest;
    assert Encode(Array(Null)) + rest == s;
    ExtractDispatch(s);
    NullLineOf('*', rest);
    ExtractArrayHeader(s);
    AtoiMinusOne();
  }

  /**
    Extracting a well-formed value's encoding, followed by a resumable rest,
    gives the value and leaves exactly the rest.
  */
  lemma {:induction false} ExtractEncode(v: Value, rest: Bytes)
    requires WellFormed(v) && Resumable(rest)
    ensures ExtractType(Encode(v) + rest) == Extracted(v, rest)
    decreases |Encode(v)|, 1
  {
    match v
    case SimpleString(t) => ExtractEncodeSimpleString(t, rest);
    case ErrorString(e) => ExtractEncodeErrorString(e, rest);
    case Integer(n) => ExtractEncodeInteger(n, rest);
    case BulkString(p) => ExtractEncodeBulkString(p, rest);
    case Array(Null) => ExtractEncodeNullArray(rest);
    case Array(Present(es)) => ExtractEncodeArray(es, rest);
  }

  /** A non-empty array of well-formed elements, followed by a resumable rest, extracts back to itself. */
  lemma {:induction false} ExtractEncodeArray(es: seq<Value>, rest: Bytes)
    requires |es| > 0 && forall i :: 0 <= i < |es| ==> WellFormed(es[i])
    requires Resumable(rest)
    ensures ExtractType(Encode(Array(Present(es))) + rest) == Extracted(Array(Present(es)), rest)
    decreases |Encode(Array(Present(es)))|, 0
  {
    var s := Encode(Array(Present(es))) + rest;
    var rs := EncodeAllChain(es, rest);
    assert s == "*" + Itoa(|es|) + CRLF + rs[0];
    ExtractDispatch(s);
    ItoaNoCRLF(|es|);
    AtoiItoa(|es|);
    ExtractArrayOf(Itoa(|es|), rs, es);
  }

  /** The element encodings are the first element's encoding followed by the rest's. */
  lemma EncodeAllCons(es: seq<Value>, rest: Bytes)
    requires |es| > 0
    ensures EncodeAll(es) + rest == Encode(es[0]) + (EncodeAll(es[1..]) + rest)
  {
    var a, b := Encode(es[0]), EncodeAll(es[1..]);
    assert EncodeAll(es) == a + b;
    AppendAssoc(a, b, rest);
  }

  /**
    The encodings of well-formed elements, followed by a resumable rest, are
    read back one by one as exactly those elements, ending at the rest.
  */
  lemma {:induction false} EncodeAllChain(es: seq<Value>, rest: Bytes) returns (rs: seq<Bytes>)
    requires forall i :: 0 <= i < |es| ==> WellFormed(es[i])
    requires Resumable(rest)
    ensures Chain(ExtractType, rs, es) && rs[0] == EncodeAll(es) + rest && rs[|es|] == rest
    decreases |EncodeAll(es)|, 2
  {
    if |es| == 0 {
      rs := [rest];
    } else {
      var tail := es[1..];
      var rs1 := EncodeAllChain(tail, rest);
      var r1 := EncodeAll(tail) + rest;
      if |tail| > 0 {
        EndsWithCRLFResumable(EncodeAll(tail), rest);
      }
      ExtractEncode(es[0], r1);
      rs := EncodeAllChainCons(es, rest, rs1);
    }
  }

  /** One step of `EncodeAllChain`: the first element's extraction in front of the chain of the others. */
  lemma EncodeAllChainCons(es: seq<Value>, rest: Bytes, rs1: seq<Bytes>) returns (rs: seq<Bytes>)
    requires |es| > 0 && Chain(ExtractType, rs1, es[1..])
    requires rs1[0] == EncodeAll(es[1..]) + rest && rs1[|es| - 1] == rest
    requires ExtractType(Encode(es[0]) + rs1[0]) == Extracted(es[0], rs1[0])
    ensures Chain(ExtractType, rs, es) && rs[0] == EncodeAll(es) + rest && rs[|es|] == rest
  {
    EncodeAllCons(es, rest);
    ChainCons(ExtractType, rs1, es[1..], Encode(es[0]) + rs1[0], es[0]);
    rs := [Encode(es[0]) + rs1[0]] + rs1;
    assert [es[0]] + es[1..] == es;
  }

  /** The count `decodeArray` reads from a present array's encoding is its length. */
  lemma EncodeArrayCount(es: seq<Value>)
    ensures Atoi(ArrayCount(Encode(Array(Present(es))))) == Some(|es|)
  {
    var s := Encode(Array(Present(es)));
    assert s == "*" + Itoa(|es|) + CRLF + EncodeAll(es);
    ItoaNoCRLF(|es|);
    AtoiItoa(|es|);
    FirstLineOf('*', Itoa(|es|), EncodeAll(es));
    ArrayCountIsHeader(s);
    TrimTypeByte('*', Itoa(|es|));
  }

  /** A well-formed non-empty array's encoding extracts to it with nothing left over. */
  lemma ExtractEncodeWholeArray(es: seq<Value>)
    requires |es| > 0 && forall i :: 0 <= i < |es| ==> WellFormed(es[i])
    ensures ExtractArray(Encode(Array(Present(es)))) == Extracted(Array(Present(es)), [])
  {
    var s := Encode(Array(Present(es)));
    ExtractEncodeArray(es, []);
    AppendNil(s);
    ExtractDispatch(s);
  }

  /** A well-formed non-empty array's encoding decodes to it. */
  lemma DecodeEncodeArray(es: seq<Value>)
    requires |es| > 0 && forall i :: 0 <= i < |es| ==> WellFormed(es[i])
    ensures Decode(Encode(Array(Present(es)))) == Success(Array(Present(es)))
  {
    var v := Array(Present(es));
    var s := Encode(v);
    EncodeArrayCount(es);
    ExtractEncodeWholeArray(es);
    assert Decode(s) == DecodeArray(s) by {
      DecodeDispatch(s);
    }
    DecodeArrayWhole(s, v);
  }

  /** The null bulk string `$-1\r\n` decodes to itself. */
  lemma DecodeEncodeNullBulkString()
    ensures Decode(Encode(BulkString(None))) == Success(BulkString(None))
  {
    var h: Bytes := "-1";
    var s := Encode(BulkString(None));
    assert s == "$" + h + CRLF + [] by {
      assert ['$'] + h == "$-1";
      AppendNil("$-1" + CRLF);
    }
    assert Decode(s) == DecodeBulkString(s) by {
      DecodeDispatch(s);
    }
    NoCRLFPair('-', '1');
    DecodeBulkStringOneLine(h, []);
  }

  /** A CRLF-free payload's bulk string decodes to itself. */
  lemma DecodeEncodeBulkString(p: Bytes)
    requires NoCRLF(p)
    ensures Decode(Encode(BulkString(Some(p)))) == Success(BulkString(Some(p)))
  {
    var s := Encode(BulkString(Some(p)));
    assert s == "$" + Itoa(|p|) + CRLF + p + CRLF + [];
    DecodeDispatch(s);
    ItoaNoCRLF(|p|);
    AtoiItoa(|p|);
    DecodeBulkStringOf(Itoa(|p|), p, []);
  }

  /** The null array `*-1\r\n` decodes to itself. */
  lemma DecodeEncodeNullArray()
    ensures Decode(Encode(Array(Null))) == Success(Array(Null))
  {
    var s := Encode(Array(Null));
    EncodeNullLines();
    DecodeDispatch(s);
    DecodeNullLine('*');
  }

  /** `RespDecode(RespEncode(v))` gives `v` back for every well-formed value. */
  lemma DecodeEncode(v: Value)
    requires WellFormed(v)
    ensures Decode(Encode(v)) == Success(v)
  {
    var s := Encode(v);
    DecodeDispatch(s);
    match v
    case SimpleString(t) =>
      DecodeSimpleStringOf(t);
    case ErrorString(e) =>
      DecodeErrorStringOf(e);
    case Integer(n) =>
      ItoaNoCRLF(n);
      AtoiItoa(n);
      DecodeIntegerOf(Itoa(n));
    case BulkString(None) =>
      DecodeEncodeNullBulkString();
    case BulkString(Some(p)) =>
      DecodeEncodeBulkString(p);
    case Array(Null) =>
      DecodeEncodeNullArray();
    case Array(Present(es)) =>
      DecodeEncodeArray(es);
  }

  /**
    On well-formed values the encoder is injective; in particular an empty
    bulk string and the null bulk string have different encodings.
  */
  lemma EncodeInjective(v: Value, w: Value)
    requires WellFormed(v) && WellFormed(w) && Encode(v) == Encode(w)
    ensures v == w
  {
    DecodeEncode(v);
    DecodeEncode(w);
  }

  /**
    The round trip that fails: an empty present array encodes as `*0\r\n`,
    which both the decoder and the extractor read as the null array, which
    encodes as `*-1\r\n`.
  */
  lemma EmptyArrayCollapses()
    ensures Encode(Array(Present([]))) == "*0\r\n"
    ensures ExtractType("*0\r\n") == Extracted(Array(Null), [])
    ensures Decode("*0\r\n") == Success(Array(Null))
    ensures Encode(Array(Null)) == "*-1\r\n"
  {
    var s: Bytes := "*0\r\n";
    assert Itoa(0) == "0";
    assert s == "*" + "0" + CRLF + [];
    FirstLineOf('*', "0", []);
    ExtractArrayHeader(s);
    TrimTypeByte('*', "0");
    var z: Bytes := "0";
    assert Atoi(z) == Some(0);
    ExtractDispatch(s);
    DecodeDispatch(s);
    ArrayCountIsHeader(s);
    DecodeArrayCases(s);
  }
}
