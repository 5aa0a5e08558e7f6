/**
  The five RESP2 wire types and their encoders. A null bulk string and a
  null array are a None payload, distinct from a present-but-empty one.
*/
module RespValue {
  import opened Wrappers
  import opened GoStrings
  import opened GoStrconv

  datatype Value =
    | SimpleString(s: Bytes)
    | ErrorString(e: Bytes)
    | Integer(n: int)
    | BulkString(payload: Option<Bytes>)
    | Array(elements: Elements)

  /**
    The element list of an array: absent (Go's nil `*[]RespEncoder`, the null
    array) or present. It plays the role of `Option<seq<Value>>`; a dedicated
    type lets Dafny see that every element is smaller than its array.
  */
  datatype Elements = Null | Present(items: seq<Value>)

  /** The first byte of every encoding of a value of this variant. */
  function TypeByte(v: Value): Byte {
    match v
    case SimpleString(_) => '+'
    case ErrorString(_) => '-'
    case Integer(_) => ':'
    case BulkString(_) => '$'
    case Array(_) => '*'
  }

  predicate EndsWithCRLF(t: Bytes) {
    |t| >= 2 && t[|t| - 2] == '\r' && t[|t| - 1] == '\n'
  }

  /** `RespEncode` of each variant; total, and every encoding is framed by a type byte and a CRLF. */
  function Encode(v: Value): (r: Bytes)
    ensures |r| >= 3 && r[0] == TypeByte(v) && EndsWithCRLF(r)
  {
    match v
    case SimpleString(s) => "+" + s + CRLF
    case ErrorString(e) => "-" + e + CRLF
    case Integer(n) => ":" + Itoa(n) + CRLF
    case BulkString(None) => "$-1" + CRLF
    case BulkString(Some(p)) => "$" + Itoa(|p|) + CRLF + p + CRLF
    case Array(Null) => "*-1" + CRLF
    case Array(Present(es)) => "*" + Itoa(|es|) + CRLF + EncodeAll(es)
  }

  /** The element encodings of an array, concatenated in order. */
  function EncodeAll(es: seq<Value>): (r: Bytes)
    ensures |es| > 0 ==> EndsWithCRLF(r)
    ensures |es| == 0 ==> r == []
  {
    if |es| == 0 then []
    else Encode(es[0]) + EncodeAll(es[1..])
  }

  /** `(*Array).AddElement`: a null array becomes present; the element goes at the end. */
  function AddElement(a: Value, e: Value): (r: Value)
    requires a.Array?
    ensures r.Array? && r.elements.Present?
    ensures |r.elements.items| == |GetElements(a)| + 1
    ensures r.elements.items[|GetElements(a)|] == e
  {
    match a.elements
    case Null => Array(Present([e]))
    case Present(es) => Array(Present(es + [e]))
  }

  /** `(*Array).GetElements`: the stored elements, or the empty sequence for a null array. */
  function GetElements(a: Value): (r: seq<Value>)
    requires a.Array?
    ensures a.elements.Present? ==> r == a.elements.items
    ensures a.elements.Null? ==> r == []
  {
    match a.elements
    case Null => []
    case Present(es) => es
  }

  /** Adding an element and reading the elements back gives the old elements followed by the new one. */
  lemma GetAddElement(a: Value, e: Value)
    requires a.Array?
    ensures GetElements(AddElement(a, e)) == GetElements(a) + [e]
  {
    match a.elements
    case Null =>
      assert [] + [e] == [e];
    case Present(es) =>
  }
}
