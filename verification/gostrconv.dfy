/**
  Decimal conversions with the semantics of Go's `strconv.Atoi` and
  `strconv.Itoa`, over unbounded integers (Go's `int` range errors are not
  modelled).
*/
module GoStrconv {
  import opened Wrappers
  import opened GoStrings

  predicate IsDigit(c: Byte) {
    '0' <= c <= '9'
  }

  predicate AllDigits(ds: Bytes) {
    forall i :: 0 <= i < |ds| ==> IsDigit(ds[i])
  }

  function DigitValue(c: Byte): nat
    requires IsDigit(c)
  {
    c as int - '0' as int
  }

  function DigitChar(d: nat): (c: Byte)
    requires d < 10
    ensures IsDigit(c) && DigitValue(c) == d
  {
    (d + '0' as int) as char
  }

  /** The value of a string of decimal digits, most significant first. */
  function DecimalValue(ds: Bytes): nat
    requires AllDigits(ds)
  {
    if |ds| == 0 then 0
    else DecimalValue(ds[..|ds| - 1]) * 10 + DigitValue(ds[|ds| - 1])
  }

  /**
    `strconv.Atoi` in base 10: an optional `+` or `-` followed by at least one
    decimal digit; anything else, including the empty string or a lone sign,
    is a syntax error (None). Leading zeros are accepted.
  */
  function Atoi(s: Bytes): (r: Option<int>)
    ensures r.Some? <==> (|s| > 0 && AllDigits(s)) || (|s| > 1 && (s[0] == '+' || s[0] == '-') && AllDigits(s[1..]))
    ensures r.Some? && IsDigit(s[0]) ==> r.value == DecimalValue(s)
    ensures r.Some? && s[0] == '+' ==> r.value == DecimalValue(s[1..])
    ensures r.Some? && s[0] == '-' ==> r.value == -(DecimalValue(s[1..]) as int)
  {
    if |s| == 0 then None
    else if s[0] == '+' || s[0] == '-' then
      if |s| == 1 || !AllDigits(s[1..]) then None
      else if s[0] == '-' then Some(-(DecimalValue(s[1..]) as int))
      else Some(DecimalValue(s[1..]))
    else if AllDigits(s) then Some(DecimalValue(s))
    else None
  }

  /** The shortest decimal digit string of `n`. */
  function NatDigits(n: nat): (ds: Bytes)
    ensures |ds| >= 1 && AllDigits(ds)
    ensures DecimalValue(ds) == n
    ensures |ds| > 1 ==> ds[0] != '0'
  {
    if n < 10 then [DigitChar(n)]
    else
      var ds := NatDigits(n / 10) + [DigitChar(n % 10)];
      assert ds[..|ds| - 1] == NatDigits(n / 10);
      ds
  }

  /**
    `strconv.Itoa`: a `-` for negative numbers, then the digits of the
    magnitude with no leading zeros and no `+`.
  */
  function Itoa(n: int): (r: Bytes)
    ensures n >= 0 ==> AllDigits(r) && |r| >= 1 && DecimalValue(r) == n
    ensures n < 0 ==> |r| >= 2 && r[0] == '-' && AllDigits(r[1..]) && DecimalValue(r[1..]) == -n
    ensures (n >= 0 && |r| > 1) || (n < 0 && |r| > 2) ==> r[if n < 0 then 1 else 0] != '0'
  {
    if n < 0 then "-" + NatDigits(-n) else NatDigits(n)
  }

  /** Parsing what `Itoa` prints gives the number back. */
  lemma AtoiItoa(n: int)
    ensures Atoi(Itoa(n)) == Some(n)
  {
    var r := Itoa(n);
    if n < 0 {
      assert r[1..] == NatDigits(-n);
    }
  }

  /** The count of the null bulk string and the null array. */
  lemma AtoiMinusOne()
    ensures Atoi("-1") == Some(-1)
  {
    var s: Bytes := "-1";
    assert s[1..] == "1" && s[1..][..0] == [];
  }

  /** Leading zeros and a `+` sign do not change what `Atoi` reads. */
  lemma {:induction false} AtoiLeadingZeros(zeros: nat, ds: Bytes)
    requires |ds| > 0 && AllDigits(ds)
    ensures Atoi(Repeat('0', zeros) + ds) == Some(DecimalValue(ds) as int)
    ensures Atoi("+" + Repeat('0', zeros) + ds) == Some(DecimalValue(ds) as int)
    ensures Atoi("-" + Repeat('0', zeros) + ds) == Some(-(DecimalValue(ds) as int))
  {
    var zs := Repeat('0', zeros) + ds;
    LeadingZerosValue(zeros, ds);
    assert "+" + Repeat('0', zeros) + ds == "+" + zs;
    assert "-" + Repeat('0', zeros) + ds == "-" + zs;
    assert ("+" + zs)[1..] == zs;
    assert ("-" + zs)[1..] == zs;
  }

  function Repeat(c: Byte, k: nat): (r: Bytes)
    ensures |r| == k && forall i :: 0 <= i < k ==> r[i] == c
  {
    if k == 0 then [] else [c] + Repeat(c, k - 1)
  }

  lemma {:induction false} LeadingZerosValue(zeros: nat, ds: Bytes)
    requires AllDigits(ds)
    ensures AllDigits(Repeat('0', zeros) + ds)
    ensures DecimalValue(Repeat('0', zeros) + ds) == DecimalValue(ds)
    decreases |ds|
  {
    var zs := Repeat('0', zeros) + ds;
    if |ds| == 0 {
      assert zs == Repeat('0', zeros);
      AllZerosValue(zeros);
    } else {
      var init := ds[..|ds| - 1];
      LeadingZerosValue(zeros, init);
      assert zs[..|zs| - 1] == Repeat('0', zeros) + init;
    }
  }

  lemma {:induction false} AllZerosValue(k: nat)
    ensures AllDigits(Repeat('0', k)) && DecimalValue(Repeat('0', k)) == 0
  {
    if k > 0 {
      var z := Repeat('0', k);
      assert z[..k - 1] == Repeat('0', k - 1);
      AllZerosValue(k - 1);
    }
  }

  /** Itoa output never holds a CR, so it never holds a terminator. */
  lemma ItoaNoCRLF(n: int)
    ensures NoCRLF(Itoa(n))
    ensures forall i :: 0 <= i < |Itoa(n)| ==> Itoa(n)[i] != '\r'
  {
  }
}
