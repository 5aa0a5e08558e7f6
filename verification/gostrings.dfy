/**
  Byte-string helpers with the semantics of Go's `strings` package functions
  that the codec relies on: `HasPrefix`, `TrimPrefix`, `Index`, `Split` and
  `SplitN`. A Go string is a sequence of bytes, so `|s|` is Go's `len(s)`.
*/
module GoStrings {
  import opened Wrappers

  /**
    One byte of a Go string. Go strings are byte strings and every function
    here treats a byte as an opaque symbol, so a character stands for it
    without a range restriction (the code never looks at a byte's value
    except to compare it with an ASCII character).
  */
  type Byte = char

  type Bytes = seq<Byte>

  /** The RESP terminator. */
  const CRLF: Bytes := "\r\n"

  /** Concatenation regroups freely; stated once so that proofs can ask for it by name. */
  lemma AppendAssoc<T>(a: seq<T>, b: seq<T>, c: seq<T>)
    ensures a + b + c == a + (b + c)
  {
  }

  /** Appending nothing changes nothing. */
  lemma AppendNil<T>(a: seq<T>)
    ensures a + [] == a
  {
  }

  /** `strings.HasPrefix`. */
  predicate HasPrefix(s: Bytes, prefix: Bytes) {
    |prefix| <= |s| && s[..|prefix|] == prefix
  }

  /** `strings.TrimPrefix`: strips one leading occurrence of `prefix`, if any. */
  function TrimPrefix(s: Bytes, prefix: Bytes): (r: Bytes)
    ensures HasPrefix(s, prefix) ==> s == prefix + r
    ensures !HasPrefix(s, prefix) ==> r == s
  {
    if HasPrefix(s, prefix) then s[|prefix|..] else s
  }

  /** `sep` occurs in `s` at byte offset `i`. */
  predicate OccursAt(s: Bytes, sep: Bytes, i: int) {
    0 <= i && i + |sep| <= |s| && s[i..i + |sep|] == sep
  }

  /** `strings.Index`: the offset of the first occurrence of `sep`, or None for Go's -1. */
  function Index(s: Bytes, sep: Bytes): (r: Option<nat>)
    ensures r.Some? ==> OccursAt(s, sep, r.value)
    ensures r.Some? ==> forall j :: 0 <= j < r.value ==> !OccursAt(s, sep, j)
    ensures r.None? ==> forall j :: !OccursAt(s, sep, j)
  {
    IndexFrom(s, sep, 0)
  }

  /** The first occurrence of `sep` at an offset of at least `from`. */
  function IndexFrom(s: Bytes, sep: Bytes, from: nat): (r: Option<nat>)
    ensures r.Some? ==> from <= r.value && OccursAt(s, sep, r.value)
    ensures r.Some? ==> forall j :: from <= j < r.value ==> !OccursAt(s, sep, j)
    ensures r.None? ==> forall j :: from <= j ==> !OccursAt(s, sep, j)
    decreases |s| - from
  {
    if from + |sep| > |s| then None
    else if s[from..from + |sep|] == sep then Some(from)
    else IndexFrom(s, sep, from + 1)
  }

  /** `strings.Contains`. */
  predicate Contains(s: Bytes, sep: Bytes) {
    Index(s, sep).Some?
  }

  /** The inverse of splitting: the parts glued back together with `sep` (`strings.Join`). */
  function Join(parts: seq<Bytes>, sep: Bytes): Bytes {
    if |parts| == 0 then []
    else if |parts| == 1 then parts[0]
    else parts[0] + sep + Join(parts[1..], sep)
  }

  /** Joining one more piece in front adds it and one separator. */
  lemma JoinCons(a: Bytes, rest: seq<Bytes>, sep: Bytes)
    requires |rest| > 0
    ensures Join([a] + rest, sep) == a + sep + Join(rest, sep)
  {
    assert ([a] + rest)[1..] == rest;
  }

  /** An occurrence inside a prefix of `s` is an occurrence in `s` that ends within the prefix. */
  lemma OccursInPrefix(s: Bytes, sep: Bytes, m: nat, j: int)
    requires m <= |s|
    ensures OccursAt(s[..m], sep, j) <==> OccursAt(s, sep, j) && j + |sep| <= m
  {
    if 0 <= j && j + |sep| <= m {
      assert s[..m][j..j + |sep|] == s[j..j + |sep|];
    }
  }

  /** A prefix of `s` that ends before the first occurrence of `sep` does not contain it. */
  lemma PrefixBeforeIndex(s: Bytes, sep: Bytes, m: nat)
    requires |sep| > 0
    requires Index(s, sep) == Some(m)
    ensures !Contains(s[..m], sep)
  {
    forall j | OccursAt(s[..m], sep, j)
      ensures false
    {
      OccursInPrefix(s, sep, m, j);
    }
  }

  /** `strings.Split` for a non-empty separator: every piece between occurrences of `sep`. */
  function Split(s: Bytes, sep: Bytes): (parts: seq<Bytes>)
    requires |sep| > 0
    ensures |parts| >= 1
    ensures Join(parts, sep) == s
    decreases |s|
  {
    match Index(s, sep)
    case None => [s]
    case Some(m) =>
      CutAt(s, sep, m);
      var rest := Split(s[m + |sep|..], sep);
      JoinCons(s[..m], rest, sep);
      [s[..m]] + rest
  }

  /** No piece `Split` returns holds the separator, so the pieces are exactly the text between occurrences. */
  lemma {:induction false} SplitPiece(s: Bytes, sep: Bytes, i: nat)
    requires |sep| > 0 && i < |Split(s, sep)|
    ensures !Contains(Split(s, sep)[i], sep)
    decreases |s|
  {
    match Index(s, sep)
    case None =>
    case Some(m) =>
      var rest := Split(s[m + |sep|..], sep);
      if i == 0 {
        assert Split(s, sep)[0] == s[..m];
        PrefixBeforeIndex(s, sep, m);
      } else {
        assert Split(s, sep)[i] == rest[i - 1];
        SplitPiece(s[m + |sep|..], sep, i - 1);
      }
  }

  /** The first `k` pieces hold no separator. */
  predicate SepFreeBefore(parts: seq<Bytes>, k: int, sep: Bytes)
    requires k <= |parts|
  {
    forall i :: 0 <= i < k ==> !Contains(parts[i], sep)
  }

  /**
    `strings.SplitN` for a non-empty separator: at most `n` pieces, the last
    one holding the unsplit rest; `n == 0` gives no pieces and a negative `n`
    behaves like `Split`.
  */
  function SplitN(s: Bytes, sep: Bytes, n: int): (parts: seq<Bytes>)
    requires |sep| > 0
    ensures n == 0 ==> parts == []
    ensures n < 0 ==> parts == Split(s, sep)
    ensures n > 0 ==> 1 <= |parts| <= n && Join(parts, sep) == s
    ensures n > 0 ==> SepFreeBefore(parts, |parts| - 1, sep)
    ensures n > 0 && |parts| < n ==> !Contains(parts[|parts| - 1], sep)
    decreases if n < 0 then 0 else n
  {
    if n == 0 then []
    else if n < 0 then Split(s, sep)
    else if n == 1 then [s]
    else
      match Index(s, sep)
      case None => [s]
      case Some(m) =>
        CutAt(s, sep, m);
        var rest := SplitN(s[m + |sep|..], sep, n - 1);
        JoinCons(s[..m], rest, sep);
        ConsPieces(s[..m], rest, sep, n);
        [s[..m]] + rest
  }

  /**
    A separator-free piece in front of `SplitN`'s pieces for limit `n - 1`
    keeps them cut at separators: all pieces but the last are separator-free,
    and so is the last when the limit was not reached.
  */
  lemma ConsPieces(a: Bytes, rest: seq<Bytes>, sep: Bytes, n: int)
    requires |rest| >= 1 && !Contains(a, sep)
    requires SepFreeBefore(rest, |rest| - 1, sep)
    requires |rest| < n - 1 ==> !Contains(rest[|rest| - 1], sep)
    ensures SepFreeBefore([a] + rest, |rest|, sep)
    ensures |[a] + rest| < n ==> !Contains(([a] + rest)[|rest|], sep)
  {
    var parts := [a] + rest;
    forall i | 0 <= i < |parts| - 1
      ensures !Contains(parts[i], sep)
    {
      if i > 0 {
        assert parts[i] == rest[i - 1];
      }
    }
    assert parts[|parts| - 1] == rest[|rest| - 1];
  }

  /** `SplitN` with limit 2 cuts at the first separator only, leaving the rest whole. */
  lemma SplitNTwo(s: Bytes, sep: Bytes)
    requires |sep| > 0
    ensures Index(s, sep).None? ==> SplitN(s, sep, 2) == [s]
    ensures Index(s, sep).Some? ==>
      var m := Index(s, sep).value;
      SplitN(s, sep, 2) == [s[..m], s[m + |sep|..]]
  {
    match Index(s, sep)
    case None =>
    case Some(m) =>
      assert SplitN(s[m + |sep|..], sep, 1) == [s[m + |sep|..]];
  }

  /** Cutting `s` around the occurrence of `sep` at `m`. */
  lemma CutAt(s: Bytes, sep: Bytes, m: nat)
    requires |sep| > 0 && Index(s, sep) == Some(m)
    ensures s == s[..m] + sep + s[m + |sep|..]
    ensures !Contains(s[..m], sep)
  {
    assert s[m..m + |sep|] == sep;
    PrefixBeforeIndex(s, sep, m);
  }

  // ---------------------------------------------------------------------
  // Facts about the CRLF separator: it cannot overlap itself, so splitting on
  // it is the unique way to cut a string into CRLF-free pieces.
  // ---------------------------------------------------------------------

  /** No CR byte is immediately followed by an LF byte. */
  predicate NoCRLF(t: Bytes) {
    forall i :: 0 <= i < |t| - 1 ==> !(t[i] == '\r' && t[i + 1] == '\n')
  }

  lemma OccursAtCRLF(s: Bytes, i: int)
    ensures OccursAt(s, CRLF, i) <==> 0 <= i && i + 1 < |s| && s[i] == '\r' && s[i + 1] == '\n'
  {
    if 0 <= i && i + 1 < |s| && s[i] == '\r' && s[i + 1] == '\n' {
      assert s[i..i + 2] == CRLF;
    }
  }

  /** The pairwise reading of "contains no terminator" agrees with `Contains`. */
  lemma NoCRLFIsNotContains(t: Bytes)
    ensures NoCRLF(t) <==> !Contains(t, CRLF)
  {
    if NoCRLF(t) {
      forall j ensures !OccursAt(t, CRLF, j) {
        OccursAtCRLF(t, j);
      }
    } else {
      var i :| 0 <= i < |t| - 1 && t[i] == '\r' && t[i + 1] == '\n';
      OccursAtCRLF(t, i);
    }
  }

  /** Two bytes hold no terminator unless the first is CR. */
  lemma NoCRLFPair(a: Byte, b: Byte)
    requires a != '\r'
    ensures NoCRLF([a, b])
  {
  }

  /** Gluing two terminator-free strings creates no terminator unless the seam is CR|LF. */
  lemma ConcatNoCRLF(a: Bytes, b: Bytes)
    requires NoCRLF(a) && NoCRLF(b)
    requires |a| == 0 || |b| == 0 || a[|a| - 1] != '\r' || b[0] != '\n'
    ensures NoCRLF(a + b)
  {
    var ab := a + b;
    forall i | 0 <= i < |ab| - 1
      ensures !(ab[i] == '\r' && ab[i + 1] == '\n')
    {
      if i < |a| - 1 {
        assert ab[i] == a[i] && ab[i + 1] == a[i + 1];
      } else if i >= |a| {
        assert ab[i] == b[i - |a|] && ab[i + 1] == b[i - |a| + 1];
      }
    }
  }

  /** Anything with a CRLF glued in the middle contains a terminator. */
  lemma HasCRLF(a: Bytes, b: Bytes)
    ensures !NoCRLF(a + CRLF + b)
  {
    var s := a + CRLF + b;
    assert s[|a|] == '\r' && s[|a| + 1] == '\n';
  }

  /** In `p + CRLF + rest` with `p` free of terminators, the first terminator starts right after `p`. */
  lemma {:induction false} FirstCRLF(p: Bytes, rest: Bytes)
    requires NoCRLF(p)
    ensures Index(p + CRLF + rest, CRLF) == Some(|p|)
  {
    var s := p + CRLF + rest;
    OccursAtCRLF(s, |p|);
    forall j | 0 <= j < |p|
      ensures !OccursAt(s, CRLF, j)
    {
      OccursAtCRLF(s, j);
      if j + 1 < |p| {
        assert s[j] == p[j] && s[j + 1] == p[j + 1];
      } else {
        assert s[j + 1] == '\r';
      }
    }
  }

  /** Splitting a CRLF-join of terminator-free pieces gives the pieces back. */
  lemma {:induction false} SplitJoin(parts: seq<Bytes>)
    requires |parts| >= 1
    requires forall i :: 0 <= i < |parts| ==> NoCRLF(parts[i])
    ensures Split(Join(parts, CRLF), CRLF) == parts
  {
    if |parts| == 1 {
      NoCRLFIsNotContains(parts[0]);
    } else {
      var tail := Join(parts[1..], CRLF);
      var s := parts[0] + CRLF + tail;
      assert Join(parts, CRLF) == s;
      FirstCRLF(parts[0], tail);
      assert s[|parts[0]| + 2..] == tail;
      assert s[..|parts[0]|] == parts[0];
      SplitJoin(parts[1..]);
      assert parts == [parts[0]] + parts[1..];
    }
  }

  /**
    `SplitN` with limit `n` gives back `n` pieces joined by CRLF when all but
    the last are terminator-free (the last one may hold anything).
  */
  lemma {:induction false} SplitNJoin(parts: seq<Bytes>, n: int)
    requires 1 <= |parts| == n
    requires forall i :: 0 <= i < |parts| - 1 ==> NoCRLF(parts[i])
    ensures SplitN(Join(parts, CRLF), CRLF, n) == parts
  {
    if |parts| > 1 {
      var tail := Join(parts[1..], CRLF);
      var s := parts[0] + CRLF + tail;
      assert Join(parts, CRLF) == s;
      assert SplitN(s, CRLF, n) == [parts[0]] + SplitN(tail, CRLF, n - 1) by {
        FirstCRLF(parts[0], tail);
        assert s[..|parts[0]|] == parts[0] && s[|parts[0]| + 2..] == tail;
      }
      SplitNJoin(parts[1..], n - 1);
      assert parts == [parts[0]] + parts[1..];
    }
  }
}
