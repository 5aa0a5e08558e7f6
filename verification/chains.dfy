/**
  The element loop of `extractArray`, read over an arbitrary extraction step
  `f`: chains of extractions, and how the loop runs along them. Keeping the
  step abstract keeps these proofs independent of how a single value is
  extracted; `ExtractFacts` instantiates `f` with `ExtractType`.
*/
module Chains {
  import opened GoStrings
  import opened RespErrors
  import opened RespValue
  import opened RespExtract

  /**
    The loop of `ExtractElements` with the step `f` in place of
    `ExtractType`: `k` more values are read from `rem` and added to `acc`;
    the first failing step ends it with `FailedExtraction` for `orig`.
  */
  function Loop(f: Bytes -> Extraction, orig: Bytes, rem: Bytes, k: int, acc: Value): (r: Extraction)
    requires acc.Array?
    decreases k
  {
    if k <= 0 then Extracted(acc, rem)
    else
      match f(rem)
      case NotExtracted(_, e) =>
        NotExtracted(orig, Joined([FailedExtractionError("extractArray", orig), e]))
      case Extracted(v, r) =>
        Loop(f, orig, r, k - 1, AddElement(acc, v))
  }

  /**
    A chain of steps: `vs[i]` is extracted from `rs[i]` and leaves
    `rs[i + 1]`, so the values are read one after another from `rs[0]` and
    the last remainder is `rs[|vs|]`.
  */
  predicate Chain(f: Bytes -> Extraction, rs: seq<Bytes>, vs: seq<Value>) {
    |rs| == |vs| + 1 && forall i | 0 <= i < |vs| :: f(rs[i]) == Extracted(vs[i], rs[i + 1])
  }

  /** A chain extends at the front by one more step. */
  lemma ChainCons(f: Bytes -> Extraction, rs: seq<Bytes>, vs: seq<Value>, s: Bytes, v: Value)
    requires Chain(f, rs, vs) && f(s) == Extracted(v, rs[0])
    ensures Chain(f, [s] + rs, [v] + vs)
  {
    var rs', vs' := [s] + rs, [v] + vs;
    forall i | 0 <= i < |vs'|
      ensures f(rs'[i]) == Extracted(vs'[i], rs'[i + 1])
    {
      if i > 0 {
        assert rs'[i] == rs[i - 1] && rs'[i + 1] == rs[i] && vs'[i] == vs[i - 1];
      }
    }
  }

  /** Dropping the first step of a chain leaves a chain. */
  lemma ChainTail(f: Bytes -> Extraction, rs: seq<Bytes>, vs: seq<Value>) returns (rs': seq<Bytes>, vs': seq<Value>)
    requires Chain(f, rs, vs) && |vs| > 0
    ensures Chain(f, rs', vs') && |vs'| == |vs| - 1
    ensures f(rs[0]) == Extracted(vs[0], rs'[0])
    ensures rs'[|vs'|] == rs[|vs|]
  {
    rs', vs' := rs[1..], vs[1..];
    forall i | 0 <= i < |vs'|
      ensures f(rs'[i]) == Extracted(vs'[i], rs'[i + 1])
    {
      assert rs'[i] == rs[i + 1] && rs'[i + 1] == rs[i + 2] && vs'[i] == vs[i + 1];
    }
  }

  /** The values an array collects after one more: the earlier ones, then it. */
  lemma AddAfter(acc: Value, v: Value, vs: seq<Value>)
    requires acc.Array?
    ensures GetElements(AddElement(acc, v)) + vs == GetElements(acc) + ([v] + vs)
  {
    GetAddElement(acc, v);
    AppendAssoc(GetElements(acc), [v], vs);
  }

  /**
    The loop on success with `k > 0`: it read a chain of exactly `k` values
    from `rem` and appended them to the values so far.
  */
  lemma {:induction false} LoopChain(f: Bytes -> Extraction, orig: Bytes, rem: Bytes, k: int, acc: Value)
    returns (rs: seq<Bytes>, vs: seq<Value>)
    requires acc.Array? && k > 0
    requires Loop(f, orig, rem, k, acc).Extracted?
    ensures |vs| == k && Chain(f, rs, vs) && rs[0] == rem
    ensures Loop(f, orig, rem, k, acc) == Extracted(Array(Present(GetElements(acc) + vs)), rs[k])
    decreases k
  {
    var v, r := f(rem).value, f(rem).rest;
    var acc' := AddElement(acc, v);
    assert Loop(f, orig, rem, k, acc) == Loop(f, orig, r, k - 1, acc');
    var rs1, vs1;
    if k == 1 {
      rs1, vs1 := [r], [];
      assert Loop(f, orig, r, 0, acc') == Extracted(Array(Present(GetElements(acc') + vs1)), rs1[0]);
    } else {
      rs1, vs1 := LoopChain(f, orig, r, k - 1, acc');
    }
    AddAfter(acc, v, vs1);
    ChainCons(f, rs1, vs1, rem, v);
    rs, vs := [rem] + rs1, [v] + vs1;
    assert rs[k] == rs1[k - 1];
  }

  /**
    The loop on failure: a chain of fewer than `k` values was read, the next
    step failed, and the loop reports `orig` with `FailedExtraction` joined
    with that step's error.
  */
  lemma {:induction false} LoopFailure(f: Bytes -> Extraction, orig: Bytes, rem: Bytes, k: int, acc: Value)
    returns (rs: seq<Bytes>, vs: seq<Value>)
    requires acc.Array?
    requires Loop(f, orig, rem, k, acc).NotExtracted?
    ensures |vs| < k && Chain(f, rs, vs) && rs[0] == rem
    ensures f(rs[|vs|]).NotExtracted?
    ensures Loop(f, orig, rem, k, acc)
      == NotExtracted(orig, Joined([FailedExtractionError("extractArray", orig), f(rs[|vs|]).error]))
    decreases k
  {
    if f(rem).NotExtracted? {
      rs, vs := [rem], [];
    } else {
      var rs1, vs1 := LoopFailure(f, orig, f(rem).rest, k - 1, AddElement(acc, f(rem).value));
      ChainCons(f, rs1, vs1, rem, f(rem).value);
      rs, vs := [rem] + rs1, [f(rem).value] + vs1;
      assert rs[|vs|] == rs1[|vs1|];
    }
  }

  /**
    Conversely, from its `i`-th remainder on, a chain is what the loop reads
    when asked for the values still ahead, appended to those so far.
  */
  lemma {:induction false} ChainLoopFrom(f: Bytes -> Extraction, orig: Bytes, rs: seq<Bytes>, vs: seq<Value>, i: nat, acc: Value)
    requires acc.Array? && Chain(f, rs, vs) && i < |vs|
    ensures Loop(f, orig, rs[i], |vs| - i, acc) == Extracted(Array(Present(GetElements(acc) + vs[i..])), rs[|vs|])
    decreases |vs| - i
  {
    var acc' := AddElement(acc, vs[i]);
    assert f(rs[i]) == Extracted(vs[i], rs[i + 1]);
    assert vs[i..] == [vs[i]] + vs[i + 1..];
    AddAfter(acc, vs[i], vs[i + 1..]);
    if i + 1 == |vs| {
      assert GetElements(acc') + vs[i + 1..] == GetElements(acc');
    } else {
      ChainLoopFrom(f, orig, rs, vs, i + 1, acc');
    }
  }

  /** Conversely, a chain of `|vs| > 0` values is what the loop reads when asked for `|vs|`. */
  lemma ChainLoop(f: Bytes -> Extraction, orig: Bytes, rs: seq<Bytes>, vs: seq<Value>, acc: Value)
    requires acc.Array? && Chain(f, rs, vs) && |vs| > 0
    ensures Loop(f, orig, rs[0], |vs|, acc) == Extracted(Array(Present(GetElements(acc) + vs)), rs[|vs|])
  {
    ChainLoopFrom(f, orig, rs, vs, 0, acc);
    assert vs[0..] == vs;
  }

  /**
    Conversely, from its `i`-th remainder on, a chain of fewer than the `k`
    values still wanted, followed by a failing step, makes the loop fail
    whatever it has collected.
  */
  lemma {:induction false} ChainLoopFailureFrom(f: Bytes -> Extraction, orig: Bytes, rs: seq<Bytes>, vs: seq<Value>, i: nat, k: int, acc: Value)
    requires acc.Array? && Chain(f, rs, vs) && i <= |vs| && |vs| - i < k
    requires f(rs[|vs|]).NotExtracted?
    ensures Loop(f, orig, rs[i], k, acc)
      == NotExtracted(orig, Joined([FailedExtractionError("extractArray", orig), f(rs[|vs|]).error]))
    decreases |vs| - i
  {
    if i < |vs| {
      assert f(rs[i]) == Extracted(vs[i], rs[i + 1]);
      ChainLoopFailureFrom(f, orig, rs, vs, i + 1, k - 1, AddElement(acc, vs[i]));
    }
  }

  /** Conversely, a chain of fewer than `k` values followed by a failing step makes the loop fail. */
  lemma ChainLoopFailure(f: Bytes -> Extraction, orig: Bytes, rs: seq<Bytes>, vs: seq<Value>, k: int, acc: Value)
    requires acc.Array? && Chain(f, rs, vs) && |vs| < k
    requires f(rs[|vs|]).NotExtracted?
    ensures Loop(f, orig, rs[0], k, acc)
      == NotExtracted(orig, Joined([FailedExtractionError("extractArray", orig), f(rs[|vs|]).error]))
  {
    ChainLoopFailureFrom(f, orig, rs, vs, 0, k, acc);
  }
}
