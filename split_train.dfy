/** tsxv/splitTrain.py: plain sliding windows (`split_train`, guarded) and
    the expanding-prefix variant (`split_train_variableInput`). */
module SplitTrain {
  import opened Windows

  /** How many pairs `split_train` emits: the loop runs over `k < len` and
      stops at the first `k` whose pair of total width `width`, starting at
      `k * jump`, would cross the end. */
  function PairCount(len: nat, width: nat, jump: nat): nat
  {
    if width > len then 0
    else if jump == 0 then len
    else Min(len, Steps(len - width, jump))
  }

  /** Pair `k` is emitted exactly when `k` is in the loop's range and its
      pair fits; so the emitted pairs are a prefix of the range. */
  lemma PairCountExact(len: nat, width: nat, jump: nat, k: nat)
    ensures k < PairCount(len, width, jump) <==> k < len && Stride(k, jump) + width <= len
  {
    if width <= len && jump >= 1 {
      StepsExact(len - width, jump, k);
    }
    if jump == 0 {
      StrideZero(k);
    }
  }

  /** The pair count never exceeds `len`, and with a positive stride and a
      positive width that fits it is `(len - width) / jump + 1`. */
  lemma PairCountClosedForm(len: nat, width: nat, jump: nat)
    ensures PairCount(len, width, jump) <= len
    ensures jump >= 1 && 1 <= width <= len ==> PairCount(len, width, jump) == (len - width) / jump + 1
  {
    if width <= len && jump >= 1 {
      StepsClosedForm(len - width, jump);
      var q := (len - width) / jump;
      DivUnique(len - width, jump, q, (len - width) % jump);
      MulMono(1, jump, q);
    }
  }

  /** Start positions of the pairs `split_train` emits. */
  function PairStarts(len: nat, nIn: nat, nOut: nat, nJ: nat): seq<nat>
  {
    Arith(0, nJ, PairCount(len, nIn + nOut, nJ))
  }

  /** Every pair of `split_train` is in bounds: `X[k]` is the `nIn` elements
      from `k * nJ`, `y[k]` the `nOut` elements right after, and together
      they are the contiguous slice from `k * nJ` of width `nIn + nOut`. */
  lemma SplitTrainPairs<T>(s: seq<T>, nIn: nat, nOut: nat, nJ: nat, k: nat)
    requires k < PairCount(|s|, nIn + nOut, nJ)
    ensures var starts := PairStarts(|s|, nIn, nOut, nJ);
      var X, y := Inputs(s, starts, nIn), Outputs(s, starts, nIn, nOut);
      && |X| == |y| == PairCount(|s|, nIn + nOut, nJ)
      && k * nJ + nIn + nOut <= |s|
      && X[k] == s[k * nJ..k * nJ + nIn] && |X[k]| == nIn
      && y[k] == s[k * nJ + nIn..k * nJ + nIn + nOut] && |y[k]| == nOut
      && X[k] + y[k] == s[k * nJ..k * nJ + nIn + nOut]
  {
    PairCountExact(|s|, nIn + nOut, nJ, k);
    StrideIsProduct(k, nJ);
    PairsExact(s, PairStarts(|s|, nIn, nOut, nJ), nIn, nOut, k);
  }

  /** `split_train`: sliding windows of `nIn` inputs followed by `nOut`
      outputs, advancing by `nJ`. A sequence shorter than `nIn + nOut` is
      reported (`tooShort`, the source prints a message) and yields two
      empty lists. */
  method SplitTrain<T>(s: seq<T>, nIn: nat, nOut: nat, nJ: nat)
    returns (X: seq<seq<T>>, y: seq<seq<T>>, tooShort: bool)
    ensures tooShort <==> nIn + nOut > |s|
    ensures tooShort ==> X == [] && y == []
    ensures X == Inputs(s, PairStarts(|s|, nIn, nOut, nJ), nIn)
    ensures y == Outputs(s, PairStarts(|s|, nIn, nOut, nJ), nIn, nOut)
  {
    X, y := [], [];
    tooShort := nIn + nOut > |s|;
    if tooShort {
      return;
    }
    var k := 0;
    while k < |s|
      invariant 0 <= k <= |s|
      invariant k <= PairCount(|s|, nIn + nOut, nJ)
      invariant X == Inputs(s, Arith(0, nJ, k), nIn)
      invariant y == Outputs(s, Arith(0, nJ, k), nIn, nOut)
    {
      var i := nJ * k;
      StrideIsProduct(k, nJ);
      assert i == Stride(k, nJ);
      var endIx := i + nIn;
      PairCountExact(|s|, nIn + nOut, nJ, k);
      if endIx + nOut > |s| {
        break;
      }
      StrideStep(s, 0, nJ, k, nIn, nOut);
      X := X + [s[i..endIx]];
      y := y + [s[endIx..endIx + nOut]];
      k := k + 1;
    }
    PairCountExact(|s|, nIn + nOut, nJ, k);
  }

  /** How many pairs `split_train_variableInput` emits: the guard admits
      none when `m + nOut > len`; otherwise every step `k` whose output
      window ends by `len`. */
  function VarCount(len: nat, m: nat, nOut: nat, nJ: nat): nat
    requires nJ >= 1 || m + nOut > len
  {
    if m + nOut > len then 0 else Steps(len - m - nOut, nJ)
  }

  lemma VarCountExact(len: nat, m: nat, nOut: nat, nJ: nat, k: nat)
    requires nJ >= 1
    ensures k < VarCount(len, m, nOut, nJ) <==> m + Stride(k, nJ) + nOut <= len
  {
    if m + nOut <= len {
      StepsExact(len - m - nOut, nJ, k);
    }
  }

  /** Past the guard there is at least one pair, and the count is
      `(len - m - nOut) / nJ + 1`. */
  lemma VarCountClosedForm(len: nat, m: nat, nOut: nat, nJ: nat)
    requires nJ >= 1 && m + nOut <= len
    ensures VarCount(len, m, nOut, nJ) == (len - m - nOut) / nJ + 1 >= 1
  {
    StepsClosedForm(len - m - nOut, nJ);
  }

  /** The prefixes `s[0:e]` for each end position `e`. */
  function Prefixes<T>(s: seq<T>, ends: seq<nat>): (r: seq<seq<T>>)
    ensures |r| == |ends|
  {
    seq(|ends|, k requires 0 <= k < |ends| => PySlice(s, 0, ends[k]))
  }

  lemma PrefixesSnoc<T>(s: seq<T>, ends: seq<nat>, e: nat)
    ensures Prefixes(s, ends + [e]) == Prefixes(s, ends) + [PySlice(s, 0, e)]
  {
    assert (ends + [e])[..|ends|] == ends;
  }

  /** Every pair of `split_train_variableInput` is in bounds: `X[k]` is the
      prefix of length `m + k * nJ` and `y[k]` the `nOut` elements after it. */
  lemma VariableInputPairs<T>(s: seq<T>, m: nat, nOut: nat, nJ: nat, k: nat)
    requires nJ >= 1 && k < VarCount(|s|, m, nOut, nJ)
    ensures var n := VarCount(|s|, m, nOut, nJ);
      var X, y := Prefixes(s, Arith(m, nJ, n)), Outputs(s, Arith(0, nJ, n), m, nOut);
      && m + k * nJ + nOut <= |s|
      && X[k] == s[..m + k * nJ] && |X[k]| == m + k * nJ
      && y[k] == s[m + k * nJ..m + k * nJ + nOut] && |y[k]| == nOut
  {
    VarCountExact(|s|, m, nOut, nJ, k);
    StrideIsProduct(k, nJ);
  }

  /** Successive inputs of `split_train_variableInput` grow by exactly `nJ`,
      each one extending the previous. */
  lemma VariableInputGrows<T>(s: seq<T>, m: nat, nOut: nat, nJ: nat, k: nat)
    requires nJ >= 1 && k + 1 < VarCount(|s|, m, nOut, nJ)
    ensures var X := Prefixes(s, Arith(m, nJ, VarCount(|s|, m, nOut, nJ)));
      |X[k + 1]| == |X[k]| + nJ && X[k] == X[k + 1][..|X[k]|]
  {
    VariableInputPairs(s, m, nOut, nJ, k);
    VariableInputPairs(s, m, nOut, nJ, k + 1);
    StrideIsProduct(k, nJ);
    StrideIsProduct(k + 1, nJ);
  }

  /** Step `i` of `split_train_variableInput` within the count: its pair
      lies inside the sequence and extends both reference lists by one. */
  lemma VariableInputStep<T>(s: seq<T>, m: nat, nOut: nat, nJ: nat, i: nat)
    requires nJ >= 1 && i < VarCount(|s|, m, nOut, nJ)
    ensures var e := m + Stride(i, nJ);
      && e + nOut <= |s|
      && Prefixes(s, Arith(m, nJ, i + 1)) == Prefixes(s, Arith(m, nJ, i)) + [s[0..e]]
      && Outputs(s, Arith(0, nJ, i + 1), m, nOut) == Outputs(s, Arith(0, nJ, i), m, nOut) + [s[e..e + nOut]]
  {
    var x := Stride(i, nJ);
    VarCountExact(|s|, m, nOut, nJ, i);
    ArithSnoc(m, nJ, i);
    ArithSnoc(0, nJ, i);
    assert Arith(0, nJ, i + 1) == Arith(0, nJ, i) + [x];
    PrefixesSnoc(s, Arith(m, nJ, i), m + x);
    OutputsSnoc(s, Arith(0, nJ, i), x, m, nOut);
    PySliceExact(s, 0, m + x);
    PySliceExact(s, x + m, x + m + nOut);
  }

  /** The check after step `i` lets the loop go on exactly while the next
      step is within the count. */
  lemma VariableInputCheck(len: nat, m: nat, nOut: nat, nJ: nat, i: nat)
    requires nJ >= 1
    ensures m + nJ * i + nOut > len <==> i >= VarCount(len, m, nOut, nJ)
  {
    StrideIsProduct(i, nJ);
    VarCountExact(len, m, nOut, nJ, i);
  }

  /** `split_train_variableInput`: the input is always a prefix of the
      sequence, starting at length `m` and growing by `nJ`; the output is the
      `nOut` elements that follow. The loop emits first and checks the next
      step afterwards. It terminates only for `nJ >= 1` once past the guard. */
  method SplitTrainVariableInput<T>(s: seq<T>, m: nat, nOut: nat, nJ: nat)
    returns (X: seq<seq<T>>, y: seq<seq<T>>, tooShort: bool)
    requires nJ >= 1 || m + nOut > |s|
    ensures tooShort <==> m + nOut > |s|
    ensures tooShort ==> X == [] && y == []
    ensures X == Prefixes(s, Arith(m, nJ, VarCount(|s|, m, nOut, nJ)))
    ensures y == Outputs(s, Arith(0, nJ, VarCount(|s|, m, nOut, nJ)), m, nOut)
  {
    var endIx := 0;
    var i: nat := 0;
    X, y := [], [];
    tooShort := m + nOut > |s|;
    if tooShort {
      return;
    }
    ghost var count := VarCount(|s|, m, nOut, nJ);
    VariableInputCheck(|s|, m, nOut, nJ, 0);
    while true
      invariant i < count
      invariant X == Prefixes(s, Arith(m, nJ, i))
      invariant y == Outputs(s, Arith(0, nJ, i), m, nOut)
      decreases count - i
    {
      endIx := m + nJ * i;
      StrideIsProduct(i, nJ);
      VariableInputStep(s, m, nOut, nJ, i);
      X := X + [s[0..endIx]];
      y := y + [s[endIx..endIx + nOut]];
      i := i + 1;
      VariableInputCheck(|s|, m, nOut, nJ, i);
      if m + nJ * i + nOut > |s| {
        break;
      }
    }
  }
}
