/** TimeSeriesCrossValidation/splitTrain.py: the older `split_train`, the
    same sliding-window loop without the up-front length guard. */
module LegacySplitTrain {
  import opened Windows
  import Guarded = SplitTrain

  /** Without the guard a too-short sequence still yields two empty lists:
      the very first bounds check breaks out of the loop. */
  lemma NoGuardNeeded(len: nat, nIn: nat, nOut: nat, nJ: nat)
    requires nIn + nOut > len
    ensures Guarded.PairStarts(len, nIn, nOut, nJ) == []
  {
    Guarded.PairCountExact(len, nIn + nOut, nJ, 0);
  }

  /** `split_train` of the legacy package. Its result is the reference
      `Inputs`/`Outputs` over `PairStarts`, exactly what the guarded
      `Guarded.SplitTrain` returns, so the two agree on every input. */
  method SplitTrain<T>(s: seq<T>, nIn: nat, nOut: nat, nJ: nat)
    returns (X: seq<seq<T>>, y: seq<seq<T>>)
    ensures nIn + nOut > |s| ==> X == [] && y == []
    ensures X == Inputs(s, Guarded.PairStarts(|s|, nIn, nOut, nJ), nIn)
    ensures y == Outputs(s, Guarded.PairStarts(|s|, nIn, nOut, nJ), nIn, nOut)
  {
    X, y := [], [];
    var k := 0;
    while k < |s|
      invariant 0 <= k <= |s|
      invariant k <= Guarded.PairCount(|s|, nIn + nOut, nJ)
      invariant X == Inputs(s, Arith(0, nJ, k), nIn)
      invariant y == Outputs(s, Arith(0, nJ, k), nIn, nOut)
    {
      var i := nJ * k;
      StrideIsProduct(k, nJ);
      assert i == Stride(k, nJ);
      var endIx := i + nIn;
      Guarded.PairCountExact(|s|, nIn + nOut, nJ, k);
      if endIx + nOut > |s| {
        break;
      }
      StrideStep(s, 0, nJ, k, nIn, nOut);
      X := X + [s[i..endIx]];
      y := y + [s[endIx..endIx + nOut]];
      k := k + 1;
    }
    Guarded.PairCountExact(|s|, nIn + nOut, nJ, k);
    if nIn + nOut > |s| {
      NoGuardNeeded(|s|, nIn, nOut, nJ);
    }
  }
}
