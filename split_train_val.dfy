/** TimeSeriesCrossValidation/splitTrainVal.py: train/validation folds by
    forward chaining, by "k-fold" and by 5-fold grouping. The source returns
    four dictionaries `X`, `y`, `Xcv`, `ycv` keyed by fold number `0..F-1`;
    the model returns one sequence of folds, `folds[f].X` being `X[f]`. */
module SplitTrainVal {
  import opened Windows

  /** One train/validation split: training inputs and outputs, and the
      validation inputs and outputs. */
  datatype TrainVal<T> = TrainVal(X: seq<seq<T>>, y: seq<seq<T>>, Xcv: seq<seq<T>>, ycv: seq<seq<T>>)

  // ---------------------------------------------------------------------
  // Forward chaining

  /** The number of folds shared by forward chaining and k-fold: fold `f`
      exists when its validation pair, which begins where the `(f+2)`-th
      training input ends, still fits. */
  function FoldCount(len: nat, nIn: nat, nOut: nat, nJ: nat): nat
    requires nJ >= 1 || 2 * nIn + nOut > len
  {
    if 2 * nIn + nOut + nJ > len then 0 else Steps(len - (2 * nIn + nOut) - nJ, nJ)
  }

  /** Fold `f` is emitted exactly when its validation output ends by `len`. */
  lemma FoldCountExact(len: nat, nIn: nat, nOut: nat, nJ: nat, f: nat)
    requires nJ >= 1 || 2 * nIn + nOut > len
    ensures f < FoldCount(len, nIn, nOut, nJ) <==> Stride(f + 1, nJ) + 2 * nIn + nOut <= len
  {
    if nJ >= 1 {
      StepsExact(len - (2 * nIn + nOut) - nJ, nJ, f);
      if Stride(f + 1, nJ) + 2 * nIn + nOut <= len {
        StrideMono(1, f + 1, nJ);
      }
    } else {
      StrideZero(f + 1);
    }
  }

  /** The fold count in the source's own arithmetic:
      `max(0, (len - 2*nIn - nOut) // nJ)`. */
  lemma FoldCountClosedForm(len: nat, nIn: nat, nOut: nat, nJ: nat)
    requires nJ >= 1
    ensures 2 * nIn + nOut > len ==> FoldCount(len, nIn, nOut, nJ) == 0
    ensures 2 * nIn + nOut <= len ==> FoldCount(len, nIn, nOut, nJ) == (len - 2 * nIn - nOut) / nJ
  {
    var room := len - 2 * nIn - nOut;
    if room >= nJ {
      StepsClosedForm(room - nJ, nJ);
      var q, r := (room - nJ) / nJ, (room - nJ) % nJ;
      DivUnique(room, nJ, q + 1, r);
    } else if room >= 0 {
      DivUnique(room, nJ, 0, room);
    }
  }

  /** The start of the validation pair of fold `f`: the end of the input of
      its last training pair, which begins at `(f + 1) * nJ`. */
  function ValStart(nIn: nat, nJ: nat, f: nat): nat
  {
    Stride(f + 1, nJ) + nIn
  }

  /** Fold `f` of forward chaining: `f + 2` training pairs at
      `0, nJ, ..., (f + 1) * nJ` and one validation pair at `ValStart`. */
  function ChainFold<T>(s: seq<T>, nIn: nat, nOut: nat, nJ: nat, f: nat): TrainVal<T>
  {
    var train, v := Arith(0, nJ, f + 2), [ValStart(nIn, nJ, f)];
    TrainVal(Inputs(s, train, nIn), Outputs(s, train, nIn, nOut), Inputs(s, v, nIn), Outputs(s, v, nIn, nOut))
  }

  function ChainFolds<T>(s: seq<T>, nIn: nat, nOut: nat, nJ: nat, n: nat): seq<TrainVal<T>>
  {
    seq(n, f requires 0 <= f < n => ChainFold(s, nIn, nOut, nJ, f))
  }

  /** Fold `f + 1` trains on fold `f`'s pairs plus the next one. */
  lemma ChainFoldsNested<T>(s: seq<T>, nIn: nat, nOut: nat, nJ: nat, f: nat)
    requires Stride(f + 2, nJ) + nIn + nOut <= |s|
    ensures var a, b, x := ChainFold(s, nIn, nOut, nJ, f), ChainFold(s, nIn, nOut, nJ, f + 1), Stride(f + 2, nJ);
      && b.X == a.X + [s[x..x + nIn]]
      && b.y == a.y + [s[x + nIn..x + nIn + nOut]]
  {
    StrideStep(s, 0, nJ, f + 2, nIn, nOut);
  }

  /** Training pair `k` of an emitted forward-chaining fold, by stride. */
  lemma ChainTrainWindow<T>(s: seq<T>, nIn: nat, nOut: nat, nJ: nat, f: nat, k: nat)
    requires nJ >= 1 || 2 * nIn + nOut > |s|
    requires f < FoldCount(|s|, nIn, nOut, nJ) && k < f + 2
    ensures var fold, x := ChainFold(s, nIn, nOut, nJ, f), Stride(k, nJ);
      && |fold.X| == |fold.y| == f + 2
      && x + nIn + nOut <= Stride(f + 1, nJ) + nIn + nIn + nOut <= |s|
      && fold.X[k] == s[x..x + nIn]
      && fold.y[k] == s[x + nIn..x + nIn + nOut]
  {
    FoldCountExact(|s|, nIn, nOut, nJ, f);
    StrideMono(k, f + 1, nJ);
    PairsExact(s, Arith(0, nJ, f + 2), nIn, nOut, k);
  }

  /** The validation pair of an emitted forward-chaining fold, by stride. */
  lemma ChainValWindow<T>(s: seq<T>, nIn: nat, nOut: nat, nJ: nat, f: nat)
    requires nJ >= 1 || 2 * nIn + nOut > |s|
    requires f < FoldCount(|s|, nIn, nOut, nJ)
    ensures var fold, e := ChainFold(s, nIn, nOut, nJ, f), Stride(f + 1, nJ) + nIn;
      && |fold.Xcv| == |fold.ycv| == 1
      && e + nIn + nOut <= |s|
      && fold.Xcv[0] == s[e..e + nIn]
      && fold.ycv[0] == s[e + nIn..e + nIn + nOut]
  {
    FoldCountExact(|s|, nIn, nOut, nJ, f);
    PairsExact(s, [ValStart(nIn, nJ, f)], nIn, nOut, 0);
  }

  /** Every window of an emitted forward-chaining fold is in bounds: the
      training pair `k` is the `nIn` elements from `Stride(k, nJ)` (which is
      `k * nJ`, `StrideIsProduct`) followed by `nOut` elements, and the
      validation input starts exactly where the last training input ends, so
      it overlaps the last training output. */
  lemma ChainFoldInBounds<T>(s: seq<T>, nIn: nat, nOut: nat, nJ: nat, f: nat, k: nat)
    requires nJ >= 1 || 2 * nIn + nOut > |s|
    requires f < FoldCount(|s|, nIn, nOut, nJ) && k < f + 2
    ensures var fold, x, e := ChainFold(s, nIn, nOut, nJ, f), Stride(k, nJ), Stride(f + 1, nJ) + nIn;
      && |fold.X| == |fold.y| == f + 2 && |fold.Xcv| == |fold.ycv| == 1
      && x + nIn + nOut <= |s|
      && fold.X[k] == s[x..x + nIn]
      && fold.y[k] == s[x + nIn..x + nIn + nOut]
      && e + nIn + nOut <= |s|
      && fold.y[f + 1] == s[e..e + nOut]
      && fold.Xcv[0] == s[e..e + nIn]
      && fold.ycv[0] == s[e + nIn..e + nIn + nOut]
  {
    ChainTrainWindow(s, nIn, nOut, nJ, f, k);
    ChainTrainWindow(s, nIn, nOut, nJ, f, f + 1);
    ChainValWindow(s, nIn, nOut, nJ, f);
  }

  /** The call in scripts/testSplit.py: 31 samples with 4 inputs, 3 outputs
      and a jump of 3 give 6 folds. */
  lemma ChainDemoFolds()
    ensures FoldCount(31, 4, 3, 3) == 6
  {
    FoldCountClosedForm(31, 4, 3, 3);
  }

  lemma ChainFoldsSnoc<T>(s: seq<T>, nIn: nat, nOut: nat, nJ: nat, n: nat)
    ensures ChainFolds(s, nIn, nOut, nJ, n + 1) == ChainFolds(s, nIn, nOut, nJ, n) + [ChainFold(s, nIn, nOut, nJ, n)]
  {
  }

  /** The inner loop of `split_train_val_forwardChaining`: the training
      pairs `i = 0 .. j-1` at `i * nJ`, sliced with Python's clamping, and
      the end of the last training input. */
  method ChainTraining<T>(s: seq<T>, nIn: nat, nOut: nat, nJ: nat, j: nat)
    returns (Xit: seq<seq<T>>, yit: seq<seq<T>>, endIx: nat)
    requires j >= 1
    ensures Xit == Inputs(s, Arith(0, nJ, j), nIn)
    ensures yit == Outputs(s, Arith(0, nJ, j), nIn, nOut)
    ensures endIx == (j - 1) * nJ + nIn
  {
    endIx := 0;
    Xit, yit := [], [];
    var i := 0;
    while i < j
      invariant 0 <= i <= j
      invariant Xit == Inputs(s, Arith(0, nJ, i), nIn)
      invariant yit == Outputs(s, Arith(0, nJ, i), nIn, nOut)
      invariant i >= 1 ==> endIx == (i - 1) * nJ + nIn
    {
      var startIx := nJ * i;
      assert startIx == Stride(i, nJ) by { StrideIsProduct(i, nJ); }
      endIx := startIx + nIn;
      ArithPairsSnoc(s, 0, nJ, i, nIn, nOut);
      Xit := Xit + [PySlice(s, startIx, endIx)];
      yit := yit + [PySlice(s, endIx, endIx + nOut)];
      i := i + 1;
    }
  }

  /** `split_train_val_forwardChaining`. For fold counter `j = 2, 3, ...`
      the inner loop takes `j` training pairs (sliced before any bound is
      checked, with Python's clamping), then the validation pair is checked
      and the first fold whose validation output would cross the end is
      discarded and ends the loop. With `nJ = 0` and a first fold that fits
      the source loops forever; the precondition excludes exactly that. */
  method ForwardChaining<T>(s: seq<T>, nIn: nat, nOut: nat, nJ: nat) returns (folds: seq<TrainVal<T>>)
    requires nJ >= 1 || 2 * nIn + nOut > |s|
    ensures folds == ChainFolds(s, nIn, nOut, nJ, FoldCount(|s|, nIn, nOut, nJ))
  {
    folds := [];
    var j := 2;
    while true
      invariant 2 <= j && j - 2 <= FoldCount(|s|, nIn, nOut, nJ)
      invariant folds == ChainFolds(s, nIn, nOut, nJ, j - 2)
      decreases FoldCount(|s|, nIn, nOut, nJ) - (j - 2)
    {
      var Xit, yit, endIx := ChainTraining(s, nIn, nOut, nJ, j);
      StrideIsProduct(j - 1, nJ);
      assert endIx + nIn + nOut <= |s| <==> j - 2 < FoldCount(|s|, nIn, nOut, nJ) by {
        FoldCountExact(|s|, nIn, nOut, nJ, j - 2);
      }
      if endIx + nIn + nOut > |s| {
        break;
      }
      var endCv := endIx + nIn;
      var Xcvit, ycvit := [s[endIx..endCv]], [s[endCv..endCv + nOut]];
      assert folds + [TrainVal(Xit, yit, Xcvit, ycvit)] == ChainFolds(s, nIn, nOut, nJ, j - 1) by {
        SinglePair(s, endIx, nIn, nOut);
        assert TrainVal(Xit, yit, Xcvit, ycvit) == ChainFold(s, nIn, nOut, nJ, j - 2);
        ChainFoldsSnoc(s, nIn, nOut, nJ, j - 2);
      }
      folds := folds + [TrainVal(Xit, yit, Xcvit, ycvit)];
      j := j + 1;
    }
  }

  // ---------------------------------------------------------------------
  // K-fold

  /** How many training pairs follow the validation pair of fold `f`: they
      start at `c = ValStart + nIn` (the end of the validation input) and
      advance by `nJ` while their output ends by `len`. */
  function PostCount(len: nat, nIn: nat, nOut: nat, nJ: nat, f: nat): nat
    requires nJ >= 1
  {
    Steps(len - (ValStart(nIn, nJ, f) + nIn) - nIn - nOut, nJ)
  }

  /** Training start positions of k-fold fold `f`: the `f + 2` positions of
      forward chaining, then the positions after the validation pair. */
  function KFoldTrainStarts(len: nat, nIn: nat, nOut: nat, nJ: nat, f: nat): seq<nat>
    requires nJ >= 1
  {
    Arith(0, nJ, f + 2) + Arith(ValStart(nIn, nJ, f) + nIn, nJ, PostCount(len, nIn, nOut, nJ, f))
  }

  /** Fold `f` of k-fold: training around one validation pair. */
  function KFoldFold<T>(s: seq<T>, nIn: nat, nOut: nat, nJ: nat, f: nat): TrainVal<T>
    requires nJ >= 1
  {
    var train, v := KFoldTrainStarts(|s|, nIn, nOut, nJ, f), [ValStart(nIn, nJ, f)];
    TrainVal(Inputs(s, train, nIn), Outputs(s, train, nIn, nOut), Inputs(s, v, nIn), Outputs(s, v, nIn, nOut))
  }

  function KFoldFolds<T>(s: seq<T>, nIn: nat, nOut: nat, nJ: nat, n: nat): seq<TrainVal<T>>
    requires nJ >= 1
  {
    seq(n, f requires 0 <= f < n => KFoldFold(s, nIn, nOut, nJ, f))
  }

  lemma KFoldFoldOf<T>(s: seq<T>, nIn: nat, nOut: nat, nJ: nat, f: nat)
    requires nJ >= 1 && ValStart(nIn, nJ, f) + nIn + nOut <= |s|
    ensures var train, v := KFoldTrainStarts(|s|, nIn, nOut, nJ, f), ValStart(nIn, nJ, f);
      KFoldFold(s, nIn, nOut, nJ, f)
      == TrainVal(Inputs(s, train, nIn), Outputs(s, train, nIn, nOut), [s[v..v + nIn]], [s[v + nIn..v + nIn + nOut]])
  {
    SinglePair(s, ValStart(nIn, nJ, f), nIn, nOut);
  }

  /** The number of training pairs at `0, nJ, 2*nJ, ...` that fit. */
  function LeadCount(len: nat, nIn: nat, nOut: nat, nJ: nat): nat
    requires nJ >= 1
  {
    Steps(len - nIn - nOut, nJ)
  }

  /** The training pairs k-fold takes after a validation pair: from `c`,
      the end of the validation input, advancing by `nJ` until a pair would
      cross the end. They are appended to the pairs already taken, which
      begin at the positions `lead`. */
  method TrainFrom<T>(s: seq<T>, nIn: nat, nOut: nat, nJ: nat, c: nat,
                      X0: seq<seq<T>>, y0: seq<seq<T>>, ghost lead: seq<nat>)
    returns (Xit: seq<seq<T>>, yit: seq<seq<T>>)
    requires nJ >= 1
    requires X0 == Inputs(s, lead, nIn) && y0 == Outputs(s, lead, nIn, nOut)
    ensures var tail := Arith(c, nJ, Steps(|s| - c - nIn - nOut, nJ));
      Xit == Inputs(s, lead + tail, nIn) && yit == Outputs(s, lead + tail, nIn, nOut)
  {
    Xit, yit := X0, y0;
    ghost var q := Steps(|s| - c - nIn - nOut, nJ);
    var n := 0;
    assert lead + Arith(c, nJ, 0) == lead;
    while true
      invariant n <= q
      invariant Xit == Inputs(s, lead + Arith(c, nJ, n), nIn)
      invariant yit == Outputs(s, lead + Arith(c, nJ, n), nIn, nOut)
      decreases q - n
    {
      var startIx := c + Stride(n, nJ);
      var endIx := startIx + nIn;
      StepsExact(|s| - c - nIn - nOut, nJ, n);
      if endIx + nOut > |s| {
        break;
      }
      StrideStepAfter(s, lead, c, nJ, n, nIn, nOut);
      Xit := Xit + [s[startIx..endIx]];
      yit := yit + [s[endIx..endIx + nOut]];
      n := n + 1;
    }
  }

  /** The training pairs k-fold takes before the validation slot `j`: steps
      `i < j` at `endCv + n * nJ`, where `endCv` is still 0 and `n == i`. A
      pair that would cross the end stops them (`overrun`); the pairs that
      fit are the first `LeadCount` positions. */
  method TrainLead<T>(s: seq<T>, nIn: nat, nOut: nat, nJ: nat, j: nat)
    returns (Xit: seq<seq<T>>, yit: seq<seq<T>>, endIx: nat, overrun: bool)
    requires nJ >= 1 && j >= 1
    ensures overrun <==> LeadCount(|s|, nIn, nOut, nJ) < j
    ensures var k := Min(j, LeadCount(|s|, nIn, nOut, nJ));
      Xit == Inputs(s, Arith(0, nJ, k), nIn) && yit == Outputs(s, Arith(0, nJ, k), nIn, nOut)
    ensures !overrun ==> endIx == Stride(j - 1, nJ) + nIn
  {
    ghost var p := LeadCount(|s|, nIn, nOut, nJ);
    endIx := 0;
    Xit, yit := [], [];
    overrun := false;
    var i := 0;
    while i < j
      invariant i <= j && i <= p
      invariant Xit == Inputs(s, Arith(0, nJ, i), nIn) && yit == Outputs(s, Arith(0, nJ, i), nIn, nOut)
      invariant 1 <= i ==> endIx == Stride(i - 1, nJ) + nIn
    {
      var startIx := Stride(i, nJ);
      endIx := startIx + nIn;
      StepsExact(|s| - nIn - nOut, nJ, i);
      if endIx + nOut > |s| {
        overrun := true;
        return;
      }
      StrideStep(s, 0, nJ, i, nIn, nOut);
      Xit := Xit + [s[startIx..endIx]];
      yit := yit + [s[endIx..endIx + nOut]];
      i := i + 1;
    }
  }

  /** The inner `while 1` loop of `split_train_val_kFold` for fold counter
      `j`. Steps `i != j` are training pairs, starting at `endCv + n*nJ`;
      step `i == j` is the validation pair at the end of the last
      training input, after which `n` restarts from 0. Three exits:
      a training pair before the validation slot crosses the end (the fold
      has no validation pair and `theEnd` stays false); the validation pair
      crosses the end (`theEnd`); or, after the validation pair, a training
      pair crosses the end and the fold is complete. */
  method KFoldAttempt<T>(s: seq<T>, nIn: nat, nOut: nat, nJ: nat, j: nat)
    returns (fold: TrainVal<T>, theEnd: bool)
    requires nJ >= 1 && j >= 2
    ensures var p := LeadCount(|s|, nIn, nOut, nJ);
      p < j ==> !theEnd && fold == TrainVal(Inputs(s, Arith(0, nJ, p), nIn), Outputs(s, Arith(0, nJ, p), nIn, nOut), [], [])
    ensures j <= LeadCount(|s|, nIn, nOut, nJ) ==> (theEnd <==> j - 2 >= FoldCount(|s|, nIn, nOut, nJ))
    ensures j <= LeadCount(|s|, nIn, nOut, nJ) && j - 2 < FoldCount(|s|, nIn, nOut, nJ)
      ==> fold == KFoldFold(s, nIn, nOut, nJ, j - 2)
  {
    var Xit, yit, endIx, overrun := TrainLead(s, nIn, nOut, nJ, j);
    theEnd := false;
    if overrun {
      fold := TrainVal(Xit, yit, [], []);
      return;
    }
    // Step i == j: the validation pair at the end of the last training input.
    var startCv := endIx;
    var endCv := endIx + nIn;
    FoldCountExact(|s|, nIn, nOut, nJ, j - 2);
    if endCv + nOut > |s| {
      theEnd := true;
      fold := TrainVal(Xit, yit, [], []);
      return;
    }
    var Xcvit, ycvit := [s[startCv..endCv]], [s[endCv..endCv + nOut]];
    // Steps i > j: n restarts from 0 at the end of the validation input.
    Xit, yit := TrainFrom(s, nIn, nOut, nJ, endCv, Xit, yit, Arith(0, nJ, j));
    fold := TrainVal(Xit, yit, Xcvit, ycvit);
    KFoldFoldOf(s, nIn, nOut, nJ, j - 2);
  }

  lemma KFoldFoldsSnoc<T>(s: seq<T>, nIn: nat, nOut: nat, nJ: nat, n: nat)
    requires nJ >= 1
    ensures KFoldFolds(s, nIn, nOut, nJ, n + 1) == KFoldFolds(s, nIn, nOut, nJ, n) + [KFoldFold(s, nIn, nOut, nJ, n)]
  {
  }

  /** Once the validation pair of a fold fits, the next fold's training
      pairs before its validation slot fit too, since `nJ <= nIn`. */
  lemma KFoldLeadFits(len: nat, nIn: nat, nOut: nat, nJ: nat, j: nat)
    requires 1 <= nJ <= nIn && nJ + nIn + nOut <= len && j >= 2
    requires j == 2 || j - 3 < FoldCount(len, nIn, nOut, nJ)
    ensures j <= LeadCount(len, nIn, nOut, nJ)
  {
    StepsExact(len - nIn - nOut, nJ, j - 1);
    if j > 2 {
      FoldCountExact(len, nIn, nOut, nJ, j - 3);
    }
  }

  /** `split_train_val_kFold`. Fold counter `j = 2, 3, ...`; each attempt
      that reaches its validation pair and fits is stored as fold `j - 2`,
      and the first validation pair that crosses the end stops the loop.
      The source leaves the outer loop only through that exit: when a
      training pair before the validation slot crosses the end it loops
      forever. The precondition excludes that, and under it the folds are
      exactly the `FoldCount` folds `KFoldFold`. */
  method KFold<T>(s: seq<T>, nIn: nat, nOut: nat, nJ: nat) returns (folds: seq<TrainVal<T>>)
    requires 1 <= nJ <= nIn && nJ + nIn + nOut <= |s|
    ensures folds == KFoldFolds(s, nIn, nOut, nJ, FoldCount(|s|, nIn, nOut, nJ))
  {
    folds := [];
    var j := 2;
    KFoldLeadFits(|s|, nIn, nOut, nJ, j);
    while true
      invariant 2 <= j && j - 2 <= FoldCount(|s|, nIn, nOut, nJ)
      invariant j <= LeadCount(|s|, nIn, nOut, nJ)
      invariant folds == KFoldFolds(s, nIn, nOut, nJ, j - 2)
      decreases FoldCount(|s|, nIn, nOut, nJ) - (j - 2)
    {
      var fold, theEnd := KFoldAttempt(s, nIn, nOut, nJ, j);
      if theEnd {
        break;
      }
      KFoldFoldsSnoc(s, nIn, nOut, nJ, j - 2);
      folds := folds + [fold];
      j := j + 1;
      KFoldLeadFits(|s|, nIn, nOut, nJ, j);
    }
  }

  /** A k-fold fold begins like the forward-chaining fold with the same
      number: the same `f + 2` leading training pairs and the same
      validation pair. */
  lemma KFoldExtendsChain<T>(s: seq<T>, nIn: nat, nOut: nat, nJ: nat, f: nat)
    requires nJ >= 1
    ensures var a, b := KFoldFold(s, nIn, nOut, nJ, f), ChainFold(s, nIn, nOut, nJ, f);
      && |a.X| >= f + 2 && a.X[..f + 2] == b.X && a.y[..f + 2] == b.y
      && a.Xcv == b.Xcv && a.ycv == b.ycv
  {
    var lead := Arith(0, nJ, f + 2);
    var tail := Arith(ValStart(nIn, nJ, f) + nIn, nJ, PostCount(|s|, nIn, nOut, nJ, f));
    InputsPrefix(s, lead, tail, nIn);
    OutputsPrefix(s, lead, tail, nIn, nOut);
  }

  /** After the validation pair, training resumes exactly at the end of the
      validation input, `m`-th pair at `ValStart + nIn + m * nJ`, and every
      such pair is in bounds with full-length windows. */
  lemma KFoldTailInBounds<T>(s: seq<T>, nIn: nat, nOut: nat, nJ: nat, f: nat, m: nat)
    requires nJ >= 1 && m < PostCount(|s|, nIn, nOut, nJ, f)
    ensures var fold, t := KFoldFold(s, nIn, nOut, nJ, f), ValStart(nIn, nJ, f) + nIn + m * nJ;
      && f + 2 + m < |fold.X|
      && t + nIn + nOut <= |s|
      && fold.X[f + 2 + m] == s[t..t + nIn]
      && fold.y[f + 2 + m] == s[t + nIn..t + nIn + nOut]
  {
    var c := ValStart(nIn, nJ, f) + nIn;
    StepsExact(|s| - c - nIn - nOut, nJ, m);
    StrideIsProduct(m, nJ);
    var starts := KFoldTrainStarts(|s|, nIn, nOut, nJ, f);
    assert starts[f + 2 + m] == c + Stride(m, nJ);
    PairsExact(s, starts, nIn, nOut, f + 2 + m);
  }

  /** Every emitted k-fold fold has one validation pair in bounds, at the end
      of its `(f + 2)`-th training input. */
  lemma KFoldValInBounds<T>(s: seq<T>, nIn: nat, nOut: nat, nJ: nat, f: nat)
    requires nJ >= 1 && f < FoldCount(|s|, nIn, nOut, nJ)
    ensures var fold, v := KFoldFold(s, nIn, nOut, nJ, f), (f + 1) * nJ + nIn;
      && v + nIn + nOut <= |s|
      && fold.Xcv == [s[v..v + nIn]] && fold.ycv == [s[v + nIn..v + nIn + nOut]]
  {
    FoldCountExact(|s|, nIn, nOut, nJ, f);
    StrideIsProduct(f + 1, nJ);
    SinglePair(s, ValStart(nIn, nJ, f), nIn, nOut);
  }

  // ---------------------------------------------------------------------
  // Group k-fold

  /** The position of step `i` of fold `j` within its group of five steps,
      counted from the validation step; it is `(i + 1 + j) % 5`
      (`PhaseMod`), advanced one step at a time. */
  function Phase(j: nat, i: nat): (p: nat)
    ensures p < 5
  {
    if i == 0 then (j + 1) % 5
    else if Phase(j, i - 1) == 4 then 0 else Phase(j, i - 1) + 1
  }

  /** The phase is the residue the source tests. */
  lemma {:induction false} PhaseMod(j: nat, i: nat)
    ensures Phase(j, i) == (i + 1 + j) % 5
  {
    if i > 0 {
      PhaseMod(j, i - 1);
    }
  }

  /** In fold `j` of the grouped split, step `i` is a validation step
      exactly when `(i + 1 + j) % 5 == 0`; every other step is training. */
  predicate IsVal(j: nat, i: nat)
  {
    Phase(j, i) == 0
  }

  /** The start of the window taken at step `i` of fold `j`. Step 0 starts
      at 0. A training step after a training step starts `nJ` further on; a
      validation step starts where the previous training input ended; a
      training step after a validation step starts where the validation
      input ended (`n` restarts from 0). */
  function GroupStart(nIn: nat, nJ: nat, j: nat, i: nat): nat
  {
    if i == 0 then 0
    else GroupStart(nIn, nJ, j, i - 1) + (if !IsVal(j, i - 1) && !IsVal(j, i) then nJ else nIn)
  }

  /** Whether the window of step `i` passes its own check: a training output
      must end by `len - 1`, a validation output by `len`. */
  predicate GroupFits(len: nat, nIn: nat, nOut: nat, nJ: nat, j: nat, i: nat)
  {
    if IsVal(j, i) then GroupStart(nIn, nJ, j, i) + nIn + nOut <= len
    else GroupStart(nIn, nJ, j, i) + nIn + nOut <= len - 1
  }

  /** The grouped loop terminates for every fold exactly when the windows
      advance at all, or when nothing fits past the first steps. */
  predicate GroupTerminates(len: nat, nIn: nat, nOut: nat, nJ: nat)
  {
    nJ + nIn >= 1 || nOut >= len
  }

  /** One step of `Phase`. */
  lemma PhaseNext(j: nat, i: nat)
    ensures Phase(j, i + 1) == if Phase(j, i) == 4 then 0 else Phase(j, i) + 1
  {
  }

  /** Validation steps come exactly every 5 steps. */
  lemma IsValPeriod(j: nat, i: nat)
    ensures IsVal(j, i + 5) == IsVal(j, i)
    ensures IsVal(j, i) ==> !IsVal(j, i + 1) && !IsVal(j, i + 2) && !IsVal(j, i + 3) && !IsVal(j, i + 4)
  {
    PhaseNext(j, i);
    PhaseNext(j, i + 1);
    PhaseNext(j, i + 2);
    PhaseNext(j, i + 3);
    PhaseNext(j, i + 4);
  }

  /** One step of `GroupStart`. */
  lemma GroupStartNext(nIn: nat, nJ: nat, j: nat, i: nat)
    ensures GroupStart(nIn, nJ, j, i + 1) == GroupStart(nIn, nJ, j, i) + (if !IsVal(j, i) && !IsVal(j, i + 1) then nJ else nIn)
  {
  }

  /** Every five steps the windows advance by two inputs (into and out of the
      validation step) and three strides. */
  lemma GroupPeriod(nIn: nat, nJ: nat, j: nat, i: nat)
    ensures GroupStart(nIn, nJ, j, i + 5) == GroupStart(nIn, nJ, j, i) + 2 * nIn + 3 * nJ
  {
    IsValPeriod(j, i);
    GroupStartNext(nIn, nJ, j, i);
    GroupStartNext(nIn, nJ, j, i + 1);
    GroupStartNext(nIn, nJ, j, i + 2);
    GroupStartNext(nIn, nJ, j, i + 3);
    GroupStartNext(nIn, nJ, j, i + 4);
  }

  /** With windows that advance, the start of step `i` grows at least one
      position every five steps. */
  lemma {:induction false} GroupGrowth(nIn: nat, nJ: nat, j: nat, i: nat)
    requires nJ + nIn >= 1
    ensures 5 * GroupStart(nIn, nJ, j, i) + 5 >= i
  {
    if i >= 5 {
      GroupGrowth(nIn, nJ, j, i - 5);
      GroupPeriod(nIn, nJ, j, i - 5);
    }
  }

  /** With windows that do not advance every step starts at 0. */
  lemma {:induction false} GroupStuck(nIn: nat, nJ: nat, j: nat, i: nat)
    requires nJ + nIn == 0
    ensures GroupStart(nIn, nJ, j, i) == 0
  {
    if i > 0 {
      GroupStuck(nIn, nJ, j, i - 1);
    }
  }

  /** A bound on the steps of one fold. */
  function GroupBound(len: nat): nat
  {
    5 * len + 6
  }

  /** Two consecutive steps that both fit lie below `GroupBound`. */
  lemma GroupBeyond(len: nat, nIn: nat, nOut: nat, nJ: nat, j: nat, i: nat)
    requires GroupTerminates(len, nIn, nOut, nJ)
    requires GroupFits(len, nIn, nOut, nJ, j, i) && (i == 0 || GroupFits(len, nIn, nOut, nJ, j, i - 1))
    ensures i < GroupBound(len)
  {
    if nJ + nIn >= 1 {
      GroupGrowth(nIn, nJ, j, i);
    } else if i > 0 {
      assert false;
    }
  }

  /** The first step at or after `i` whose window does not fit. */
  function GroupStopFrom(len: nat, nIn: nat, nOut: nat, nJ: nat, j: nat, i: nat): nat
    requires GroupTerminates(len, nIn, nOut, nJ)
    requires i <= GroupBound(len) && (i == 0 || GroupFits(len, nIn, nOut, nJ, j, i - 1))
    decreases GroupBound(len) - i
  {
    if !GroupFits(len, nIn, nOut, nJ, j, i) then i
    else
      GroupBeyond(len, nIn, nOut, nJ, j, i);
      GroupStopFrom(len, nIn, nOut, nJ, j, i + 1)
  }

  /** The step at which fold `j`'s loop breaks. */
  function GroupStop(len: nat, nIn: nat, nOut: nat, nJ: nat, j: nat): nat
    requires GroupTerminates(len, nIn, nOut, nJ)
  {
    GroupStopFrom(len, nIn, nOut, nJ, j, 0)
  }

  /** `GroupStopFrom` finds the first step that does not fit. */
  lemma {:induction false} GroupStopFromExact(len: nat, nIn: nat, nOut: nat, nJ: nat, j: nat, i: nat, k: nat)
    requires GroupTerminates(len, nIn, nOut, nJ)
    requires i <= GroupBound(len) && (i == 0 || GroupFits(len, nIn, nOut, nJ, j, i - 1))
    ensures var r := GroupStopFrom(len, nIn, nOut, nJ, j, i);
      && i <= r <= GroupBound(len) && !GroupFits(len, nIn, nOut, nJ, j, r)
      && (i <= k < r ==> GroupFits(len, nIn, nOut, nJ, j, k))
    decreases GroupBound(len) - i
  {
    if GroupFits(len, nIn, nOut, nJ, j, i) {
      GroupBeyond(len, nIn, nOut, nJ, j, i);
      GroupStopFromExact(len, nIn, nOut, nJ, j, i + 1, k);
    }
  }

  /** Every step before `GroupStop` fits and the step at `GroupStop` does
      not: the loop of fold `j` breaks there. */
  lemma GroupStopExact(len: nat, nIn: nat, nOut: nat, nJ: nat, j: nat, k: nat)
    requires GroupTerminates(len, nIn, nOut, nJ)
    ensures var r := GroupStop(len, nIn, nOut, nJ, j);
      && r <= GroupBound(len) && !GroupFits(len, nIn, nOut, nJ, j, r)
      && (k < r ==> GroupFits(len, nIn, nOut, nJ, j, k))
  {
    GroupStopFromExact(len, nIn, nOut, nJ, j, 0, k);
  }
  /** Up to the stop, a step's window fits exactly before the stop. */
  lemma GroupStopAt(len: nat, nIn: nat, nOut: nat, nJ: nat, j: nat, i: nat)
    requires GroupTerminates(len, nIn, nOut, nJ) && i <= GroupStop(len, nIn, nOut, nJ, j)
    ensures GroupFits(len, nIn, nOut, nJ, j, i) <==> i < GroupStop(len, nIn, nOut, nJ, j)
  {
    GroupStopExact(len, nIn, nOut, nJ, j, i);
  }


  /** The starts of the first `n` steps of fold `j` that are validation
      steps (`val`) or training steps (`!val`), in order. */
  function GroupStarts(nIn: nat, nJ: nat, j: nat, val: bool, n: nat): seq<nat>
  {
    if n == 0 then []
    else GroupStarts(nIn, nJ, j, val, n - 1) + (if IsVal(j, n - 1) == val then [GroupStart(nIn, nJ, j, n - 1)] else [])
  }

  /** The windows of the first `n` steps of fold `j`, training and
      validation apart. */
  function GroupAcc<T>(s: seq<T>, nIn: nat, nOut: nat, nJ: nat, j: nat, n: nat): TrainVal<T>
  {
    var train, val := GroupStarts(nIn, nJ, j, false, n), GroupStarts(nIn, nJ, j, true, n);
    TrainVal(Inputs(s, train, nIn), Outputs(s, train, nIn, nOut), Inputs(s, val, nIn), Outputs(s, val, nIn, nOut))
  }

  /** A step whose window lies inside the sequence adds its slices to the
      validation lists or to the training lists, and leaves the other two
      alone. */
  lemma GroupAccStep<T>(s: seq<T>, nIn: nat, nOut: nat, nJ: nat, j: nat, i: nat)
    requires GroupStart(nIn, nJ, j, i) + nIn + nOut <= |s|
    ensures var a, x := GroupAcc(s, nIn, nOut, nJ, j, i), GroupStart(nIn, nJ, j, i);
      var u, v := s[x..x + nIn], s[x + nIn..x + nIn + nOut];
      GroupAcc(s, nIn, nOut, nJ, j, i + 1)
        == if IsVal(j, i) then TrainVal(a.X, a.y, a.Xcv + [u], a.ycv + [v]) else TrainVal(a.X + [u], a.y + [v], a.Xcv, a.ycv)
  {
    var x := GroupStart(nIn, nJ, j, i);
    var train, val := GroupStarts(nIn, nJ, j, false, i), GroupStarts(nIn, nJ, j, true, i);
    if IsVal(j, i) {
      AppendPair(s, val, Inputs(s, val, nIn), Outputs(s, val, nIn, nOut), x, nIn, nOut);
    } else {
      AppendPair(s, train, Inputs(s, train, nIn), Outputs(s, train, nIn, nOut), x, nIn, nOut);
    }
  }

  /** Fold `j` of the grouped split: the windows of every step before the
      loop breaks. */
  function GroupFold<T>(s: seq<T>, nIn: nat, nOut: nat, nJ: nat, j: nat): TrainVal<T>
    requires GroupTerminates(|s|, nIn, nOut, nJ)
  {
    GroupAcc(s, nIn, nOut, nJ, j, GroupStop(|s|, nIn, nOut, nJ, j))
  }

  function GroupFolds<T>(s: seq<T>, nIn: nat, nOut: nat, nJ: nat, n: nat): seq<TrainVal<T>>
    requires GroupTerminates(|s|, nIn, nOut, nJ)
  {
    seq(n, j requires 0 <= j < n => GroupFold(s, nIn, nOut, nJ, j))
  }

  /** After a training step at `endCv + n * nJ`: the next training step
      starts one stride on, a validation step at the end of this input. */
  lemma GroupTrainNext(nIn: nat, nJ: nat, j: nat, i: nat, endCv: nat, n: nat)
    requires !IsVal(j, i) && endCv + Stride(n, nJ) == GroupStart(nIn, nJ, j, i)
    ensures !IsVal(j, i + 1) ==> endCv + Stride(n + 1, nJ) == GroupStart(nIn, nJ, j, i + 1)
    ensures IsVal(j, i + 1) ==> GroupStart(nIn, nJ, j, i) + nIn == GroupStart(nIn, nJ, j, i + 1)
  {
  }

  /** After a validation step the next step is training and starts at the
      end of the validation input. */
  lemma GroupValNext(nIn: nat, nJ: nat, j: nat, i: nat)
    requires IsVal(j, i)
    ensures !IsVal(j, i + 1) && GroupStart(nIn, nJ, j, i) + nIn + Stride(0, nJ) == GroupStart(nIn, nJ, j, i + 1)
  {
    IsValPeriod(j, i);
  }

  /** Every listed start is the start of an earlier step of the right kind. */
  lemma {:induction false} GroupStartsFrom(nIn: nat, nJ: nat, j: nat, val: bool, n: nat, k: nat)
    requires k < |GroupStarts(nIn, nJ, j, val, n)|
    ensures exists i: nat :: i < n && IsVal(j, i) == val && GroupStarts(nIn, nJ, j, val, n)[k] == GroupStart(nIn, nJ, j, i)
  {
    var pre := GroupStarts(nIn, nJ, j, val, n - 1);
    if k < |pre| {
      GroupStartsFrom(nIn, nJ, j, val, n - 1, k);
    } else {
      assert GroupStarts(nIn, nJ, j, val, n)[k] == GroupStart(nIn, nJ, j, n - 1);
    }
  }

  /** Every listed start passed its own check before the loop broke: a
      training pair ends before the last element of the sequence, a
      validation pair by its end. */
  lemma GroupStartFits(len: nat, nIn: nat, nOut: nat, nJ: nat, j: nat, val: bool, k: nat)
    requires GroupTerminates(len, nIn, nOut, nJ)
    ensures var st := GroupStarts(nIn, nJ, j, val, GroupStop(len, nIn, nOut, nJ, j));
      k < |st| ==> st[k] + nIn + nOut <= if val then len else len - 1
  {
    var stop := GroupStop(len, nIn, nOut, nJ, j);
    if k < |GroupStarts(nIn, nJ, j, val, stop)| {
      GroupStartsFrom(nIn, nJ, j, val, stop, k);
      var i: nat :| i < stop && IsVal(j, i) == val && GroupStarts(nIn, nJ, j, val, stop)[k] == GroupStart(nIn, nJ, j, i);
      GroupStopExact(len, nIn, nOut, nJ, j, i);
    }
  }

  /** Every window of a grouped fold has full width and is the slice of the
      sequence at its start; training pairs (`val` false) end before the
      last element, validation pairs by the end. */
  lemma GroupFoldInBounds<T>(s: seq<T>, nIn: nat, nOut: nat, nJ: nat, j: nat, val: bool, k: nat)
    requires GroupTerminates(|s|, nIn, nOut, nJ)
    ensures var stop, f := GroupStop(|s|, nIn, nOut, nJ, j), GroupFold(s, nIn, nOut, nJ, j);
      var st := GroupStarts(nIn, nJ, j, val, stop);
      var X, y := if val then f.Xcv else f.X, if val then f.ycv else f.y;
      && |X| == |y| == |st|
      && (k < |st| ==> st[k] + nIn + nOut <= (if val then |s| else |s| - 1) && X[k] == s[st[k]..st[k] + nIn] && y[k] == s[st[k] + nIn..st[k] + nIn + nOut])
  {
    var st := GroupStarts(nIn, nJ, j, val, GroupStop(|s|, nIn, nOut, nJ, j));
    GroupStartFits(|s|, nIn, nOut, nJ, j, val, k);
    if k < |st| {
      PairsExact(s, st, nIn, nOut, k);
    }
  }

  /** The state of the grouped loop at the top of step `i`: `fold` holds
      the windows of the steps before `i`, a training step starts `n`
      strides after the end of the last validation input, and a validation
      step starts at the end of the last training input. */
  ghost predicate GroupLoop<T>(s: seq<T>, nIn: nat, nOut: nat, nJ: nat, j: nat,
                               i: nat, n: nat, endIx: nat, endCv: nat, fold: TrainVal<T>)
  {
    && fold == GroupAcc(s, nIn, nOut, nJ, j, i)
    && (!IsVal(j, i) ==> endCv + Stride(n, nJ) == GroupStart(nIn, nJ, j, i))
    && (IsVal(j, i) ==> endIx == GroupStart(nIn, nJ, j, i))
  }

  /** A training step that fits appends its pair and moves on one step and
      one stride. */
  lemma GroupLoopTrain<T>(s: seq<T>, nIn: nat, nOut: nat, nJ: nat, j: nat,
                          i: nat, n: nat, endIx: nat, endCv: nat, fold: TrainVal<T>)
    requires GroupLoop(s, nIn, nOut, nJ, j, i, n, endIx, endCv, fold) && !IsVal(j, i)
    requires endCv + Stride(n, nJ) + nIn + nOut <= |s|
    ensures var x := endCv + Stride(n, nJ);
      GroupLoop(s, nIn, nOut, nJ, j, i + 1, n + 1, x + nIn, endCv,
                fold.(X := fold.X + [s[x..x + nIn]], y := fold.y + [s[x + nIn..x + nIn + nOut]]))
  {
    GroupAccStep(s, nIn, nOut, nJ, j, i);
    GroupTrainNext(nIn, nJ, j, i, endCv, n);
  }

  /** A validation step that fits appends its pair; training resumes at the
      next step, at the end of the validation input, with no strides
      counted. */
  lemma GroupLoopVal<T>(s: seq<T>, nIn: nat, nOut: nat, nJ: nat, j: nat,
                        i: nat, n: nat, endIx: nat, endCv: nat, fold: TrainVal<T>)
    requires GroupLoop(s, nIn, nOut, nJ, j, i, n, endIx, endCv, fold) && IsVal(j, i)
    requires endIx + nIn + nOut <= |s|
    ensures var c := endIx + nIn;
      GroupLoop(s, nIn, nOut, nJ, j, i + 1, 0, endIx, c,
                fold.(Xcv := fold.Xcv + [s[endIx..c]], ycv := fold.ycv + [s[c..c + nOut]]))
  {
    GroupAccStep(s, nIn, nOut, nJ, j, i);
    GroupValNext(nIn, nJ, j, i);
  }

  /** One training step of the grouped loop: the window starts `n` strides
      after the end of the last validation input and `n` counts one more
      stride. The loop is `done` when the pair does not end before the last
      element; otherwise it is appended and the loop moves on one step. */
  method GroupTrainStep<T>(s: seq<T>, nIn: nat, nOut: nat, nJ: nat, j: nat,
                           i: nat, n: nat, endIx: nat, endCv: nat, fold: TrainVal<T>)
    returns (i': nat, n': nat, endIx': nat, fold': TrainVal<T>, done: bool)
    requires GroupTerminates(|s|, nIn, nOut, nJ) && i <= GroupStop(|s|, nIn, nOut, nJ, j)
    requires GroupLoop(s, nIn, nOut, nJ, j, i, n, endIx, endCv, fold) && (i + 1 + j) % 5 != 0
    ensures done ==> fold' == GroupFold(s, nIn, nOut, nJ, j)
    ensures !done ==> i < i' <= GroupStop(|s|, nIn, nOut, nJ, j) && GroupLoop(s, nIn, nOut, nJ, j, i', n', endIx', endCv, fold')
  {
    PhaseMod(j, i);
    GroupStopAt(|s|, nIn, nOut, nJ, j, i);
    var startIx := endCv + Stride(n, nJ);
    endIx' := startIx + nIn;
    n' := n + 1;
    i', fold', done := i, fold, true;
    if endIx' + nOut > |s| - 1 {
      return;
    }
    GroupLoopTrain(s, nIn, nOut, nJ, j, i, n, endIx, endCv, fold);
    fold' := fold.(X := fold.X + [s[startIx..endIx']], y := fold.y + [s[endIx'..endIx' + nOut]]);
    i', done := i + 1, false;
  }

  /** One validation step of the grouped loop: the window starts at the end
      of the last training input and the stride count restarts. The loop is
      `done` when the pair does not fit; otherwise it is appended and the
      loop moves on one step. */
  method GroupValStep<T>(s: seq<T>, nIn: nat, nOut: nat, nJ: nat, j: nat,
                         i: nat, n: nat, endIx: nat, endCv: nat, fold: TrainVal<T>)
    returns (i': nat, n': nat, endCv': nat, fold': TrainVal<T>, done: bool)
    requires GroupTerminates(|s|, nIn, nOut, nJ) && i <= GroupStop(|s|, nIn, nOut, nJ, j)
    requires GroupLoop(s, nIn, nOut, nJ, j, i, n, endIx, endCv, fold) && (i + 1 + j) % 5 == 0
    ensures done ==> fold' == GroupFold(s, nIn, nOut, nJ, j)
    ensures !done ==> i < i' <= GroupStop(|s|, nIn, nOut, nJ, j) && GroupLoop(s, nIn, nOut, nJ, j, i', n', endIx, endCv', fold')
  {
    PhaseMod(j, i);
    GroupStopAt(|s|, nIn, nOut, nJ, j, i);
    var startCv := endIx;
    endCv' := endIx + nIn;
    n' := 0;
    i', fold', done := i, fold, true;
    if endCv' + nOut > |s| {
      return;
    }
    GroupLoopVal(s, nIn, nOut, nJ, j, i, n, endIx, endCv, fold);
    fold' := fold.(Xcv := fold.Xcv + [s[startCv..endCv']], ycv := fold.ycv + [s[endCv'..endCv' + nOut]]);
    i', done := i + 1, false;
  }

  /** The inner `while 1` loop of `split_train_val_groupKFold` for fold
      `j`: step `i` is training unless `(i + 1 + j) % 5 == 0`, when it is a
      validation step. The loop breaks at the first window that fails its
      check, and whatever was collected is the fold. */
  method GroupKFoldFold<T>(s: seq<T>, nIn: nat, nOut: nat, nJ: nat, j: nat) returns (fold: TrainVal<T>)
    requires GroupTerminates(|s|, nIn, nOut, nJ)
    ensures fold == GroupFold(s, nIn, nOut, nJ, j)
  {
    ghost var stop := GroupStop(|s|, nIn, nOut, nJ, j);
    var endIx, endCv := 0, 0;
    fold := TrainVal([], [], [], []);
    var i: nat, n: nat := 0, 0;
    while true
      invariant i <= stop
      invariant GroupLoop(s, nIn, nOut, nJ, j, i, n, endIx, endCv, fold)
      decreases stop - i
    {
      var done;
      if (i + 1 + j) % 5 != 0 {
        i, n, endIx, fold, done := GroupTrainStep(s, nIn, nOut, nJ, j, i, n, endIx, endCv, fold);
      } else {
        i, n, endCv, fold, done := GroupValStep(s, nIn, nOut, nJ, j, i, n, endIx, endCv, fold);
      }
      if done {
        break;
      }
    }
  }

  /** `split_train_val_groupKFold`: always exactly five folds, keyed 0..4,
      each stored even when its loop broke early. */
  method GroupKFold<T>(s: seq<T>, nIn: nat, nOut: nat, nJ: nat) returns (folds: seq<TrainVal<T>>)
    requires GroupTerminates(|s|, nIn, nOut, nJ)
    ensures |folds| == 5
    ensures folds == GroupFolds(s, nIn, nOut, nJ, 5)
  {
    folds := [];
    for j := 0 to 5
      invariant folds == GroupFolds(s, nIn, nOut, nJ, j)
    {
      var fold := GroupKFoldFold(s, nIn, nOut, nJ, j);
      folds := folds + [fold];
    }
  }
}
