/** The boundary-check / window-extraction primitive shared by every
    splitting strategy: Python's clamped slicing, lists of window start
    positions, the windows they select, and the count of stride steps
    that fit before the end of the sequence. */
module Windows {

  function Min(a: int, b: int): int { if a <= b then a else b }

  /** Python's `s[a:b]` for non-negative bounds: the upper bound is clamped
      to `|s|`, and the slice is empty when `a >= b` or `a >= |s|`. */
  function PySlice<T>(s: seq<T>, a: nat, b: nat): (r: seq<T>)
  {
    if a < b && a < |s| then s[a..Min(b, |s|)] else []
  }

  /** The distance covered by `k` strides of length `step`, that is
      `k * step` (`StrideIsProduct`), built by repeated addition so that
      proofs about positions stay within linear arithmetic. */
  function Stride(k: nat, step: nat): nat
  {
    if k == 0 then 0 else Stride(k - 1, step) + step
  }

  lemma {:induction false} StrideIsProduct(k: nat, step: nat)
    ensures Stride(k, step) == k * step
  {
    if k > 0 {
      StrideIsProduct(k - 1, step);
      assert k * step == (k - 1) * step + step;
    }
  }

  lemma {:induction false} StrideZero(k: nat)
    ensures Stride(k, 0) == 0
  {
    if k > 0 {
      StrideZero(k - 1);
    }
  }

  /** More strides cover at least as much distance. */
  lemma {:induction false} StrideMono(a: nat, b: nat, step: nat)
    requires a <= b
    ensures Stride(a, step) <= Stride(b, step)
    decreases b
  {
    if a < b {
      StrideMono(a, b - 1, step);
    }
  }

  /** The start positions `base + Stride(k, step)` for `k < n`. */
  function Arith(base: nat, step: nat, n: nat): (r: seq<nat>)
    ensures |r| == n
  {
    seq(n, k requires 0 <= k < n => base + Stride(k, step))
  }

  lemma ArithSnoc(base: nat, step: nat, n: nat)
    ensures Arith(base, step, n + 1) == Arith(base, step, n) + [base + Stride(n, step)]
  {
  }

  /** The windows of the given width that begin at the given positions,
      sliced as Python slices them. */
  function Inputs<T>(s: seq<T>, starts: seq<nat>, width: nat): (r: seq<seq<T>>)
    ensures |r| == |starts|
  {
    seq(|starts|, k requires 0 <= k < |starts| => PySlice(s, starts[k], starts[k] + width))
  }

  /** The output windows of width `nOut` that immediately follow input
      windows of width `nIn` beginning at the given positions. */
  function Outputs<T>(s: seq<T>, starts: seq<nat>, nIn: nat, nOut: nat): (r: seq<seq<T>>)
    ensures |r| == |starts|
  {
    seq(|starts|, k requires 0 <= k < |starts| => PySlice(s, starts[k] + nIn, starts[k] + nIn + nOut))
  }

  /** The number of `k >= 0` with `k * step <= room`, counted by repeated
      subtraction (`StepsClosedForm` gives the division). */
  function Steps(room: int, step: nat): nat
    requires step >= 1
    decreases room + step
  {
    if room < 0 then 0 else 1 + Steps(room - step, step)
  }

  lemma MulMono(a: int, b: int, c: nat)
    requires a <= b
    ensures a * c <= b * c
  {
    var d := b - a;
    assert b * c == a * c + d * c;
  }

  /** `Steps` counts exactly the stride steps that fit into `room`. */
  lemma {:induction false} StepsExact(room: int, step: nat, k: nat)
    requires step >= 1
    ensures k < Steps(room, step) <==> Stride(k, step) <= room
    decreases room + step
  {
    if room >= 0 && k > 0 {
      StepsExact(room - step, step, k - 1);
    }
  }

  lemma DivUnique(room: int, step: nat, q: int, r: int)
    requires step >= 1 && room == q * step + r && 0 <= r < step
    ensures room / step == q
  {
    var q', r' := room / step, room % step;
    var d := q - q';
    assert d * step == q * step - q' * step;
    if d >= 1 {
      MulMono(1, d, step);
      assert false;
    } else if d <= -1 {
      MulMono(d, -1, step);
      assert false;
    }
  }

  /** The count of stride steps as Python's integer division gives it. */
  lemma {:induction false} StepsClosedForm(room: int, step: nat)
    requires step >= 1
    ensures Steps(room, step) == if room < 0 then 0 else room / step + 1
    decreases room + step
  {
    if room >= 0 {
      StepsClosedForm(room - step, step);
      if room - step >= 0 {
        var q, r := (room - step) / step, (room - step) % step;
        assert room == (q + 1) * step + r;
        DivUnique(room, step, q + 1, r);
      } else {
        DivUnique(room, step, 0, room);
      }
    }
  }

  /** Snoc-ing a position appends one window. */
  lemma InputsSnoc<T>(s: seq<T>, starts: seq<nat>, x: nat, width: nat)
    ensures Inputs(s, starts + [x], width) == Inputs(s, starts, width) + [PySlice(s, x, x + width)]
  {
    assert (starts + [x])[..|starts|] == starts;
  }

  lemma OutputsSnoc<T>(s: seq<T>, starts: seq<nat>, x: nat, nIn: nat, nOut: nat)
    ensures Outputs(s, starts + [x], nIn, nOut)
         == Outputs(s, starts, nIn, nOut) + [PySlice(s, x + nIn, x + nIn + nOut)]
  {
    assert (starts + [x])[..|starts|] == starts;
  }

  /** Appending a position to the start list appends the input and the
      output window that begin there. */
  lemma PairsSnoc<T>(s: seq<T>, starts: seq<nat>, x: nat, nIn: nat, nOut: nat)
    ensures Inputs(s, starts + [x], nIn) == Inputs(s, starts, nIn) + [PySlice(s, x, x + nIn)]
    ensures Outputs(s, starts + [x], nIn, nOut)
         == Outputs(s, starts, nIn, nOut) + [PySlice(s, x + nIn, x + nIn + nOut)]
  {
    InputsSnoc(s, starts, x, nIn);
    OutputsSnoc(s, starts, x, nIn, nOut);
  }

  /** A Python slice within bounds is the plain slice. */
  lemma PySliceExact<T>(s: seq<T>, a: nat, b: nat)
    requires a <= b <= |s|
    ensures PySlice(s, a, b) == s[a..b]
  {
  }

  /** One more stride position appends the pair that starts there, sliced
      as Python slices it. */
  lemma ArithPairsSnoc<T>(s: seq<T>, base: nat, step: nat, n: nat, nIn: nat, nOut: nat)
    ensures var x := base + Stride(n, step);
      && Inputs(s, Arith(base, step, n + 1), nIn) == Inputs(s, Arith(base, step, n), nIn) + [PySlice(s, x, x + nIn)]
      && Outputs(s, Arith(base, step, n + 1), nIn, nOut)
         == Outputs(s, Arith(base, step, n), nIn, nOut) + [PySlice(s, x + nIn, x + nIn + nOut)]
  {
    ArithSnoc(base, step, n);
    PairsSnoc(s, Arith(base, step, n), base + Stride(n, step), nIn, nOut);
  }

  /** Appending the pair at a position that fits to the windows of a list
      of positions gives the windows of the extended list. */
  lemma AppendPair<T>(s: seq<T>, starts: seq<nat>, X: seq<seq<T>>, y: seq<seq<T>>, x: nat, nIn: nat, nOut: nat)
    requires X == Inputs(s, starts, nIn) && y == Outputs(s, starts, nIn, nOut)
    requires x + nIn + nOut <= |s|
    ensures X + [s[x..x + nIn]] == Inputs(s, starts + [x], nIn)
    ensures y + [s[x + nIn..x + nIn + nOut]] == Outputs(s, starts + [x], nIn, nOut)
  {
    PairsSnoc(s, starts, x, nIn, nOut);
    PySliceExact(s, x, x + nIn);
    PySliceExact(s, x + nIn, x + nIn + nOut);
  }

  /** A single pair that fits. */
  lemma SinglePair<T>(s: seq<T>, x: nat, nIn: nat, nOut: nat)
    requires x + nIn + nOut <= |s|
    ensures Inputs(s, [x], nIn) == [s[x..x + nIn]]
    ensures Outputs(s, [x], nIn, nOut) == [s[x + nIn..x + nIn + nOut]]
  {
    PySliceExact(s, x, x + nIn);
    PySliceExact(s, x + nIn, x + nIn + nOut);
  }

  /** One more stride position appends the pair that starts there. */
  lemma StrideStep<T>(s: seq<T>, base: nat, step: nat, n: nat, nIn: nat, nOut: nat)
    requires base + Stride(n, step) + nIn + nOut <= |s|
    ensures var x := base + Stride(n, step);
      && Inputs(s, Arith(base, step, n + 1), nIn) == Inputs(s, Arith(base, step, n), nIn) + [s[x..x + nIn]]
      && Outputs(s, Arith(base, step, n + 1), nIn, nOut)
         == Outputs(s, Arith(base, step, n), nIn, nOut) + [s[x + nIn..x + nIn + nOut]]
  {
    var x := base + Stride(n, step);
    ArithPairsSnoc(s, base, step, n, nIn, nOut);
    PySliceExact(s, x, x + nIn);
    PySliceExact(s, x + nIn, x + nIn + nOut);
  }

  /** The same step after a fixed list of earlier positions. */
  lemma StrideStepAfter<T>(s: seq<T>, pre: seq<nat>, base: nat, step: nat, n: nat, nIn: nat, nOut: nat)
    requires base + Stride(n, step) + nIn + nOut <= |s|
    ensures var x := base + Stride(n, step);
      && Inputs(s, pre + Arith(base, step, n + 1), nIn) == Inputs(s, pre + Arith(base, step, n), nIn) + [s[x..x + nIn]]
      && Outputs(s, pre + Arith(base, step, n + 1), nIn, nOut)
         == Outputs(s, pre + Arith(base, step, n), nIn, nOut) + [s[x + nIn..x + nIn + nOut]]
  {
    var x := base + Stride(n, step);
    ArithSnoc(base, step, n);
    assert pre + Arith(base, step, n + 1) == (pre + Arith(base, step, n)) + [x];
    PairsSnoc(s, pre + Arith(base, step, n), x, nIn, nOut);
    PySliceExact(s, x, x + nIn);
    PySliceExact(s, x + nIn, x + nIn + nOut);
  }

  lemma SliceConcat<T>(s: seq<T>, a: nat, b: nat, c: nat)
    requires a <= b <= c <= |s|
    ensures s[a..b] + s[b..c] == s[a..c]
  {
  }

  /** When every pair fits, each input window has length `nIn`, each output
      window has length `nOut`, the output begins where the input ends, and
      together they are one contiguous slice of the sequence. */
  lemma PairsExact<T>(s: seq<T>, starts: seq<nat>, nIn: nat, nOut: nat, k: nat)
    requires k < |starts| && starts[k] + nIn + nOut <= |s|
    ensures Inputs(s, starts, nIn)[k] == s[starts[k]..starts[k] + nIn]
    ensures Outputs(s, starts, nIn, nOut)[k] == s[starts[k] + nIn..starts[k] + nIn + nOut]
    ensures |Inputs(s, starts, nIn)[k]| == nIn && |Outputs(s, starts, nIn, nOut)[k]| == nOut
    ensures Inputs(s, starts, nIn)[k] + Outputs(s, starts, nIn, nOut)[k]
         == s[starts[k]..starts[k] + nIn + nOut]
  {
    var a := starts[k];
    SliceConcat(s, a, a + nIn, a + nIn + nOut);
  }

  /** Prefixes of a list of positions select prefixes of the window lists. */
  lemma InputsPrefix<T>(s: seq<T>, a: seq<nat>, b: seq<nat>, width: nat)
    ensures Inputs(s, a + b, width)[..|a|] == Inputs(s, a, width)
  {
    forall k | 0 <= k < |a| ensures Inputs(s, a + b, width)[k] == Inputs(s, a, width)[k] {
      assert (a + b)[k] == a[k];
    }
  }

  lemma {:induction false} OutputsPrefix<T>(s: seq<T>, a: seq<nat>, b: seq<nat>, nIn: nat, nOut: nat)
    ensures Outputs(s, a + b, nIn, nOut)[..|a|] == Outputs(s, a, nIn, nOut)
    decreases |b|
  {
    if b == [] {
      assert a + b == a;
    } else {
      var b', x := b[..|b| - 1], b[|b| - 1];
      assert a + b == (a + b') + [x];
      OutputsSnoc(s, a + b', x, nIn, nOut);
      OutputsPrefix(s, a, b', nIn, nOut);
    }
  }
}
