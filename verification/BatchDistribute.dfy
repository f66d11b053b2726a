/** The distribute pass of the batching engine: over a queue of rows, the pair that is added twice does no harm. */
module BatchDistribute {
  import opened Records
  import opened TrimmedRows
  import opened Distribute
  import opened BatchCollector

  /** comparator_distribute: exchange the rows if the first one is bound for the second slot or beyond; slot numbers stay. */
  function DistributePair(e1: TRow, e2: TRow): (TRow, TRow) {
    if ShouldSwap(e1, e2) then (e2.(index := e1.index), e1.(index := e2.index)) else (e1, e2)
  }

  function DistributeKernel(): Kernel<TRow> {
    Kernel((x: TRow, y: TRow, p: seq<int>) => DistributePair(x, y), (x: TRow, p: seq<int>) => x)
  }

  /** A second application changes something exactly if it swaps back two different rows. */
  lemma SettledExactly(x: TRow, y: TRow)
    ensures Settled(DistributeKernel(), [], x, y) <==>
      !(ShouldSwap(x, y) && y.fieldType != DistPadding && y.dstIdx >= y.index && x != y.(index := x.index))
  {
    assert x.(index := y.index) == y <==> x == y.(index := x.index);
  }

  /** Padding in the second slot settles the pair, so the repetition does nothing. */
  lemma PaddingSettles(x: TRow, y: TRow)
    requires y.fieldType == DistPadding
    ensures Settled(DistributeKernel(), [], x, y)
  {
    SettledExactly(x, y);
  }

  /** Two rows that are both bound beyond the second slot change places twice: the kernel alone is not idempotent. */
  lemma NotIdempotent() returns (x: TRow, y: TRow)
    ensures !Settled(DistributeKernel(), [], x, y)
  {
    x := TRow(0, Source, 0, 1, 0, 0, 0, 1, 1, 0, []);
    y := TRow(0, Source, 1, 1, 0, 0, 0, 1, 1, 1, []);
    SettledExactly(x, y);
  }

  lemma StepIsPaired(a: seq<TRow>, p: nat, q: nat)
    requires p < q < |a|
    ensures Step(DistributeKernel(), a, BatchOperation(p, q, [])) == Paired(a, p, q)
  {
    assert ShouldSwap(a[p], a[q]) || a[p := a[p]][q := a[q]] == a;
  }

  /** t is what m pairs at distance h make of a, the last ones first; j is the first pair. */
  ghost predicate LoopTo(t: seq<TRow>, a: seq<TRow>, h: nat, m: nat, j: nat)
    decreases m
  {
    h > 0 && j + h + m == |a| && |t| == |a| && if m == 0 then t == a else exists s :: LoopStep(s, t, a, h, m, j)
  }

  ghost predicate LoopStep(s: seq<TRow>, t: seq<TRow>, a: seq<TRow>, h: nat, m: nat, j: nat)
    requires h > 0 && m > 0 && j + h + m == |a|
    decreases m, 0
  {
    LoopTo(s, a, h, m - 1, j + 1) && t == Paired(s, j, j + h)
  }

  lemma {:induction false} LoopIs(t: seq<TRow>, a: seq<TRow>, h: nat, m: nat, j: nat)
    requires h > 0 && j + h + m == |a| && t == DistanceLoop(DistributeKernel(), a, h, [], m)
    ensures LoopTo(t, a, h, m, j)
    decreases m
  {
    if m > 0 {
      var s := DistanceLoop(DistributeKernel(), a, h, [], m - 1);
      LoopIs(s, a, h, m - 1, j + 1);
      StepIsPaired(s, j, j + h);
      assert LoopStep(s, t, a, h, m, j);
    }
  }

  /** The loop takes a queue of rows one distance further, as the pass of the distance-halving network does. */
  lemma {:induction false} LoopSpreads(t: seq<TRow>, a: seq<TRow>, r: seq<TRow>, h: nat, m: nat, j: nat)
    requires LoopTo(t, a, h, m, j) && Queue(r, |a|) && Spread(a, r, Slots(2 * h, r))
    ensures Spread(t, r, Mid(h, r, j))
    decreases m
  {
    if m == 0 {
      PassStarts(r, |a|, h);
    } else {
      var s :| LoopStep(s, t, a, h, m, j);
      var cursor := j + 1;
      LoopSpreads(s, a, r, h, m - 1, cursor);
      PairTo(s, t, r, h, j, cursor);
    }
  }

  /** After the pass the row in slot 0, if there is one, is bound for a slot before h. */
  lemma SecondPairIdle(a: seq<TRow>, r: seq<TRow>, h: nat)
    requires 0 < h < |a| && Queue(r, |a|) && Spread(a, r, Slots(h, r))
    ensures Paired(a, 0, h) == a
  {
    var pos := Slots(h, r);
    if 0 in pos {
      var i :| 0 <= i < |r| && pos[i] == 0;
      QueueSlack(r, |a|, i, i);
      var q := SlotClosedForm(h, i, r[i].dstIdx);
      assert a[pos[i]] == r[i].(index := pos[i]);
    }
  }

  lemma LoopDone(once: seq<TRow>, a: seq<TRow>, r: seq<TRow>, h: nat, m: nat)
    requires h > 0 && h + m == |a| && Queue(r, |a|) && Spread(a, r, Slots(2 * h, r))
    requires once == DistanceLoop(DistributeKernel(), a, h, [], m)
    ensures Spread(once, r, Slots(h, r))
  {
    LoopIs(once, a, h, m, 0);
    LoopSpreads(once, a, r, h, m, 0);
    PassEnds(r, |a|, h, 0);
  }

  lemma Repeated(once: seq<TRow>, r: seq<TRow>, h: nat)
    requires 0 < h < |once| && Queue(r, |once|) && Spread(once, r, Slots(h, r))
    ensures Step(DistributeKernel(), once, BatchOperation(0, h, [])) == once
  {
    SecondPairIdle(once, r, h);
    StepIsPaired(once, 0, h);
  }

  /** One pass over a queue in place for distance 2h leaves it in place for distance h, with or without the repetition. */
  lemma DistancePassSpreads(a: seq<TRow>, r: seq<TRow>, h: nat)
    requires 0 < h <= |a| && Queue(r, |a|) && Spread(a, r, Slots(2 * h, r))
    ensures DistancePass(DistributeKernel(), a, h, []) == DistanceLoop(DistributeKernel(), a, h, [], |a| - h)
    ensures Spread(DistancePass(DistributeKernel(), a, h, []), r, Slots(h, r))
  {
    var once := DistanceLoop(DistributeKernel(), a, h, [], |a| - h);
    LoopDone(once, a, r, h, |a| - h);
    if h < |a| {
      Repeated(once, r, h);
    }
  }
}
