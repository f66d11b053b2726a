/** Top-down: every parent row's final multiplicity is shared out among the child rows it joins with. */
module TopDown {
  import opened Totals
  import opened Records
  import opened ObliviousSort
  import opened Boundary
  import opened Combined

  // ---- The reversed constraint ----

  /** Roles flipped: the parent rows are sources, the child rows carry the band; the upper offset becomes the lower, negated. */
  function Reverse(n: JoinNode): JoinNode {
    n.(joinCol := n.parentJoinCol, parentJoinCol := n.joinCol,
       deviation1 := -n.deviation2, equality1 := n.equality2,
       deviation2 := -n.deviation1, equality2 := n.equality1)
  }

  lemma ReversedBand(n: JoinNode, x: int, y: int)
    requires ValidBand(n)
    ensures ValidBand(Reverse(n))
    ensures InBand(Reverse(n), y, x) <==> InBand(n, x, y)
    ensures Under(Reverse(n), y, x) <==> Over(n, x, y)
    ensures Over(Reverse(n), y, x) <==> Under(n, x, y)
  {
  }

  // ---- Step 3: the running weight and the shares ----

  /** Child ranges opening and closing. */
  ghost function CoverMult(): SkRec -> int {
    (r: SkRec) => if r.fieldType == Start then r.localMult else if r.fieldType == End then -r.localMult else 0
  }

  function Safe(w: int): (r: int)
    ensures r != 0
  {
    if w != 0 then w else 1
  }

  /** What a parent row gives to each unit of child multiplicity it joins with. */
  ghost function Share(n: JoinNode, child: seq<Entry>): Entry -> int {
    (e: Entry) => e.finalMult / Safe(MatchSum(n, child, Attr(e.attributes, n.parentJoinCol)))
  }

  ghost function ShareRec(n: JoinNode, child: seq<Entry>): SkRec -> int {
    (r: SkRec) => if r.fieldType == Source then r.fmult / Safe(MatchSum(n, child, r.joinAttr)) else 0
  }

  ghost function RunWeight(s: seq<SkRec>, i: nat): int
    requires i < |s|
  {
    if i == 0 then s[0].weight else RunWeight(s, i - 1) + CoverMult()(s[i])
  }

  ghost function RunAcc(s: seq<SkRec>, i: nat): int
    requires i < |s|
  {
    if i == 0 then s[0].acc
    else RunAcc(s, i - 1) + if s[i].fieldType == Source && !Skip(s[i - 1], s[i]) then s[i].fmult / Safe(RunWeight(s, i)) else 0
  }

  ghost function SweptAt(s: seq<SkRec>, i: nat): SkRec
    requires i < |s|
  {
    s[i].(weight := RunWeight(s, i), acc := RunAcc(s, i))
  }

  ghost function Swept(s: seq<SkRec>): (r: seq<SkRec>)
    ensures |r| == |s|
  {
    seq(|s|, i requires 0 <= i < |s| => SweptAt(s, i))
  }

  method Sweep(comb: array<SkRec>)
    modifies comb
    ensures comb[..] == Swept(old(comb[..]))
  {
    ghost var s := comb[..];
    var i := 1;
    while i < comb.Length
      invariant 1 <= i
      invariant forall j :: 0 <= j < comb.Length ==> comb[j] == if j < i || j == 0 then SweptAt(s, j) else s[j]
    {
      var e1, e2 := comb[i - 1], comb[i];
      assert e1 == SweptAt(s, i - 1) && e2 == s[i];
      var isSrc := Bit(e2.fieldType == Source);
      var skip := Bit(Skip(e1, e2));
      var weight := e1.weight + Bit(e2.fieldType == Start) * e2.localMult - Bit(e2.fieldType == End) * e2.localMult;
      assert weight == RunWeight(s, i);
      var delta := isSrc * (1 - skip) * (e2.fmult / Safe(weight));
      assert e1.acc + delta == RunAcc(s, i);
      comb[i] := e2.(weight := weight, acc := e1.acc + delta);
      i := i + 1;
    }
  }

  // ---- What the running weight is ----

  /** What the phase needs: multiplicities counted, and no output assigned to a parent row without partners. */
  ghost predicate TopReady(n: JoinNode, parent: seq<Entry>, child: seq<Entry>) {
    && EdgeReady(Reverse(n), child, parent) && ValidBand(n)
    && (forall i :: 0 <= i < |parent| && MatchSum(n, child, Attr(parent[i].attributes, n.parentJoinCol)) == 0 ==>
        parent[i].localMult == 0 && parent[i].finalMult == 0)
  }

  ghost function TdComb(n: JoinNode, parent: seq<Entry>, child: seq<Entry>): seq<SkRec>
    requires TopReady(n, parent, child)
  {
    Comb(FinalPhase, Reverse(n), child, parent)
  }

  ghost function OpenMult(n: JoinNode, y: int): Entry -> int {
    (e: Entry) => if !Over(n, Attr(e.attributes, n.joinCol), y) then e.localMult else 0
  }

  ghost function CloseMult(n: JoinNode, y: int): Entry -> int {
    (e: Entry) => if Under(n, Attr(e.attributes, n.joinCol), y) then -e.localMult else 0
  }

  lemma StartsBefore(n: JoinNode, parent: seq<Entry>, child: seq<Entry>, r: SkRec)
    requires TopReady(n, parent, child) && r.fieldType == Source
    ensures Total(Starts(FinalPhase, Reverse(n), child), Before(CoverMult(), r)) == Total(child, OpenMult(n, r.joinAttr))
  {
    var st := Starts(FinalPhase, Reverse(n), child);
    forall i | 0 <= i < |child| ensures Before(CoverMult(), r)(st[i]) == OpenMult(n, r.joinAttr)(child[i]) {
      assert st[i].joinAttr == Attr(child[i].attributes, n.joinCol) - n.deviation2;
    }
    TotalZip(st, child, Before(CoverMult(), r), OpenMult(n, r.joinAttr));
  }

  lemma EndsBefore(n: JoinNode, parent: seq<Entry>, child: seq<Entry>, r: SkRec)
    requires TopReady(n, parent, child) && r.fieldType == Source
    ensures Total(Ends(FinalPhase, Reverse(n), child), Before(CoverMult(), r)) == Total(child, CloseMult(n, r.joinAttr))
  {
    var en := Ends(FinalPhase, Reverse(n), child);
    forall i | 0 <= i < |child| ensures Before(CoverMult(), r)(en[i]) == CloseMult(n, r.joinAttr)(child[i]) {
      assert en[i].joinAttr == Attr(child[i].attributes, n.joinCol) - n.deviation1;
    }
    TotalZip(en, child, Before(CoverMult(), r), CloseMult(n, r.joinAttr));
  }

  lemma CoveringSum(n: JoinNode, child: seq<Entry>, y: int)
    requires ValidBand(n)
    ensures Total(child, OpenMult(n, y)) + Total(child, CloseMult(n, y)) == MatchSum(n, child, y)
  {
    forall i | 0 <= i < |child|
      ensures MatchedMult(n, y)(child[i]) == OpenMult(n, y)(child[i]) + CloseMult(n, y)(child[i])
    {
      BandSides(n, Attr(child[i].attributes, n.joinCol), y);
    }
    TotalAdd(child, OpenMult(n, y), CloseMult(n, y), MatchedMult(n, y));
  }

  /** The ranges open at a source record are those of the child rows it joins with. */
  lemma SourceCover(n: JoinNode, parent: seq<Entry>, child: seq<Entry>, r: SkRec)
    requires TopReady(n, parent, child) && r.fieldType == Source
    ensures Total(TdComb(n, parent, child), Before(CoverMult(), r)) == MatchSum(n, child, r.joinAttr)
  {
    var rn := Reverse(n);
    var src, st, en := Sources(FinalPhase, rn, parent), Starts(FinalPhase, rn, child), Ends(FinalPhase, rn, child);
    var b := Before(CoverMult(), r);
    TotalConcat(src + st, en, b);
    TotalConcat(src, st, b);
    TotalZero(src, b);
    StartsBefore(n, parent, child, r);
    EndsBefore(n, parent, child, r);
    CoveringSum(n, child, r.joinAttr);
  }

  lemma CoverUpToSource(s: seq<SkRec>, n: JoinNode, parent: seq<Entry>, child: seq<Entry>, i: nat)
    requires TopReady(n, parent, child) && SortOf(s, TdComb(n, parent, child), CmpJoinAttr)
    requires AllKnown(s, Reverse(n), child) && i < |s| && s[i].fieldType == Source
    ensures Total(s[..i + 1], CoverMult()) == MatchSum(n, child, s[i].joinAttr)
  {
    assert Known(s[i], Reverse(n), child);
    forall j | 0 <= j < |s| && CoverMult()(s[j]) != 0 ensures CmpJoinAttr(s[j], s[i]) != 0 {
      assert Known(s[j], Reverse(n), child);
    }
    PrefixIsBefore(s, i, CoverMult());
    TotalPermutation(s, TdComb(n, parent, child), Before(CoverMult(), s[i]));
    SourceCover(n, parent, child, s[i]);
  }

  // ---- Record 0 ----

  /** r is the source record of the parent row it names. */
  ghost predicate IsSource(r: SkRec, n: JoinNode, parent: seq<Entry>) {
    && 0 <= r.originalIndex < |parent|
    && var e := parent[r.originalIndex];
      && r.joinAttr == Attr(e.attributes, n.parentJoinCol)
      && r.localMult == r.weight == e.localMult && r.fmult == e.finalMult && r.acc == 0
  }

  lemma CombSource(n: JoinNode, parent: seq<Entry>, child: seq<Entry>, r: SkRec)
    requires TopReady(n, parent, child) && r in TdComb(n, parent, child)
    ensures r.fieldType == Source ==> IsSource(r, n, parent)
    ensures r.acc == 0 && r.weight == r.localMult
  {
    var rn := Reverse(n);
    var c := TdComb(n, parent, child);
    var i :| 0 <= i < |c| && c[i] == r;
    if i >= |parent| + |child| {
      assert r == Ends(FinalPhase, rn, child)[i - |parent| - |child|];
    } else if i >= |parent| {
      assert r == Starts(FinalPhase, rn, child)[i - |parent|];
    } else {
      assert r == Sources(FinalPhase, rn, parent)[i];
    }
  }

  lemma CombEnds(n: JoinNode, parent: seq<Entry>, child: seq<Entry>, r: SkRec)
    requires TopReady(n, parent, child) && r in TdComb(n, parent, child) && r.fieldType == End
    ensures r in Ends(FinalPhase, Reverse(n), child)
  {
    var rn := Reverse(n);
    assert forall x :: x in Sources(FinalPhase, rn, parent) ==> x.fieldType == Source;
    assert forall x :: x in Starts(FinalPhase, rn, child) ==> x.fieldType == Start;
  }

  /** Every END has its START in the array, and it sorts strictly before. */
  lemma StartOfEnd(n: JoinNode, parent: seq<Entry>, child: seq<Entry>, r: SkRec) returns (q: SkRec)
    requires TopReady(n, parent, child) && r in TdComb(n, parent, child) && r.fieldType == End
    ensures q in TdComb(n, parent, child) && CmpJoinAttr(r, q) > 0
  {
    CombEnds(n, parent, child, r);
    var rn := Reverse(n);
    var k :| 0 <= k < |child| && Ends(FinalPhase, rn, child)[k] == r;
    q := Starts(FinalPhase, rn, child)[k];
    assert q in Starts(FinalPhase, rn, child);
  }

  lemma FirstBelow(s: seq<SkRec>, q: SkRec)
    requires SortedBy(s, CmpJoinAttr) && q in s
    ensures CmpJoinAttr(s[0], q) <= 0
  {
    var j :| 0 <= j < |s| && s[j] == q;
    assert j == 0 ==> CmpJoinAttr(s[0], q) == 0;
  }

  lemma FirstIsNotEnd(s: seq<SkRec>, n: JoinNode, parent: seq<Entry>, child: seq<Entry>)
    requires TopReady(n, parent, child) && SortOf(s, TdComb(n, parent, child), CmpJoinAttr) && |s| > 0
    ensures s[0].fieldType != End
  {
    SortOfElements(s, TdComb(n, parent, child), CmpJoinAttr);
    forall r | r in s && r.fieldType == End ensures r != s[0] {
      var q := StartOfEnd(n, parent, child, r);
      FirstBelow(s, q);
    }
  }

  /** The seed of the running weight is what it should be: a SOURCE in front has no partners, so bottom-up zeroed it. */
  lemma SeedIsRight(s: seq<SkRec>, n: JoinNode, parent: seq<Entry>, child: seq<Entry>)
    requires TopReady(n, parent, child) && SortOf(s, TdComb(n, parent, child), CmpJoinAttr) && |s| > 0
    requires AllKnown(s, Reverse(n), child)
    ensures s[0].weight == CoverMult()(s[0]) && s[0].acc == 0 && ShareRec(n, child)(s[0]) == 0
  {
    SortOfElements(s, TdComb(n, parent, child), CmpJoinAttr);
    assert s[0] in s;
    CombSource(n, parent, child, s[0]);
    FirstIsNotEnd(s, n, parent, child);
    assert Known(s[0], Reverse(n), child);
    if s[0].fieldType == Source {
      CoverUpToSource(s, n, parent, child, 0);
      FirstTotal(s, CoverMult());
      assert MatchSum(n, child, s[0].joinAttr) == 0;
    }
  }

  lemma FirstTotal(s: seq<SkRec>, f: SkRec -> int)
    requires |s| > 0
    ensures Total(s[..1], f) == f(s[0])
  {
    assert s[..1] == [] + [s[0]];
    TotalSnoc([], s[0], f);
  }

  lemma PrefixStep(s: seq<SkRec>, i: nat, f: SkRec -> int)
    requires 1 <= i < |s|
    ensures Total(s[..i + 1], f) == Total(s[..i], f) + f(s[i])
  {
    assert s[..i + 1] == s[..i] + [s[i]];
    TotalSnoc(s[..i], s[i], f);
  }

  lemma {:induction false} RunWeightIsTotal(s: seq<SkRec>, i: nat)
    requires i < |s| && s[0].weight == CoverMult()(s[0])
    ensures RunWeight(s, i) == Total(s[..i + 1], CoverMult())
  {
    if i == 0 {
      FirstTotal(s, CoverMult());
    } else {
      RunWeightIsTotal(s, i - 1);
      PrefixStep(s, i, CoverMult());
    }
  }

  /** At every SOURCE the running weight is the match sum that bottom-up computed for the edge. */
  lemma WeightIsMatchSum(s: seq<SkRec>, n: JoinNode, parent: seq<Entry>, child: seq<Entry>, i: nat)
    requires TopReady(n, parent, child) && SortOf(s, TdComb(n, parent, child), CmpJoinAttr)
    requires AllKnown(s, Reverse(n), child) && i < |s| && s[i].fieldType == Source
    ensures RunWeight(s, i) == MatchSum(n, child, s[i].joinAttr)
  {
    SeedIsRight(s, n, parent, child);
    RunWeightIsTotal(s, i);
    CoverUpToSource(s, n, parent, child, i);
  }

  lemma {:induction false} RunAccIsTotal(s: seq<SkRec>, n: JoinNode, parent: seq<Entry>, child: seq<Entry>, i: nat)
    requires TopReady(n, parent, child) && SortOf(s, TdComb(n, parent, child), CmpJoinAttr)
    requires AllKnown(s, Reverse(n), child) && i < |s|
    ensures RunAcc(s, i) == Total(s[..i + 1], ShareRec(n, child))
  {
    if i == 0 {
      SeedIsRight(s, n, parent, child);
      FirstTotal(s, ShareRec(n, child));
    } else {
      RunAccIsTotal(s, n, parent, child, i - 1);
      PrefixStep(s, i, ShareRec(n, child));
      NoSkip(s, i);
      if s[i].fieldType == Source {
        WeightIsMatchSum(s, n, parent, child, i);
      }
    }
  }

  lemma ShareWeighs(n: JoinNode, parent: seq<Entry>, child: seq<Entry>)
    requires TopReady(n, parent, child)
    ensures Weighs(ShareRec(n, child), Share(n, child), FinalPhase, Reverse(n), child, parent)
  {
  }

  lemma SweepAccumulates(s: seq<SkRec>, n: JoinNode, parent: seq<Entry>, child: seq<Entry>)
    requires TopReady(n, parent, child) && SortOf(s, TdComb(n, parent, child), CmpJoinAttr)
    ensures Accumulated(Swept(s), Reverse(n), child, parent, Share(n, child), 0)
  {
    var rn := Reverse(n);
    SortedKnown(FinalPhase, s, rn, child, parent);
    ShareWeighs(n, parent, child);
    forall i | 0 <= i < |s| && IsTarget(s[i])
      ensures IsBound(Swept(s)[i], rn, child)
      ensures Swept(s)[i].acc
           == SumUpTo(rn, parent, Share(n, child), TargetAttr(rn, child, s[i].originalIndex), s[i].fieldType)
    {
      assert Known(s[i], rn, child);
      RunAccIsTotal(s, n, parent, child, i);
      SweptBound(ShareRec(n, child), Share(n, child), FinalPhase, s, rn, child, parent, i);
    }
  }

  // ---- Step 5: intervals, and the START's sum copied to the END ----

  ghost function MeasuredAt(s: seq<SkRec>, i: nat): SkRec
    requires i < |s|
  {
    if i >= 1 && IsPair(s[i - 1], s[i]) then s[i].(interval := s[i].acc - s[i - 1].acc, acc := s[i - 1].acc) else s[i]
  }

  ghost function Measured(s: seq<SkRec>): (r: seq<SkRec>)
    ensures |r| == |s|
  {
    seq(|s|, i requires 0 <= i < |s| => MeasuredAt(s, i))
  }

  method Intervals(comb: array<SkRec>)
    modifies comb
    ensures comb[..] == Measured(old(comb[..]))
  {
    ghost var s := comb[..];
    var i := 1;
    while i < comb.Length
      invariant 1 <= i
      invariant forall j :: 0 <= j < comb.Length ==> comb[j] == if j < i then MeasuredAt(s, j) else s[j]
    {
      var e1, e2 := comb[i - 1], comb[i];
      var isPair := Bit(IsPair(e1, e2));
      var interval := e2.acc - e1.acc;
      comb[i] := e2.(interval := isPair * interval + (1 - isPair) * e2.interval,
                     acc := isPair * e1.acc + (1 - isPair) * e2.acc);
      i := i + 1;
    }
  }

  /** Shares of the parent rows that a child value x joins with. */
  ghost function JoinedShares(n: JoinNode, parent: seq<Entry>, child: seq<Entry>, x: int): int {
    SumInside(Reverse(n), parent, Share(n, child), x)
  }

  /** Shares of the parent rows whose band lies below a child value x. */
  ghost function EarlierShares(n: JoinNode, parent: seq<Entry>, child: seq<Entry>, x: int): int {
    SumUpTo(Reverse(n), parent, Share(n, child), x, Start)
  }

  ghost function ChildAttr(n: JoinNode, child: seq<Entry>, i: int): int {
    TargetAttr(Reverse(n), child, i)
  }

  /** Each END record carries the interval and the start of its child row. */
  ghost predicate HasShares(t: seq<SkRec>, n: JoinNode, parent: seq<Entry>, child: seq<Entry>) {
    forall i :: 0 <= i < |t| && t[i].fieldType == End ==>
      && t[i].interval == JoinedShares(n, parent, child, ChildAttr(n, child, t[i].originalIndex))
      && t[i].acc == EarlierShares(n, parent, child, ChildAttr(n, child, t[i].originalIndex))
  }

  lemma IntervalsAreShares(s: seq<SkRec>, n: JoinNode, parent: seq<Entry>, child: seq<Entry>)
    requires TopReady(n, parent, child)
    requires Layout(s, |child|) && SortedBy(s, CmpPairwise)
    requires Accumulated(s, Reverse(n), child, parent, Share(n, child), 0)
    ensures HasShares(Measured(s), n, parent, child)
  {
    forall i | 0 <= i < |s| && s[i].fieldType == End
      ensures Measured(s)[i].interval == JoinedShares(n, parent, child, ChildAttr(n, child, s[i].originalIndex))
      ensures Measured(s)[i].acc == EarlierShares(n, parent, child, ChildAttr(n, child, s[i].originalIndex))
    {
      PairOfEnd(s, |child|, i);
      IntervalOfEnd(s, Reverse(n), child, parent, Share(n, child), 0, i);
      assert Measured(s)[i] == MeasuredAt(s, i);
    }
  }

  lemma SharesPermute(s: seq<SkRec>, t: seq<SkRec>, n: JoinNode, parent: seq<Entry>, child: seq<Entry>)
    requires HasShares(s, n, parent, child) && multiset(t) == multiset(s)
    ensures HasShares(t, n, parent, child)
  {
    forall i | 0 <= i < |t| ensures t[i] in s {
      assert t[i] in multiset(s);
    }
  }

  // ---- The edge ----

  /** The child table after an edge. */
  ghost function EdgeFinal(n: JoinNode, parent: seq<Entry>, child: seq<Entry>): (r: seq<Entry>)
    ensures |r| == |child|
  {
    seq(|child|, i requires 0 <= i < |child| => child[i].(
      finalMult := JoinedShares(n, parent, child, ChildAttr(n, child, i)) * child[i].localMult,
      foreignSum := EarlierShares(n, parent, child, ChildAttr(n, child, i))))
  }

  /** compute_final_mult: steps 1 to 7. */
  method ComputeFinalMult(n: JoinNode, parent: array<Entry>, child: array<Entry>)
    requires parent != child && TopReady(n, parent[..], child[..])
    modifies child
    ensures child[..] == EdgeFinal(n, parent[..], old(child[..]))
  {
    if child.Length == 0 {
      return;
    }
    var comb := ShareEdge(n, parent, child);
    ghost var p, was, cs := parent[..], child[..], comb[..];
    for i := 0 to child.Length
      invariant parent[..] == p && comb[..] == cs
      invariant forall j :: 0 <= j < child.Length ==> child[j] == if j < i then EdgeFinal(n, p, was)[j] else was[j]
    {
      assert comb[i] == cs[i];
      child[i] := child[i].(finalMult := comb[i].interval * child[i].localMult, foreignSum := comb[i].acc);
    }
  }

  method ShareEdge(n: JoinNode, parent: array<Entry>, child: array<Entry>) returns (comb: array<SkRec>)
    requires TopReady(n, parent[..], child[..])
    ensures fresh(comb) && child.Length <= comb.Length
    ensures forall i :: 0 <= i < child.Length ==>
      && comb[i].interval == JoinedShares(n, parent[..], child[..], ChildAttr(n, child[..], i))
      && comb[i].acc == EarlierShares(n, parent[..], child[..], ChildAttr(n, child[..], i))
  {
    ghost var p, c := parent[..], child[..];
    comb := BuildComb(FinalPhase, Reverse(n), child, parent);
    AccumulateEdge(n, comb, p, c);
    MeasureBounds(n, comb, p, c);
    EndFirst(n, comb, p, c);
  }

  /** Steps 2 and 3. */
  method AccumulateEdge(n: JoinNode, comb: array<SkRec>, ghost p: seq<Entry>, ghost c: seq<Entry>)
    requires TopReady(n, p, c) && comb[..] == TdComb(n, p, c)
    modifies comb
    ensures Layout(comb[..], |c|) && Accumulated(comb[..], Reverse(n), c, p, Share(n, c), 0)
  {
    CombLayout(FinalPhase, Reverse(n), c, p);
    SortJoinAttr(comb, |c|);
    ghost var s := comb[..];
    Sweep(comb);
    LayoutOfSame(s, comb[..], |c|);
    SweepAccumulates(s, n, p, c);
  }

  /** Steps 4 and 5. */
  method MeasureBounds(n: JoinNode, comb: array<SkRec>, ghost p: seq<Entry>, ghost c: seq<Entry>)
    requires TopReady(n, p, c) && Layout(comb[..], |c|) && Accumulated(comb[..], Reverse(n), c, p, Share(n, c), 0)
    modifies comb
    ensures Layout(comb[..], |c|) && HasShares(comb[..], n, p, c)
  {
    ghost var s := comb[..];
    SortPairwise(comb, |c|);
    ghost var t := comb[..];
    AccumulatedPermutes(s, t, Reverse(n), c, p, Share(n, c), 0);
    Intervals(comb);
    LayoutOfSame(t, comb[..], |c|);
    IntervalsAreShares(t, n, p, c);
  }

  /** Step 6. */
  method EndFirst(n: JoinNode, comb: array<SkRec>, ghost p: seq<Entry>, ghost c: seq<Entry>)
    requires Layout(comb[..], |c|) && HasShares(comb[..], n, p, c) && 2 * |c| <= comb.Length
    modifies comb
    ensures forall i :: 0 <= i < |c| ==>
      && comb[i].interval == JoinedShares(n, p, c, ChildAttr(n, c, i))
      && comb[i].acc == EarlierShares(n, p, c, ChildAttr(n, c, i))
  {
    ghost var s := comb[..];
    SortEndFirst(comb, |c|);
    ghost var t := comb[..];
    SharesPermute(s, t, n, p, c);
    EndFirstPositions(t, |c|);
    forall i | 0 <= i < |c|
      ensures comb[i].interval == JoinedShares(n, p, c, ChildAttr(n, c, i))
      ensures comb[i].acc == EarlierShares(n, p, c, ChildAttr(n, c, i))
    {
      assert t[i].fieldType == End && t[i].originalIndex == i;
    }
  }
}
