/** Bottom-up: every parent row's multiplicity is multiplied by the match sum of each child. */
module BottomUp {
  import opened Totals
  import opened Records
  import opened ObliviousSort
  import opened Boundary
  import opened Combined

  // ---- Step 3: cumulative sums ----

  ghost function SourceMult(): SkRec -> int {
    (r: SkRec) => if r.fieldType == Source then r.localMult else 0
  }

  ghost function LocalMult(): Entry -> int {
    (e: Entry) => e.localMult
  }

  ghost function Swept(s: seq<SkRec>): (r: seq<SkRec>)
    ensures |r| == |s|
  {
    seq(|s|, i requires 0 <= i < |s| => s[i].(acc := s[0].acc + Total(s[1..i + 1], SourceMult())))
  }

  lemma SweptStep(s: seq<SkRec>, i: nat)
    requires 1 <= i < |s|
    ensures Swept(s)[i].acc == Swept(s)[i - 1].acc + SourceMult()(s[i])
  {
    assert s[1..i + 1] == s[1..i] + [s[i]];
    TotalSnoc(s[1..i], s[i], SourceMult());
  }

  method Sweep(comb: array<SkRec>)
    requires SortedBy(comb[..], CmpJoinAttr)
    modifies comb
    ensures comb[..] == Swept(old(comb[..]))
  {
    ghost var s := comb[..];
    var i := 1;
    while i < comb.Length
      invariant 1 <= i
      invariant forall j :: 0 <= j < comb.Length ==> comb[j] == if j < i then Swept(s)[j] else s[j]
    {
      NoSkip(s, i);
      SweptStep(s, i);
      var isSrc := Bit(comb[i].fieldType == Source);
      var skip := Bit(Skip(comb[i - 1], comb[i]));
      comb[i] := comb[i].(acc := comb[i - 1].acc + isSrc * (1 - skip) * comb[i].localMult);
      i := i + 1;
    }
  }

  lemma SweptAcc(s: seq<SkRec>, i: nat)
    requires i < |s|
    ensures Swept(s)[i].acc == s[0].acc - SourceMult()(s[0]) + Total(s[..i + 1], SourceMult())
  {
    assert s[..i + 1] == [s[0]] + s[1..i + 1];
    TotalConcat([s[0]], s[1..i + 1], SourceMult());
    assert Total([s[0]], SourceMult()) == SourceMult()(s[0]) by {
      TotalSnoc([], s[0], SourceMult());
      assert [] + [s[0]] == [s[0]];
    }
  }

  lemma SweepAccumulates(s: seq<SkRec>, n: JoinNode, parent: seq<Entry>, child: seq<Entry>) returns (base: int)
    requires EdgeReady(n, parent, child) && SortOf(s, Comb(LocalPhase, n, parent, child), CmpJoinAttr)
    ensures Accumulated(Swept(s), n, parent, child, LocalMult(), base)
  {
    base := if s == [] then 0 else s[0].acc - SourceMult()(s[0]);
    SortedKnown(LocalPhase, s, n, parent, child);
    forall i | 0 <= i < |s| && IsTarget(s[i])
      ensures IsBound(Swept(s)[i], n, parent)
      ensures Swept(s)[i].acc
           == base + SumUpTo(n, child, LocalMult(), TargetAttr(n, parent, s[i].originalIndex), s[i].fieldType)
    {
      assert Known(s[i], n, parent);
      SweptAcc(s, i);
      SweptBound(SourceMult(), LocalMult(), LocalPhase, s, n, parent, child, i);
    }
  }

  // ---- Step 5: intervals ----

  ghost function MeasuredAt(s: seq<SkRec>, i: nat): SkRec
    requires i < |s|
  {
    if i >= 1 && IsPair(s[i - 1], s[i]) then s[i].(interval := s[i].acc - s[i - 1].acc) else s[i]
  }

  ghost function Measured(s: seq<SkRec>): (r: seq<SkRec>)
    ensures |r| == |s|
  {
    seq(|s|, i requires 0 <= i < |s| => MeasuredAt(s, i))
  }

  method Intervals(comb: array<SkRec>)
    modifies comb
    ensures comb[..] == Measured(old(comb[..]))
  {
    ghost var s := comb[..];
    var i := 1;
    while i < comb.Length
      invariant 1 <= i
      invariant forall j :: 0 <= j < comb.Length ==> comb[j] == if j < i then Measured(s)[j] else s[j]
    {
      var isPair := Bit(IsPair(comb[i - 1], comb[i]));
      var interval := comb[i].acc - comb[i - 1].acc;
      comb[i] := comb[i].(interval := isPair * interval + (1 - isPair) * comb[i].interval);
      i := i + 1;
    }
  }

  /** Each END record carries the match sum of its parent row. */
  ghost predicate HasIntervals(t: seq<SkRec>, n: JoinNode, parent: seq<Entry>, child: seq<Entry>) {
    forall i :: 0 <= i < |t| && t[i].fieldType == End ==>
      t[i].interval == MatchSum(n, child, TargetAttr(n, parent, t[i].originalIndex))
  }

  lemma MatchSumIsInside(n: JoinNode, child: seq<Entry>, y: int)
    ensures SumInside(n, child, LocalMult(), y) == MatchSum(n, child, y)
  {
    TotalExt(child, Inside(n, LocalMult(), y), MatchedMult(n, y));
  }

  lemma IntervalsAreMatchSums(s: seq<SkRec>, n: JoinNode, parent: seq<Entry>, child: seq<Entry>, base: int)
    requires EdgeReady(n, parent, child)
    requires Layout(s, |parent|) && SortedBy(s, CmpPairwise) && Accumulated(s, n, parent, child, LocalMult(), base)
    ensures HasIntervals(Measured(s), n, parent, child)
  {
    forall i | 0 <= i < |s| && s[i].fieldType == End
      ensures Measured(s)[i].interval == MatchSum(n, child, TargetAttr(n, parent, s[i].originalIndex))
    {
      PairOfEnd(s, |parent|, i);
      IntervalOfEnd(s, n, parent, child, LocalMult(), base, i);
      MatchSumIsInside(n, child, TargetAttr(n, parent, s[i].originalIndex));
      assert Measured(s)[i] == MeasuredAt(s, i);
    }
  }

  lemma IntervalsPermute(s: seq<SkRec>, t: seq<SkRec>, n: JoinNode, parent: seq<Entry>, child: seq<Entry>)
    requires HasIntervals(s, n, parent, child) && multiset(t) == multiset(s)
    ensures HasIntervals(t, n, parent, child)
  {
    forall i | 0 <= i < |t| ensures t[i] in s {
      assert t[i] in multiset(s);
    }
  }

  // ---- The edge ----

  /** The parent table after an edge: every row's multiplicity times its match sum. */
  ghost function EdgeLocal(n: JoinNode, parent: seq<Entry>, child: seq<Entry>): (r: seq<Entry>)
    ensures |r| == |parent|
  {
    seq(|parent|, i requires 0 <= i < |parent| =>
      parent[i].(localMult := parent[i].localMult * MatchSum(n, child, TargetAttr(n, parent, i))))
  }

  /** compute_local_mult: steps 1 to 7. */
  method ComputeLocalMult(n: JoinNode, parent: array<Entry>, child: array<Entry>)
    requires parent != child && EdgeReady(n, parent[..], child[..])
    modifies parent
    ensures parent[..] == EdgeLocal(n, old(parent[..]), child[..])
  {
    if parent.Length == 0 {
      return;
    }
    var comb := MeasureEdge(n, parent, child);
    ghost var was, c, cs := parent[..], child[..], comb[..];
    for i := 0 to parent.Length
      invariant child[..] == c && comb[..] == cs
      invariant forall j :: 0 <= j < parent.Length ==> parent[j] == if j < i then EdgeLocal(n, was, c)[j] else was[j]
    {
      assert comb[i] == cs[i];
      parent[i] := parent[i].(localMult := parent[i].localMult * comb[i].interval);
    }
  }

  method MeasureEdge(n: JoinNode, parent: array<Entry>, child: array<Entry>) returns (comb: array<SkRec>)
    requires EdgeReady(n, parent[..], child[..])
    ensures fresh(comb) && parent.Length <= comb.Length
    ensures forall i :: 0 <= i < parent.Length ==>
      comb[i].interval == MatchSum(n, child[..], TargetAttr(n, parent[..], i))
  {
    ghost var p, c := parent[..], child[..];
    comb := BuildComb(LocalPhase, n, parent, child);
    ghost var base := AccumulateEdge(n, comb, p, c);
    MeasureBounds(n, comb, p, c, base);
    EndFirst(n, comb, p, c);
  }

  /** Steps 2 and 3. */
  method AccumulateEdge(n: JoinNode, comb: array<SkRec>, ghost p: seq<Entry>, ghost c: seq<Entry>) returns (ghost base: int)
    requires EdgeReady(n, p, c) && comb[..] == Comb(LocalPhase, n, p, c)
    modifies comb
    ensures Layout(comb[..], |p|) && Accumulated(comb[..], n, p, c, LocalMult(), base)
  {
    CombLayout(LocalPhase, n, p, c);
    SortJoinAttr(comb, |p|);
    ghost var s := comb[..];
    Sweep(comb);
    LayoutOfSame(s, comb[..], |p|);
    base := SweepAccumulates(s, n, p, c);
  }

  /** Steps 4 and 5. */
  method MeasureBounds(n: JoinNode, comb: array<SkRec>, ghost p: seq<Entry>, ghost c: seq<Entry>, ghost base: int)
    requires EdgeReady(n, p, c) && Layout(comb[..], |p|) && Accumulated(comb[..], n, p, c, LocalMult(), base)
    modifies comb
    ensures Layout(comb[..], |p|) && HasIntervals(comb[..], n, p, c)
  {
    ghost var s := comb[..];
    SortPairwise(comb, |p|);
    ghost var t := comb[..];
    AccumulatedPermutes(s, t, n, p, c, LocalMult(), base);
    Intervals(comb);
    LayoutOfSame(t, comb[..], |p|);
    IntervalsAreMatchSums(t, n, p, c, base);
  }

  /** Step 6. */
  method EndFirst(n: JoinNode, comb: array<SkRec>, ghost p: seq<Entry>, ghost c: seq<Entry>)
    requires Layout(comb[..], |p|) && HasIntervals(comb[..], n, p, c) && 2 * |p| <= comb.Length
    modifies comb
    ensures forall i :: 0 <= i < |p| ==> comb[i].interval == MatchSum(n, c, TargetAttr(n, p, i))
  {
    ghost var s := comb[..];
    SortEndFirst(comb, |p|);
    ghost var t := comb[..];
    IntervalsPermute(s, t, n, p, c);
    EndFirstPositions(t, |p|);
    forall i | 0 <= i < |p| ensures comb[i].interval == MatchSum(n, c, TargetAttr(n, p, i)) {
      assert t[i].fieldType == End && t[i].originalIndex == i;
    }
  }
}
