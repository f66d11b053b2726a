/** The combined array of one tree edge: SOURCE records of one table, START and END records of the other. */
module Combined {
  import opened Totals
  import opened Records
  import opened ObliviousSort
  import opened Boundary

  /** Bottom-up and top-down initialise the working fields differently. */
  datatype Phase = LocalPhase | FinalPhase

  function Rec(ph: Phase, e: Entry, attr: int32, ft: FieldType, et: Equality): SkRec {
    match ph
    case LocalPhase => SkRec(attr, ft, et, e.originalIndex, e.localMult, e.localMult, 0, 0, 0)
    case FinalPhase => SkRec(attr, ft, et, e.originalIndex, e.localMult, 0, 0, e.localMult, e.finalMult)
  }

  ghost function Sources(ph: Phase, n: JoinNode, source: seq<Entry>): (r: seq<SkRec>)
    requires SafeColumn(source, n.joinCol)
    ensures |r| == |source|
    ensures forall i :: 0 <= i < |r| ==> r[i].fieldType == Source
  {
    seq(|source|, i requires 0 <= i < |source| => Rec(ph, source[i], source[i].attributes[n.joinCol], Source, None))
  }

  ghost function Starts(ph: Phase, n: JoinNode, target: seq<Entry>): (r: seq<SkRec>)
    requires SafeColumn(target, n.parentJoinCol) && ValidBand(n)
    ensures |r| == |target|
    ensures forall i :: 0 <= i < |r| ==> r[i].fieldType == Start
  {
    seq(|target|, i requires 0 <= i < |target| =>
      Rec(ph, target[i], target[i].attributes[n.parentJoinCol] + n.deviation1, Start, n.equality1))
  }

  ghost function Ends(ph: Phase, n: JoinNode, target: seq<Entry>): (r: seq<SkRec>)
    requires SafeColumn(target, n.parentJoinCol) && ValidBand(n)
    ensures |r| == |target|
    ensures forall i :: 0 <= i < |r| ==> r[i].fieldType == End
  {
    seq(|target|, i requires 0 <= i < |target| =>
      Rec(ph, target[i], target[i].attributes[n.parentJoinCol] + n.deviation2, End, n.equality2))
  }

  /** What an edge needs: a valid band between two safe columns, rows numbered in place. */
  ghost predicate EdgeReady(n: JoinNode, target: seq<Entry>, source: seq<Entry>) {
    && ValidBand(n)
    && SafeColumn(target, n.parentJoinCol) && SafeColumn(source, n.joinCol)
    && Indexed(target) && Indexed(source)
  }

  ghost function Comb(ph: Phase, n: JoinNode, target: seq<Entry>, source: seq<Entry>): (r: seq<SkRec>)
    requires EdgeReady(n, target, source)
    ensures |r| == |source| + 2 * |target|
  {
    Sources(ph, n, source) + Starts(ph, n, target) + Ends(ph, n, target)
  }

  method FillSources(ph: Phase, comb: array<SkRec>, n: JoinNode, source: array<Entry>)
    requires SafeColumn(source[..], n.joinCol) && source.Length <= comb.Length
    modifies comb
    ensures comb[..] == Sources(ph, n, source[..]) + old(comb[source.Length..])
  {
    ghost var src, was := Sources(ph, n, source[..]), comb[..];
    for i := 0 to source.Length
      invariant forall j :: 0 <= j < comb.Length ==> comb[j] == if j < i then src[j] else was[j]
    {
      comb[i] := Rec(ph, source[i], source[i].attributes[n.joinCol], Source, None);
    }
  }

  method FillStarts(ph: Phase, comb: array<SkRec>, off: nat, n: JoinNode, target: array<Entry>)
    requires SafeColumn(target[..], n.parentJoinCol) && ValidBand(n) && off + target.Length <= comb.Length
    modifies comb
    ensures comb[..] == old(comb[..off]) + Starts(ph, n, target[..]) + old(comb[off + target.Length..])
  {
    ghost var bs, was := Starts(ph, n, target[..]), comb[..];
    for i := 0 to target.Length
      invariant forall j :: 0 <= j < comb.Length ==> comb[j] == if off <= j < off + i then bs[j - off] else was[j]
    {
      comb[off + i] := Rec(ph, target[i], target[i].attributes[n.parentJoinCol] + n.deviation1, Start, n.equality1);
    }
  }

  method FillEnds(ph: Phase, comb: array<SkRec>, off: nat, n: JoinNode, target: array<Entry>)
    requires SafeColumn(target[..], n.parentJoinCol) && ValidBand(n) && off + target.Length <= comb.Length
    modifies comb
    ensures comb[..] == old(comb[..off]) + Ends(ph, n, target[..]) + old(comb[off + target.Length..])
  {
    ghost var bs, was := Ends(ph, n, target[..]), comb[..];
    for i := 0 to target.Length
      invariant forall j :: 0 <= j < comb.Length ==> comb[j] == if off <= j < off + i then bs[j - off] else was[j]
    {
      comb[off + i] := Rec(ph, target[i], target[i].attributes[n.parentJoinCol] + n.deviation2, End, n.equality2);
    }
  }

  /** Step 1 of both phases. */
  method BuildComb(ph: Phase, n: JoinNode, target: array<Entry>, source: array<Entry>) returns (comb: array<SkRec>)
    requires EdgeReady(n, target[..], source[..])
    ensures fresh(comb) && comb[..] == Comb(ph, n, target[..], source[..])
  {
    var nt, ns := target.Length, source.Length;
    comb := new SkRec[ns + 2 * nt](_ => SK_PAD);
    FillSources(ph, comb, n, source);
    FillStarts(ph, comb, ns, n, target);
    FillEnds(ph, comb, ns + nt, n, target);
  }

  lemma CombLayout(ph: Phase, n: JoinNode, target: seq<Entry>, source: seq<Entry>)
    requires EdgeReady(n, target, source)
    ensures Layout(Comb(ph, n, target, source), |target|)
  {
    LayoutOfBlocks(Sources(ph, n, source), Starts(ph, n, target), Ends(ph, n, target));
  }

  lemma PadsLast(t: seq<SkRec>, nt: nat)
    requires Layout(t, nt)
    ensures forall x :: x in t ==> CmpJoinAttr(SK_PAD, x) > 0 && CmpPairwise(SK_PAD, x) > 0 && CmpEndFirst(SK_PAD, x) > 0
  {
    forall x | x in t ensures x.fieldType != SortPadding {
      var i :| 0 <= i < |t| && t[i] == x;
      assert Placed(t[i], nt);
    }
  }

  ghost function TargetAttr(n: JoinNode, target: seq<Entry>, i: int): int {
    if 0 <= i < |target| then Attr(target[i].attributes, n.parentJoinCol) else 0
  }

  /** r is the START or END record of the target row it names. */
  ghost predicate IsBound(r: SkRec, n: JoinNode, target: seq<Entry>) {
    var y := TargetAttr(n, target, r.originalIndex);
    && 0 <= r.originalIndex < |target|
    && ((r.fieldType == Start && r.joinAttr == y + n.deviation1 && r.equalityType == n.equality1)
      || (r.fieldType == End && r.joinAttr == y + n.deviation2 && r.equalityType == n.equality2))
  }

  /** Every record of the combined array is a source or a boundary, and the two kinds never tie. */
  ghost predicate Known(r: SkRec, n: JoinNode, target: seq<Entry>) {
    (r.fieldType == Source && Prec(r) == 2) || IsBound(r, n, target)
  }

  ghost predicate AllKnown(s: seq<SkRec>, n: JoinNode, target: seq<Entry>) {
    forall i :: 0 <= i < |s| ==> Known(s[i], n, target)
  }

  lemma CombKnown(ph: Phase, n: JoinNode, target: seq<Entry>, source: seq<Entry>, r: SkRec)
    requires EdgeReady(n, target, source) && r in Comb(ph, n, target, source)
    ensures Known(r, n, target)
  {
    var c := Comb(ph, n, target, source);
    var i :| 0 <= i < |c| && c[i] == r;
    if i >= |source| + |target| {
      assert r == Ends(ph, n, target)[i - |source| - |target|];
    } else if i >= |source| {
      assert r == Starts(ph, n, target)[i - |source|];
    } else {
      assert r == Sources(ph, n, source)[i];
    }
  }

  lemma SortedKnown(ph: Phase, s: seq<SkRec>, n: JoinNode, target: seq<Entry>, source: seq<Entry>)
    requires EdgeReady(n, target, source) && SortOf(s, Comb(ph, n, target, source), CmpJoinAttr)
    ensures AllKnown(s, n, target)
  {
    SortOfElements(s, Comb(ph, n, target, source), CmpJoinAttr);
    forall i | 0 <= i < |s| ensures Known(s[i], n, target) {
      assert s[i] in s;
      CombKnown(ph, n, target, source, s[i]);
    }
  }

  // ---- What a sum over the sources before a boundary means ----

  /** wt restricted to the source rows on the low side of a boundary of the band around y. */
  ghost function UpTo(n: JoinNode, wt: Entry -> int, y: int, ft: FieldType): Entry -> int {
    (e: Entry) =>
      var x := Attr(e.attributes, n.joinCol);
      if (if ft == Start then Under(n, x, y) else !Over(n, x, y)) then wt(e) else 0
  }

  /** wt restricted to the source rows inside the band around y. */
  ghost function Inside(n: JoinNode, wt: Entry -> int, y: int): Entry -> int {
    (e: Entry) => if InBand(n, Attr(e.attributes, n.joinCol), y) then wt(e) else 0
  }

  ghost function SumUpTo(n: JoinNode, source: seq<Entry>, wt: Entry -> int, y: int, ft: FieldType): int {
    Total(source, UpTo(n, wt, y, ft))
  }

  ghost function SumInside(n: JoinNode, source: seq<Entry>, wt: Entry -> int, y: int): int {
    Total(source, Inside(n, wt, y))
  }

  /** What lies up to END and not up to START lies inside. */
  lemma BandSum(n: JoinNode, source: seq<Entry>, wt: Entry -> int, y: int)
    requires ValidBand(n)
    ensures SumUpTo(n, source, wt, y, End) - SumUpTo(n, source, wt, y, Start) == SumInside(n, source, wt, y)
  {
    forall i | 0 <= i < |source|
      ensures UpTo(n, wt, y, End)(source[i]) == UpTo(n, wt, y, Start)(source[i]) + Inside(n, wt, y)(source[i])
    {
      BandSides(n, Attr(source[i].attributes, n.joinCol), y);
    }
    TotalAdd(source, UpTo(n, wt, y, Start), Inside(n, wt, y), UpTo(n, wt, y, End));
  }

  /** The record weight rw gives each source record the weight wt of its row, and boundaries nothing. */
  ghost predicate Weighs(rw: SkRec -> int, wt: Entry -> int, ph: Phase, n: JoinNode, target: seq<Entry>, source: seq<Entry>)
    requires EdgeReady(n, target, source)
  {
    && (forall i {:trigger Sources(ph, n, source)[i]} :: 0 <= i < |source| ==> rw(Sources(ph, n, source)[i]) == wt(source[i]))
    && (forall r: SkRec :: r.fieldType != Source ==> rw(r) == 0)
  }

  lemma SourcesBefore(rw: SkRec -> int, wt: Entry -> int, ph: Phase, n: JoinNode, target: seq<Entry>, source: seq<Entry>, r: SkRec)
    requires EdgeReady(n, target, source) && IsBound(r, n, target) && Weighs(rw, wt, ph, n, target, source)
    ensures Total(Sources(ph, n, source), Before(rw, r))
         == SumUpTo(n, source, wt, TargetAttr(n, target, r.originalIndex), r.fieldType)
  {
    var f := UpTo(n, wt, TargetAttr(n, target, r.originalIndex), r.fieldType);
    forall i | 0 <= i < |source| ensures Before(rw, r)(Sources(ph, n, source)[i]) == f(source[i]) {
    }
    TotalZip(Sources(ph, n, source), source, Before(rw, r), f);
  }

  lemma BoundsWeighNothing(rw: SkRec -> int, t: seq<SkRec>, r: SkRec)
    requires forall i :: 0 <= i < |t| ==> t[i].fieldType != Source
    requires forall q: SkRec :: q.fieldType != Source ==> rw(q) == 0
    ensures Total(t, Before(rw, r)) == 0
  {
    TotalZero(t, Before(rw, r));
  }

  /** Everything that sorts before a boundary record comes from the source rows on that side of it. */
  lemma BoundBefore(rw: SkRec -> int, wt: Entry -> int, ph: Phase, n: JoinNode, target: seq<Entry>, source: seq<Entry>, r: SkRec)
    requires EdgeReady(n, target, source) && IsBound(r, n, target) && Weighs(rw, wt, ph, n, target, source)
    ensures Total(Comb(ph, n, target, source), Before(rw, r))
         == SumUpTo(n, source, wt, TargetAttr(n, target, r.originalIndex), r.fieldType)
  {
    TotalConcat(Sources(ph, n, source) + Starts(ph, n, target), Ends(ph, n, target), Before(rw, r));
    TotalConcat(Sources(ph, n, source), Starts(ph, n, target), Before(rw, r));
    BoundsWeighNothing(rw, Starts(ph, n, target), r);
    BoundsWeighNothing(rw, Ends(ph, n, target), r);
    SourcesBefore(rw, wt, ph, n, target, source, r);
  }

  /** In sorted order, the sum of rw up to a boundary record. */
  lemma SweptBound(rw: SkRec -> int, wt: Entry -> int, ph: Phase, s: seq<SkRec>, n: JoinNode, target: seq<Entry>, source: seq<Entry>, i: nat)
    requires EdgeReady(n, target, source) && SortOf(s, Comb(ph, n, target, source), CmpJoinAttr)
    requires Weighs(rw, wt, ph, n, target, source)
    requires AllKnown(s, n, target) && i < |s| && IsBound(s[i], n, target)
    ensures Total(s[..i + 1], rw) == SumUpTo(n, source, wt, TargetAttr(n, target, s[i].originalIndex), s[i].fieldType)
  {
    forall j | 0 <= j < |s| && rw(s[j]) != 0 ensures CmpJoinAttr(s[j], s[i]) != 0 {
      assert Known(s[j], n, target);
    }
    PrefixIsBefore(s, i, rw);
    TotalPermutation(s, Comb(ph, n, target, source), Before(rw, s[i]));
    BoundBefore(rw, wt, ph, n, target, source, s[i]);
  }

  // ---- What the sweeps leave on the boundary records ----

  /** The boundary records of t carry, up to a common base, the weight of the sources before them. */
  ghost predicate Accumulated(t: seq<SkRec>, n: JoinNode, target: seq<Entry>, source: seq<Entry>, wt: Entry -> int, base: int) {
    forall i :: 0 <= i < |t| && IsTarget(t[i]) ==>
      && IsBound(t[i], n, target)
      && t[i].acc == base + SumUpTo(n, source, wt, TargetAttr(n, target, t[i].originalIndex), t[i].fieldType)
  }

  lemma AccumulatedPermutes(s: seq<SkRec>, t: seq<SkRec>, n: JoinNode, target: seq<Entry>, source: seq<Entry>, wt: Entry -> int, base: int)
    requires Accumulated(s, n, target, source, wt, base) && multiset(t) == multiset(s)
    ensures Accumulated(t, n, target, source, wt, base)
  {
    forall i | 0 <= i < |t| ensures t[i] in s {
      assert t[i] in multiset(s);
    }
  }

  predicate IsPair(prev: SkRec, cur: SkRec) {
    prev.fieldType == Start && cur.fieldType == End
  }

  lemma PairOfEnd(s: seq<SkRec>, nt: nat, i: nat)
    requires Layout(s, nt) && SortedBy(s, CmpPairwise) && i < |s| && s[i].fieldType == End
    ensures i >= 1 && IsPair(s[i - 1], s[i]) && s[i - 1].originalIndex == s[i].originalIndex
  {
    PairwisePositions(s, nt);
    assert Placed(s[i], nt);
    assert PairKey(nt)(s[i]) == i;
    assert Placed(s[i - 1], nt);
    assert PairKey(nt)(s[i - 1]) == i - 1;
  }

  lemma IntervalOfEnd(s: seq<SkRec>, n: JoinNode, target: seq<Entry>, source: seq<Entry>, wt: Entry -> int, base: int, i: nat)
    requires ValidBand(n) && 1 <= i < |s| && Accumulated(s, n, target, source, wt, base)
    requires IsPair(s[i - 1], s[i]) && s[i - 1].originalIndex == s[i].originalIndex
    ensures s[i].acc - s[i - 1].acc == SumInside(n, source, wt, TargetAttr(n, target, s[i].originalIndex))
    ensures s[i - 1].acc == base + SumUpTo(n, source, wt, TargetAttr(n, target, s[i].originalIndex), Start)
  {
    var y := TargetAttr(n, target, s[i].originalIndex);
    assert IsTarget(s[i]) && s[i].acc == base + SumUpTo(n, source, wt, y, End);
    assert IsTarget(s[i - 1]) && s[i - 1].acc == base + SumUpTo(n, source, wt, y, Start);
    BandSum(n, source, wt, y);
  }

  /** Two arrays that agree on what the layout reads. */
  lemma LayoutOfSame(s: seq<SkRec>, t: seq<SkRec>, nt: nat)
    requires Layout(s, nt) && |t| == |s|
    requires forall i :: 0 <= i < |s| ==> t[i].fieldType == s[i].fieldType && t[i].originalIndex == s[i].originalIndex
    ensures Layout(t, nt)
  {
    forall i | 0 <= i < |s| ensures Placed(t[i], nt) {
      assert Placed(s[i], nt);
    }
    assert Image(t, PairKey(nt)) == Image(s, PairKey(nt));
  }

  // ---- The three sorts of the combined array ----

  /** By join attribute and precedence. */
  method SortJoinAttr(comb: array<SkRec>, ghost nt: nat)
    requires Layout(comb[..], nt)
    modifies comb
    ensures Layout(comb[..], nt) && SortOf(comb[..], old(comb[..]), CmpJoinAttr)
  {
    ghost var s := comb[..];
    PadsLast(s, nt);
    ComparatorsOrder();
    OSort(comb, CmpJoinAttr, SK_PAD);
    LayoutPermutes(s, comb[..], nt);
  }

  /** Targets first, START and END of a row next to each other. */
  method SortPairwise(comb: array<SkRec>, ghost nt: nat)
    requires Layout(comb[..], nt)
    modifies comb
    ensures Layout(comb[..], nt) && SortOf(comb[..], old(comb[..]), CmpPairwise)
  {
    ghost var s := comb[..];
    PadsLast(s, nt);
    ComparatorsOrder();
    OSort(comb, CmpPairwise, SK_PAD);
    LayoutPermutes(s, comb[..], nt);
  }

  /** ENDs first, in row order. */
  method SortEndFirst(comb: array<SkRec>, ghost nt: nat)
    requires Layout(comb[..], nt)
    modifies comb
    ensures Layout(comb[..], nt) && SortOf(comb[..], old(comb[..]), CmpEndFirst)
  {
    ghost var s := comb[..];
    PadsLast(s, nt);
    ComparatorsOrder();
    OSort(comb, CmpEndFirst, SK_PAD);
    LayoutPermutes(s, comb[..], nt);
  }

  // ---- The skip flag of both sweeps ----

  /** SOURCE directly after START_NEQ at the same join attribute. */
  predicate Skip(prev: SkRec, cur: SkRec) {
    prev.fieldType == Start && prev.equalityType == Neq && prev.joinAttr == cur.joinAttr && cur.fieldType == Source
  }

  /** On a sorted array the skip flag is never set. */
  lemma NoSkip(s: seq<SkRec>, i: nat)
    requires SortedBy(s, CmpJoinAttr) && 1 <= i < |s|
    ensures !Skip(s[i - 1], s[i])
  {
    assert CmpJoinAttr(s[i - 1], s[i]) <= 0;
  }
}
