/** Distribute-expand: replicate every row final_mult times, in row order, through a fixed swap schedule. */
module Distribute {
  import opened Totals
  import opened Records
  import opened ObliviousSort
  import opened Boundary
  import opened TrimmedRows
  import W = Waksman

  // ---- The expanded table, declaratively ----

  ghost function FinalMult(): Entry -> int {
    (e: Entry) => e.finalMult
  }

  /** dst_idx of row i: the rows before it take this many slots. */
  ghost function Offset(t: seq<Entry>, i: nat): int
    requires i <= |t|
  {
    Total(t[..i], FinalMult())
  }

  function RowOf(e: Entry, dst: int, slot: int): TRow {
    TRow(0, e.fieldType, e.originalIndex, e.localMult, e.foreignSum, 0, 0, e.finalMult, dst, slot, e.attributes)
  }

  /** The copies of row i, in the slots from its offset on. */
  ghost function CopiesOf(t: seq<Entry>, i: nat): (r: seq<TRow>)
    requires i < |t| && t[i].finalMult >= 0
    ensures |r| == t[i].finalMult
  {
    seq(t[i].finalMult, j requires 0 <= j < t[i].finalMult => RowOf(t[i], Offset(t, i), Offset(t, i) + j))
  }

  ghost predicate Counts(t: seq<Entry>) {
    forall i :: 0 <= i < |t| ==> 0 <= t[i].finalMult
  }

  /** Every row final_mult times, consecutively, in row order. */
  ghost function Expanded(t: seq<Entry>, n: nat): (r: seq<TRow>)
    requires Counts(t) && n <= |t|
    ensures |r| == Offset(t, n)
  {
    if n == 0 then [] else
      assert t[..n] == t[..n - 1] + [t[n - 1]];
      TotalSnoc(t[..n - 1], t[n - 1], FinalMult());
      Expanded(t, n - 1) + CopiesOf(t, n - 1)
  }

  lemma OffsetStep(t: seq<Entry>, i: nat)
    requires i < |t|
    ensures Offset(t, i + 1) == Offset(t, i) + t[i].finalMult
  {
    assert t[..i + 1] == t[..i] + [t[i]];
    TotalSnoc(t[..i], t[i], FinalMult());
  }

  lemma {:induction false} OffsetMonotone(t: seq<Entry>, i: nat, j: nat)
    requires Counts(t) && i <= j <= |t|
    ensures 0 <= Offset(t, i) <= Offset(t, j)
    decreases j
  {
    if i < j {
      OffsetMonotone(t, i, j - 1);
      OffsetStep(t, j - 1);
    } else {
      TotalNonNegative(t[..i], FinalMult());
    }
  }

  /** out holds the copies of row i where they belong. */
  ghost predicate HoldsCopies(out: seq<TRow>, t: seq<Entry>, i: nat)
    requires i < |t| && Counts(t)
  {
    && 0 <= Offset(t, i) && Offset(t, i) + t[i].finalMult <= |out|
    && out[Offset(t, i)..Offset(t, i) + t[i].finalMult] == CopiesOf(t, i)
  }

  lemma {:induction false} CopiesMakeExpanded(out: seq<TRow>, t: seq<Entry>, n: nat)
    requires Counts(t) && n <= |t| && 0 <= Offset(t, n) <= |out|
    requires forall i :: 0 <= i < n ==> HoldsCopies(out, t, i)
    ensures out[..Offset(t, n)] == Expanded(t, n)
  {
    if n > 0 {
      OffsetStep(t, n - 1);
      OffsetMonotone(t, n - 1, n);
      CopiesMakeExpanded(out, t, n - 1);
      assert HoldsCopies(out, t, n - 1);
      assert out[..Offset(t, n)] == out[..Offset(t, n - 1)] + out[Offset(t, n - 1)..Offset(t, n)];
    }
  }

  // ---- Step 1: the work array ----

  ghost function WorkRow(t: seq<Entry>, i: nat): TRow
    requires i < |t|
  {
    RowOf(t[i], Offset(t, i), 0)
  }

  method BuildWork(in_: array<Entry>) returns (work: array<TRow>, outputSize: int)
    ensures fresh(work) && work.Length == in_.Length
    ensures forall i :: 0 <= i < in_.Length ==> work[i] == WorkRow(in_[..], i)
    ensures outputSize == Offset(in_[..], in_.Length)
  {
    ghost var t := in_[..];
    work := new TRow[in_.Length](_ => T_PAD);
    var dst := 0;
    for i := 0 to in_.Length
      invariant dst == Offset(t, i)
      invariant forall j :: 0 <= j < i ==> work[j] == WorkRow(t, j)
    {
      work[i] := RowOf(in_[i], dst, 0);
      OffsetStep(t, i);
      dst := dst + in_[i].finalMult;
    }
    outputSize := dst;
  }

  // ---- Step 2: zero-multiplicity rows become padding ----

  function Marked(r: TRow): TRow {
    if r.finalMult == 0 then r.(fieldType := DistPadding) else r
  }

  method MarkPadding(work: array<TRow>)
    modifies work
    ensures forall i :: 0 <= i < work.Length ==> work[i] == Marked(old(work[i]))
  {
    for i := 0 to work.Length
      invariant forall j :: 0 <= j < work.Length ==> work[j] == if j < i then Marked(old(work[j])) else old(work[j])
    {
      if work[i].finalMult == 0 {
        work[i] := work[i].(fieldType := DistPadding);
      }
    }
  }

  // ---- Step 3: what the padding-last sort leaves ----

  /** Rows as bottom_up leaves them: numbered in place, not tagged as padding. */
  ghost predicate PlainRows(t: seq<Entry>) {
    Counts(t) && Indexed(t) && forall i :: 0 <= i < |t| ==> t[i].fieldType != SortPadding && t[i].fieldType != DistPadding
  }

  ghost function Work(t: seq<Entry>): (r: seq<TRow>)
    ensures |r| == |t|
  {
    seq(|t|, i requires 0 <= i < |t| => Marked(WorkRow(t, i)))
  }

  ghost function IsReal(): TRow -> bool {
    (r: TRow) => r.fieldType != DistPadding
  }

  ghost function RowMult(): TRow -> int {
    (r: TRow) => r.finalMult
  }

  ghost function RowIndex(): TRow -> int {
    (r: TRow) => r.originalIndex
  }

  lemma {:induction false} RangeOnce(n: nat, x: int)
    ensures multiset(Range(n))[x] == if 0 <= x < n then 1 else 0
  {
    if n > 0 {
      RangeOnce(n - 1, x);
      assert Range(n) == Range(n - 1) + [n - 1];
    }
  }

  lemma PermutedRangeDistinct(s: seq<int>, n: nat, i: nat, j: nat)
    requires multiset(s) == multiset(Range(n)) && i < j < |s|
    ensures s[i] != s[j]
  {
    RangeOnce(n, s[j]);
    assert s == s[..j] + s[j..];
    assert s[j] in s[j..] by {
      assert s[j..][0] == s[j];
    }
    assert s[i] in s[..j];
    assert multiset(s)[s[j]] == multiset(s[..j])[s[j]] + multiset(s[j..])[s[j]];
    assert multiset(s[..j])[s[i]] >= 1;
  }

  lemma SortedWorkRow(s: seq<TRow>, t: seq<Entry>, j: nat)
    requires PlainRows(t) && SortOf(s, Work(t), CmpDistPaddingLast) && j < |s|
    ensures 0 <= s[j].originalIndex < |t| && s[j] == Work(t)[s[j].originalIndex]
  {
    SortOfElements(s, Work(t), CmpDistPaddingLast);
    assert s[j] in s;
    var i :| 0 <= i < |t| && Work(t)[i] == s[j];
  }

  lemma SortedWorkDistinct(s: seq<TRow>, t: seq<Entry>, i: nat, j: nat)
    requires PlainRows(t) && SortOf(s, Work(t), CmpDistPaddingLast) && i < j < |s|
    ensures s[i].originalIndex != s[j].originalIndex
  {
    ImagePermutation(s, Work(t), RowIndex());
    assert Image(Work(t), RowIndex()) == Range(|t|);
    SortOfElements(s, Work(t), CmpDistPaddingLast);
    PermutedRangeDistinct(Image(s, RowIndex()), |t|, i, j);
  }

  /** Padding last, and the real rows in strictly ascending row order. */
  lemma SortedWorkOrder(s: seq<TRow>, t: seq<Entry>, i: nat, j: nat)
    requires PlainRows(t) && SortOf(s, Work(t), CmpDistPaddingLast) && i < j < |s| && IsReal()(s[j])
    ensures IsReal()(s[i]) && s[i].originalIndex < s[j].originalIndex
  {
    SortedWorkRow(s, t, i);
    SortedWorkRow(s, t, j);
    SortedWorkDistinct(s, t, i, j);
    assert CmpDistPaddingLast(s[i], s[j]) <= 0;
  }

  /** Multiplicity of the rows before row o. */
  ghost function MultBefore(o: int): TRow -> int {
    (r: TRow) => if r.originalIndex < o then r.finalMult else 0
  }

  lemma MultOfWork(t: seq<Entry>, o: nat, i: nat)
    requires PlainRows(t) && i < |t|
    ensures MultBefore(o)(Work(t)[i]) == if i < o then FinalMult()(t[i]) else 0
  {
  }

  lemma OffsetIsMultBefore(t: seq<Entry>, o: nat)
    requires PlainRows(t) && o <= |t|
    ensures Total(Work(t), MultBefore(o)) == Offset(t, o)
  {
    var w := Work(t);
    forall i | 0 <= i < |t| ensures MultBefore(o)(w[i]) == if i < o then FinalMult()(t[i]) else 0 {
      MultOfWork(t, o, i);
    }
    TotalMiddle(w, 0, o, MultBefore(o));
    assert w[0..o] == w[..o];
    TotalZip(w[..o], t[..o], MultBefore(o), FinalMult());
  }

  lemma NoneAfterReal(s: seq<TRow>, t: seq<Entry>, i: nat, j: nat)
    requires PlainRows(t) && SortOf(s, Work(t), CmpDistPaddingLast) && j <= i < |s| && IsReal()(s[j])
    ensures MultBefore(s[j].originalIndex)(s[i]) == 0
  {
    SortedWorkRow(s, t, i);
    if i > j && IsReal()(s[i]) {
      SortedWorkOrder(s, t, j, i);
    }
  }

  lemma SortedBeforeReal(s: seq<TRow>, t: seq<Entry>, j: nat)
    requires PlainRows(t) && SortOf(s, Work(t), CmpDistPaddingLast) && j < |s| && IsReal()(s[j])
    ensures Total(s, MultBefore(s[j].originalIndex)) == Total(s[..j], RowMult())
  {
    var f := MultBefore(s[j].originalIndex);
    TotalSplit(s, j, f);
    forall i | 0 <= i < j ensures f(s[i]) == RowMult()(s[i]) {
      SortedWorkOrder(s, t, i, j);
    }
    TotalExt(s[..j], f, RowMult());
    forall i | j <= i < |s| ensures f(s[i]) == 0 {
      NoneAfterReal(s, t, i, j);
    }
    TotalZero(s[j..], f);
  }

  /** Row j + 1 starts where row j ends. */
  ghost predicate Linked(r: seq<TRow>, j: nat)
    requires j + 1 < |r|
  {
    r[j + 1].dstIdx == r[j].dstIdx + r[j].finalMult
  }

  /** The real rows in order, their destinations tiling the n output slots. */
  ghost predicate Queue(r: seq<TRow>, n: nat) {
    && (forall j :: 0 <= j < |r| ==> IsReal()(r[j]) && r[j].finalMult > 0)
    && (if r == [] then n == 0 else r[0].dstIdx == 0 && r[|r| - 1].dstIdx + r[|r| - 1].finalMult == n)
    && (forall j: nat {:trigger Linked(r, j)} :: j + 1 < |r| ==> Linked(r, j))
  }

  lemma LinkOfTotals(r: seq<TRow>, j: nat)
    requires j < |r| && r[j].dstIdx == Total(r[..j], RowMult())
    ensures Total(r[..j + 1], RowMult()) == r[j].dstIdx + r[j].finalMult
  {
    assert r[..j + 1] == r[..j] + [r[j]];
    TotalSnoc(r[..j], r[j], RowMult());
  }

  lemma QueueOfTotals(r: seq<TRow>, n: nat)
    requires Total(r, RowMult()) == n
    requires forall j :: 0 <= j < |r| ==> IsReal()(r[j]) && r[j].finalMult > 0
    requires forall j :: 0 <= j < |r| ==> r[j].dstIdx == Total(r[..j], RowMult())
    ensures Queue(r, n)
  {
    forall j: nat {:trigger Linked(r, j)} | j + 1 < |r| ensures Linked(r, j) {
      LinkOfTotals(r, j);
    }
    if r != [] {
      LinkOfTotals(r, |r| - 1);
      assert r[..|r|] == r;
    }
  }

  lemma SortedRealRow(s: seq<TRow>, t: seq<Entry>, j: nat)
    requires PlainRows(t) && SortOf(s, Work(t), CmpDistPaddingLast) && j < |s| && IsReal()(s[j])
    ensures s[j].finalMult > 0 && s[j].dstIdx == Total(s[..j], RowMult())
  {
    SortedWorkRow(s, t, j);
    SortedBeforeReal(s, t, j);
    TotalPermutation(s, Work(t), MultBefore(s[j].originalIndex));
    OffsetIsMultBefore(t, s[j].originalIndex);
  }

  lemma SortedWorkTotal(s: seq<TRow>, t: seq<Entry>, m: nat)
    requires PlainRows(t) && SortOf(s, Work(t), CmpDistPaddingLast) && m <= |s|
    requires forall j :: m <= j < |s| ==> !IsReal()(s[j])
    ensures Total(s[..m], RowMult()) == Offset(t, |t|)
  {
    assert s == s[..m] + s[m..];
    TotalConcat(s[..m], s[m..], RowMult());
    forall j | m <= j < |s| ensures RowMult()(s[j]) == 0 {
      SortedWorkRow(s, t, j);
    }
    TotalZero(s[m..], RowMult());
    TotalPermutation(s, Work(t), RowMult());
    assert t[..|t|] == t;
    TotalZip(Work(t), t, RowMult(), FinalMult());
  }

  /** How many rows survive the join. */
  ghost function Survivors(s: seq<TRow>): int {
    Count(s, IsReal())
  }

  lemma SortedWorkQueue(s: seq<TRow>, t: seq<Entry>)
    requires PlainRows(t) && SortOf(s, Work(t), CmpDistPaddingLast)
    ensures 0 <= Offset(t, |t|) && 0 <= Survivors(s) <= |s|
    ensures Queue(s[..Survivors(s)], Offset(t, |t|))
    ensures forall j :: 0 <= j < |s| ==> (IsReal()(s[j]) <==> j < Survivors(s))
  {
    OffsetMonotone(t, |t|, |t|);
    forall i, j | 0 <= i < j < |s| && IsReal()(s[j]) ensures IsReal()(s[i]) {
      SortedWorkOrder(s, t, i, j);
    }
    PrefixByCount(s, IsReal());
    var m := Survivors(s);
    SortedWorkTotal(s, t, m);
    forall j | 0 <= j < m
      ensures IsReal()(s[j]) && s[j].finalMult > 0 && s[j].dstIdx == Total(s[..m][..j], RowMult())
    {
      SortedRealRow(s, t, j);
      assert s[..m][..j] == s[..j];
    }
    QueueOfTotals(s[..m], Offset(t, |t|));
  }

  // ---- Step 5: the distance-halving network ----

  /** The greatest multiple of h up to u. */
  ghost function Floor(u: int, h: int): int
    requires h > 0
    decreases u
  {
    if u < h then 0 else h + Floor(u - h, h)
  }

  lemma {:induction false} FloorIsMultiple(u: int, h: int) returns (q: nat)
    requires h > 0 && u >= 0
    ensures Floor(u, h) == q * h && q * h <= u < q * h + h
    decreases u
  {
    if u >= h {
      var q' := FloorIsMultiple(u - h, h);
      q := q' + 1;
    } else {
      q := 0;
    }
  }

  lemma {:induction false} FloorHalves(u: int, h: int)
    requires h > 0 && u >= 0
    ensures 0 <= Floor(u, 2 * h) <= u
    ensures Floor(u, h) == Floor(u, 2 * h) + if u >= Floor(u, 2 * h) + h then h else 0
    decreases u
  {
    if u >= 2 * h {
      FloorHalves(u - 2 * h, h);
    }
  }

  lemma {:induction false} FloorMonotone(u: int, v: int, h: int)
    requires h > 0 && 0 <= u <= v
    ensures 0 <= Floor(u, h) <= Floor(v, h)
    decreases v
  {
    if v >= h {
      FloorMonotone(if u >= h then u - h else 0, v - h, h);
    }
  }

  /** Where the i-th real row, bound for d, is after the passes at distances h and more. */
  ghost function Slot(h: int, i: int, d: int): int
    requires h > 0
  {
    i + Floor(d - i, h)
  }

  /** The closed form of the slot: whole steps of h towards the destination, all the way when h is 1. */
  lemma SlotClosedForm(h: int, i: int, d: int) returns (q: nat)
    requires h > 0 && i <= d
    ensures Slot(h, i, d) == i + q * h && Slot(h, i, d) <= d < Slot(h, i, d) + h
  {
    q := FloorIsMultiple(d - i, h);
  }

  lemma SlotHalves(h: int, i: int, d: int)
    requires h > 0 && i <= d
    ensures i <= Slot(2 * h, i, d) <= d
    ensures Slot(h, i, d) == Slot(2 * h, i, d) + if d >= Slot(2 * h, i, d) + h then h else 0
  {
    FloorHalves(d - i, h);
  }

  lemma {:induction false} QueueFits(r: seq<TRow>, n: nat, k: nat)
    requires Queue(r, n) && k < |r|
    ensures r[k].dstIdx + r[k].finalMult <= n
    decreases |r| - k
  {
    if k + 1 < |r| {
      assert Linked(r, k);
      QueueFits(r, n, k + 1);
    }
  }

  lemma {:induction false} QueueSlack(r: seq<TRow>, n: nat, i: nat, k: nat)
    requires Queue(r, n) && i <= k < |r|
    ensures 0 <= r[i].dstIdx - i <= r[k].dstIdx - k
    decreases k
  {
    if i < k {
      assert Linked(r, k - 1);
      QueueSlack(r, n, i, k - 1);
    } else if i > 0 {
      assert Linked(r, i - 1);
      QueueSlack(r, n, i - 1, i - 1);
    }
  }

  lemma SlotsIncrease(h: int, r: seq<TRow>, n: nat, i: nat, k: nat)
    requires h > 0 && Queue(r, n) && i < k < |r|
    ensures Slot(h, i, r[i].dstIdx) < Slot(h, k, r[k].dstIdx)
  {
    QueueSlack(r, n, i, k);
    QueueSlack(r, n, i, i);
    FloorMonotone(r[i].dstIdx - i, r[k].dstIdx - k, h);
  }

  /** Slots of the real rows while the pass at distance h has processed the pairs from cursor on. */
  ghost function Mid(h: int, r: seq<TRow>, cursor: int): (pos: seq<int>)
    requires h > 0
    ensures |pos| == |r|
  {
    seq(|r|, i requires 0 <= i < |r| => MidSlot(h, r, cursor, i))
  }

  ghost function MidSlot(h: int, r: seq<TRow>, cursor: int, i: nat): int
    requires h > 0 && i < |r|
  {
    var x := Slot(2 * h, i, r[i].dstIdx);
    if x >= cursor then Slot(h, i, r[i].dstIdx) else x
  }

  /** The real rows sit at pos, every other slot is padding, and slot numbers stay in place. */
  ghost predicate Spread(a: seq<TRow>, r: seq<TRow>, pos: seq<int>) {
    && |pos| == |r|
    && (forall i :: 0 <= i < |r| ==> 0 <= pos[i] < |a| && a[pos[i]] == r[i].(index := pos[i]))
    && (forall s :: 0 <= s < |a| ==> a[s].index == s && (s !in pos ==> !IsReal()(a[s])))
  }

  predicate ShouldSwap(e1: TRow, e2: TRow) {
    e1.dstIdx >= e2.index && e1.fieldType != DistPadding
  }

  /** dist_pair: the records trade places, the slot numbers do not. */
  ghost function Paired(a: seq<TRow>, p: nat, q: nat): (r: seq<TRow>)
    requires p < |a| && q < |a|
    ensures |r| == |a|
  {
    if ShouldSwap(a[p], a[q]) then a[p := a[q].(index := a[p].index)][q := a[p].(index := a[q].index)] else a
  }

  /** No row is at j, or the row at j stays: the pass does nothing. */
  lemma PairStays(a: seq<TRow>, r: seq<TRow>, n: nat, h: int, j: nat)
    requires h > 0 && Queue(r, n) && |a| == n && j + h < n && Spread(a, r, Mid(h, r, j + 1))
    requires forall i :: 0 <= i < |r| && Slot(2 * h, i, r[i].dstIdx) == j ==> r[i].dstIdx < j + h
    ensures Paired(a, j, j + h) == a && Mid(h, r, j) == Mid(h, r, j + 1)
  {
    var pos := Mid(h, r, j + 1);
    forall i | 0 <= i < |r| ensures Mid(h, r, j)[i] == pos[i] {
      QueueSlack(r, n, i, i);
      SlotHalves(h, i, r[i].dstIdx);
    }
    if j in pos {
      var i :| 0 <= i < |r| && pos[i] == j;
      QueueSlack(r, n, i, i);
      SlotHalves(h, i, r[i].dstIdx);
    }
  }

  lemma OthersStay(r: seq<TRow>, n: nat, h: int, j: nat, i: nat, k: nat)
    requires h > 0 && Queue(r, n) && i < |r| && k < |r| && k != i
    requires Slot(2 * h, i, r[i].dstIdx) == j && r[i].dstIdx >= j + h
    ensures MidSlot(h, r, j + 1, k) != j + h && MidSlot(h, r, j, k) == MidSlot(h, r, j + 1, k)
  {
    QueueSlack(r, n, i, i);
    QueueSlack(r, n, k, k);
    SlotHalves(h, i, r[i].dstIdx);
    SlotHalves(h, k, r[k].dstIdx);
    if k < i {
      SlotsIncrease(h, r, n, k, i);
      SlotsIncrease(2 * h, r, n, k, i);
    } else {
      SlotsIncrease(h, r, n, i, k);
      SlotsIncrease(2 * h, r, n, i, k);
    }
  }

  /** The row at j moves on to j + h, where no other row is. */
  lemma PairMoves(r: seq<TRow>, n: nat, h: int, j: nat, i: nat)
    requires h > 0 && Queue(r, n) && i < |r|
    requires Slot(2 * h, i, r[i].dstIdx) == j && r[i].dstIdx >= j + h
    ensures j + h !in Mid(h, r, j + 1)
    ensures Mid(h, r, j) == Mid(h, r, j + 1)[i := j + h] && Mid(h, r, j + 1)[i] == j
  {
    var pos := Mid(h, r, j + 1);
    QueueSlack(r, n, i, i);
    SlotHalves(h, i, r[i].dstIdx);
    forall k | 0 <= k < |r| && k != i ensures pos[k] != j + h && Mid(h, r, j)[k] == pos[k] {
      OthersStay(r, n, h, j, i, k);
    }
  }

  lemma MovedSpread(a: seq<TRow>, r: seq<TRow>, pos: seq<int>, i: nat, p: nat, q: nat)
    requires Spread(a, r, pos) && i < |r| && pos[i] == p && q < |a| && q !in pos
    requires forall k :: 0 <= k < |pos| && k != i ==> pos[k] != p
    ensures Spread(a[p := a[q].(index := p)][q := a[p].(index := q)], r, pos[i := q])
  {
    var b := a[p := a[q].(index := p)][q := a[p].(index := q)];
    assert p in pos;
    forall s | 0 <= s < |a| && s !in pos[i := q] ensures !IsReal()(b[s]) {
      if s != p {
        assert pos[i := q][i] == q;
        forall k | 0 <= k < |pos| ensures pos[k] != s {
          assert k != i ==> pos[i := q][k] == pos[k];
        }
      }
    }
  }

  ghost function Slots(h: int, r: seq<TRow>): (pos: seq<int>)
    requires h > 0
    ensures |pos| == |r|
  {
    seq(|r|, i requires 0 <= i < |r| => Slot(h, i, r[i].dstIdx))
  }

  lemma MidDistinct(h: int, r: seq<TRow>, n: nat, j: nat, i: nat)
    requires h > 0 && Queue(r, n) && i < |r|
    requires Slot(2 * h, i, r[i].dstIdx) == j && r[i].dstIdx >= j + h
    ensures var pos := Mid(h, r, j + 1); forall k :: 0 <= k < |pos| && k != i ==> pos[k] != j
  {
    var pos := Mid(h, r, j + 1);
    forall k | 0 <= k < |pos| && k != i ensures pos[k] != j {
      QueueSlack(r, n, k, k);
      SlotHalves(h, k, r[k].dstIdx);
      if k < i {
        SlotsIncrease(2 * h, r, n, k, i);
      } else {
        SlotsIncrease(2 * h, r, n, i, k);
      }
    }
  }

  lemma MoveStep(a: seq<TRow>, r: seq<TRow>, n: nat, h: int, j: nat, i: nat)
    requires h > 0 && Queue(r, n) && |a| == n && j + h < n && Spread(a, r, Mid(h, r, j + 1))
    requires i < |r| && Slot(2 * h, i, r[i].dstIdx) == j && r[i].dstIdx >= j + h
    ensures Spread(Paired(a, j, j + h), r, Mid(h, r, j))
  {
    PairMoves(r, n, h, j, i);
    MidDistinct(h, r, n, j, i);
    assert a[j] == r[i].(index := j);
    MovedSpread(a, r, Mid(h, r, j + 1), i, j, j + h);
  }

  lemma PairStep(a: seq<TRow>, r: seq<TRow>, n: nat, h: int, j: nat, cursor: nat)
    requires h > 0 && Queue(r, n) && |a| == n && j + h < n
    requires cursor == j + 1 && Spread(a, r, Mid(h, r, cursor))
    ensures Spread(Paired(a, j, j + h), r, Mid(h, r, j))
  {
    if i: nat :| i < |r| && Slot(2 * h, i, r[i].dstIdx) == j && r[i].dstIdx >= j + h {
      MoveStep(a, r, n, h, j, i);
    } else {
      PairStays(a, r, n, h, j);
    }
  }

  lemma PassStarts(r: seq<TRow>, n: nat, h: int)
    requires h > 0 && Queue(r, n)
    ensures Mid(h, r, n - h) == Slots(2 * h, r)
  {
    forall i | 0 <= i < |r| ensures MidSlot(h, r, n - h, i) == Slot(2 * h, i, r[i].dstIdx) {
      QueueSlack(r, n, i, i);
      QueueFits(r, n, i);
      SlotHalves(h, i, r[i].dstIdx);
    }
  }

  lemma PassEnds(r: seq<TRow>, n: nat, h: int, j: int)
    requires h > 0 && Queue(r, n) && j == 0
    ensures Mid(h, r, j) == Slots(h, r)
  {
    forall i | 0 <= i < |r| ensures MidSlot(h, r, j, i) == Slot(h, i, r[i].dstIdx) {
      QueueSlack(r, n, i, i);
      SlotHalves(h, i, r[i].dstIdx);
    }
  }

  method DistPair(a: array<TRow>, p: nat, q: nat)
    requires p < q < a.Length
    modifies a
    ensures a[..] == Paired(old(a[..]), p, q)
  {
    var idx1, idx2 := a[p].index, a[q].index;
    if ShouldSwap(a[p], a[q]) {
      a[p], a[q] := a[q], a[p];
    }
    a[p] := a[p].(index := idx1);
    a[q] := a[q].(index := idx2);
  }

  method PairAt(a: array<TRow>, h: nat, ghost r: seq<TRow>, j: nat, ghost cursor: int, ghost s: seq<TRow>) returns (ghost t: seq<TRow>)
    requires 0 < h && j + h < a.Length && cursor == j + 1 && Queue(r, a.Length)
    requires a[..] == s && Spread(s, r, Mid(h, r, cursor))
    modifies a
    ensures a[..] == t && Spread(t, r, Mid(h, r, j))
  {
    DistPair(a, j, j + h);
    t := a[..];
    PairTo(s, t, r, h, j, cursor);
  }

  lemma PairTo(s: seq<TRow>, t: seq<TRow>, r: seq<TRow>, h: int, j: nat, cursor: int)
    requires h > 0 && Queue(r, |s|) && j + h < |s| && cursor == j + 1 && Spread(s, r, Mid(h, r, cursor))
    requires t == Paired(s, j, j + h)
    ensures Spread(t, r, Mid(h, r, j))
  {
    PairStep(s, r, |s|, h, j, cursor);
  }

  /** One pass of the network, right to left. */
  method Pass(a: array<TRow>, h: nat, ghost r: seq<TRow>)
    requires 0 < h <= a.Length && Queue(r, a.Length) && Spread(a[..], r, Slots(2 * h, r))
    modifies a
    ensures Spread(a[..], r, Slots(h, r))
  {
    PassStarts(r, a.Length, h);
    var j: nat := a.Length - h;
    ghost var s := a[..];
    while j > 0
      invariant j <= a.Length - h
      invariant a[..] == s && Spread(s, r, Mid(h, r, j))
    {
      ghost var cursor := j;
      j := j - 1;
      s := PairAt(a, h, r, j, cursor, s);
    }
    PassEnds(r, a.Length, h, j);
  }

  lemma NotYetMoved(r: seq<TRow>, n: nat, h: int)
    requires Queue(r, n) && h > n
    ensures Slots(h, r) == seq(|r|, i => i)
  {
    forall i | 0 <= i < |r| ensures Slot(h, i, r[i].dstIdx) == i {
      QueueSlack(r, n, i, i);
      QueueFits(r, n, i);
    }
  }

  lemma AllArrived(r: seq<TRow>, n: nat)
    requires Queue(r, n)
    ensures forall i :: 0 <= i < |r| ==> Slots(1, r)[i] == r[i].dstIdx
  {
    forall i | 0 <= i < |r| ensures Slot(1, i, r[i].dstIdx) == r[i].dstIdx {
      QueueSlack(r, n, i, i);
      var q := SlotClosedForm(1, i, r[i].dstIdx);
    }
  }

  ghost function Destinations(r: seq<TRow>): (pos: seq<int>)
    ensures |pos| == |r|
  {
    seq(|r|, i requires 0 <= i < |r| => r[i].dstIdx)
  }

  /** The greatest power of two up to n. */
  method LargestDistance(n: nat) returns (distance: nat, ghost k: nat)
    requires n > 0
    ensures distance == W.Pow2(k) && distance <= n < 2 * distance
  {
    distance, k := 1, 0;
    while 2 * distance <= n
      invariant distance == W.Pow2(k) && distance <= n
      decreases n - distance
    {
      distance, k := 2 * distance, k + 1;
    }
  }

  /** The whole network takes the queue from the front slots to its destinations. */
  method Route(a: array<TRow>, ghost r: seq<TRow>)
    requires a.Length > 0 && Queue(r, a.Length) && Spread(a[..], r, seq(|r|, i => i))
    modifies a
    ensures Spread(a[..], r, Destinations(r))
  {
    var n := a.Length;
    var distance, k := LargestDistance(n);
    NotYetMoved(r, n, 2 * distance);
    while distance >= 1
      invariant distance == 0 || distance == W.Pow2(k)
      invariant distance <= n
      invariant Spread(a[..], r, Slots(if distance == 0 then 1 else 2 * distance, r))
      decreases distance
    {
      Pass(a, distance, r);
      distance, k := distance / 2, if k > 0 then k - 1 else 0;
    }
    AllArrived(r, n);
    assert Slots(1, r) == Destinations(r);
  }

  // ---- Step 4: resize to the output size ----

  function FreshPad(slot: int): TRow {
    TRow(0, DistPadding, -1, 0, 0, 0, 0, 0, -1, slot, [])
  }

  /** The first records of s, then fresh padding, numbered by slot. */
  ghost function Resized(s: seq<TRow>, n: nat): (r: seq<TRow>)
    ensures |r| == n
  {
    seq(n, i requires 0 <= i < n => if i < |s| then s[i].(index := i) else FreshPad(i))
  }

  method Resize(work: array<TRow>, outputSize: nat) returns (arr: array<TRow>)
    ensures fresh(arr) && arr[..] == Resized(work[..], outputSize)
  {
    arr := new TRow[outputSize](_ => FreshPad(0));
    var keep := if work.Length < outputSize then work.Length else outputSize;
    for i := 0 to outputSize
      invariant forall j :: 0 <= j < i ==> arr[j] == Resized(work[..], outputSize)[j]
    {
      arr[i] := if i < keep then work[i].(index := i) else FreshPad(i);
    }
  }

  /** Truncation drops padding only: the queue fits the output slots. */
  lemma ResizedSpread(s: seq<TRow>, m: nat, n: nat)
    requires m <= |s| && Queue(s[..m], n)
    requires forall j :: 0 <= j < |s| ==> (IsReal()(s[j]) <==> j < m)
    ensures m <= n && Spread(Resized(s, n), s[..m], seq(m, i => i))
  {
    var r, pos := s[..m], seq(m, i => i);
    if m > 0 {
      QueueSlack(r, n, m - 1, m - 1);
      QueueFits(r, n, m - 1);
    }
    forall i | 0 <= i < m ensures i in pos {
      assert pos[i] == i;
    }
  }

  // ---- Step 6: fill the padding forward ----

  ghost function FillAt(a: seq<TRow>, s: nat): TRow
    requires s < |a|
  {
    if s == 0 || IsReal()(a[s]) then a[s] else FillAt(a, s - 1).(index := a[s].index)
  }

  method FillForward(a: array<TRow>)
    modifies a
    ensures forall s :: 0 <= s < a.Length ==> a[s] == FillAt(old(a[..]), s)
  {
    ghost var was := a[..];
    var i := 1;
    while i < a.Length
      invariant 1 <= i
      invariant forall s :: 0 <= s < a.Length ==> a[s] == if s < i then FillAt(was, s) else was[s]
    {
      if a[i].fieldType == DistPadding {
        a[i] := a[i - 1].(index := a[i].index);
      }
      i := i + 1;
    }
  }

  lemma {:induction false} QueueGap(r: seq<TRow>, n: nat, i: nat, k: nat)
    requires Queue(r, n) && i < k < |r|
    ensures r[i].dstIdx + r[i].finalMult <= r[k].dstIdx
    decreases k
  {
    assert Linked(r, k - 1);
    if i < k - 1 {
      QueueGap(r, n, i, k - 1);
    }
  }

  /** No destination lies inside the range of a row. */
  lemma InsideRange(r: seq<TRow>, n: nat, k: nat, j: int)
    requires Queue(r, n) && k < |r| && 0 < j < r[k].finalMult
    ensures r[k].dstIdx + j !in Destinations(r)
  {
    forall i | 0 <= i < |r| ensures Destinations(r)[i] != r[k].dstIdx + j {
      if i < k {
        QueueGap(r, n, i, k);
      } else if i > k {
        QueueGap(r, n, k, i);
      }
    }
  }

  /** After the fill, row k owns exactly its range. */
  lemma {:induction false} FillOwner(a: seq<TRow>, r: seq<TRow>, n: nat, k: nat, j: nat)
    requires Queue(r, n) && |a| == n && Spread(a, r, Destinations(r)) && k < |r| && j < r[k].finalMult
    ensures 0 <= r[k].dstIdx && r[k].dstIdx + j < n
    ensures FillAt(a, r[k].dstIdx + j) == r[k].(index := r[k].dstIdx + j)
  {
    QueueSlack(r, n, k, k);
    QueueFits(r, n, k);
    if j == 0 {
      assert Destinations(r)[k] == r[k].dstIdx;
    } else {
      InsideRange(r, n, k, j);
      FillOwner(a, r, n, k, j - 1);
    }
  }

  // ---- The expanded table ----

  lemma SortedFinds(s: seq<TRow>, t: seq<Entry>, o: nat) returns (k: nat)
    requires PlainRows(t) && SortOf(s, Work(t), CmpDistPaddingLast) && o < |t|
    ensures k < |s| && s[k] == Work(t)[o]
  {
    SortOfElements(s, Work(t), CmpDistPaddingLast);
    assert Work(t)[o] in s;
    k :| 0 <= k < |s| && s[k] == Work(t)[o];
  }

  /** The queue has been routed to its destinations in a. */
  ghost predicate Arrived(s: seq<TRow>, a: seq<TRow>) {
    && 0 <= Survivors(s) <= |s|
    && Queue(s[..Survivors(s)], |a|)
    && Spread(a, s[..Survivors(s)], Destinations(s[..Survivors(s)]))
  }

  ghost predicate Filled(out: seq<TRow>, a: seq<TRow>) {
    |out| == |a| && forall i :: 0 <= i < |a| ==> out[i] == FillAt(a, i)
  }

  lemma CopiesInPlace(s: seq<TRow>, t: seq<Entry>, a: seq<TRow>, out: seq<TRow>, o: nat, k: nat)
    requires o < |t| && Counts(t) && t[o].finalMult > 0
    requires Arrived(s, a) && Filled(out, a)
    requires k < Survivors(s) && s[k] == RowOf(t[o], Offset(t, o), 0)
    requires 0 <= Offset(t, o) && Offset(t, o) + t[o].finalMult <= |out|
    ensures HoldsCopies(out, t, o)
  {
    var r := s[..Survivors(s)];
    assert r[k] == s[k];
    var copies := out[Offset(t, o)..Offset(t, o) + t[o].finalMult];
    forall j | 0 <= j < t[o].finalMult ensures copies[j] == CopiesOf(t, o)[j] {
      FillOwner(a, r, |a|, k, j);
      var x := r[k].dstIdx + j;
      assert copies[j] == out[x] == FillAt(a, x);
      assert r[k].(index := x) == RowOf(t[o], Offset(t, o), x);
    }
  }

  lemma OffsetsFit(t: seq<Entry>, o: nat)
    requires Counts(t) && o < |t|
    ensures 0 <= Offset(t, o) && Offset(t, o) + t[o].finalMult <= Offset(t, |t|)
  {
    OffsetMonotone(t, o, |t|);
    OffsetStep(t, o);
    OffsetMonotone(t, o + 1, |t|);
  }

  lemma RowInPlace(s: seq<TRow>, t: seq<Entry>, a: seq<TRow>, out: seq<TRow>, o: nat)
    requires PlainRows(t) && SortOf(s, Work(t), CmpDistPaddingLast) && o < |t|
    requires forall j :: 0 <= j < |s| ==> (IsReal()(s[j]) <==> j < Survivors(s))
    requires Arrived(s, a) && Filled(out, a) && |out| == Offset(t, |t|)
    ensures HoldsCopies(out, t, o)
  {
    OffsetsFit(t, o);
    if t[o].finalMult > 0 {
      var k := SortedFinds(s, t, o);
      assert s[k] == RowOf(t[o], Offset(t, o), 0);
      CopiesInPlace(s, t, a, out, o, k);
    }
  }

  /** The work array sorted padding-last; the ghost result is its content. */
  method SortWork(work: array<TRow>, ghost t: seq<Entry>)
    requires PlainRows(t) && work[..] == Work(t)
    modifies work
    ensures SortOf(work[..], Work(t), CmpDistPaddingLast)
  {
    RowComparatorsOrder();
    OSort(work, CmpDistPaddingLast, T_PAD);
  }

  method SpreadAndFill(work: array<TRow>, outputSize: nat, ghost t: seq<Entry>) returns (out: array<TRow>)
    requires outputSize > 0 && PlainRows(t) && SortOf(work[..], Work(t), CmpDistPaddingLast)
    requires outputSize == Offset(t, |t|)
    ensures fresh(out) && out[..] == Expanded(t, |t|)
  {
    ghost var s := work[..];
    SortedWorkQueue(s, t);
    ghost var r := s[..Survivors(s)];
    out := Resize(work, outputSize);
    ResizedSpread(s, Survivors(s), outputSize);
    Route(out, r);
    ghost var a := out[..];
    FillForward(out);
    forall o | 0 <= o < |t| ensures HoldsCopies(out[..], t, o) {
      RowInPlace(s, t, a, out[..], o);
    }
    CopiesMakeExpanded(out[..], t, |t|);
  }

  /** expand_single_table: the table with every row final_mult times, in row order. */
  method ExpandSingleTable(in_: array<Entry>) returns (out: array<TRow>)
    requires PlainRows(in_[..])
    ensures fresh(out) && out[..] == Expanded(in_[..], in_.Length)
  {
    ghost var t := in_[..];
    var work, outputSize := BuildWork(in_);
    OffsetMonotone(t, in_.Length, in_.Length);
    if outputSize == 0 {
      out := new TRow[0];
    } else {
      MarkPadding(work);
      assert work[..] == Work(t);
      SortWork(work, t);
      out := SpreadAndFill(work, outputSize, t);
    }
  }
}
