/** How large the counters of the join can become: bounds by the sizes of subtree joins and of the whole join. */
module CounterBounds {
  import opened Totals
  import opened Records
  import opened ObliviousSort
  import opened Boundary
  import opened Combined
  import opened BottomUp
  import opened TopDown
  import opened JoinTree
  import opened TrimmedRows
  import opened Distribute
  import opened JoinSpec
  import opened Columns
  import opened NodeTotals
  import opened AlignKeys
  import opened Multiplicities
  import opened Pipeline

  // ---- Sizes ----

  /** What the rows of node k count together. */
  ghost function SubtreeSize(db: seq<seq<Entry>>, k: nat): int
    requires k < |db|
  {
    Total(db[k], LocalMult())
  }

  /** That is the number of join tuples of the node's subtree. */
  lemma SubtreeSizeCounts(tree: seq<JoinNode>, db: seq<seq<Entry>>, k: nat, ps: seq<Tuple>)
    requires Counted(tree, db) && k < |db| && Lists(ps, tree, Data(db), Subtree(tree, k))
    ensures SubtreeSize(db, k) == |ps|
  {
    var one, loc := (t: Tuple) => 1, LocalMult();
    assert Indexed(db[k]);
    PreorderMembers(tree, k);
    forall i | 0 <= i < |ps| ensures one(ps[i]) == Total(db[k], UsedRow(k)(ps[i])) {
      assert ps[i] in ps && Picks(Data(db), Subtree(tree, k), ps[i]);
      UsesOne(db, k, ps[i], |db[k]|);
      assert db[k][..|db[k]|] == db[k];
    }
    forall r | 0 <= r < |db[k]| ensures loc(db[k][r]) == Total(ps, UsersOf(k)(db[k][r])) {
      LocalMultCounts(tree, db, k, r, ps);
      TotalExt(ps, UsersOf(k)(db[k][r]), Ind(Uses(k, r)));
    }
    TotalSwap(ps, db[k], UsedRow(k), UsersOf(k), one, loc);
    TotalConstant(ps, 1, one);
  }

  /** The product of the subtree sizes of the children of node k below m. */
  ghost function ChildSizes(tree: seq<JoinNode>, db: seq<seq<Entry>>, k: nat, m: nat): int
    requires m <= |tree| == |db|
  {
    if m == 0 then 1 else ChildSizes(tree, db, k, m - 1) * if tree[m - 1].parentIdx == k then SubtreeSize(db, m - 1) else 1
  }

  lemma ProductAtMost(a: int, b: int, c: int, d: int)
    requires 0 <= a <= c && 0 <= b <= d
    ensures 0 <= a * b <= c * d
  {
    assert a * b <= c * b <= c * d;
  }

  lemma MatchSumBounded(n: JoinNode, child: seq<Entry>, y: int)
    requires NonNegative(child)
    ensures 0 <= MatchSum(n, child, y) <= Total(child, LocalMult())
  {
    MatchSumNonNegative(n, child, y);
    TotalMonotone(child, MatchedMult(n, y), LocalMult());
  }

  /** local_mult while the children below m are done: at most the product of their subtree sizes. */
  lemma {:induction false} ProductBounded(tree: seq<JoinNode>, db: seq<seq<Entry>>, k: nat, row: seq<int>, m: nat)
    requires m <= |tree| == |db| && forall c :: 0 <= c < m ==> NonNegative(db[c])
    ensures 0 <= ChildProduct(tree, db, k, row, m) <= ChildSizes(tree, db, k, m)
  {
    if m > 0 {
      ProductBounded(tree, db, k, row, m - 1);
      MatchSumBounded(tree[m - 1], db[m - 1], Attr(row, tree[m - 1].parentJoinCol));
      ProductAtMost(ChildProduct(tree, db, k, row, m - 1), Factor(tree, db, k, row, m - 1),
                    ChildSizes(tree, db, k, m - 1), if tree[m - 1].parentIdx == k then SubtreeSize(db, m - 1) else 1);
    }
  }

  // ---- The sweep of the bottom-up phase ----

  lemma SourceTotal(ph: Phase, n: JoinNode, target: seq<Entry>, source: seq<Entry>)
    requires EdgeReady(n, target, source)
    ensures Total(Comb(ph, n, target, source), SourceMult()) == Total(source, LocalMult())
  {
    var src, st, en := Sources(ph, n, source), Starts(ph, n, target), Ends(ph, n, target);
    TotalConcat(src + st, en, SourceMult());
    TotalConcat(src, st, SourceMult());
    TotalZero(st, SourceMult());
    TotalZero(en, SourceMult());
    TotalZip(src, source, SourceMult(), LocalMult());
  }

  /** Every record of the combined array carries the local_mult of a row. */
  lemma CombMult(ph: Phase, n: JoinNode, target: seq<Entry>, source: seq<Entry>, r: SkRec)
    requires EdgeReady(n, target, source) && NonNegative(target) && NonNegative(source) && r in Comb(ph, n, target, source)
    ensures 0 <= r.localMult && (ph == LocalPhase ==> r.acc == r.localMult)
  {
    var c := Comb(ph, n, target, source);
    var i :| 0 <= i < |c| && c[i] == r;
    if i >= |source| + |target| {
      assert r == Ends(ph, n, target)[i - |source| - |target|];
    } else if i >= |source| {
      assert r == Starts(ph, n, target)[i - |source|];
    } else {
      assert r == Sources(ph, n, source)[i];
    }
  }

  /** acc of the bottom-up sweep: what record 0 starts with, and at most all of the child's multiplicities. */
  lemma AccBounded(s: seq<SkRec>, n: JoinNode, parent: seq<Entry>, child: seq<Entry>, i: nat)
    requires EdgeReady(n, parent, child) && SortOf(s, Comb(LocalPhase, n, parent, child), CmpJoinAttr) && i < |s|
    requires NonNegative(parent) && NonNegative(child)
    ensures 0 <= BottomUp.Swept(s)[i].acc <= (if s[0].fieldType == Source then 0 else s[0].localMult) + Total(child, LocalMult())
  {
    SortOfElements(s, Comb(LocalPhase, n, parent, child), CmpJoinAttr);
    forall j | 0 <= j < |s| ensures 0 <= SourceMult()(s[j]) && s[j].acc == s[j].localMult && 0 <= s[j].localMult {
      assert s[j] in s;
      CombMult(LocalPhase, n, parent, child, s[j]);
    }
    SweptAcc(s, i);
    TotalPrefix(s, i + 1, SourceMult());
    TotalPermutation(s, Comb(LocalPhase, n, parent, child), SourceMult());
    SourceTotal(LocalPhase, n, parent, child);
  }

  // ---- The sweep of the top-down phase ----

  ghost function KindMult(ft: FieldType): SkRec -> int {
    (r: SkRec) => if r.fieldType == ft then r.localMult else 0
  }

  lemma KindTotals(n: JoinNode, parent: seq<Entry>, child: seq<Entry>)
    requires TopReady(n, parent, child)
    ensures Total(TdComb(n, parent, child), KindMult(Start)) == Total(child, LocalMult())
    ensures Total(TdComb(n, parent, child), KindMult(End)) == Total(child, LocalMult())
  {
    var rn := Reverse(n);
    var src, st, en := Sources(FinalPhase, rn, parent), Starts(FinalPhase, rn, child), Ends(FinalPhase, rn, child);
    TotalZip(st, child, KindMult(Start), LocalMult());
    TotalZip(en, child, KindMult(End), LocalMult());
    TotalZero(st, KindMult(End));
    TotalZero(en, KindMult(Start));
    forall ft | ft == Start || ft == End
      ensures Total(TdComb(n, parent, child), KindMult(ft)) == Total(st, KindMult(ft)) + Total(en, KindMult(ft))
    {
      TotalConcat(src + st, en, KindMult(ft));
      TotalConcat(src, st, KindMult(ft));
      TotalZero(src, KindMult(ft));
    }
  }

  lemma CoverSplits(s: seq<SkRec>)
    ensures Total(s, CoverMult()) == Total(s, KindMult(Start)) - Total(s, KindMult(End))
  {
    TotalScale(s, -1, KindMult(End), Negated(KindMult(End)));
    TotalAdd(s, KindMult(Start), Negated(KindMult(End)), CoverMult());
  }

  lemma KindPrefix(s: seq<SkRec>, n: JoinNode, parent: seq<Entry>, child: seq<Entry>, k: nat, ft: FieldType)
    requires TopReady(n, parent, child) && SortOf(s, TdComb(n, parent, child), CmpJoinAttr) && k <= |s|
    requires NonNegative(parent) && NonNegative(child)
    ensures 0 <= Total(s[..k], KindMult(ft)) <= Total(TdComb(n, parent, child), KindMult(ft))
  {
    SortOfElements(s, TdComb(n, parent, child), CmpJoinAttr);
    forall j | 0 <= j < |s| ensures 0 <= KindMult(ft)(s[j]) {
      assert s[j] in s;
      CombMult(FinalPhase, Reverse(n), child, parent, s[j]);
    }
    TotalPrefix(s, k, KindMult(ft));
    TotalPermutation(s, TdComb(n, parent, child), KindMult(ft));
  }

  /** The running weight never exceeds the child's multiplicities, on either side of zero. */
  lemma WeightBounded(s: seq<SkRec>, n: JoinNode, parent: seq<Entry>, child: seq<Entry>, i: nat)
    requires TopReady(n, parent, child) && SortOf(s, TdComb(n, parent, child), CmpJoinAttr) && AllKnown(s, Reverse(n), child)
    requires i < |s| && NonNegative(parent) && NonNegative(child)
    ensures -Total(child, LocalMult()) <= RunWeight(s, i) <= Total(child, LocalMult())
  {
    SeedIsRight(s, n, parent, child);
    RunWeightIsTotal(s, i);
    CoverSplits(s[..i + 1]);
    KindPrefix(s, n, parent, child, i + 1, Start);
    KindPrefix(s, n, parent, child, i + 1, End);
    KindTotals(n, parent, child);
  }

  ghost function Negated(f: SkRec -> int): SkRec -> int {
    (r: SkRec) => -f(r)
  }

  lemma AtLeastOnce(q: int, d: int)
    requires 0 <= q && 1 <= d
    ensures q <= d * q
  {
    assert d * q == q + (d - 1) * q;
  }

  /** No share is larger than the final_mult it comes from. */
  lemma QuotientAtMost(x: int, w: int)
    requires 0 <= x && 0 <= w
    ensures 0 <= x / Safe(w) <= x
  {
    AtLeastOnce(x / Safe(w), Safe(w));
  }

  lemma ShareBounded(n: JoinNode, parent: seq<Entry>, child: seq<Entry>, i: nat)
    requires NonNegative(child) && Counts(parent) && i < |parent|
    ensures 0 <= Share(n, child)(parent[i]) <= FinalMult()(parent[i])
  {
    MatchSumNonNegative(n, child, Attr(parent[i].attributes, n.parentJoinCol));
    QuotientAtMost(parent[i].finalMult, MatchSum(n, child, Attr(parent[i].attributes, n.parentJoinCol)));
  }

  lemma SharesTotal(n: JoinNode, parent: seq<Entry>, child: seq<Entry>)
    requires NonNegative(child) && Counts(parent)
    ensures Total(parent, Share(n, child)) <= Total(parent, FinalMult())
  {
    forall i | 0 <= i < |parent| ensures Share(n, child)(parent[i]) <= FinalMult()(parent[i]) {
      ShareBounded(n, parent, child, i);
    }
    TotalMonotone(parent, Share(n, child), FinalMult());
  }

  lemma ShareRecTotal(n: JoinNode, parent: seq<Entry>, child: seq<Entry>)
    requires TopReady(n, parent, child)
    ensures Total(TdComb(n, parent, child), ShareRec(n, child)) == Total(parent, Share(n, child))
  {
    var rn := Reverse(n);
    var src, st, en := Sources(FinalPhase, rn, parent), Starts(FinalPhase, rn, child), Ends(FinalPhase, rn, child);
    TotalConcat(src + st, en, ShareRec(n, child));
    TotalConcat(src, st, ShareRec(n, child));
    TotalZero(st, ShareRec(n, child));
    TotalZero(en, ShareRec(n, child));
    TotalZip(src, parent, ShareRec(n, child), Share(n, child));
  }

  lemma RecShareNotNegative(n: JoinNode, parent: seq<Entry>, child: seq<Entry>, r: SkRec)
    requires TopReady(n, parent, child) && NonNegative(child) && Counts(parent) && r in TdComb(n, parent, child)
    ensures 0 <= ShareRec(n, child)(r)
  {
    if r.fieldType == Source {
      CombSource(n, parent, child, r);
      ShareBounded(n, parent, child, r.originalIndex);
    }
  }

  lemma SharePrefix(s: seq<SkRec>, n: JoinNode, parent: seq<Entry>, child: seq<Entry>, k: nat)
    requires TopReady(n, parent, child) && SortOf(s, TdComb(n, parent, child), CmpJoinAttr) && k <= |s|
    requires NonNegative(child) && Counts(parent)
    ensures 0 <= Total(s[..k], ShareRec(n, child)) <= Total(parent, FinalMult())
  {
    SortOfElements(s, TdComb(n, parent, child), CmpJoinAttr);
    forall j | 0 <= j < |s| ensures 0 <= ShareRec(n, child)(s[j]) {
      assert s[j] in s;
      RecShareNotNegative(n, parent, child, s[j]);
    }
    TotalPrefix(s, k, ShareRec(n, child));
    TotalPermutation(s, TdComb(n, parent, child), ShareRec(n, child));
    ShareRecTotal(n, parent, child);
    SharesTotal(n, parent, child);
  }

  /** acc of the top-down sweep: at most what the parent's rows have to share. */
  lemma SharesBounded(s: seq<SkRec>, n: JoinNode, parent: seq<Entry>, child: seq<Entry>, i: nat)
    requires TopReady(n, parent, child) && SortOf(s, TdComb(n, parent, child), CmpJoinAttr) && AllKnown(s, Reverse(n), child)
    requires i < |s| && NonNegative(child) && Counts(parent)
    ensures 0 <= RunAcc(s, i) <= Total(parent, FinalMult())
  {
    SharePrefix(s, n, parent, child, i + 1);
    RunAccIsTotal(s, n, parent, child, i);
  }

  // ---- Ranges of groups ----

  /** The groups of a child row end before the size of the join. */
  lemma GroupsBounded(n: JoinNode, parent: seq<Entry>, child: seq<Entry>, x: int)
    requires ValidBand(n) && NonNegative(child) && Counts(parent)
    ensures 0 <= EarlierShares(n, parent, child, x) && 0 <= JoinedShares(n, parent, child, x)
    ensures EarlierShares(n, parent, child, x) + JoinedShares(n, parent, child, x) <= Total(parent, FinalMult())
  {
    var rn := Reverse(n);
    var sh := Share(n, child);
    forall i | 0 <= i < |parent|
      ensures 0 <= UpTo(rn, sh, x, Start)(parent[i]) && 0 <= Inside(rn, sh, x)(parent[i])
      ensures Either(UpTo(rn, sh, x, Start), Inside(rn, sh, x))(parent[i]) <= FinalMult()(parent[i])
    {
      ShareBounded(n, parent, child, i);
      ReversedBand(n, x, Attr(parent[i].attributes, n.parentJoinCol));
      BandSides(rn, Attr(parent[i].attributes, n.parentJoinCol), x);
    }
    TotalNonNegative(parent, UpTo(rn, sh, x, Start));
    TotalNonNegative(parent, Inside(rn, sh, x));
    TotalAdd(parent, UpTo(rn, sh, x, Start), Inside(rn, sh, x), Either(UpTo(rn, sh, x, Start), Inside(rn, sh, x)));
    TotalMonotone(parent, Either(UpTo(rn, sh, x, Start), Inside(rn, sh, x)), FinalMult());
  }

  ghost function Either(f: Entry -> int, g: Entry -> int): Entry -> int {
    (e: Entry) => f(e) + g(e)
  }

  // ---- All counters ----

  const INT32_MAX := 0x7FFF_FFFF

  /**
   * What a caller has to know: no product of the subtree sizes of some children of a node is too large, not even together
   * with the subtree size of the next child, and neither is the join.
   */
  ghost predicate SizesFit(tree: seq<JoinNode>, db: seq<seq<Entry>>)
    requires TreeOk(tree) && |db| == |tree|
  {
    && (forall k: nat, m: nat :: k < |tree| && m <= |tree| ==> ChildSizes(tree, db, k, m) <= INT32_MAX)
    && (forall c :: IsEdge(tree, c) ==> ChildSizes(tree, db, Parent(tree, c), c) + SubtreeSize(db, c) <= INT32_MAX)
    && SubtreeSize(db, |tree| - 1) <= INT32_MAX
  }

  /** The size of the whole join, as every table adds it up. */
  lemma JoinSize(tree: seq<JoinNode>, db: seq<seq<Entry>>, k: nat)
    requires Counted(tree, db) && k < |tree|
    ensures Total(db[k], FinalMult()) == SubtreeSize(db, |tree| - 1)
  {
    var p := RootOrder(tree);
    var ts := BalancedListing(tree, db, |p|);
    assert p[..|p|] == p;
    RootOrderAll(tree);
    AllAttached(ts, tree, Data(db), Members(p));
    FinalMultsAddUp(tree, db, k, ts);
    FinalMultsAddUp(tree, db, |tree| - 1, ts);
    RootMults(tree, db);
  }

  lemma RootMults(tree: seq<JoinNode>, db: seq<seq<Entry>>)
    requires Counted(tree, db)
    ensures Total(db[|tree| - 1], FinalMult()) == SubtreeSize(db, |tree| - 1)
  {
    var m := |tree| - 1;
    assert NodeFinal(tree, db, m);
    forall i | 0 <= i < |db[m]| ensures FinalMult()(db[m][i]) == LocalMult()(db[m][i]) {
      assert RowFinal(tree, db, m, db[m][i]);
    }
    TotalExt(db[m], FinalMult(), LocalMult());
  }

  /** Bottom-up: local_mult of every row at every stage, and acc and interval at every record of the edge's sweep. */
  lemma BottomUpFits(tree: seq<JoinNode>, db: seq<seq<Entry>>, c: nat, k: nat, row: seq<int>, m: nat)
    requires Counted(tree, db) && SizesFit(tree, db) && k < |tree| && m <= |tree| && IsEdge(tree, c)
    ensures 0 <= ChildProduct(tree, db, k, row, m) <= INT32_MAX
    ensures 0 <= MatchSum(tree[c], db[c], Attr(row, tree[c].parentJoinCol)) <= INT32_MAX
  {
    LocalNonNegative(tree, db, |db|);
    ProductBounded(tree, db, k, row, m);
    MatchSumBounded(tree[c], db[c], Attr(row, tree[c].parentJoinCol));
    ChildSizesNotNegative(tree, db, Parent(tree, c), c);
  }

  lemma {:induction false} ChildSizesNotNegative(tree: seq<JoinNode>, db: seq<seq<Entry>>, k: nat, m: nat)
    requires m <= |tree| == |db| && forall c :: 0 <= c < |db| ==> NonNegative(db[c])
    ensures 0 <= ChildSizes(tree, db, k, m)
  {
    ProductBounded(tree, db, k, [], m);
  }

  /** parent holds what its rows count before the edge above c is swept. */
  ghost predicate BeforeEdge(tree: seq<JoinNode>, db: seq<seq<Entry>>, c: nat, parent: seq<Entry>)
    requires TreeOk(tree) && |db| == |tree| && IsEdge(tree, c)
  {
    forall i :: 0 <= i < |parent| ==> parent[i].localMult == ChildProduct(tree, db, Parent(tree, c), parent[i].attributes, c)
  }

  lemma FirstMult(s: seq<SkRec>, n: JoinNode, parent: seq<Entry>, child: seq<Entry>) returns (k: nat)
    requires EdgeReady(n, parent, child) && SortOf(s, Comb(LocalPhase, n, parent, child), CmpJoinAttr) && s != [] && s[0].fieldType != Source
    ensures k < |parent| && s[0].localMult == parent[k].localMult
  {
    SortOfElements(s, Comb(LocalPhase, n, parent, child), CmpJoinAttr);
    assert s[0] in s;
    var c := Comb(LocalPhase, n, parent, child);
    var i :| 0 <= i < |c| && c[i] == s[0];
    if i >= |child| + |parent| {
      k := i - |child| - |parent|;
      assert s[0] == Ends(LocalPhase, n, parent)[k];
    } else {
      assert i >= |child|;
      k := i - |child|;
      assert s[0] == Starts(LocalPhase, n, parent)[k];
    }
  }

  lemma BottomUpSweepFits(tree: seq<JoinNode>, db: seq<seq<Entry>>, c: nat, parent: seq<Entry>, s: seq<SkRec>, i: nat)
    requires Counted(tree, db) && SizesFit(tree, db) && IsEdge(tree, c) && BeforeEdge(tree, db, c, parent)
    requires EdgeReady(tree[c], parent, db[c]) && SortOf(s, Comb(LocalPhase, tree[c], parent, db[c]), CmpJoinAttr) && i < |s|
    ensures 0 <= BottomUp.Swept(s)[i].acc <= INT32_MAX
  {
    LocalNonNegative(tree, db, |db|);
    forall j | 0 <= j < |parent| ensures 0 <= parent[j].localMult <= ChildSizes(tree, db, Parent(tree, c), c) {
      ProductBounded(tree, db, Parent(tree, c), parent[j].attributes, c);
    }
    AccBounded(s, tree[c], parent, db[c], i);
    ChildSizesNotNegative(tree, db, Parent(tree, c), c);
    if s[0].fieldType != Source {
      var k := FirstMult(s, tree[c], parent, db[c]);
    }
  }

  /** Top-down: the running weight and acc at every record of an edge's sweep. */
  lemma TopDownSweepFits(tree: seq<JoinNode>, db: seq<seq<Entry>>, c: nat, s: seq<SkRec>, i: nat)
    requires Counted(tree, db) && SizesFit(tree, db) && IsEdge(tree, c) && TopReady(tree[c], db[Parent(tree, c)], db[c])
    requires SortOf(s, TdComb(tree[c], db[Parent(tree, c)], db[c]), CmpJoinAttr) && i < |s|
    ensures -INT32_MAX <= RunWeight(s, i) <= INT32_MAX && 0 <= RunAcc(s, i) <= INT32_MAX
  {
    var p := Parent(tree, c);
    LocalNonNegative(tree, db, |db|);
    FinalNotNegative(tree, db, p);
    SortedKnown(FinalPhase, s, Reverse(tree[c]), db[c], db[p]);
    WeightBounded(s, tree[c], db[p], db[c], i);
    SharesBounded(s, tree[c], db[p], db[c], i);
    JoinSize(tree, db, p);
    ChildSizesNotNegative(tree, db, p, c);
  }

  /** final_mult and foreign_sum of every row, and the end of its groups. */
  lemma RowFits(tree: seq<JoinNode>, db: seq<seq<Entry>>, k: nat, i: nat)
    requires Counted(tree, db) && SizesFit(tree, db) && k < |tree| && i < |db[k]|
    ensures 0 <= db[k][i].finalMult <= INT32_MAX && 0 <= db[k][i].foreignSum <= INT32_MAX
    ensures IsEdge(tree, k) ==>
      db[k][i].foreignSum + JoinedShares(tree[k], db[Parent(tree, k)], db[k], Attr(db[k][i].attributes, tree[k].joinCol)) <= INT32_MAX
  {
    FinalNotNegative(tree, db, k);
    TotalAtLeast(db[k], FinalMult(), i);
    JoinSize(tree, db, k);
    assert NodeFinal(tree, db, k) && RowFinal(tree, db, k, db[k][i]);
    if IsEdge(tree, k) {
      var p := Parent(tree, k);
      LocalNonNegative(tree, db, |db|);
      FinalNotNegative(tree, db, p);
      GroupsBounded(tree[k], db[p], db[k], Attr(db[k][i].attributes, tree[k].joinCol));
      JoinSize(tree, db, p);
    }
  }

  /** dst_idx and every slot number of distribute-expand. */
  lemma SlotsFit(tree: seq<JoinNode>, db: seq<seq<Entry>>, k: nat, i: nat)
    requires Counted(tree, db) && SizesFit(tree, db) && k < |tree| && i <= |db[k]|
    ensures 0 <= Offset(db[k], i) <= Offset(db[k], |db[k]|) <= INT32_MAX
  {
    FinalNotNegative(tree, db, k);
    OffsetMonotone(db[k], i, |db[k]|);
    assert db[k][..|db[k]|] == db[k];
    JoinSize(tree, db, k);
  }

  /** copy_index and alignment_key of every copy of a row. */
  lemma KeysFit(tree: seq<JoinNode>, db: seq<seq<Entry>>, k: nat, i: nat, j: nat)
    requires Counted(tree, db) && SizesFit(tree, db) && IsEdge(tree, k) && i < |db[k]| && j < db[k][i].finalMult
    ensures j <= INT32_MAX && 0 <= db[k][i].foreignSum + j / Safe(db[k][i].localMult) <= INT32_MAX
  {
    var e := db[k][i];
    RowFits(tree, db, k, i);
    LocalNonNegative(tree, db, |db|);
    assert NodeFinal(tree, db, k) && RowFinal(tree, db, k, e);
    var p := Parent(tree, k);
    FinalNotNegative(tree, db, p);
    GroupsBounded(tree[k], db[p], db[k], Attr(e.attributes, tree[k].joinCol));
    QuotientBelow(JoinedShares(tree[k], db[p], db[k], Attr(e.attributes, tree[k].joinCol)), e.localMult, j);
  }
}
