/** The serialised join tree over annotated tables, and the equations that the two counting phases establish. */
module JoinTree {
  import opened Totals
  import opened Records
  import opened Combined
  import opened BottomUp
  import opened TopDown

  /** Children before parents, one root at the end, every table at one node. */
  ghost predicate TreeOk(tree: seq<JoinNode>) {
    && |tree| > 0
    && tree[|tree| - 1].parentIdx < 0
    && (forall k :: 0 <= k < |tree| - 1 ==> k < tree[k].parentIdx < |tree| && ValidBand(tree[k]))
    && (forall j, k :: 0 <= j < k < |tree| ==> tree[j].tableIdx != tree[k].tableIdx)
  }

  ghost predicate IsEdge(tree: seq<JoinNode>, k: int) {
    0 <= k < |tree| - 1
  }

  ghost function Parent(tree: seq<JoinNode>, k: nat): (p: nat)
    requires TreeOk(tree) && IsEdge(tree, k)
    ensures k < p < |tree|
  {
    tree[k].parentIdx
  }

  /** Tables by tree node; the join columns hold values in the safe range. */
  ghost predicate InputOk(tree: seq<JoinNode>, db: seq<seq<Entry>>) {
    && TreeOk(tree) && |db| == |tree|
    && (forall k :: IsEdge(tree, k) ==>
        SafeColumn(db[k], tree[k].joinCol) && SafeColumn(db[Parent(tree, k)], tree[k].parentJoinCol))
  }

  ghost predicate AllIndexed(db: seq<seq<Entry>>) {
    forall k :: 0 <= k < |db| ==> Indexed(db[k])
  }

  /** Same rows up to the multiplicities. */
  ghost predicate SameRows(s: seq<Entry>, t: seq<Entry>) {
    && |s| == |t|
    && forall i :: 0 <= i < |s| ==> s[i].attributes == t[i].attributes && s[i].originalIndex == t[i].originalIndex
                                    && s[i].fieldType == t[i].fieldType
  }

  ghost predicate SameTables(a: seq<seq<Entry>>, b: seq<seq<Entry>>) {
    |a| == |b| && forall k :: 0 <= k < |a| ==> SameRows(a[k], b[k])
  }

  lemma SameTablesOk(tree: seq<JoinNode>, a: seq<seq<Entry>>, b: seq<seq<Entry>>)
    requires InputOk(tree, a) && AllIndexed(a) && SameTables(a, b)
    ensures InputOk(tree, b) && AllIndexed(b)
  {
    forall k | IsEdge(tree, k)
      ensures SafeColumn(b[k], tree[k].joinCol) && SafeColumn(b[Parent(tree, k)], tree[k].parentJoinCol)
    {
      assert SameRows(a[k], b[k]) && SameRows(a[Parent(tree, k)], b[Parent(tree, k)]);
    }
    forall k | 0 <= k < |b| ensures Indexed(b[k]) {
      assert Indexed(a[k]) && SameRows(a[k], b[k]);
    }
  }

  // ---- Local multiplicities ----

  /** The match sum that node c contributes to a row of node k: 1 when c is not a child of k. */
  ghost function Factor(tree: seq<JoinNode>, db: seq<seq<Entry>>, k: nat, row: seq<int>, c: nat): int
    requires c < |tree| == |db|
  {
    if tree[c].parentIdx == k then MatchSum(tree[c], db[c], Attr(row, tree[c].parentJoinCol)) else 1
  }

  /** The product of the match sums that the first m nodes contribute to a row of node k. */
  ghost function ChildProduct(tree: seq<JoinNode>, db: seq<seq<Entry>>, k: nat, row: seq<int>, m: nat): int
    requires m <= |tree| == |db|
  {
    if m == 0 then 1 else ChildProduct(tree, db, k, row, m - 1) * Factor(tree, db, k, row, m - 1)
  }

  ghost predicate LocalUpTo(tree: seq<JoinNode>, db: seq<seq<Entry>>, n: nat)
    requires n <= |tree| == |db|
  {
    forall k, i :: 0 <= k < |db| && 0 <= i < |db[k]| ==>
      db[k][i].localMult == ChildProduct(tree, db, k, db[k][i].attributes, if k < n then k else n)
  }

  /** local_mult of every row is the product of its children's match sums. */
  ghost predicate LocalOk(tree: seq<JoinNode>, db: seq<seq<Entry>>) {
    |db| == |tree| && LocalUpTo(tree, db, |tree|)
  }

  lemma {:induction false} ChildProductSame(tree: seq<JoinNode>, a: seq<seq<Entry>>, b: seq<seq<Entry>>, k: nat, row: seq<int>, m: nat)
    requires m <= |tree| == |a| == |b|
    requires forall c :: 0 <= c < m ==> a[c] == b[c]
    ensures ChildProduct(tree, a, k, row, m) == ChildProduct(tree, b, k, row, m)
  {
    if m > 0 {
      ChildProductSame(tree, a, b, k, row, m - 1);
    }
  }

  ghost function ApplyLocal(tree: seq<JoinNode>, db: seq<seq<Entry>>, n: nat): (r: seq<seq<Entry>>)
    requires TreeOk(tree) && |db| == |tree| && IsEdge(tree, n)
  {
    var p := Parent(tree, n);
    db[p := EdgeLocal(tree[n], db[p], db[n])]
  }

  lemma ApplyLocalAt(tree: seq<JoinNode>, db: seq<seq<Entry>>, n: nat, i: nat)
    requires TreeOk(tree) && |db| == |tree| && IsEdge(tree, n) && LocalUpTo(tree, db, n)
    requires i < |db[Parent(tree, n)]|
    ensures var p := Parent(tree, n); var e := ApplyLocal(tree, db, n)[p][i];
      e.localMult == ChildProduct(tree, db, p, e.attributes, n + 1)
  {
    var p := Parent(tree, n);
    var e := db[p][i];
    assert e.localMult == ChildProduct(tree, db, p, e.attributes, n);
    assert EdgeLocal(tree[n], db[p], db[n])[i].localMult
        == e.localMult * MatchSum(tree[n], db[n], Attr(e.attributes, tree[n].parentJoinCol));
  }

  lemma ApplyLocalStep(tree: seq<JoinNode>, db: seq<seq<Entry>>, n: nat)
    requires TreeOk(tree) && |db| == |tree| && IsEdge(tree, n) && LocalUpTo(tree, db, n)
    ensures LocalUpTo(tree, ApplyLocal(tree, db, n), n + 1)
    ensures SameTables(db, ApplyLocal(tree, db, n))
  {
    var p := Parent(tree, n);
    var d: seq<seq<Entry>> := ApplyLocal(tree, db, n);
    forall k, i | 0 <= k < |d| && 0 <= i < |d[k]|
      ensures d[k][i].localMult == ChildProduct(tree, d, k, d[k][i].attributes, if k < n + 1 then k else n + 1)
    {
      var m := if k < n + 1 then k else n + 1;
      ChildProductSame(tree, db, d, k, d[k][i].attributes, m);
      if k == p {
        ApplyLocalAt(tree, db, n, i);
      } else {
        assert db[k][i].localMult == ChildProduct(tree, db, k, db[k][i].attributes, if k < n then k else n);
        if k > n {
          assert tree[n].parentIdx != k;
        }
      }
    }
  }

  // ---- Multiplicities are counts ----

  ghost predicate NonNegative(t: seq<Entry>) {
    forall i :: 0 <= i < |t| ==> 0 <= t[i].localMult
  }

  lemma MatchSumNonNegative(n: JoinNode, child: seq<Entry>, y: int)
    requires NonNegative(child)
    ensures 0 <= MatchSum(n, child, y)
  {
    TotalNonNegative(child, MatchedMult(n, y));
  }

  lemma {:induction false} ProductNonNegative(tree: seq<JoinNode>, db: seq<seq<Entry>>, k: nat, row: seq<int>, m: nat)
    requires m <= |tree| == |db|
    requires forall c :: 0 <= c < m ==> NonNegative(db[c])
    ensures 0 <= ChildProduct(tree, db, k, row, m)
  {
    if m > 0 {
      ProductNonNegative(tree, db, k, row, m - 1);
      if tree[m - 1].parentIdx == k {
        MatchSumNonNegative(tree[m - 1], db[m - 1], Attr(row, tree[m - 1].parentJoinCol));
      }
    }
  }

  lemma {:induction false} LocalNonNegative(tree: seq<JoinNode>, db: seq<seq<Entry>>, n: nat)
    requires LocalOk(tree, db) && n <= |db|
    ensures forall k :: 0 <= k < n ==> NonNegative(db[k])
  {
    if n > 0 {
      var k := n - 1;
      LocalNonNegative(tree, db, k);
      forall i | 0 <= i < |db[k]| ensures 0 <= db[k][i].localMult {
        ProductNonNegative(tree, db, k, db[k][i].attributes, k);
      }
    }
  }

  lemma {:induction false} ProductOfZero(tree: seq<JoinNode>, db: seq<seq<Entry>>, k: nat, row: seq<int>, m: nat, c: nat)
    requires c < m <= |tree| == |db| && Factor(tree, db, k, row, c) == 0
    ensures ChildProduct(tree, db, k, row, m) == 0
  {
    if c < m - 1 {
      ProductOfZero(tree, db, k, row, m - 1, c);
    }
  }

  /** A row without partners in one child has local multiplicity zero. */
  lemma UnmatchedIsZero(tree: seq<JoinNode>, db: seq<seq<Entry>>, c: nat, i: nat)
    requires TreeOk(tree) && LocalOk(tree, db) && IsEdge(tree, c) && i < |db[Parent(tree, c)]|
    requires MatchSum(tree[c], db[c], Attr(db[Parent(tree, c)][i].attributes, tree[c].parentJoinCol)) == 0
    ensures db[Parent(tree, c)][i].localMult == 0
  {
    var p := Parent(tree, c);
    ProductOfZero(tree, db, p, db[p][i].attributes, p, c);
  }

  // ---- Final multiplicities ----

  /** The equations of node k: the root starts from its local multiplicities, the others get their parents' shares. */
  ghost predicate NodeFinal(tree: seq<JoinNode>, db: seq<seq<Entry>>, k: nat)
    requires TreeOk(tree) && |db| == |tree| && k < |tree|
  {
    forall i :: 0 <= i < |db[k]| ==> RowFinal(tree, db, k, db[k][i])
  }

  ghost predicate RowFinal(tree: seq<JoinNode>, db: seq<seq<Entry>>, k: nat, e: Entry)
    requires TreeOk(tree) && |db| == |tree| && k < |tree|
  {
    if k == |tree| - 1 then e.finalMult == e.localMult && e.foreignSum == 0
    else
      var n := tree[k];
      var p := Parent(tree, k);
      && e.finalMult == JoinedShares(n, db[p], db[k], Attr(e.attributes, n.joinCol)) * e.localMult
      && e.foreignSum == EarlierShares(n, db[p], db[k], Attr(e.attributes, n.joinCol))
  }

  ghost predicate FinalFrom(tree: seq<JoinNode>, db: seq<seq<Entry>>, m: nat) {
    && TreeOk(tree) && |db| == |tree|
    && forall k :: m <= k < |tree| ==> NodeFinal(tree, db, k)
  }

  /** Same rows with the same local multiplicities. */
  ghost predicate SameLocal(s: seq<Entry>, t: seq<Entry>) {
    SameRows(s, t) && forall i :: 0 <= i < |s| ==> s[i].localMult == t[i].localMult
  }

  lemma MatchSumSame(n: JoinNode, s: seq<Entry>, t: seq<Entry>, y: int)
    requires SameLocal(s, t)
    ensures MatchSum(n, s, y) == MatchSum(n, t, y)
  {
    TotalZip(s, t, MatchedMult(n, y), MatchedMult(n, y));
  }

  lemma ShareSame(n: JoinNode, s: seq<Entry>, t: seq<Entry>, e: Entry)
    requires SameLocal(s, t)
    ensures Share(n, s)(e) == Share(n, t)(e)
  {
    MatchSumSame(n, s, t, Attr(e.attributes, n.parentJoinCol));
  }

  lemma SharesSame(n: JoinNode, parent: seq<Entry>, s: seq<Entry>, t: seq<Entry>, x: int)
    requires SameLocal(s, t)
    ensures JoinedShares(n, parent, s, x) == JoinedShares(n, parent, t, x)
    ensures EarlierShares(n, parent, s, x) == EarlierShares(n, parent, t, x)
  {
    var rn := Reverse(n);
    forall i | 0 <= i < |parent| ensures Share(n, s)(parent[i]) == Share(n, t)(parent[i]) {
      ShareSame(n, s, t, parent[i]);
    }
    TotalExt(parent, Inside(rn, Share(n, s), x), Inside(rn, Share(n, t), x));
    TotalExt(parent, UpTo(rn, Share(n, s), x, Start), UpTo(rn, Share(n, t), x, Start));
  }

  ghost function ApplyFinal(tree: seq<JoinNode>, db: seq<seq<Entry>>, k: nat): (r: seq<seq<Entry>>)
    requires TreeOk(tree) && |db| == |tree| && IsEdge(tree, k)
    ensures |r| == |db|
  {
    db[k := EdgeFinal(tree[k], db[Parent(tree, k)], db[k])]
  }

  lemma EdgeFinalSame(n: JoinNode, parent: seq<Entry>, child: seq<Entry>)
    ensures SameLocal(child, EdgeFinal(n, parent, child))
  {
  }

  lemma {:induction false} ProductSame(tree: seq<JoinNode>, a: seq<seq<Entry>>, b: seq<seq<Entry>>, k: nat, row: seq<int>, m: nat)
    requires m <= |tree| == |a| == |b|
    requires forall c :: 0 <= c < m ==> SameLocal(a[c], b[c])
    ensures ChildProduct(tree, a, k, row, m) == ChildProduct(tree, b, k, row, m)
  {
    if m > 0 {
      ProductSame(tree, a, b, k, row, m - 1);
      MatchSumSame(tree[m - 1], a[m - 1], b[m - 1], Attr(row, tree[m - 1].parentJoinCol));
    }
  }

  lemma LocalSame(tree: seq<JoinNode>, a: seq<seq<Entry>>, b: seq<seq<Entry>>)
    requires LocalOk(tree, a) && |b| == |a| && forall c :: 0 <= c < |a| ==> SameLocal(a[c], b[c])
    ensures LocalOk(tree, b) && SameTables(a, b)
  {
    forall k, i | 0 <= k < |b| && 0 <= i < |b[k]|
      ensures b[k][i].localMult == ChildProduct(tree, b, k, b[k][i].attributes, k)
    {
      assert SameLocal(a[k], b[k]);
      assert a[k][i].localMult == ChildProduct(tree, a, k, a[k][i].attributes, k);
      ProductSame(tree, a, b, k, a[k][i].attributes, k);
    }
  }

  lemma ApplyFinalStep(tree: seq<JoinNode>, db: seq<seq<Entry>>, k: nat)
    requires FinalFrom(tree, db, k + 1) && IsEdge(tree, k)
    ensures FinalFrom(tree, ApplyFinal(tree, db, k), k)
  {
    var d := ApplyFinal(tree, db, k);
    var n, p := tree[k], Parent(tree, k);
    EdgeFinalSame(n, db[p], db[k]);
    forall i | 0 <= i < |d[k]| ensures RowFinal(tree, d, k, d[k][i]) {
      SharesSame(n, db[p], db[k], d[k], Attr(d[k][i].attributes, n.joinCol));
    }
    forall j | k < j < |tree| ensures NodeFinal(tree, d, j) {
      assert NodeFinal(tree, db, j);
      forall i | 0 <= i < |d[j]| ensures RowFinal(tree, d, j, d[j][i]) {
        assert RowFinal(tree, db, j, db[j][i]);
      }
    }
  }

  /** Before an edge is processed top-down, its parent rows without partners have nothing to share. */
  lemma TopReadyAt(tree: seq<JoinNode>, db: seq<seq<Entry>>, k: nat)
    requires InputOk(tree, db) && AllIndexed(db) && LocalOk(tree, db) && FinalFrom(tree, db, k + 1) && IsEdge(tree, k)
    ensures TopReady(tree[k], db[Parent(tree, k)], db[k])
  {
    var n, p := tree[k], Parent(tree, k);
    ReversedBand(n, 0, 0);
    assert Indexed(db[p]) && Indexed(db[k]);
    forall i | 0 <= i < |db[p]| && MatchSum(n, db[k], Attr(db[p][i].attributes, n.parentJoinCol)) == 0
      ensures db[p][i].localMult == 0 && db[p][i].finalMult == 0
    {
      UnmatchedIsZero(tree, db, k, i);
      assert NodeFinal(tree, db, p) && RowFinal(tree, db, p, db[p][i]);
    }
  }

  /** What the counting phases leave on the tables. */
  ghost predicate Counted(tree: seq<JoinNode>, db: seq<seq<Entry>>) {
    InputOk(tree, db) && AllIndexed(db) && LocalOk(tree, db) && FinalFrom(tree, db, 0)
  }
}
