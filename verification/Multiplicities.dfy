/** What the two counting phases count: join tuples of the subtree below a row, and of the whole tree through a row. */
module Multiplicities {
  import opened Totals
  import opened Records
  import opened JoinTree
  import opened JoinSpec
  import opened Weights
  import opened NodeTotals
  import opened Columns
  import opened WholeJoin
  import opened Distribute

  /** The tuples that use row r of node a. */
  ghost function Uses(a: nat, r: nat): Tuple -> bool {
    (t: Tuple) => a in t && t[a] == r
  }

  /** node and every node below it. */
  ghost function Subtree(tree: seq<JoinNode>, node: nat): set<nat>
    requires TreeOk(tree) && node < |tree|
  {
    Members(Preorder(tree, node))
  }

  // ---- Extending along the pre-order ----

  lemma PrefixHas(s: seq<nat>, i: nat, x: nat)
    requires i <= |s| && x in s[..i]
    ensures exists j :: 0 <= j < i && s[j] == x
  {
    var j :| 0 <= j < i && s[..i][j] == x;
    assert s[j] == x;
  }

  lemma PrefixGrows(s: seq<nat>, i: nat)
    requires i < |s|
    ensures Members(s[..i + 1]) == Members(s[..i]) + {s[i]}
  {
    assert s[..i + 1] == s[..i] + [s[i]];
  }

  /** The next node of a pre-order hangs below the nodes before it. */
  lemma PreorderAttaches(tree: seq<JoinNode>, node: nat, i: nat)
    requires TreeOk(tree) && node < |tree| && 0 < i < |Preorder(tree, node)|
    ensures var p := Preorder(tree, node); Attaches(tree, Members(p[..i]), p[i])
  {
    var p := Preorder(tree, node);
    PreorderOrdered(tree, node);
    PreorderOnce(tree, node);
    forall x | x in p[..i] ensures x != p[i] {
      PrefixHas(p, i, x);
    }
    forall d | d in p[..i] && IsEdge(tree, d) ensures Parent(tree, d) != p[i] {
      ParentBefore(tree, node, i, d);
    }
  }

  lemma ParentBefore(tree: seq<JoinNode>, node: nat, i: nat, d: nat)
    requires TreeOk(tree) && node < |tree| && 0 < i < |Preorder(tree, node)|
    requires d in Preorder(tree, node)[..i] && IsEdge(tree, d)
    ensures Parent(tree, d) != Preorder(tree, node)[i]
  {
    var p := Preorder(tree, node);
    PreorderOrdered(tree, node);
    PreorderOnce(tree, node);
    PrefixHas(p, i, d);
    var j :| 0 <= j < i && p[j] == d;
    if j == 0 {
      PreorderMembers(tree, node);
      assert p[i] in p;
    } else {
      PrefixHas(p, j, Parent(tree, d));
    }
  }

  // ---- Local multiplicities ----

  lemma SingleTotal(tree: seq<JoinNode>, db: seq<seq<Entry>>, node: nat, r: nat)
    requires TreeOk(tree) && LocalOk(tree, db) && node < |tree| && r < |db[node]|
    ensures Total(RootTuples(node, |db[node]|), WeightAt(tree, db, node, r)) == db[node][r].localMult
  {
    RootTotal(node, |db[node]|, r, WeightAt(tree, db, node, r));
    SingleWeight(tree, db, node, r);
  }

  /** Listing a subtree node by node keeps the weight at its top rows. */
  lemma {:induction false} SubtreeListing(tree: seq<JoinNode>, db: seq<seq<Entry>>, node: nat, i: nat) returns (ts: seq<Tuple>)
    requires TreeOk(tree) && LocalOk(tree, db) && node < |tree| && 0 < i <= |Preorder(tree, node)|
    ensures Lists(ts, tree, Data(db), Members(Preorder(tree, node)[..i]))
    ensures forall r: nat :: r < |db[node]| ==> Total(ts, WeightAt(tree, db, node, r)) == db[node][r].localMult
  {
    var p := Preorder(tree, node);
    PreorderOrdered(tree, node);
    if i == 1 {
      ts := RootTuples(node, |db[node]|);
      RootLists(tree, Data(db), node);
      assert Members(p[..1]) == {node};
      forall r: nat | r < |db[node]| ensures Total(ts, WeightAt(tree, db, node, r)) == db[node][r].localMult {
        SingleTotal(tree, db, node, r);
      }
    } else {
      var us := SubtreeListing(tree, db, node, i - 1);
      ts := SubtreeStep(tree, db, node, i - 1, us);
    }
  }

  lemma SubtreeStep(tree: seq<JoinNode>, db: seq<seq<Entry>>, node: nat, i: nat, us: seq<Tuple>) returns (ts: seq<Tuple>)
    requires TreeOk(tree) && LocalOk(tree, db) && node < |tree| && 0 < i < |Preorder(tree, node)|
    requires Lists(us, tree, Data(db), Members(Preorder(tree, node)[..i]))
    ensures Lists(ts, tree, Data(db), Members(Preorder(tree, node)[..i + 1]))
    ensures forall r: nat :: Total(ts, WeightAt(tree, db, node, r)) == Total(us, WeightAt(tree, db, node, r))
  {
    var p := Preorder(tree, node);
    var nodes, c := Members(p[..i]), p[i];
    PreorderOrdered(tree, node);
    PreorderAttaches(tree, node, i);
    PrefixGrows(p, i);
    assert p[..i][0] == node;
    ts := Extend(tree, Data(db), us, c);
    ExtendLists(tree, Data(db), us, nodes, c);
    forall r: nat ensures Total(ts, WeightAt(tree, db, node, r)) == Total(us, WeightAt(tree, db, node, r)) {
      WeightKept(tree, db, us, nodes, c, node, r);
    }
  }

  /** Every child of a node in the subtree is in the subtree. */
  lemma SubtreeClosed(tree: seq<JoinNode>, node: nat, d: nat)
    requires TreeOk(tree) && node < |tree| && IsEdge(tree, d) && Parent(tree, d) in Subtree(tree, node)
    ensures d in Subtree(tree, node)
  {
    PreorderMembers(tree, node);
    assert Below(tree, d, node);
    PreorderComplete(tree, node, d);
  }

  lemma {:induction false} NothingOpen(tree: seq<JoinNode>, db: seq<seq<Entry>>, t: Tuple, m: nat)
    requires TreeOk(tree) && |db| == |tree| && m <= |tree| && forall d :: !OnFrontier(tree, t, d)
    ensures FrontierProduct(tree, db, t, -1, m) == 1
  {
    if m > 0 {
      NothingOpen(tree, db, t, m - 1);
    }
  }

  lemma SubtreeTupleWeighsOne(tree: seq<JoinNode>, db: seq<seq<Entry>>, node: nat, t: Tuple)
    requires TreeOk(tree) && |db| == |tree| && node < |tree| && PartialTuple(tree, Data(db), Subtree(tree, node), t)
    ensures Weight(tree, db, t) == 1
  {
    forall d | IsEdge(tree, d) && Parent(tree, d) in t ensures d in t {
      SubtreeClosed(tree, node, d);
    }
    NothingOpen(tree, db, t, |tree|);
  }

  /** local_mult of a row is the number of join tuples of its node's subtree that use it. */
  lemma LocalMultCounts(tree: seq<JoinNode>, db: seq<seq<Entry>>, node: nat, r: nat, ps: seq<Tuple>)
    requires TreeOk(tree) && LocalOk(tree, db) && node < |tree| && r < |db[node]|
    requires Lists(ps, tree, Data(db), Subtree(tree, node))
    ensures db[node][r].localMult == Count(ps, Uses(node, r))
  {
    var p := Preorder(tree, node);
    var ts := SubtreeListing(tree, db, node, |p|);
    assert p[..|p|] == p;
    SameMembers(ts, ps);
    TotalPermutation(ts, ps, WeightAt(tree, db, node, r));
    forall i | 0 <= i < |ps| ensures WeightAt(tree, db, node, r)(ps[i]) == Ind(Uses(node, r))(ps[i]) {
      assert ps[i] in ps;
      SubtreeTupleWeighsOne(tree, db, node, ps[i]);
    }
    TotalExt(ps, WeightAt(tree, db, node, r), Ind(Uses(node, r)));
  }

  // ---- Final multiplicities ----

  /** Attaching node by node in pre-order keeps the balance of every attached table. */
  lemma {:induction false} BalancedListing(tree: seq<JoinNode>, db: seq<seq<Entry>>, i: nat) returns (ts: seq<Tuple>)
    requires Counted(tree, db) && 0 < i <= |RootOrder(tree)|
    ensures Stage(tree, db, ts, Members(RootOrder(tree)[..i]))
  {
    var p, root := RootOrder(tree), |tree| - 1;
    PreorderOrdered(tree, root);
    if i == 1 {
      RootStage(tree, db);
      assert p[..1] == [root];
      ts := RootTuples(root, |db[root]|);
    } else {
      var us := BalancedListing(tree, db, i - 1);
      PreorderAttaches(tree, root, i - 1);
      PrefixGrows(p, i - 1);
      StageExtends(tree, db, us, Members(p[..i - 1]), p[i - 1]);
      ts := Extend(tree, Data(db), us, p[i - 1]);
    }
  }

  lemma RootOrderAll(tree: seq<JoinNode>)
    requires TreeOk(tree)
    ensures forall k: nat :: k in RootOrder(tree) <==> k < |tree|
  {
    forall k: nat ensures k in RootOrder(tree) <==> k < |tree| {
      PreorderMembers(tree, |tree| - 1);
      if k < |tree| {
        AllBelowRoot(tree, k);
        PreorderComplete(tree, |tree| - 1, k);
      }
    }
  }

  /** final_mult of a row is the number of join tuples that use it. */
  lemma FinalMultCounts(tree: seq<JoinNode>, db: seq<seq<Entry>>, a: nat, r: nat, ps: seq<Tuple>)
    requires Counted(tree, db) && a < |db| && r < |db[a]| && ListsJoin(ps, tree, Data(db))
    ensures db[a][r].finalMult == Count(ps, Uses(a, r))
  {
    var p := RootOrder(tree);
    var ts := BalancedListing(tree, db, |p|);
    assert p[..|p|] == p;
    RootOrderAll(tree);
    AllAttached(ts, tree, Data(db), Members(p));
    SameMembers(ts, ps);
    TotalPermutation(ts, ps, WeightAt(tree, db, a, r));
    BalancedAt(tree, db, ts, Members(p), a, r);
    forall i | 0 <= i < |ps| ensures WeightAt(tree, db, a, r)(ps[i]) == Ind(Uses(a, r))(ps[i]) {
      assert ps[i] in ps;
      NoFrontier(tree, db, ps[i], |tree|);
    }
    TotalExt(ps, WeightAt(tree, db, a, r), Ind(Uses(a, r)));
  }

  /** The rows of t's node-a table that t uses: exactly one. */
  lemma UsesOne(db: seq<seq<Entry>>, a: nat, t: Tuple, n: nat)
    requires a < |db| && Indexed(db[a]) && a in t && t[a] < n <= |db[a]|
    ensures Total(db[a][..n], UsedBy(a, t)) == 1
  {
    OneRow(db[a], n, t[a], UsedBy(a, t));
  }

  ghost function UsedBy(a: nat, t: Tuple): Entry -> int {
    (e: Entry) => if a in t && t[a] == e.originalIndex then 1 else 0
  }

  ghost function UsersOf(a: nat): Entry -> Tuple -> int {
    (e: Entry) => (t: Tuple) => if a in t && t[a] == e.originalIndex then 1 else 0
  }

  ghost function UsedRow(a: nat): Tuple -> Entry -> int {
    (t: Tuple) => UsedBy(a, t)
  }

  /** Every table's final multiplicities add up to the size of the join. */
  lemma FinalMultsAddUp(tree: seq<JoinNode>, db: seq<seq<Entry>>, a: nat, ps: seq<Tuple>)
    requires Counted(tree, db) && a < |db| && ListsJoin(ps, tree, Data(db))
    ensures Total(db[a], FinalMult()) == |ps|
  {
    var one, fin := (t: Tuple) => 1, FinalMult();
    assert Indexed(db[a]);
    forall i | 0 <= i < |ps| ensures one(ps[i]) == Total(db[a], UsedRow(a)(ps[i])) {
      assert ps[i] in ps;
      UsesOne(db, a, ps[i], |db[a]|);
      assert db[a][..|db[a]|] == db[a];
    }
    forall r | 0 <= r < |db[a]| ensures fin(db[a][r]) == Total(ps, UsersOf(a)(db[a][r])) {
      FinalMultCounts(tree, db, a, r, ps);
      TotalExt(ps, UsersOf(a)(db[a][r]), Ind(Uses(a, r)));
    }
    TotalSwap(ps, db[a], UsedRow(a), UsersOf(a), one, fin);
    TotalConstant(ps, 1, one);
  }
}
