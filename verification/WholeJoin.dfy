/** The first and the last accumulator: the root's expanded table, and the multiset of the join. */
module WholeJoin {
  import opened Totals
  import opened Records
  import opened TrimmedRows
  import opened JoinTree
  import opened JoinSpec
  import opened Weights
  import opened NodeTotals
  import opened GroupsOfCopies
  import opened Distribute

  // ---- The root ----

  /** The tuple of row r of node m alone. */
  ghost function RootTuple(m: nat, r: nat): Tuple {
    map[m := r]
  }

  lemma {:induction false} SingleProduct(tree: seq<JoinNode>, db: seq<seq<Entry>>, node: nat, r: nat, m: nat)
    requires TreeOk(tree) && |db| == |tree| && node < |tree| && r < |db[node]| && m <= |tree|
    ensures FrontierProduct(tree, db, RootTuple(node, r), -1, m) == ChildProduct(tree, db, node, db[node][r].attributes, m)
  {
    if m > 0 {
      SingleProduct(tree, db, node, r, m - 1);
      SingleFactor(tree, db, node, r, m - 1);
    }
  }

  lemma SingleFactor(tree: seq<JoinNode>, db: seq<seq<Entry>>, node: nat, r: nat, j: nat)
    requires TreeOk(tree) && |db| == |tree| && node < |tree| && r < |db[node]| && j < |tree|
    ensures FrontierFactor(tree, db, RootTuple(node, r), j) == Factor(tree, db, node, db[node][r].attributes, j)
  {
    assert RowAt(Data(db), RootTuple(node, r), node) == db[node][r].attributes;
  }

  /** A row alone weighs its local multiplicity. */
  lemma SingleWeight(tree: seq<JoinNode>, db: seq<seq<Entry>>, node: nat, r: nat)
    requires TreeOk(tree) && LocalOk(tree, db) && node < |tree| && r < |db[node]|
    ensures Weight(tree, db, RootTuple(node, r)) == db[node][r].localMult
  {
    SingleProduct(tree, db, node, r, |tree|);
    ProductStops(tree, db, node, db[node][r].attributes, |tree|);
  }

  lemma RootWeight(tree: seq<JoinNode>, db: seq<seq<Entry>>, r: nat)
    requires Counted(tree, db) && r < |db[|tree| - 1]|
    ensures Weight(tree, db, RootTuple(|tree| - 1, r)) == db[|tree| - 1][r].finalMult
  {
    var m := |tree| - 1;
    SingleWeight(tree, db, m, r);
    assert NodeFinal(tree, db, m) && RowFinal(tree, db, m, db[m][r]);
  }

  lemma RootTuplesSnoc(m: nat, n: nat, f: Tuple -> int)
    requires n > 0
    ensures Total(RootTuples(m, n), f) == Total(RootTuples(m, n - 1), f) + f(RootTuple(m, n - 1))
  {
    assert RootTuples(m, n) == RootTuples(m, n - 1) + [RootTuple(m, n - 1)];
    TotalSnoc(RootTuples(m, n - 1), RootTuple(m, n - 1), f);
  }

  lemma {:induction false} RootTotal(m: nat, n: nat, r: nat, f: Tuple -> int)
    requires forall i: nat :: i < n && i != r ==> f(RootTuple(m, i)) == 0
    ensures Total(RootTuples(m, n), f) == if r < n then f(RootTuple(m, r)) else 0
  {
    if n > 0 {
      RootTotal(m, n - 1, r, f);
      RootTuplesSnoc(m, n, f);
    }
  }

  /** The invariant holds of the root alone. */
  lemma RootStage(tree: seq<JoinNode>, db: seq<seq<Entry>>)
    requires Counted(tree, db)
    ensures Stage(tree, db, RootTuples(|tree| - 1, |db[|tree| - 1]|), Members([|tree| - 1]))
  {
    var m := |tree| - 1;
    var ts := RootTuples(m, |db[m]|);
    RootLists(tree, Data(db), m);
    assert Members([m]) == {m};
    forall a: nat, r: nat {:trigger WeightAt(tree, db, a, r)} | a in {m} && r < |db[a]|
      ensures Total(ts, WeightAt(tree, db, a, r)) == db[a][r].finalMult
    {
      RootTotal(m, |db[m]|, r, WeightAt(tree, db, m, r));
      RootWeight(tree, db, r);
    }
  }

  /** The attribute rows of a result table. */
  ghost function Attrs(rows: seq<RRow>): (r: seq<Row>)
    ensures |r| == |rows|
  {
    seq(|rows|, i requires 0 <= i < |rows| => rows[i].attributes)
  }

  ghost function TAttrs(rows: seq<TRow>): (r: seq<Row>)
    ensures |r| == |rows|
  {
    seq(|rows|, i requires 0 <= i < |rows| => rows[i].attributes)
  }

  lemma CopiesAttrs(t: seq<Entry>, i: nat, f: Row -> int)
    requires Counts(t) && i < |t|
    ensures Total(TAttrs(CopiesOf(t, i)), f) == t[i].finalMult * f(t[i].attributes)
  {
    var s := TAttrs(CopiesOf(t, i));
    forall j | 0 <= j < |s| ensures f(s[j]) == f(t[i].attributes) {
      assert CopiesOf(t, i)[j] == RowOf(t[i], Offset(t, i), Offset(t, i) + j);
    }
    TotalConstant(s, f(t[i].attributes), f);
  }

  lemma TAttrsConcat(s: seq<TRow>, t: seq<TRow>, f: Row -> int)
    ensures Total(TAttrs(s + t), f) == Total(TAttrs(s), f) + Total(TAttrs(t), f)
  {
    assert TAttrs(s + t) == TAttrs(s) + TAttrs(t);
    TotalConcat(TAttrs(s), TAttrs(t), f);
  }

  lemma RootTerm(tree: seq<JoinNode>, db: seq<seq<Entry>>, r: nat, f: Row -> int)
    requires Counted(tree, db) && r < |db[|tree| - 1]|
    ensures WeightedContent(tree, db, [|tree| - 1], f)(RootTuple(|tree| - 1, r))
         == db[|tree| - 1][r].finalMult * f(db[|tree| - 1][r].attributes)
  {
    RootWeight(tree, db, r);
    RootContent(tree, db, r);
  }

  ghost function FinalTimes(f: Row -> int): Entry -> int {
    (e: Entry) => e.finalMult * f(e.attributes)
  }

  lemma {:induction false} ExpandedTotal(t: seq<Entry>, n: nat, f: Row -> int)
    requires Counts(t) && n <= |t|
    ensures Total(TAttrs(Expanded(t, n)), f) == Total(t[..n], FinalTimes(f))
  {
    if n > 0 {
      ExpandedTotal(t, n - 1, f);
      TAttrsConcat(Expanded(t, n - 1), CopiesOf(t, n - 1), f);
      CopiesAttrs(t, n - 1, f);
      assert t[..n] == t[..n - 1] + [t[n - 1]];
      TotalSnoc(t[..n - 1], t[n - 1], FinalTimes(f));
    }
  }

  lemma ExpandedRoot(tree: seq<JoinNode>, db: seq<seq<Entry>>, f: Row -> int)
    requires Counted(tree, db) && Counts(db[|tree| - 1])
    ensures var m := |tree| - 1;
      Total(TAttrs(Expanded(db[m], |db[m]|)), f) == Total(RootTuples(m, |db[m]|), WeightedContent(tree, db, [m], f))
  {
    var m := |tree| - 1;
    var t := db[m];
    ExpandedTotal(t, |t|, f);
    assert t[..|t|] == t;
    forall r | 0 <= r < |t| ensures WeightedContent(tree, db, [m], f)(RootTuples(m, |t|)[r]) == FinalTimes(f)(t[r]) {
      RootTerm(tree, db, r, f);
    }
    TotalZip(RootTuples(m, |t|), t, WeightedContent(tree, db, [m], f), FinalTimes(f));
  }

  lemma RootContent(tree: seq<JoinNode>, db: seq<seq<Entry>>, r: nat)
    requires TreeOk(tree) && |db| == |tree| && r < |db[|tree| - 1]|
    ensures Content([|tree| - 1], Data(db), RootTuple(|tree| - 1, r)) == db[|tree| - 1][r].attributes
  {
    var t, data := RootTuple(|tree| - 1, r), Data(db);
    assert Content([], data, t) == [];
    assert RowAt(data, t, |tree| - 1) == db[|tree| - 1][r].attributes;
  }

  /** The root's expanded table represents the root's tuples. */
  lemma RootRepresents(tree: seq<JoinNode>, db: seq<seq<Entry>>)
    requires Counted(tree, db) && Counts(db[|tree| - 1])
    ensures var m := |tree| - 1;
      Represents(TAttrs(Expanded(db[m], |db[m]|)), tree, db, RootTuples(m, |db[m]|), [m])
  {
    var m := |tree| - 1;
    forall f: Row -> int
      ensures Total(TAttrs(Expanded(db[m], |db[m]|)), f) == Total(RootTuples(m, |db[m]|), WeightedContent(tree, db, [m], f))
    {
      ExpandedRoot(tree, db, f);
    }
  }

  // ---- All nodes attached ----

  lemma {:induction false} NoFrontier(tree: seq<JoinNode>, db: seq<seq<Entry>>, t: Tuple, m: nat)
    requires TreeOk(tree) && |db| == |tree| && m <= |tree| && forall k: nat :: k < |tree| ==> k in t
    ensures FrontierProduct(tree, db, t, -1, m) == 1
  {
    if m > 0 {
      NoFrontier(tree, db, t, m - 1);
    }
  }

  lemma {:induction false} ContentsTotal(order: seq<nat>, data: seq<seq<seq<int>>>, ts: seq<Tuple>, f: Row -> int, g: Tuple -> int)
    requires forall i :: 0 <= i < |ts| ==> g(ts[i]) == f(Content(order, data, ts[i]))
    ensures Total(Contents(order, data, ts), f) == Total(ts, g)
  {
    TotalZip(Contents(order, data, ts), ts, f, g);
  }

  /** With every node attached each tuple occurs once: the accumulator is the join, as a multiset. */
  lemma CompleteIsJoin(acc: seq<Row>, tree: seq<JoinNode>, db: seq<seq<Entry>>, ts: seq<Tuple>, order: seq<nat>)
    requires Stage(tree, db, ts, Members(order)) && Represents(acc, tree, db, ts, order)
    requires forall k: nat :: k in order <==> k < |tree|
    ensures ListsJoin(ts, tree, Data(db))
    ensures multiset(acc) == multiset(Contents(order, Data(db), ts))
  {
    AllAttached(ts, tree, Data(db), Members(order));
    forall w ensures multiset(acc)[w] == multiset(Contents(order, Data(db), ts))[w] {
      MultiplicityIsCount(acc, w, Is(w));
      MultiplicityIsCount(Contents(order, Data(db), ts), w, Is(w));
      forall i | 0 <= i < |ts|
        ensures WeightedContent(tree, db, order, Is(w))(ts[i]) == Is(w)(Content(order, Data(db), ts[i]))
      {
        assert ts[i] in ts;
        NoFrontier(tree, db, ts[i], |tree|);
      }
      ContentsTotal(order, Data(db), ts, Is(w), WeightedContent(tree, db, order, Is(w)));
    }
  }

  /** rows are the join: for every listing of the join tuples, the same rows with the same multiplicities. */
  ghost predicate IsJoin(rows: seq<Row>, tree: seq<JoinNode>, data: seq<seq<seq<int>>>, order: seq<nat>)
    requires TreeOk(tree)
  {
    forall ps: seq<Tuple> :: ListsJoin(ps, tree, data) ==> multiset(rows) == multiset(Contents(order, data, ps))
  }

  lemma JoinEveryListing(acc: seq<Row>, tree: seq<JoinNode>, db: seq<seq<Entry>>, ts: seq<Tuple>, order: seq<nat>)
    requires Stage(tree, db, ts, Members(order)) && Represents(acc, tree, db, ts, order)
    requires forall k: nat :: k in order <==> k < |tree|
    ensures IsJoin(acc, tree, Data(db), order)
  {
    CompleteIsJoin(acc, tree, db, ts, order);
    forall ps: seq<Tuple> | ListsJoin(ps, tree, Data(db))
      ensures multiset(acc) == multiset(Contents(order, Data(db), ps))
    {
      ListingsAgree(ts, ps, tree, Data(db), order);
    }
  }
}
