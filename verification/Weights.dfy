/** How often a partial tuple occurs in the accumulator: the product of the match sums on the frontier. */
module Weights {
  import opened Totals
  import opened Records
  import opened Combined
  import opened JoinTree
  import opened JoinSpec

  /** The join attribute that tuple t offers to child node c. */
  ghost function Offered(tree: seq<JoinNode>, db: seq<seq<Entry>>, t: Tuple, c: nat): int
    requires TreeOk(tree) && IsEdge(tree, c)
  {
    Attr(RowAt(Data(db), t, Parent(tree, c)), tree[c].parentJoinCol)
  }

  /** S_c(t): the multiplicity with which node c can continue t. */
  ghost function Continuations(tree: seq<JoinNode>, db: seq<seq<Entry>>, t: Tuple, c: nat): int
    requires TreeOk(tree) && IsEdge(tree, c) && |db| == |tree|
  {
    MatchSum(tree[c], db[c], Offered(tree, db, t, c))
  }

  ghost predicate OnFrontier(tree: seq<JoinNode>, t: Tuple, c: nat)
    requires TreeOk(tree)
  {
    IsEdge(tree, c) && c !in t && Parent(tree, c) in t
  }

  ghost function FrontierFactor(tree: seq<JoinNode>, db: seq<seq<Entry>>, t: Tuple, c: nat): int
    requires TreeOk(tree) && |db| == |tree|
  {
    if OnFrontier(tree, t, c) then Continuations(tree, db, t, c) else 1
  }

  /** The frontier product over the first m nodes, node `skip` left out. */
  ghost function FrontierProduct(tree: seq<JoinNode>, db: seq<seq<Entry>>, t: Tuple, skip: int, m: nat): int
    requires TreeOk(tree) && |db| == |tree|
  {
    if m == 0 then 1
    else FrontierProduct(tree, db, t, skip, m - 1) * (if m - 1 == skip then 1 else FrontierFactor(tree, db, t, m - 1))
  }

  /** M(t): how often t occurs in the accumulator. */
  ghost function Weight(tree: seq<JoinNode>, db: seq<seq<Entry>>, t: Tuple): int
    requires TreeOk(tree) && |db| == |tree|
  {
    FrontierProduct(tree, db, t, -1, |tree|)
  }

  /** K(t): how many groups of S_c copies t makes for child c. */
  ghost function Groups(tree: seq<JoinNode>, db: seq<seq<Entry>>, t: Tuple, c: nat): int
    requires TreeOk(tree) && IsEdge(tree, c) && |db| == |tree|
  {
    if Continuations(tree, db, t, c) > 0 then FrontierProduct(tree, db, t, c, |tree|) else 0
  }

  lemma Commute(a: int, b: int, c: int)
    ensures (a * b) * c == (a * c) * b
  {
  }

  lemma {:induction false} SkipFactor(tree: seq<JoinNode>, db: seq<seq<Entry>>, t: Tuple, c: nat, m: nat)
    requires TreeOk(tree) && |db| == |tree| && OnFrontier(tree, t, c)
    ensures FrontierProduct(tree, db, t, -1, m)
         == FrontierProduct(tree, db, t, c, m) * (if m <= c then 1 else Continuations(tree, db, t, c))
  {
    if m > 0 {
      SkipFactor(tree, db, t, c, m - 1);
      var q, s, f := FrontierProduct(tree, db, t, c, m - 1), Continuations(tree, db, t, c), FrontierFactor(tree, db, t, m - 1);
      if m - 1 > c {
        Commute(q, s, f);
      }
    }
  }

  /** t's children of c are not attached before c is. */
  ghost predicate ChildrenFree(tree: seq<JoinNode>, t: Tuple, c: nat)
    requires TreeOk(tree)
  {
    forall d :: d in t && IsEdge(tree, d) ==> Parent(tree, d) != c
  }

  lemma AttachFactor(tree: seq<JoinNode>, db: seq<seq<Entry>>, t: Tuple, c: nat, r: nat, j: nat)
    requires TreeOk(tree) && |db| == |tree| && OnFrontier(tree, t, c) && ChildrenFree(tree, t, c)
    requires r < |db[c]| && j < |tree|
    ensures FrontierFactor(tree, db, t[c := r], j)
         == (if j == c then 1 else FrontierFactor(tree, db, t, j)) * Factor(tree, db, c, db[c][r].attributes, j)
  {
    var u := t[c := r];
    if j == c {
      assert tree[c].parentIdx != c;
    } else if IsEdge(tree, j) && Parent(tree, j) == c {
      assert j !in t;
      assert RowAt(Data(db), u, c) == db[c][r].attributes;
    } else if IsEdge(tree, j) {
      assert RowAt(Data(db), u, Parent(tree, j)) == RowAt(Data(db), t, Parent(tree, j));
    }
  }

  lemma {:induction false} AttachProduct(tree: seq<JoinNode>, db: seq<seq<Entry>>, t: Tuple, c: nat, r: nat, m: nat)
    requires TreeOk(tree) && |db| == |tree| && OnFrontier(tree, t, c) && ChildrenFree(tree, t, c)
    requires r < |db[c]| && m <= |tree|
    ensures FrontierProduct(tree, db, t[c := r], -1, m)
         == FrontierProduct(tree, db, t, c, m) * ChildProduct(tree, db, c, db[c][r].attributes, m)
  {
    if m > 0 {
      AttachProduct(tree, db, t, c, r, m - 1);
      AttachFactor(tree, db, t, c, r, m - 1);
      Regroup(FrontierProduct(tree, db, t, c, m - 1), ChildProduct(tree, db, c, db[c][r].attributes, m - 1),
        if m - 1 == c then 1 else FrontierFactor(tree, db, t, m - 1), Factor(tree, db, c, db[c][r].attributes, m - 1));
    }
  }

  lemma Regroup(a: int, b: int, x: int, y: int)
    ensures (a * b) * (x * y) == (a * x) * (b * y)
  {
    assert (a * b) * (x * y) == a * (b * x) * y;
    assert a * (b * x) * y == a * (x * b) * y;
  }

  lemma {:induction false} ProductStops(tree: seq<JoinNode>, db: seq<seq<Entry>>, k: nat, row: seq<int>, m: nat)
    requires TreeOk(tree) && |db| == |tree| && k <= m <= |tree|
    ensures ChildProduct(tree, db, k, row, m) == ChildProduct(tree, db, k, row, k)
  {
    if k < m {
      ProductStops(tree, db, k, row, m - 1);
    }
  }

  /** Attaching row r of node c turns the factor S_c(t) of the weight into the row's own multiplicity. */
  lemma AttachWeight(tree: seq<JoinNode>, db: seq<seq<Entry>>, t: Tuple, c: nat)
    requires TreeOk(tree) && LocalOk(tree, db) && OnFrontier(tree, t, c) && ChildrenFree(tree, t, c)
    ensures Weight(tree, db, t) == FrontierProduct(tree, db, t, c, |tree|) * Continuations(tree, db, t, c)
    ensures forall r: nat :: r < |db[c]| ==>
      Weight(tree, db, t[c := r]) == FrontierProduct(tree, db, t, c, |tree|) * db[c][r].localMult
  {
    SkipFactor(tree, db, t, c, |tree|);
    forall r: nat | r < |db[c]|
      ensures Weight(tree, db, t[c := r]) == FrontierProduct(tree, db, t, c, |tree|) * db[c][r].localMult
    {
      AttachProduct(tree, db, t, c, r, |tree|);
      ProductStops(tree, db, c, db[c][r].attributes, |tree|);
    }
  }

  /** A matching row is part of the match sum. */
  lemma MatchedAtMost(n: JoinNode, child: seq<Entry>, y: int, r: nat)
    requires NonNegative(child) && r < |child| && InBand(n, Attr(child[r].attributes, n.joinCol), y)
    ensures 0 <= child[r].localMult <= MatchSum(n, child, y)
  {
    TotalAtLeast(child, MatchedMult(n, y), r);
  }

  /** In groups: t occurs K(t) times S_c(t), and every extension by a matching row K(t) times that row's multiplicity. */
  lemma AttachGroups(tree: seq<JoinNode>, db: seq<seq<Entry>>, t: Tuple, c: nat)
    requires TreeOk(tree) && LocalOk(tree, db) && OnFrontier(tree, t, c) && ChildrenFree(tree, t, c)
    ensures Weight(tree, db, t) == Groups(tree, db, t, c) * Continuations(tree, db, t, c)
    ensures 0 <= Continuations(tree, db, t, c)
    ensures forall r: nat :: r < |db[c]| && Joins(tree, Data(db), t, c, r) ==>
      Weight(tree, db, t[c := r]) == Groups(tree, db, t, c) * db[c][r].localMult
  {
    AttachWeight(tree, db, t, c);
    LocalNonNegative(tree, db, |db|);
    MatchSumNonNegative(tree[c], db[c], Offered(tree, db, t, c));
    forall r: nat | r < |db[c]| && Joins(tree, Data(db), t, c, r)
      ensures Weight(tree, db, t[c := r]) == Groups(tree, db, t, c) * db[c][r].localMult
    {
      MatchedAtMost(tree[c], db[c], Offered(tree, db, t, c), r);
    }
  }

  // ---- Sums over extensions ----

  /** Sums over the extensions of one tuple are sums over the rows inside the band. */
  lemma {:induction false} ExtensionsTotal(tree: seq<JoinNode>, db: seq<seq<Entry>>, t: Tuple, c: nat, n: nat,
                                           f: Tuple -> int, k: int, g: Entry -> int)
    requires TreeOk(tree) && IsEdge(tree, c) && |db| == |tree| && n <= |db[c]|
    requires forall r: nat :: r < n && Joins(tree, Data(db), t, c, r) ==> f(t[c := r]) == k * g(db[c][r])
    ensures Total(Extensions(tree, Data(db), t, c, n), f)
         == k * Total(db[c][..n], Inside(tree[c], g, Offered(tree, db, t, c)))
  {
    if n > 0 {
      ExtensionsTotal(tree, db, t, c, n - 1, f, k, g);
      var rows := db[c][..n];
      assert rows[..n - 1] == db[c][..n - 1];
      var prev := Extensions(tree, Data(db), t, c, n - 1);
      if Joins(tree, Data(db), t, c, n - 1) {
        TotalSnoc(prev, t[c := n - 1], f);
        Distribute(k, Total(db[c][..n - 1], Inside(tree[c], g, Offered(tree, db, t, c))), g(db[c][n - 1]));
      } else {
        assert prev + [] == prev;
      }
    }
  }

  lemma Distribute(k: int, a: int, b: int)
    ensures k * (a + b) == k * a + k * b
  {
  }

  lemma {:induction false} ExtendTotal(tree: seq<JoinNode>, data: seq<seq<seq<int>>>, ts: seq<Tuple>, c: nat, f: Tuple -> int, g: Tuple -> int)
    requires TreeOk(tree) && IsEdge(tree, c) && c < |data|
    requires forall i :: 0 <= i < |ts| ==> Total(Extensions(tree, data, ts[i], c, |data[c]|), f) == g(ts[i])
    ensures Total(Extend(tree, data, ts, c), f) == Total(ts, g)
  {
    if ts != [] {
      var ts', t := ts[..|ts| - 1], ts[|ts| - 1];
      ExtendTotal(tree, data, ts', c, f, g);
      TotalConcat(Extend(tree, data, ts', c), Extensions(tree, data, t, c, |data[c]|), f);
    }
  }
}
