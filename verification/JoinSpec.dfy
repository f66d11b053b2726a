/** The declarative band join: which choices of one row per table are join tuples, and how to list them. */
module JoinSpec {
  import opened Totals
  import opened Records
  import opened JoinTree
  import opened Boundary

  /** A choice of one row index per tree node. */
  type Tuple = map<nat, nat>

  /** The attribute rows of the tables, node by node: all that the join predicate reads. */
  ghost function Data(db: seq<seq<Entry>>): (r: seq<seq<seq<int>>>)
    ensures |r| == |db|
    ensures forall k :: 0 <= k < |db| ==> |r[k]| == |db[k]|
  {
    seq(|db|, k requires 0 <= k < |db| => RowsOf(db[k]))
  }

  ghost function RowsOf(t: seq<Entry>): (r: seq<seq<int>>)
    ensures |r| == |t|
  {
    seq(|t|, i requires 0 <= i < |t| => t[i].attributes)
  }

  lemma SameData(a: seq<seq<Entry>>, b: seq<seq<Entry>>)
    requires SameTables(a, b)
    ensures Data(a) == Data(b)
  {
    forall k | 0 <= k < |a| ensures RowsOf(a[k]) == RowsOf(b[k]) {
      assert SameRows(a[k], b[k]);
    }
  }

  // ---- Join tuples ----

  /** t picks an existing row for each of the given nodes. */
  ghost predicate Picks(data: seq<seq<seq<int>>>, nodes: set<nat>, t: Tuple) {
    t.Keys == nodes && forall k :: k in nodes ==> k < |data| && t[k] < |data[k]|
  }

  ghost function RowAt(data: seq<seq<seq<int>>>, t: Tuple, k: nat): seq<int> {
    if k in t && k < |data| && t[k] < |data[k]| then data[k][t[k]] else []
  }

  /** The band of the edge above node c holds between the chosen rows. */
  ghost predicate EdgeHolds(tree: seq<JoinNode>, data: seq<seq<seq<int>>>, t: Tuple, c: nat)
    requires TreeOk(tree) && IsEdge(tree, c)
  {
    InBand(tree[c], Attr(RowAt(data, t, c), tree[c].joinCol), Attr(RowAt(data, t, Parent(tree, c)), tree[c].parentJoinCol))
  }

  /** A choice for some of the nodes that satisfies every edge between them. */
  ghost predicate PartialTuple(tree: seq<JoinNode>, data: seq<seq<seq<int>>>, nodes: set<nat>, t: Tuple)
    requires TreeOk(tree)
  {
    && Picks(data, nodes, t)
    && forall c :: c in nodes && IsEdge(tree, c) && Parent(tree, c) in nodes ==> EdgeHolds(tree, data, t, c)
  }

  /** A tuple of the join: one row of every table, every band satisfied. */
  ghost predicate JoinTuple(tree: seq<JoinNode>, data: seq<seq<seq<int>>>, t: Tuple)
    requires TreeOk(tree)
  {
    && (forall k: nat :: k in t <==> k < |tree|)
    && (forall k :: k in t ==> k < |data| && t[k] < |data[k]|)
    && (forall c :: IsEdge(tree, c) ==> EdgeHolds(tree, data, t, c))
  }

  /** ts lists the partial tuples over the given nodes, each once. */
  ghost predicate Lists(ts: seq<Tuple>, tree: seq<JoinNode>, data: seq<seq<seq<int>>>, nodes: set<nat>)
    requires TreeOk(tree)
  {
    NoRepeats(ts) && forall t :: t in ts <==> PartialTuple(tree, data, nodes, t)
  }

  /** ts lists the tuples of the join, each once. */
  ghost predicate ListsJoin(ts: seq<Tuple>, tree: seq<JoinNode>, data: seq<seq<seq<int>>>)
    requires TreeOk(tree)
  {
    NoRepeats(ts) && forall t :: t in ts <==> JoinTuple(tree, data, t)
  }

  /** The output row of a tuple: its rows' attributes, table after table in the given order. */
  ghost function Content(order: seq<nat>, data: seq<seq<seq<int>>>, t: Tuple): seq<int> {
    if order == [] then [] else Content(order[..|order| - 1], data, t) + RowAt(data, t, order[|order| - 1])
  }

  ghost function Contents(order: seq<nat>, data: seq<seq<seq<int>>>, ts: seq<Tuple>): (r: seq<seq<int>>)
    ensures |r| == |ts|
  {
    seq(|ts|, i requires 0 <= i < |ts| => Content(order, data, ts[i]))
  }

  // ---- Listing them by nested loops ----

  ghost predicate Joins(tree: seq<JoinNode>, data: seq<seq<seq<int>>>, t: Tuple, c: nat, r: nat)
    requires TreeOk(tree) && IsEdge(tree, c)
  {
    c < |data| && r < |data[c]|
    && InBand(tree[c], Attr(data[c][r], tree[c].joinCol), Attr(RowAt(data, t, Parent(tree, c)), tree[c].parentJoinCol))
  }

  /** t extended by each of the first n rows of node c that it joins with. */
  ghost function Extensions(tree: seq<JoinNode>, data: seq<seq<seq<int>>>, t: Tuple, c: nat, n: nat): seq<Tuple>
    requires TreeOk(tree) && IsEdge(tree, c)
  {
    if n == 0 then []
    else Extensions(tree, data, t, c, n - 1) + if Joins(tree, data, t, c, n - 1) then [t[c := n - 1]] else []
  }

  ghost function Extend(tree: seq<JoinNode>, data: seq<seq<seq<int>>>, ts: seq<Tuple>, c: nat): seq<Tuple>
    requires TreeOk(tree) && IsEdge(tree, c) && c < |data|
  {
    if ts == [] then []
    else Extend(tree, data, ts[..|ts| - 1], c) + Extensions(tree, data, ts[|ts| - 1], c, |data[c]|)
  }

  lemma {:induction false} ExtensionsList(tree: seq<JoinNode>, data: seq<seq<seq<int>>>, t: Tuple, c: nat, n: nat)
    requires TreeOk(tree) && IsEdge(tree, c)
    ensures forall u :: u in Extensions(tree, data, t, c, n) <==>
      c in u && u[c] < n && Joins(tree, data, t, c, u[c]) && u == t[c := u[c]]
    ensures NoRepeats(Extensions(tree, data, t, c, n))
  {
    if n > 0 {
      ExtensionsList(tree, data, t, c, n - 1);
      var prev := Extensions(tree, data, t, c, n - 1);
      var last := t[c := n - 1];
      assert last[c] == n - 1;
      forall u ensures u in Extensions(tree, data, t, c, n) <==>
        c in u && u[c] < n && Joins(tree, data, t, c, u[c]) && u == t[c := u[c]]
      {
        assert u in Extensions(tree, data, t, c, n) <==> u in prev || (Joins(tree, data, t, c, n - 1) && u == last);
      }
    }
  }

  /** u with the choice at c taken back. */
  ghost function Without(u: Tuple, c: nat): Tuple {
    u - {c}
  }

  lemma ExtensionIsWithout(t: Tuple, u: Tuple, c: nat)
    requires c !in t && c in u
    ensures u == t[c := u[c]] <==> Without(u, c) == t
  {
    if u == t[c := u[c]] {
      assert Without(u, c) == t;
    }
    if Without(u, c) == t {
      assert u == t[c := u[c]];
    }
  }

  lemma ExtensionsMembers(tree: seq<JoinNode>, data: seq<seq<seq<int>>>, t: Tuple, c: nat)
    requires TreeOk(tree) && IsEdge(tree, c) && c < |data| && c !in t
    ensures forall u :: u in Extensions(tree, data, t, c, |data[c]|) <==>
      c in u && Without(u, c) == t && Joins(tree, data, t, c, u[c])
    ensures NoRepeats(Extensions(tree, data, t, c, |data[c]|))
  {
    ExtensionsList(tree, data, t, c, |data[c]|);
    forall u | c in u ensures u == t[c := u[c]] <==> Without(u, c) == t {
      ExtensionIsWithout(t, u, c);
    }
  }

  ghost predicate Extends(tree: seq<JoinNode>, data: seq<seq<seq<int>>>, ts: seq<Tuple>, c: nat, u: Tuple)
    requires TreeOk(tree) && IsEdge(tree, c)
  {
    c in u && Without(u, c) in ts && Joins(tree, data, Without(u, c), c, u[c])
  }

  lemma {:induction false} ExtendMembers(tree: seq<JoinNode>, data: seq<seq<seq<int>>>, ts: seq<Tuple>, c: nat)
    requires TreeOk(tree) && IsEdge(tree, c) && c < |data|
    requires NoRepeats(ts) && forall i :: 0 <= i < |ts| ==> c !in ts[i]
    ensures forall u :: u in Extend(tree, data, ts, c) <==> Extends(tree, data, ts, c, u)
    ensures NoRepeats(Extend(tree, data, ts, c))
  {
    if ts != [] {
      var ts', t := ts[..|ts| - 1], ts[|ts| - 1];
      var es := Extensions(tree, data, t, c, |data[c]|);
      ExtendMembers(tree, data, ts', c);
      ExtensionsMembers(tree, data, t, c);
      assert ts == ts' + [t];
      assert t !in ts';
      NoRepeatsConcat(Extend(tree, data, ts', c), es);
      forall u ensures u in Extend(tree, data, ts, c) <==> Extends(tree, data, ts, c, u) {
        assert u in Extend(tree, data, ts, c) <==> u in Extend(tree, data, ts', c) || u in es;
      }
    }
  }

  /** The edges that join a new node c: only the one to its parent. */
  ghost predicate Attaches(tree: seq<JoinNode>, nodes: set<nat>, c: nat)
    requires TreeOk(tree)
  {
    && IsEdge(tree, c) && c !in nodes && Parent(tree, c) in nodes
    && forall d :: d in nodes && IsEdge(tree, d) ==> Parent(tree, d) != c
  }

  lemma RowAtWithout(data: seq<seq<seq<int>>>, u: Tuple, c: nat, k: nat)
    requires k != c
    ensures RowAt(data, Without(u, c), k) == RowAt(data, u, k)
  {
  }

  lemma PartialExtends(tree: seq<JoinNode>, data: seq<seq<seq<int>>>, nodes: set<nat>, c: nat, u: Tuple)
    requires TreeOk(tree) && |data| == |tree| && Attaches(tree, nodes, c)
    ensures PartialTuple(tree, data, nodes + {c}, u) <==>
      c in u && PartialTuple(tree, data, nodes, Without(u, c)) && Joins(tree, data, Without(u, c), c, u[c])
  {
    var p := Parent(tree, c);
    RowAtWithout(data, u, c, p);
    if c in u {
      forall d | d in nodes && IsEdge(tree, d) && Parent(tree, d) in nodes
        ensures EdgeHolds(tree, data, u, d) <==> EdgeHolds(tree, data, Without(u, c), d)
      {
        RowAtWithout(data, u, c, d);
        RowAtWithout(data, u, c, Parent(tree, d));
      }
      assert Picks(data, nodes + {c}, u) <==> Picks(data, nodes, Without(u, c)) && u[c] < |data[c]|;
      assert u[c] < |data[c]| ==> (EdgeHolds(tree, data, u, c) <==> Joins(tree, data, Without(u, c), c, u[c]));
    }
  }

  /** Attaching node c by nested loops lists the partial tuples with c. */
  lemma ExtendLists(tree: seq<JoinNode>, data: seq<seq<seq<int>>>, ts: seq<Tuple>, nodes: set<nat>, c: nat)
    requires TreeOk(tree) && |data| == |tree| && Lists(ts, tree, data, nodes) && Attaches(tree, nodes, c)
    ensures Lists(Extend(tree, data, ts, c), tree, data, nodes + {c})
  {
    forall i | 0 <= i < |ts| ensures c !in ts[i] {
      assert ts[i] in ts;
    }
    ExtendMembers(tree, data, ts, c);
    forall u ensures u in Extend(tree, data, ts, c) <==> PartialTuple(tree, data, nodes + {c}, u) {
      PartialExtends(tree, data, nodes, c, u);
    }
  }

  /** The rows of the root, one tuple each. */
  ghost function RootTuples(root: nat, n: nat): (r: seq<Tuple>)
    ensures |r| == n
  {
    seq(n, i requires 0 <= i < n => map[root := i])
  }

  lemma RootLists(tree: seq<JoinNode>, data: seq<seq<seq<int>>>, root: nat)
    requires TreeOk(tree) && root < |data|
    ensures Lists(RootTuples(root, |data[root]|), tree, data, {root})
  {
    var ts := RootTuples(root, |data[root]|);
    forall i, j | 0 <= i < j < |ts| ensures ts[i] != ts[j] {
      assert ts[i][root] == i && ts[j][root] == j;
    }
    forall t ensures t in ts <==> PartialTuple(tree, data, {root}, t) {
      if PartialTuple(tree, data, {root}, t) {
        assert t == map[root := t[root]];
        assert ts[t[root]] == t;
      }
    }
  }

  /** With every node attached, the partial tuples are the join tuples. */
  lemma AllAttached(ts: seq<Tuple>, tree: seq<JoinNode>, data: seq<seq<seq<int>>>, nodes: set<nat>)
    requires TreeOk(tree) && |data| == |tree| && Lists(ts, tree, data, nodes)
    requires forall k: nat :: k in nodes <==> k < |tree|
    ensures ListsJoin(ts, tree, data)
  {
    forall t ensures PartialTuple(tree, data, nodes, t) <==> JoinTuple(tree, data, t) {
      if JoinTuple(tree, data, t) {
        assert t.Keys == nodes;
      }
    }
  }

  /** Any two listings of the join have the same contents. */
  lemma ListingsAgree(ss: seq<Tuple>, ts: seq<Tuple>, tree: seq<JoinNode>, data: seq<seq<seq<int>>>, order: seq<nat>)
    requires TreeOk(tree) && ListsJoin(ss, tree, data) && ListsJoin(ts, tree, data)
    ensures multiset(Contents(order, data, ss)) == multiset(Contents(order, data, ts))
  {
    SameMembers(ss, ts);
    var f := (t: Tuple) => Content(order, data, t);
    ImagePermutation(ss, ts, f);
    assert Image(ss, f) == Contents(order, data, ss) && Image(ts, f) == Contents(order, data, ts);
  }
}
