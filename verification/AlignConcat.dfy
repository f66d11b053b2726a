/** The align phase over the whole tree: attach every node to the global result, parents in pre-order. */
module AlignConcat {
  import opened Totals
  import opened Records
  import opened TrimmedRows
  import opened JoinTree
  import opened JoinSpec
  import opened NodeTotals
  import opened Columns
  import opened GroupsOfCopies
  import opened Distribute
  import opened AlignKeys
  import opened AttachSums
  import opened WholeJoin
  import opened Align

  // ---- The traversal order ----

  lemma RootOrderFits(tree: seq<JoinNode>)
    requires TreeOk(tree)
    ensures |RootOrder(tree)| <= |tree|
  {
    PreorderOnce(tree, |tree| - 1);
    PreorderMembers(tree, |tree| - 1);
    DistinctBelow(RootOrder(tree), |tree|);
  }

  lemma {:induction false} ChildSubtreesGrow(tree: seq<JoinNode>, node: nat, m: nat, n: nat)
    requires TreeOk(tree) && node < |tree| && m <= n <= |tree|
    ensures |ChildSubtrees(tree, node, m)| <= |ChildSubtrees(tree, node, n)|
    decreases n
  {
    if m < n {
      ChildSubtreesGrow(tree, node, m, n - 1);
    }
  }

  /** preorder: node and everything below it, depth first, into the buffer from position count on. */
  method EmitPreorder(tree: seq<JoinNode>, node: nat, buf: array<nat>, count: nat) returns (next: nat)
    requires TreeOk(tree) && node < |tree| && count + |Preorder(tree, node)| <= buf.Length
    modifies buf
    ensures next == count + |Preorder(tree, node)|
    ensures buf[..next] == old(buf[..count]) + Preorder(tree, node)
    decreases node
  {
    ghost var before := buf[..count];
    buf[count] := node;
    next := count + 1;
    assert buf[..next] == before + [node] + ChildSubtrees(tree, node, 0);
    for c := 0 to |tree|
      invariant next == count + 1 + |ChildSubtrees(tree, node, c)| <= buf.Length
      invariant buf[..next] == before + [node] + ChildSubtrees(tree, node, c)
    {
      ChildSubtreesGrow(tree, node, c + 1, |tree|);
      if tree[c].parentIdx == node {
        next := EmitPreorder(tree, c, buf, next);
        assert ChildSubtrees(tree, node, c + 1) == ChildSubtrees(tree, node, c) + Preorder(tree, c);
      }
    }
    assert before + [node] + ChildSubtrees(tree, node, |tree|) == before + Preorder(tree, node);
  }

  /** The node without a parent. */
  method FindRoot(tree: seq<JoinNode>) returns (root: nat)
    requires TreeOk(tree)
    ensures root == |tree| - 1
  {
    root := |tree|;
    for k := 0 to |tree|
      invariant k < |tree| ==> root == |tree|
      invariant k == |tree| ==> root == |tree| - 1
    {
      if tree[k].parentIdx < 0 {
        root := k;
      }
    }
  }

  // ---- The invariant between attaches ----

  /** The result holds each partial tuple over the attached nodes as often as its weight says. */
  ghost predicate Aligned(res: ResultTable, tree: seq<JoinNode>, db: seq<seq<Entry>>, widths: seq<nat>, ts: seq<Tuple>, order: seq<nat>)
    reads res, res.rows
  {
    && Stage(tree, db, ts, Members(order))
    && Represents(Attrs(res.rows[..]), tree, db, ts, order)
    && Shaped(res.rows[..], res.width)
    && res.width == Width(order, widths)
  }

  /** Every edge names columns that its tables have. */
  ghost predicate ColumnsExist(tree: seq<JoinNode>, widths: seq<nat>)
    requires TreeOk(tree)
  {
    |widths| == |tree| && forall k :: IsEdge(tree, k) ==>
      tree[k].joinCol < widths[k] && tree[k].parentJoinCol < widths[Parent(tree, k)]
  }

  /** What the earlier phases hand over. */
  ghost predicate Prepared(tree: seq<JoinNode>, db: seq<seq<Entry>>, widths: seq<nat>) {
    && Counted(tree, db) && RowsWide(Data(db), widths) && ColumnsExist(tree, widths)
    && forall k :: 0 <= k < |db| ==> PlainRows(db[k]) && Untagged(db[k])
  }

  lemma ExpandedShape(t: seq<Entry>, n: nat, width: nat)
    requires Counts(t) && Untagged(t) && n <= |t| && forall i :: 0 <= i < |t| ==> |t[i].attributes| == width
    ensures TShaped(Expanded(t, n), width)
  {
    if n > 0 {
      ExpandedShape(t, n - 1, width);
      var prev: seq<TRow>, run: seq<TRow> := Expanded(t, n - 1), CopiesOf(t, n - 1);
      forall k | 0 <= k < |prev + run|
        ensures (prev + run)[k].fieldType == NullValue && |(prev + run)[k].attributes| == width
      {
        if k < |prev| {
          assert (prev + run)[k] == prev[k];
        } else {
          var j := k - |prev|;
          assert run[j] == RowOf(t[n - 1], Offset(t, n - 1), Offset(t, n - 1) + j);
        }
      }
    }
  }

  lemma NodeShape(tree: seq<JoinNode>, db: seq<seq<Entry>>, widths: seq<nat>, k: nat)
    requires Prepared(tree, db, widths) && k < |db|
    ensures TShaped(Expanded(db[k], |db[k]|), widths[k])
  {
    forall i | 0 <= i < |db[k]| ensures |db[k][i].attributes| == widths[k] {
      assert |Data(db)[k][i]| == widths[k];
    }
    ExpandedShape(db[k], |db[k]|, widths[k]);
  }

  /** The child has as many rows as the accumulator. */
  lemma SizesAgree(a: Attachment, acc: seq<Row>)
    requires a.Ready() && Represents(acc, a.tree, a.db, a.ts, a.order) && PlainRows(a.db[a.c])
    requires forall i :: 0 <= i < |acc| ==> |acc[i]| == Width(a.order, a.widths)
    ensures |acc| == |Expanded(a.db[a.c], |a.db[a.c]|)|
    ensures Keyed(Expanded(a.db[a.c], |a.db[a.c]|), a.tree[a.c].joinCol) == a.KeyedChild()
  {
    KeyedExpanded(a.db[a.c], a.tree[a.c].joinCol, |a.db[a.c]|);
    AllKeysBelow(a);
    assert a.Rows()[..|a.Rows()|] == a.Rows();
    AccumulatorTotal(acc, a.tree, a.db, a.ts, a.order, a.widths, a.c, One());
    TotalConstant(acc, 1, One());
    TotalExt(a.Rows(), Times(a.Size(), One()), a.Size());
  }

  // ---- One attach inside the traversal ----

  /** Node c attached to the result over the nodes in order: the invariant holds with c. */
  method AttachNode(res: ResultTable, child: array<TRow>, tree: seq<JoinNode>, widths: seq<nat>, c: nat, parentCol: nat,
                    ghost db: seq<seq<Entry>>, ghost ts: seq<Tuple>, ghost order: seq<nat>)
    returns (ghost us: seq<Tuple>)
    requires Prepared(tree, db, widths) && Aligned(res, tree, db, widths, ts, order)
    requires Attaches(tree, Members(order), c) && parentCol == JoinColumn(tree, order, widths, c)
    requires HasCopies(child[..], db[c])
    modifies res, res.rows, child
    ensures fresh(res.rows) && Aligned(res, tree, db, widths, us, order + [c])
  {
    ghost var a := Attachment(tree, db, ts, order, widths, c);
    ghost var acc := Attrs(res.rows[..]);
    AttachReady(a);
    ColumnInside(order, widths, Parent(tree, c), tree[c].parentJoinCol);
    SizesAgree(a, acc);
    NodeShape(tree, db, widths, c);
    ghost var s, cs := AttachChild(res, child, widths[c], parentCol, tree[c].joinCol);
    AttachRepresents(a, acc, s, cs);
    us := Extend(tree, Data(db), ts, c);
    WidthStep(order, widths, c);
  }

  lemma AttachReady(a: Attachment)
    requires Prepared(a.tree, a.db, a.widths) && Stage(a.tree, a.db, a.ts, Members(a.order))
    requires Attaches(a.tree, Members(a.order), a.c)
    ensures a.Ready()
  {
  }

  lemma {:induction false} ColumnInside(order: seq<nat>, widths: seq<nat>, k: nat, j: nat)
    requires k in order && j < WidthOf(widths, k)
    ensures ColOffset(order, widths, k) + j < Width(order, widths)
  {
    var front, last := order[..|order| - 1], order[|order| - 1];
    if last != k {
      assert order == front + [last];
      ColumnInside(front, widths, k, j);
    }
  }

  lemma WidthStep(order: seq<nat>, widths: seq<nat>, c: nat)
    requires c < |widths|
    ensures Width(order + [c], widths) == Width(order, widths) + widths[c]
  {
    assert (order + [c])[..|order|] == order;
  }

  // ---- The traversal ----

  /** The expanded tables of the nodes not yet attached are still there. */
  ghost predicate Waiting(expanded: seq<array<TRow>>, db: seq<seq<Entry>>, order: seq<nat>)
    reads expanded
  {
    |expanded| == |db| && forall k :: 0 <= k < |db| && k !in order ==> HasCopies(expanded[k][..], db[k])
  }

  ghost predicate HasCopies(s: seq<TRow>, t: seq<Entry>) {
    Counts(t) && s == Expanded(t, |t|)
  }

  ghost predicate Separate(expanded: seq<array<TRow>>) {
    forall i, j :: 0 <= i < j < |expanded| ==> expanded[i] != expanded[j]
  }

  /** col_off of every attached node is where its columns start. */
  ghost predicate Placed(colOff: seq<nat>, order: seq<nat>, widths: seq<nat>) {
    forall k :: k in order ==> k < |colOff| && colOff[k] == ColOffset(order, widths, k)
  }

  lemma PlacedStep(colOff: seq<nat>, order: seq<nat>, widths: seq<nat>, c: nat)
    requires Placed(colOff, order, widths) && c !in order && c < |colOff|
    ensures Placed(colOff[c := Width(order, widths)], order + [c], widths)
  {
    assert (order + [c])[..|order|] == order;
    forall k | k in order + [c]
      ensures k < |colOff| && colOff[c := Width(order, widths)][k] == ColOffset(order + [c], widths, k)
    {
      assert k == c || k in order;
    }
  }

  /** The accumulator starts as the root's expanded table. */
  method StartResult(rootRows: array<TRow>, tree: seq<JoinNode>, widths: seq<nat>, root: nat, ghost db: seq<seq<Entry>>)
    returns (res: ResultTable)
    requires Prepared(tree, db, widths) && root == |tree| - 1
    requires HasCopies(rootRows[..], db[root])
    ensures fresh(res) && fresh(res.rows)
    ensures Aligned(res, tree, db, widths, RootTuples(root, |db[root]|), [root])
  {
    RootStage(tree, db);
    RootRepresents(tree, db);
    NodeShape(tree, db, widths, root);
    var rows := ToAccumulator(rootRows);
    res := new ResultTable(rows, widths[root]);
    assert Attrs(rows[..]) == TAttrs(rootRows[..]);
    assert Width([root], widths) == widths[root] by {
      WidthStep([], widths, root);
      assert [] + [root] == [root];
    }
  }

  /** col_off of the next node: the width so far. */
  method RecordOffset(colOff: array<nat>, c: nat, width: nat, ghost order: seq<nat>, ghost widths: seq<nat>)
    requires Placed(colOff[..], order, widths) && c !in order && c < colOff.Length && width == Width(order, widths)
    modifies colOff
    ensures Placed(colOff[..], order + [c], widths)
  {
    PlacedStep(colOff[..], order, widths, c);
    colOff[c] := width;
  }

  lemma OldOffset(colOff: seq<nat>, order: seq<nat>, widths: seq<nat>, c: nat, v: nat)
    requires Placed(colOff, order + [c], widths) && v in order && c !in order
    ensures v < |colOff| && colOff[v] == ColOffset(order, widths, v)
  {
    assert (order + [c])[..|order|] == order;
    assert v in order + [c];
  }

  /** Attaching node c leaves the tables of the other nodes alone. */
  method AttachWaiting(res: ResultTable, expanded: seq<array<TRow>>, tree: seq<JoinNode>, widths: seq<nat>, c: nat, parentCol: nat,
                       ghost db: seq<seq<Entry>>, ghost was: seq<Tuple>, ghost order: seq<nat>)
    returns (ghost ts: seq<Tuple>)
    requires Prepared(tree, db, widths) && Separate(expanded) && Waiting(expanded, db, order)
    requires Aligned(res, tree, db, widths, was, order)
    requires Attaches(tree, Members(order), c) && parentCol == JoinColumn(tree, order, widths, c)
    modifies res, res.rows, expanded[c]
    ensures fresh(res.rows) && Aligned(res, tree, db, widths, ts, order + [c])
    ensures Waiting(expanded, db, order + [c])
  {
    ghost var rest := ExpandedRest(expanded, c);
    ts := AttachNode(res, expanded[c], tree, widths, c, parentCol, db, was, order);
    assert ExpandedRest(expanded, c) == rest;
    forall k | 0 <= k < |db| && k !in order + [c] ensures HasCopies(expanded[k][..], db[k]) {
      assert k != c && k !in order;
      assert expanded[k][..] == rest[k];
    }
  }

  ghost function ExpandedRest(expanded: seq<array<TRow>>, c: nat): (r: seq<seq<TRow>>)
    reads expanded
    ensures |r| == |expanded|
  {
    seq(|expanded|, k requires 0 <= k < |expanded| reads expanded => if k == c then [] else expanded[k][..])
  }

  /** The traversal's state after the children below m of the s-th parent. */
  ghost predicate Traversed(res: ResultTable, expanded: seq<array<TRow>>, colOff: array<nat>, tree: seq<JoinNode>, widths: seq<nat>,
                            db: seq<seq<Entry>>, ts: seq<Tuple>, order: seq<nat>)
    reads res, res.rows, expanded, colOff
  {
    && Aligned(res, tree, db, widths, ts, order)
    && Waiting(expanded, db, order)
    && Placed(colOff[..], order, widths) && colOff.Length == |tree|
  }

  method AttachNext(res: ResultTable, expanded: seq<array<TRow>>, tree: seq<JoinNode>, widths: seq<nat>, colOff: array<nat>,
                    v: nat, c: nat, ghost db: seq<seq<Entry>>, ghost was: seq<Tuple>, ghost order: seq<nat>)
    returns (ghost ts: seq<Tuple>)
    requires Prepared(tree, db, widths) && Separate(expanded)
    requires Attaches(tree, Members(order), c) && v == Parent(tree, c)
    requires Traversed(res, expanded, colOff, tree, widths, db, was, order)
    modifies res, res.rows, expanded[c], colOff
    ensures fresh(res.rows)
    ensures Traversed(res, expanded, colOff, tree, widths, db, ts, order + [c])
  {
    RecordOffset(colOff, c, res.width, order, widths);
    OldOffset(colOff[..], order, widths, c, v);
    ts := AttachWaiting(res, expanded, tree, widths, c, colOff[v] + tree[c].parentJoinCol, db, was, order);
  }

  lemma NextSkips(tree: seq<JoinNode>, s: nat, c: nat)
    requires TreeOk(tree) && s < |RootOrder(tree)| && c < |tree| && tree[c].parentIdx != RootOrder(tree)[s]
    ensures OrderAt(tree, s, c + 1) == OrderAt(tree, s, c)
  {
  }

  /** One step of the inner loop: attach c if v is its parent. */
  method VisitChild(res: ResultTable, expanded: seq<array<TRow>>, tree: seq<JoinNode>, widths: seq<nat>, colOff: array<nat>,
                    v: nat, c: nat, ghost s: nat, ghost db: seq<seq<Entry>>, ghost was: seq<Tuple>)
    returns (ghost ts: seq<Tuple>)
    requires Prepared(tree, db, widths) && Separate(expanded)
    requires s < |RootOrder(tree)| && v == RootOrder(tree)[s] && c < |tree|
    requires Traversed(res, expanded, colOff, tree, widths, db, was, OrderAt(tree, s, c))
    modifies res, res.rows, expanded, colOff
    ensures fresh(res.rows) || res.rows == old(res.rows)
    ensures Traversed(res, expanded, colOff, tree, widths, db, ts, OrderAt(tree, s, c + 1))
  {
    if tree[c].parentIdx == v {
      NextAttaches(tree, s, c);
      ts := AttachNext(res, expanded, tree, widths, colOff, v, c, db, was, OrderAt(tree, s, c));
    } else {
      NextSkips(tree, s, c);
      ts := was;
    }
  }

  /** All children of the s-th parent, in array order. */
  method AttachChildren(res: ResultTable, expanded: seq<array<TRow>>, tree: seq<JoinNode>, widths: seq<nat>, colOff: array<nat>,
                        v: nat, ghost s: nat, ghost db: seq<seq<Entry>>, ghost was: seq<Tuple>)
    returns (ghost ts: seq<Tuple>)
    requires Prepared(tree, db, widths) && Separate(expanded)
    requires s < |RootOrder(tree)| && v == RootOrder(tree)[s]
    requires Traversed(res, expanded, colOff, tree, widths, db, was, OrderAt(tree, s, 0))
    modifies res, res.rows, expanded, colOff
    ensures fresh(res.rows) || res.rows == old(res.rows)
    ensures Traversed(res, expanded, colOff, tree, widths, db, ts, OrderAt(tree, s, |tree|))
  {
    ts := was;
    for c := 0 to |tree|
      invariant fresh(res.rows) || res.rows == old(res.rows)
      invariant Traversed(res, expanded, colOff, tree, widths, db, ts, OrderAt(tree, s, c))
    {
      ts := VisitChild(res, expanded, tree, widths, colOff, v, c, s, db, ts);
    }
  }

  lemma OrderTurns(tree: seq<JoinNode>, s: nat)
    requires TreeOk(tree) && s < |RootOrder(tree)|
    ensures OrderAt(tree, s, 0) == AttachUpTo(tree, RootOrder(tree), s)
    ensures OrderAt(tree, s, |tree|) == AttachUpTo(tree, RootOrder(tree), s + 1)
  {
  }

  /** The node sequence that the attach loop follows. */
  method Traversal(tree: seq<JoinNode>, root: nat) returns (order: array<nat>, count: nat)
    requires TreeOk(tree) && root == |tree| - 1
    ensures fresh(order) && count <= order.Length && order[..count] == RootOrder(tree)
  {
    order := new nat[|tree|](_ => 0);
    RootOrderFits(tree);
    count := EmitPreorder(tree, root, order, 0);
  }

  /** The double loop: for each parent in pre-order, its children. */
  method AttachAll(res: ResultTable, expanded: seq<array<TRow>>, tree: seq<JoinNode>, widths: seq<nat>, colOff: array<nat>,
                   order: array<nat>, count: nat, ghost db: seq<seq<Entry>>, ghost was: seq<Tuple>)
    returns (ghost ts: seq<Tuple>)
    requires Prepared(tree, db, widths) && Separate(expanded)
    requires order != colOff && count <= order.Length && order[..count] == RootOrder(tree)
    requires Traversed(res, expanded, colOff, tree, widths, db, was, AttachUpTo(tree, RootOrder(tree), 0))
    modifies res, res.rows, expanded, colOff
    ensures fresh(res.rows) || res.rows == old(res.rows)
    ensures Traversed(res, expanded, colOff, tree, widths, db, ts, AttachOrder(tree))
  {
    ts := was;
    ghost var pre := RootOrder(tree);
    for s := 0 to count
      invariant fresh(res.rows) || res.rows == old(res.rows)
      invariant order[..count] == pre
      invariant Traversed(res, expanded, colOff, tree, widths, db, ts, AttachUpTo(tree, pre, s))
    {
      OrderTurns(tree, s);
      assert order[s] == pre[s];
      ts := AttachChildren(res, expanded, tree, widths, colOff, order[s], s, db, ts);
    }
  }

  lemma RootPlaced(colOff: seq<nat>, root: nat, widths: seq<nat>)
    requires root < |colOff| && colOff[root] == 0
    ensures Placed(colOff, [root], widths)
  {
    assert [root][..0] == [];
    assert Width([], widths) == 0;
  }

  /** The root's table becomes the result; its columns start at 0. */
  method StartTraversal(expanded: seq<array<TRow>>, tree: seq<JoinNode>, widths: seq<nat>, root: nat, ghost db: seq<seq<Entry>>)
    returns (res: ResultTable, colOff: array<nat>)
    requires Prepared(tree, db, widths) && root == |tree| - 1 && Waiting(expanded, db, [])
    ensures fresh(res) && fresh(res.rows) && fresh(colOff)
    ensures Traversed(res, expanded, colOff, tree, widths, db, RootTuples(root, |db[root]|), AttachUpTo(tree, RootOrder(tree), 0))
  {
    colOff := new nat[|tree|](_ => 0);
    RootPlaced(colOff[..], root, widths);
    assert root !in [];
    res := StartResult(expanded[root], tree, widths, root, db);
  }

  lemma AllAligned(acc: seq<Row>, tree: seq<JoinNode>, db: seq<seq<Entry>>, ts: seq<Tuple>)
    requires TreeOk(tree) && Stage(tree, db, ts, Members(AttachOrder(tree))) && Represents(acc, tree, db, ts, AttachOrder(tree))
    ensures ListsJoin(ts, tree, Data(db)) && IsJoin(acc, tree, Data(db), AttachOrder(tree))
  {
    AttachOrderComplete(tree);
    CompleteIsJoin(acc, tree, db, ts, AttachOrder(tree));
    JoinEveryListing(acc, tree, db, ts, AttachOrder(tree));
  }

  /** align_concat: the result is the join, its columns in attach order. */
  method AlignTables(expanded: seq<array<TRow>>, tree: seq<JoinNode>, widths: seq<nat>, ghost db: seq<seq<Entry>>)
    returns (res: ResultTable, ghost ts: seq<Tuple>)
    requires Prepared(tree, db, widths) && Separate(expanded)
    requires Waiting(expanded, db, [])
    modifies expanded
    ensures fresh(res) && fresh(res.rows)
    ensures ListsJoin(ts, tree, Data(db))
    ensures IsJoin(Attrs(res.rows[..]), tree, Data(db), AttachOrder(tree))
    ensures res.width == Width(AttachOrder(tree), widths)
  {
    var root := FindRoot(tree);
    var order, count := Traversal(tree, root);
    var colOff;
    res, colOff := StartTraversal(expanded, tree, widths, root, db);
    ts := AttachAll(res, expanded, tree, widths, colOff, order, count, db, RootTuples(root, |db[root]|));
    AllAligned(Attrs(res.rows[..]), tree, db, ts);
  }
}
