/** The host's copy of the column layout: it names every column of the enclave's result at the index where it is. */
module HostLayout {
  import opened Totals
  import opened Records
  import opened JoinTree
  import opened JoinSpec
  import opened Columns

  datatype ResultCol = ResultCol(table: string, name: string)

  datatype LoadedTable = LoadedTable(name: string, colNames: seq<string>)

  /** Every node names a loaded table. */
  ghost predicate TablesLoaded(tree: seq<JoinNode>, tables: seq<LoadedTable>) {
    forall k :: 0 <= k < |tree| ==> tree[k].tableIdx < |tables|
  }

  /** Columns per node. */
  ghost function Widths(tree: seq<JoinNode>, tables: seq<LoadedTable>): (r: seq<nat>)
    requires TablesLoaded(tree, tables)
    ensures |r| == |tree|
  {
    seq(|tree|, k requires 0 <= k < |tree| => |tables[tree[k].tableIdx].colNames|)
  }

  function ColsOf(lt: LoadedTable): (r: seq<ResultCol>)
    ensures |r| == |lt.colNames|
  {
    seq(|lt.colNames|, c requires 0 <= c < |lt.colNames| => ResultCol(lt.name, lt.colNames[c]))
  }

  /** The columns of the given nodes, one node after the other. */
  ghost function LayoutOf(tree: seq<JoinNode>, tables: seq<LoadedTable>, order: seq<nat>): seq<ResultCol>
    requires TablesLoaded(tree, tables)
  {
    if order == [] then [] else LayoutOf(tree, tables, order[..|order| - 1]) + ColsAt(tree, tables, order[|order| - 1])
  }

  ghost function ColsAt(tree: seq<JoinNode>, tables: seq<LoadedTable>, k: nat): (r: seq<ResultCol>)
    requires TablesLoaded(tree, tables)
    ensures |r| == WidthOf(Widths(tree, tables), k)
  {
    if k < |tree| then ColsOf(tables[tree[k].tableIdx]) else []
  }

  lemma LayoutSnoc(tree: seq<JoinNode>, tables: seq<LoadedTable>, order: seq<nat>, k: nat)
    requires TablesLoaded(tree, tables)
    ensures LayoutOf(tree, tables, order + [k]) == LayoutOf(tree, tables, order) + ColsAt(tree, tables, k)
  {
    assert (order + [k])[..|order|] == order;
  }

  // ---- Column positions ----

  /** Column j of node k is where the enclave keeps it. */
  lemma {:induction false} LayoutColumn(tree: seq<JoinNode>, tables: seq<LoadedTable>, order: seq<nat>, k: nat, j: nat)
    requires TablesLoaded(tree, tables)
    requires k in order && k < |tree| && j < |tables[tree[k].tableIdx].colNames|
    ensures var i := ColOffset(order, Widths(tree, tables), k) + j; var lt := tables[tree[k].tableIdx];
      i < |LayoutOf(tree, tables, order)| && LayoutOf(tree, tables, order)[i] == ResultCol(lt.name, lt.colNames[j])
  {
    var front, last := order[..|order| - 1], order[|order| - 1];
    LayoutWidth(tree, tables, front);
    if last != k {
      assert order == front + [last];
      LayoutColumn(tree, tables, front, k, j);
    }
  }

  lemma {:induction false} LayoutWidth(tree: seq<JoinNode>, tables: seq<LoadedTable>, order: seq<nat>)
    requires TablesLoaded(tree, tables)
    ensures |LayoutOf(tree, tables, order)| == Width(order, Widths(tree, tables))
  {
    if order != [] {
      LayoutWidth(tree, tables, order[..|order| - 1]);
    }
  }

  /** Every column index belongs to some column of some node. */
  lemma {:induction false} ColumnOwner(order: seq<nat>, widths: seq<nat>, i: nat) returns (k: nat, j: nat)
    requires NoRepeats(order) && i < Width(order, widths)
    ensures k in order && j < WidthOf(widths, k) && i == ColOffset(order, widths, k) + j
  {
    var front, last := order[..|order| - 1], order[|order| - 1];
    if i < Width(front, widths) {
      k, j := ColumnOwner(front, widths, i);
      assert k in front;
    } else {
      k, j := last, i - Width(front, widths);
    }
  }

  /** Different columns have different indices. */
  lemma {:induction false} ColumnsApart(order: seq<nat>, widths: seq<nat>, k: nat, j: nat, l: nat, m: nat)
    requires k in order && l in order && j < WidthOf(widths, k) && m < WidthOf(widths, l)
    requires ColOffset(order, widths, k) + j == ColOffset(order, widths, l) + m
    ensures k == l && j == m
  {
    var front, last := order[..|order| - 1], order[|order| - 1];
    assert order == front + [last];
    if k != last && l != last {
      ColumnsApart(front, widths, k, j, l, m);
    } else if k != last {
      ColumnBelow(front, widths, k, j);
    } else if l != last {
      ColumnBelow(front, widths, l, m);
    }
  }

  lemma {:induction false} ColumnBelow(order: seq<nat>, widths: seq<nat>, k: nat, j: nat)
    requires k in order && j < WidthOf(widths, k)
    ensures ColOffset(order, widths, k) + j < Width(order, widths)
  {
    var front, last := order[..|order| - 1], order[|order| - 1];
    if k != last {
      assert order == front + [last];
      ColumnBelow(front, widths, k, j);
    }
  }

  /**
   * Host and enclave agree: index i of the layout names column j of node k exactly if column i of every result row is
   * column j of the row that the tuple chose for node k.
   */
  lemma LayoutMatchesRows(tree: seq<JoinNode>, tables: seq<LoadedTable>, data: seq<seq<seq<int>>>, t: Tuple, i: nat) returns (k: nat, j: nat)
    requires TreeOk(tree) && TablesLoaded(tree, tables) && JoinTuple(tree, data, t) && |data| == |tree|
    requires RowsWide(data, Widths(tree, tables)) && i < Width(AttachOrder(tree), Widths(tree, tables))
    ensures |Content(AttachOrder(tree), data, t)| == Width(AttachOrder(tree), Widths(tree, tables))
    ensures k < |tree| && j < |tables[tree[k].tableIdx].colNames|
    ensures Content(AttachOrder(tree), data, t)[i] == RowAt(data, t, k)[j]
    ensures |LayoutOf(tree, tables, AttachOrder(tree))| == Width(AttachOrder(tree), Widths(tree, tables))
    ensures LayoutOf(tree, tables, AttachOrder(tree))[i] == ResultCol(tables[tree[k].tableIdx].name, tables[tree[k].tableIdx].colNames[j])
  {
    var order, widths := AttachOrder(tree), Widths(tree, tables);
    AttachOrderComplete(tree);
    k, j := ColumnOwner(order, widths, i);
    ContentWidth(order, data, widths, t);
    ContentColumn(order, data, widths, t, k, j);
    LayoutColumn(tree, tables, order, k, j);
    LayoutWidth(tree, tables, order);
  }

  // ---- The host code ----

  /** preorder_nodes: appends node and everything below it. */
  method PreorderNodes(tree: seq<JoinNode>, node: nat, sofar: seq<nat>) returns (r: seq<nat>)
    requires TreeOk(tree) && node < |tree|
    ensures r == sofar + Preorder(tree, node)
    decreases node
  {
    r := sofar + [node];
    for k := 0 to |tree|
      invariant r == sofar + ([node] + ChildSubtrees(tree, node, k))
    {
      if tree[k].parentIdx == node {
        r := PreorderNodes(tree, k, r);
      }
    }
  }

  /** result_layout: the root's columns, then for each parent in pre-order its children's columns. */
  method ResultLayout(tree: seq<JoinNode>, tables: seq<LoadedTable>) returns (layout: seq<ResultCol>)
    requires TreeOk(tree) && TablesLoaded(tree, tables)
    ensures layout == LayoutOf(tree, tables, AttachOrder(tree))
  {
    var nodes := RootNodes(tree);
    RootLayout(tree, tables, |tree| - 1);
    layout := AddAllChildren(tree, tables, nodes, ColsOf(tables[tree[nodes[0]].tableIdx]));
  }

  method AddAllChildren(tree: seq<JoinNode>, tables: seq<LoadedTable>, nodes: seq<nat>, rootCols: seq<ResultCol>) returns (layout: seq<ResultCol>)
    requires |tree| > 0 && TablesLoaded(tree, tables) && rootCols == LayoutOf(tree, tables, [|tree| - 1])
    ensures layout == LayoutOf(tree, tables, AttachUpTo(tree, nodes, |nodes|))
  {
    layout := rootCols;
    for s := 0 to |nodes|
      invariant layout == LayoutOf(tree, tables, AttachUpTo(tree, nodes, s))
    {
      layout := AddChildren(tree, tables, nodes[s], AttachUpTo(tree, nodes, s), layout);
    }
  }

  lemma RootLayout(tree: seq<JoinNode>, tables: seq<LoadedTable>, root: nat)
    requires TablesLoaded(tree, tables) && root < |tree|
    ensures LayoutOf(tree, tables, [root]) == ColsOf(tables[tree[root].tableIdx])
  {
    LayoutSnoc(tree, tables, [], root);
    assert [] + [root] == [root];
  }

  method RootNodes(tree: seq<JoinNode>) returns (nodes: seq<nat>)
    requires TreeOk(tree)
    ensures nodes == RootOrder(tree) && nodes[0] == |tree| - 1
  {
    nodes := [];
    for k := 0 to |tree|
      invariant nodes == if k < |tree| then [] else RootOrder(tree)
    {
      if tree[k].parentIdx < 0 {
        nodes := PreorderNodes(tree, k, nodes);
      }
    }
  }

  /** The columns of the children of v after those of the nodes in a. */
  method AddChildren(tree: seq<JoinNode>, tables: seq<LoadedTable>, v: nat, ghost a: seq<nat>, sofar: seq<ResultCol>) returns (layout: seq<ResultCol>)
    requires TablesLoaded(tree, tables) && sofar == LayoutOf(tree, tables, a)
    ensures layout == LayoutOf(tree, tables, a + KidsOf(tree, v, |tree|))
  {
    ghost var cur := a;
    layout := sofar;
    for k := 0 to |tree|
      invariant cur == a + KidsOf(tree, v, k) && layout == LayoutOf(tree, tables, cur)
    {
      KidsStep(tree, v, a, k);
      if tree[k].parentIdx == v {
        LayoutSnoc(tree, tables, cur, k);
        cur := cur + [k];
        layout := layout + ColsOf(tables[tree[k].tableIdx]);
      }
    }
  }

  lemma KidsStep(tree: seq<JoinNode>, v: nat, a: seq<nat>, k: nat)
    requires k < |tree|
    ensures a + KidsOf(tree, v, k + 1) == (a + KidsOf(tree, v, k)) + if tree[k].parentIdx == v then [k] else []
  {
  }
}
