/** The attach order of the nodes and the column layout of the result, in the enclave and on the host. */
module Columns {
  import opened Totals
  import opened Records
  import opened JoinTree
  import opened JoinSpec

  // ---- Pre-order ----

  /** The subtrees of the children of node with index below m. */
  ghost function ChildSubtrees(tree: seq<JoinNode>, node: nat, m: nat): (r: seq<nat>)
    requires TreeOk(tree) && node < |tree| && m <= |tree|
    decreases node, m
  {
    if m == 0 then []
    else if IsEdge(tree, m - 1) && Parent(tree, m - 1) == node
    then ChildSubtrees(tree, node, m - 1) + Preorder(tree, m - 1)
    else ChildSubtrees(tree, node, m - 1)
  }

  /** node, then the subtrees of its children in array order. */
  ghost function Preorder(tree: seq<JoinNode>, node: nat): (r: seq<nat>)
    requires TreeOk(tree) && node < |tree|
    decreases node, |tree| + 1
  {
    [node] + ChildSubtrees(tree, node, |tree|)
  }

  /** node is x or above x. */
  ghost predicate Below(tree: seq<JoinNode>, x: nat, node: nat)
    requires TreeOk(tree) && x < |tree|
    decreases |tree| - x
  {
    x == node || (IsEdge(tree, x) && Below(tree, Parent(tree, x), node))
  }

  lemma {:induction false} BelowBounds(tree: seq<JoinNode>, x: nat, node: nat)
    requires TreeOk(tree) && x < |tree| && Below(tree, x, node)
    ensures x <= node < |tree|
    decreases |tree| - x
  {
    if x != node {
      BelowBounds(tree, Parent(tree, x), node);
    }
  }

  lemma {:induction false} BelowChain(tree: seq<JoinNode>, x: nat, y: nat, z: nat)
    requires TreeOk(tree) && x < |tree| && y < |tree| && Below(tree, x, y) && Below(tree, y, z)
    ensures Below(tree, x, z)
    decreases |tree| - x
  {
    if x != y {
      BelowChain(tree, Parent(tree, x), y, z);
    }
  }

  /** Anything below two nodes puts one of them below the other. */
  lemma {:induction false} BelowBoth(tree: seq<JoinNode>, x: nat, y: nat, z: nat)
    requires TreeOk(tree) && x < |tree| && Below(tree, x, y) && Below(tree, x, z) && y <= z
    ensures y < |tree| && Below(tree, y, z)
    decreases |tree| - x
  {
    BelowBounds(tree, x, y);
    if x != y && x != z {
      BelowBoth(tree, Parent(tree, x), y, z);
    }
  }

  /** Two children of one node have nothing below both. */
  lemma SiblingsApart(tree: seq<JoinNode>, x: nat, c: nat, d: nat)
    requires TreeOk(tree) && x < |tree| && c < d && IsEdge(tree, c) && IsEdge(tree, d) && Parent(tree, c) == Parent(tree, d)
    ensures !(Below(tree, x, c) && Below(tree, x, d))
  {
    if Below(tree, x, c) && Below(tree, x, d) {
      BelowBoth(tree, x, c, d);
      BelowBounds(tree, Parent(tree, c), d);
    }
  }

  lemma {:induction false} ChildSubtreesMembers(tree: seq<JoinNode>, node: nat, m: nat)
    requires TreeOk(tree) && node < |tree| && m <= |tree|
    ensures forall x :: x in ChildSubtrees(tree, node, m) ==> x < node && Below(tree, x, node)
    ensures forall c: nat, x: nat :: c < m && IsEdge(tree, c) && Parent(tree, c) == node && x in Preorder(tree, c) ==>
      x in ChildSubtrees(tree, node, m)
    ensures forall x :: x in ChildSubtrees(tree, node, m) ==>
      exists c: nat :: c < m && IsEdge(tree, c) && Parent(tree, c) == node && x in Preorder(tree, c)
    decreases node, m
  {
    if m > 0 {
      ChildSubtreesMembers(tree, node, m - 1);
      var c := m - 1;
      if IsEdge(tree, c) && Parent(tree, c) == node {
        PreorderMembers(tree, c);
        forall x | x in Preorder(tree, c) ensures x < node && Below(tree, x, node) {
          BelowChain(tree, x, c, node);
        }
      }
    }
  }

  /** The pre-order of node holds what is below node. */
  lemma {:induction false} PreorderMembers(tree: seq<JoinNode>, node: nat)
    requires TreeOk(tree) && node < |tree|
    ensures forall x :: x in Preorder(tree, node) ==> x <= node && Below(tree, x, node)
    decreases node, |tree| + 1
  {
    ChildSubtreesMembers(tree, node, |tree|);
  }

  lemma {:induction false} PreorderComplete(tree: seq<JoinNode>, node: nat, x: nat)
    requires TreeOk(tree) && node < |tree| && x < |tree| && Below(tree, x, node)
    ensures x in Preorder(tree, node)
    decreases node - x, node
  {
    BelowBounds(tree, x, node);
    if x != node {
      var c := Branch(tree, x, node);
      BelowBounds(tree, x, c);
      PreorderComplete(tree, c, x);
      ChildSubtreesMembers(tree, node, |tree|);
    }
  }

  /** The child of node that x is below. */
  lemma {:induction false} Branch(tree: seq<JoinNode>, x: nat, node: nat) returns (c: nat)
    requires TreeOk(tree) && x < |tree| && Below(tree, x, node) && x != node
    ensures IsEdge(tree, c) && Parent(tree, c) == node && Below(tree, x, c)
    decreases |tree| - x
  {
    if Parent(tree, x) == node {
      c := x;
    } else {
      c := Branch(tree, Parent(tree, x), node);
    }
  }

  lemma {:induction false} AllBelowRoot(tree: seq<JoinNode>, x: nat)
    requires TreeOk(tree) && x < |tree|
    ensures Below(tree, x, |tree| - 1)
    decreases |tree| - x
  {
    if x < |tree| - 1 {
      AllBelowRoot(tree, Parent(tree, x));
    }
  }

  lemma {:induction false} ChildSubtreesOnce(tree: seq<JoinNode>, node: nat, m: nat)
    requires TreeOk(tree) && node < |tree| && m <= |tree|
    ensures NoRepeats(ChildSubtrees(tree, node, m))
    decreases node, m
  {
    if m > 0 {
      var c := m - 1;
      ChildSubtreesOnce(tree, node, c);
      if IsEdge(tree, c) && Parent(tree, c) == node {
        PreorderOnce(tree, c);
        forall x | x in ChildSubtrees(tree, node, c) ensures x !in Preorder(tree, c) {
          ChildSubtreesMembers(tree, node, c);
          PreorderMembers(tree, c);
          var d: nat :| d < c && IsEdge(tree, d) && Parent(tree, d) == node && x in Preorder(tree, d);
          PreorderMembers(tree, d);
          SiblingsApart(tree, x, d, c);
        }
        NoRepeatsConcat(ChildSubtrees(tree, node, c), Preorder(tree, c));
      }
    }
  }

  lemma {:induction false} PreorderOnce(tree: seq<JoinNode>, node: nat)
    requires TreeOk(tree) && node < |tree|
    ensures NoRepeats(Preorder(tree, node))
    decreases node, |tree| + 1
  {
    ChildSubtreesOnce(tree, node, |tree|);
    ChildSubtreesMembers(tree, node, |tree|);
    NoRepeatsConcat([node], ChildSubtrees(tree, node, |tree|));
  }

  /** Parents come before their children. */
  ghost predicate ParentsFirst(tree: seq<JoinNode>, s: seq<nat>, node: nat)
    requires TreeOk(tree)
  {
    forall i :: 0 <= i < |s| && s[i] != node ==> IsEdge(tree, s[i]) && (Parent(tree, s[i]) == node || Parent(tree, s[i]) in s[..i])
  }

  lemma ParentsFirstConcat(tree: seq<JoinNode>, s: seq<nat>, t: seq<nat>, node: nat, c: nat)
    requires TreeOk(tree) && IsEdge(tree, c) && Parent(tree, c) == node
    requires ParentsFirst(tree, s, node) && RootedAt(tree, t, c)
    ensures ParentsFirst(tree, s + t, node)
  {
    forall i | 0 <= i < |s + t| && (s + t)[i] != node
      ensures IsEdge(tree, (s + t)[i])
      ensures Parent(tree, (s + t)[i]) == node || Parent(tree, (s + t)[i]) in (s + t)[..i]
    {
      if i < |s| {
        assert (s + t)[..i] == s[..i];
      } else {
        assert (s + t)[..i] == s + t[..i - |s|];
      }
    }
  }

  /** s starts with node, and every other element comes after its parent. */
  ghost predicate RootedAt(tree: seq<JoinNode>, s: seq<nat>, node: nat)
    requires TreeOk(tree)
  {
    s != [] && s[0] == node && forall i :: 0 < i < |s| ==> IsEdge(tree, s[i]) && Parent(tree, s[i]) in s[..i]
  }

  lemma RootFirst(tree: seq<JoinNode>, s: seq<nat>, node: nat)
    requires TreeOk(tree) && ParentsFirst(tree, s, node) && node !in s
    ensures RootedAt(tree, [node] + s, node)
  {
    var p := [node] + s;
    forall i | 0 < i < |p| ensures IsEdge(tree, p[i]) && Parent(tree, p[i]) in p[..i] {
      var k: nat := i - 1;
      assert p[i] == s[k] && s[k] in s;
      assert p[..i] == [node] + s[..k];
    }
  }

  lemma {:induction false} ChildSubtreesOrdered(tree: seq<JoinNode>, node: nat, m: nat)
    requires TreeOk(tree) && node < |tree| && m <= |tree|
    ensures ParentsFirst(tree, ChildSubtrees(tree, node, m), node)
    decreases node, m
  {
    if m > 0 {
      var c := m - 1;
      ChildSubtreesOrdered(tree, node, c);
      if IsEdge(tree, c) && Parent(tree, c) == node {
        PreorderOrdered(tree, c);
        ParentsFirstConcat(tree, ChildSubtrees(tree, node, c), Preorder(tree, c), node, c);
      }
    }
  }

  lemma {:induction false} PreorderOrdered(tree: seq<JoinNode>, node: nat)
    requires TreeOk(tree) && node < |tree|
    ensures RootedAt(tree, Preorder(tree, node), node)
    decreases node, |tree| + 1
  {
    ChildSubtreesOrdered(tree, node, |tree|);
    ChildSubtreesMembers(tree, node, |tree|);
    RootFirst(tree, ChildSubtrees(tree, node, |tree|), node);
  }

  // ---- The attach order ----

  /** The children of v with index below m, in array order. */
  ghost function KidsOf(tree: seq<JoinNode>, v: nat, m: nat): seq<nat>
    requires m <= |tree|
  {
    if m == 0 then [] else KidsOf(tree, v, m - 1) + if tree[m - 1].parentIdx == v then [m - 1] else []
  }

  /** The root, then the children of each of the first s parents. */
  ghost function AttachUpTo(tree: seq<JoinNode>, pre: seq<nat>, s: nat): seq<nat>
    requires |tree| > 0 && s <= |pre|
  {
    if s == 0 then [|tree| - 1] else AttachUpTo(tree, pre, s - 1) + KidsOf(tree, pre[s - 1], |tree|)
  }

  ghost function RootOrder(tree: seq<JoinNode>): seq<nat>
    requires TreeOk(tree)
  {
    Preorder(tree, |tree| - 1)
  }

  /** Root first, then for each parent in pre-order its children in array order. */
  ghost function AttachOrder(tree: seq<JoinNode>): seq<nat>
    requires TreeOk(tree)
  {
    AttachUpTo(tree, RootOrder(tree), |RootOrder(tree)|)
  }

  lemma {:induction false} KidsMembers(tree: seq<JoinNode>, v: nat, m: nat)
    requires TreeOk(tree) && m <= |tree|
    ensures forall x :: x in KidsOf(tree, v, m) <==> x < m && IsEdge(tree, x) && Parent(tree, x) == v
    ensures NoRepeats(KidsOf(tree, v, m))
  {
    if m > 0 {
      KidsMembers(tree, v, m - 1);
      if tree[m - 1].parentIdx == v {
        NoRepeatsConcat(KidsOf(tree, v, m - 1), [m - 1]);
      }
    }
  }

  lemma {:induction false} AttachMembers(tree: seq<JoinNode>, pre: seq<nat>, s: nat)
    requires TreeOk(tree) && s <= |pre| && NoRepeats(pre)
    ensures forall x :: x in AttachUpTo(tree, pre, s) <==> x == |tree| - 1 || (IsEdge(tree, x) && Parent(tree, x) in pre[..s])
    ensures NoRepeats(AttachUpTo(tree, pre, s))
  {
    if s > 0 {
      AttachMembers(tree, pre, s - 1);
      KidsMembers(tree, pre[s - 1], |tree|);
      var a, k := AttachUpTo(tree, pre, s - 1), KidsOf(tree, pre[s - 1], |tree|);
      assert pre[..s] == pre[..s - 1] + [pre[s - 1]];
      assert pre[s - 1] !in pre[..s - 1];
      NoRepeatsConcat(a, k);
    }
  }

  /** The order after the children below m of the s-th parent. */
  ghost function OrderAt(tree: seq<JoinNode>, s: nat, m: nat): seq<nat>
    requires TreeOk(tree) && s < |RootOrder(tree)| && m <= |tree|
  {
    AttachUpTo(tree, RootOrder(tree), s) + KidsOf(tree, RootOrder(tree)[s], m)
  }

  /** x is a child of one of the first s parents, or one of the children below m of the s-th. */
  ghost predicate KidAt(tree: seq<JoinNode>, s: nat, m: nat, x: nat)
    requires TreeOk(tree) && s < |RootOrder(tree)|
  {
    && IsEdge(tree, x)
    && (Parent(tree, x) in RootOrder(tree)[..s] || (x < m && Parent(tree, x) == RootOrder(tree)[s]))
  }

  lemma OrderAtMembers(tree: seq<JoinNode>, s: nat, m: nat)
    requires TreeOk(tree) && s < |RootOrder(tree)| && m <= |tree|
    ensures NoRepeats(OrderAt(tree, s, m))
    ensures forall x :: x in OrderAt(tree, s, m) <==> (x == |tree| - 1 || KidAt(tree, s, m, x))
  {
    var pre := RootOrder(tree);
    PreorderOnce(tree, |tree| - 1);
    AttachMembers(tree, pre, s);
    KidsMembers(tree, pre[s], m);
    assert pre[s] !in pre[..s];
    NoRepeatsConcat(AttachUpTo(tree, pre, s), KidsOf(tree, pre[s], m));
  }

  /** The s-th parent is attached before its children are. */
  lemma ParentAttached(tree: seq<JoinNode>, s: nat, m: nat)
    requires TreeOk(tree) && s < |RootOrder(tree)| && m <= |tree|
    ensures RootOrder(tree)[s] in OrderAt(tree, s, m)
  {
    OrderAtMembers(tree, s, m);
    PreorderOrdered(tree, |tree| - 1);
  }

  /** Every node attached so far has its parent attached. */
  lemma OrderClosed(tree: seq<JoinNode>, s: nat, m: nat, d: nat)
    requires TreeOk(tree) && s < |RootOrder(tree)| && m <= |tree| && d in OrderAt(tree, s, m) && IsEdge(tree, d)
    ensures Parent(tree, d) in OrderAt(tree, s, m)
  {
    var pre := RootOrder(tree);
    OrderAtMembers(tree, s, m);
    if Parent(tree, d) in pre[..s] {
      var i :| 0 <= i < s && pre[i] == Parent(tree, d);
      PreorderOrdered(tree, |tree| - 1);
      if i > 0 {
        assert Parent(tree, pre[i]) in pre[..i];
        assert forall x :: x in pre[..i] ==> x in pre[..s];
      }
    } else {
      ParentAttached(tree, s, m);
    }
  }

  /** Each attach adds a node that is new, below an attached parent, above nothing attached. */
  lemma NextAttaches(tree: seq<JoinNode>, s: nat, c: nat)
    requires TreeOk(tree) && s < |RootOrder(tree)| && c < |tree| && tree[c].parentIdx == RootOrder(tree)[s]
    ensures Attaches(tree, Members(OrderAt(tree, s, c)), c)
    ensures OrderAt(tree, s, c + 1) == OrderAt(tree, s, c) + [c]
  {
    var pre := RootOrder(tree);
    OrderAtMembers(tree, s, c);
    ParentAttached(tree, s, c);
    PreorderOnce(tree, |tree| - 1);
    assert pre[s] !in pre[..s];
    assert c !in OrderAt(tree, s, c);
    forall d | d in OrderAt(tree, s, c) && IsEdge(tree, d) ensures Parent(tree, d) != c {
      OrderClosed(tree, s, c, d);
    }
  }

  /** In the end every node is attached, once. */
  lemma AttachOrderComplete(tree: seq<JoinNode>)
    requires TreeOk(tree)
    ensures NoRepeats(AttachOrder(tree)) && forall k: nat :: k in AttachOrder(tree) <==> k < |tree|
  {
    var pre := RootOrder(tree);
    PreorderOnce(tree, |tree| - 1);
    AttachMembers(tree, pre, |pre|);
    assert pre[..|pre|] == pre;
    forall k: nat | IsEdge(tree, k) ensures Parent(tree, k) in pre {
      AllBelowRoot(tree, Parent(tree, k));
      PreorderComplete(tree, |tree| - 1, Parent(tree, k));
    }
  }

  // ---- Which comes first ----

  /** x stands before y. */
  ghost predicate Precedes(s: seq<nat>, x: nat, y: nat) {
    exists i, j :: 0 <= i < j < |s| && s[i] == x && s[j] == y
  }

  lemma PrecedesConcat(s: seq<nat>, t: seq<nat>, x: nat, y: nat)
    ensures Precedes(s, x, y) || Precedes(t, x, y) || (x in s && y in t) ==> Precedes(s + t, x, y)
  {
    if i, j :| 0 <= i < j < |s| && s[i] == x && s[j] == y {
      assert (s + t)[i] == x && (s + t)[j] == y;
    } else if i, j :| 0 <= i < j < |t| && t[i] == x && t[j] == y {
      assert (s + t)[|s| + i] == x && (s + t)[|s| + j] == y;
    } else if i, j :| 0 <= i < |s| && 0 <= j < |t| && s[i] == x && t[j] == y {
      assert (s + t)[i] == x && (s + t)[|s| + j] == y;
    }
  }

  lemma {:induction false} SubtreesInOrder(tree: seq<JoinNode>, v: nat, m: nat, c: nat, d: nat, x: nat, y: nat)
    requires TreeOk(tree) && v < |tree| && c < d < m <= |tree|
    requires IsEdge(tree, c) && IsEdge(tree, d) && Parent(tree, c) == Parent(tree, d) == v && x in Preorder(tree, c) && y in Preorder(tree, d)
    ensures Precedes(ChildSubtrees(tree, v, m), x, y)
    decreases m
  {
    var before := ChildSubtrees(tree, v, m - 1);
    if d < m - 1 {
      SubtreesInOrder(tree, v, m - 1, c, d, x, y);
      PrecedesConcat(before, ChildSubtrees(tree, v, m)[|before|..], x, y);
      assert ChildSubtrees(tree, v, m) == before + ChildSubtrees(tree, v, m)[|before|..];
    } else {
      ChildSubtreesMembers(tree, v, m - 1);
      PrecedesConcat(before, Preorder(tree, d), x, y);
    }
  }

  lemma {:induction false} OrderInside(tree: seq<JoinNode>, c: nat, m: nat, x: nat, y: nat)
    requires TreeOk(tree) && c < m <= |tree| && IsEdge(tree, c) && Precedes(Preorder(tree, c), x, y)
    ensures Precedes(ChildSubtrees(tree, Parent(tree, c), m), x, y)
    decreases m
  {
    var v := Parent(tree, c);
    var before := ChildSubtrees(tree, v, m - 1);
    if c < m - 1 {
      OrderInside(tree, c, m - 1, x, y);
      PrecedesConcat(before, ChildSubtrees(tree, v, m)[|before|..], x, y);
      assert ChildSubtrees(tree, v, m) == before + ChildSubtrees(tree, v, m)[|before|..];
    } else {
      PrecedesConcat(before, Preorder(tree, c), x, y);
    }
  }

  lemma {:induction false} OrderUpToRoot(tree: seq<JoinNode>, v: nat, x: nat, y: nat)
    requires TreeOk(tree) && v < |tree| && Precedes(Preorder(tree, v), x, y)
    ensures Precedes(RootOrder(tree), x, y)
    decreases |tree| - v
  {
    if v < |tree| - 1 {
      OrderInside(tree, v, |tree|, x, y);
      PrecedesConcat([Parent(tree, v)], ChildSubtrees(tree, Parent(tree, v), |tree|), x, y);
      OrderUpToRoot(tree, Parent(tree, v), x, y);
    }
  }

  /** In the pre-order what is below an earlier child comes before what is below a later one. */
  lemma SiblingsInOrder(tree: seq<JoinNode>, c: nat, d: nat, x: nat, y: nat)
    requires TreeOk(tree) && c < d && IsEdge(tree, c) && IsEdge(tree, d) && Parent(tree, c) == Parent(tree, d)
    requires x < |tree| && y < |tree| && Below(tree, x, c) && Below(tree, y, d)
    ensures Precedes(RootOrder(tree), x, y)
  {
    var v := Parent(tree, c);
    PreorderComplete(tree, c, x);
    PreorderComplete(tree, d, y);
    SubtreesInOrder(tree, v, |tree|, c, d, x, y);
    PrecedesConcat([v], ChildSubtrees(tree, v, |tree|), x, y);
    OrderUpToRoot(tree, v, x, y);
  }

  lemma {:induction false} KidsInOrder(tree: seq<JoinNode>, v: nat, m: nat, x: nat, y: nat)
    requires TreeOk(tree) && x < y < m <= |tree| && IsEdge(tree, x) && IsEdge(tree, y) && Parent(tree, x) == Parent(tree, y) == v
    ensures Precedes(KidsOf(tree, v, m), x, y)
  {
    KidsMembers(tree, v, m - 1);
    if y < m - 1 {
      KidsInOrder(tree, v, m - 1, x, y);
    }
    PrecedesConcat(KidsOf(tree, v, m - 1), if tree[m - 1].parentIdx == v then [m - 1] else [], x, y);
  }

  lemma {:induction false} AttachedInOrder(tree: seq<JoinNode>, pre: seq<nat>, s: nat, i: nat, j: nat, x: nat, y: nat)
    requires TreeOk(tree) && NoRepeats(pre) && i <= j < s <= |pre| && (i == j ==> x < y)
    requires IsEdge(tree, x) && IsEdge(tree, y) && Parent(tree, x) == pre[i] && Parent(tree, y) == pre[j]
    ensures Precedes(AttachUpTo(tree, pre, s), x, y)
    decreases s
  {
    AttachMembers(tree, pre, s - 1);
    KidsMembers(tree, pre[s - 1], |tree|);
    if j < s - 1 {
      AttachedInOrder(tree, pre, s - 1, i, j, x, y);
    } else if i == j {
      KidsInOrder(tree, pre[j], |tree|, x, y);
    } else {
      assert pre[i] in pre[..s - 1];
    }
    PrecedesConcat(AttachUpTo(tree, pre, s - 1), KidsOf(tree, pre[s - 1], |tree|), x, y);
  }

  /** Children are attached in the order of their parents in the pre-order, those of one parent in array order. */
  lemma AttachOrderOrdered(tree: seq<JoinNode>, x: nat, y: nat)
    requires TreeOk(tree) && IsEdge(tree, x) && IsEdge(tree, y)
    requires if Parent(tree, x) == Parent(tree, y) then x < y else Precedes(RootOrder(tree), Parent(tree, x), Parent(tree, y))
    ensures Precedes(AttachOrder(tree), x, y)
  {
    var pre := RootOrder(tree);
    PreorderOnce(tree, |tree| - 1);
    AllBelowRoot(tree, Parent(tree, x));
    PreorderComplete(tree, |tree| - 1, Parent(tree, x));
    if Parent(tree, x) == Parent(tree, y) {
      var i :| 0 <= i < |pre| && pre[i] == Parent(tree, x);
      AttachedInOrder(tree, pre, |pre|, i, i, x, y);
    } else {
      var i, j :| 0 <= i < j < |pre| && pre[i] == Parent(tree, x) && pre[j] == Parent(tree, y);
      AttachedInOrder(tree, pre, |pre|, i, j, x, y);
    }
  }

  // ---- Column offsets ----

  ghost function Width(order: seq<nat>, widths: seq<nat>): nat {
    if order == [] then 0
    else Width(order[..|order| - 1], widths) + WidthOf(widths, order[|order| - 1])
  }

  function WidthOf(widths: seq<nat>, k: nat): nat {
    if k < |widths| then widths[k] else 0
  }

  /** Where the columns of node k start: after those of the nodes before it. */
  ghost function ColOffset(order: seq<nat>, widths: seq<nat>, k: nat): nat
    requires k in order
  {
    if order[|order| - 1] == k then Width(order[..|order| - 1], widths) else
      assert order == order[..|order| - 1] + [order[|order| - 1]];
      ColOffset(order[..|order| - 1], widths, k)
  }

  ghost predicate RowsWide(data: seq<seq<seq<int>>>, widths: seq<nat>) {
    |widths| == |data| && forall k, r :: 0 <= k < |data| && 0 <= r < |data[k]| ==> |data[k][r]| == widths[k]
  }

  /** t picks a row of every node in order. */
  ghost predicate Chosen(order: seq<nat>, data: seq<seq<seq<int>>>, t: Tuple) {
    forall k :: k in order ==> k in t && k < |data| && t[k] < |data[k]|
  }

  lemma ChosenFront(order: seq<nat>, data: seq<seq<seq<int>>>, t: Tuple)
    requires Chosen(order, data, t) && order != []
    ensures Chosen(order[..|order| - 1], data, t)
  {
    var front := order[..|order| - 1];
    forall k | k in front ensures k in t && k < |data| && t[k] < |data[k]| {
      var i :| 0 <= i < |front| && front[i] == k;
      assert order[i] == k;
    }
  }

  lemma {:induction false} ContentWidth(order: seq<nat>, data: seq<seq<seq<int>>>, widths: seq<nat>, t: Tuple)
    requires RowsWide(data, widths) && Chosen(order, data, t)
    ensures |Content(order, data, t)| == Width(order, widths)
  {
    if order != [] {
      ChosenFront(order, data, t);
      ContentWidth(order[..|order| - 1], data, widths, t);
    }
  }

  lemma ContentAttr(order: seq<nat>, data: seq<seq<seq<int>>>, widths: seq<nat>, t: Tuple, k: nat, j: nat, col: int)
    requires RowsWide(data, widths) && Chosen(order, data, t) && k in order && j < widths[k]
    requires col == ColOffset(order, widths, k) + j
    ensures Attr(Content(order, data, t), col) == Attr(RowAt(data, t, k), j)
  {
    ContentColumn(order, data, widths, t, k, j);
  }

  lemma AppendedAt(front: seq<int>, row: seq<int>, j: nat)
    requires j < |row|
    ensures (front + row)[|front| + j] == row[j]
  {
  }

  lemma ContentOfLast(order: seq<nat>, data: seq<seq<seq<int>>>, widths: seq<nat>, t: Tuple, j: nat)
    requires RowsWide(data, widths) && Chosen(order, data, t) && order != []
    requires j < WidthOf(widths, order[|order| - 1])
    ensures |RowAt(data, t, order[|order| - 1])| == WidthOf(widths, order[|order| - 1])
    ensures Width(order[..|order| - 1], widths) + j < |Content(order, data, t)|
    ensures Content(order, data, t)[Width(order[..|order| - 1], widths) + j] == RowAt(data, t, order[|order| - 1])[j]
  {
    var front, last := order[..|order| - 1], order[|order| - 1];
    ChosenFront(order, data, t);
    ContentWidth(front, data, widths, t);
    assert last in order;
    AppendedAt(Content(front, data, t), RowAt(data, t, last), j);
  }

  /** Column j of node k is column ColOffset + j of the output row. */
  lemma {:induction false} ContentColumn(order: seq<nat>, data: seq<seq<seq<int>>>, widths: seq<nat>, t: Tuple, k: nat, j: nat)
    requires RowsWide(data, widths) && Chosen(order, data, t)
    requires k in order && j < widths[k]
    ensures ColOffset(order, widths, k) + j < |Content(order, data, t)|
    ensures Content(order, data, t)[ColOffset(order, widths, k) + j] == RowAt(data, t, k)[j]
  {
    var front, last := order[..|order| - 1], order[|order| - 1];
    if last == k {
      ContentOfLast(order, data, widths, t, j);
    } else {
      ChosenFront(order, data, t);
      InFront(order, k);
      ContentColumn(front, data, widths, t, k, j);
      ContentBefore(order, data, t, ColOffset(front, widths, k) + j);
    }
  }

  lemma InFront(order: seq<nat>, k: nat)
    requires k in order && k != order[|order| - 1]
    ensures k in order[..|order| - 1]
  {
    assert order == order[..|order| - 1] + [order[|order| - 1]];
  }

  /** The columns of the nodes before the last one. */
  lemma ContentBefore(order: seq<nat>, data: seq<seq<seq<int>>>, t: Tuple, i: nat)
    requires order != [] && i < |Content(order[..|order| - 1], data, t)|
    ensures i < |Content(order, data, t)| && Content(order, data, t)[i] == Content(order[..|order| - 1], data, t)[i]
  {
  }
}
