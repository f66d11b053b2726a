/** The accumulator in sorted order: groups of S_c copies of one row, as many groups per tuple as it makes for child c. */
module GroupsOfCopies {
  import opened Totals
  import opened Records
  import opened ObliviousSort
  import opened Boundary
  import opened TrimmedRows
  import opened JoinTree
  import opened JoinSpec
  import opened Weights
  import opened NodeTotals
  import opened Columns

  type Row = seq<int>

  /** The accumulator holds each partial tuple's content as often as its weight says. */
  ghost predicate Represents(a: seq<Row>, tree: seq<JoinNode>, db: seq<seq<Entry>>, ts: seq<Tuple>, order: seq<nat>)
    requires TreeOk(tree) && |db| == |tree|
  {
    forall f: Row -> int {:trigger Total(a, f)} :: Total(a, f) == Total(ts, WeightedContent(tree, db, order, f))
  }

  ghost function WeightedContent(tree: seq<JoinNode>, db: seq<seq<Entry>>, order: seq<nat>, f: Row -> int): Tuple -> int
    requires TreeOk(tree) && |db| == |tree|
  {
    (t: Tuple) => Weight(tree, db, t) * f(Content(order, Data(db), t))
  }

  /** An attach in progress: node c joins the tuples ts over the nodes in order. */
  ghost predicate Attaching(tree: seq<JoinNode>, db: seq<seq<Entry>>, ts: seq<Tuple>, order: seq<nat>, widths: seq<nat>, c: nat) {
    && Stage(tree, db, ts, Members(order))
    && Attaches(tree, Members(order), c)
    && RowsWide(Data(db), widths)
  }

  /** The accumulator column that holds the parent's join attribute. */
  ghost function JoinColumn(tree: seq<JoinNode>, order: seq<nat>, widths: seq<nat>, c: nat): nat
    requires TreeOk(tree) && Attaches(tree, Members(order), c)
  {
    ColOffset(order, widths, Parent(tree, c)) + tree[c].parentJoinCol
  }

  lemma StageChosen(tree: seq<JoinNode>, db: seq<seq<Entry>>, ts: seq<Tuple>, order: seq<nat>, c: nat, i: nat)
    requires Stage(tree, db, ts, Members(order)) && Attaches(tree, Members(order), c) && i < |ts|
    ensures Chosen(order, Data(db), ts[i])
  {
    StageTuple(tree, db, ts, Members(order), c, i);
    forall k | k in order ensures k in ts[i] && k < |db| && ts[i][k] < |db[k]| {
      assert k in Members(order);
    }
  }

  lemma ParentColumn(tree: seq<JoinNode>, db: seq<seq<Entry>>, widths: seq<nat>, c: nat, r: nat)
    requires InputOk(tree, db) && RowsWide(Data(db), widths) && IsEdge(tree, c) && r < |db[Parent(tree, c)]|
    ensures tree[c].parentJoinCol < widths[Parent(tree, c)]
    ensures |db[Parent(tree, c)][r].attributes| == widths[Parent(tree, c)]
  {
    var p := Parent(tree, c);
    assert SafeColumn(db[p], tree[c].parentJoinCol);
    assert |Data(db)[p][r]| == widths[p];
  }

  lemma ContentOffers(tree: seq<JoinNode>, db: seq<seq<Entry>>, ts: seq<Tuple>, order: seq<nat>, widths: seq<nat>, c: nat, i: nat)
    requires Attaching(tree, db, ts, order, widths, c) && i < |ts|
    ensures |Content(order, Data(db), ts[i])| == Width(order, widths)
    ensures Attr(Content(order, Data(db), ts[i]), JoinColumn(tree, order, widths, c)) == Offered(tree, db, ts[i], c)
  {
    var t, p := ts[i], Parent(tree, c);
    StageTuple(tree, db, ts, Members(order), c, i);
    StageChosen(tree, db, ts, order, c, i);
    ContentWidth(order, Data(db), widths, t);
    ParentColumn(tree, db, widths, c, t[p]);
    ContentAttr(order, Data(db), widths, t, p, tree[c].parentJoinCol, JoinColumn(tree, order, widths, c));
  }

  // ---- Groups are not negative ----

  lemma {:induction false} FrontierNonNegative(tree: seq<JoinNode>, db: seq<seq<Entry>>, t: Tuple, skip: int, m: nat)
    requires TreeOk(tree) && |db| == |tree| && forall k :: 0 <= k < |db| ==> NonNegative(db[k])
    ensures 0 <= FrontierProduct(tree, db, t, skip, m)
  {
    if m > 0 {
      FrontierNonNegative(tree, db, t, skip, m - 1);
      if OnFrontier(tree, t, m - 1) {
        MatchSumNonNegative(tree[m - 1], db[m - 1], Offered(tree, db, t, m - 1));
      }
    }
  }

  lemma GroupsNonNegative(tree: seq<JoinNode>, db: seq<seq<Entry>>, t: Tuple, c: nat)
    requires TreeOk(tree) && IsEdge(tree, c) && LocalOk(tree, db)
    ensures 0 <= Groups(tree, db, t, c) && 0 <= Continuations(tree, db, t, c)
    ensures Groups(tree, db, t, c) > 0 ==> Continuations(tree, db, t, c) > 0
  {
    LocalNonNegative(tree, db, |db|);
    FrontierNonNegative(tree, db, t, c, |tree|);
    MatchSumNonNegative(tree[c], db[c], Offered(tree, db, t, c));
  }

  // ---- The list of groups ----

  ghost function Clip(n: int): nat {
    if n < 0 then 0 else n
  }

  /** One row per group: the content of each tuple, once per group it makes. */
  ghost function GroupRows(tree: seq<JoinNode>, db: seq<seq<Entry>>, ts: seq<Tuple>, order: seq<nat>, c: nat): seq<Row>
    requires TreeOk(tree) && IsEdge(tree, c) && |db| == |tree|
  {
    if ts == [] then [] else
      var t := ts[|ts| - 1];
      GroupRows(tree, db, ts[..|ts| - 1], order, c) + Repeat(Content(order, Data(db), t), Clip(Groups(tree, db, t, c)))
  }

  ghost function GroupedContent(tree: seq<JoinNode>, db: seq<seq<Entry>>, order: seq<nat>, c: nat, f: Row -> int): Tuple -> int
    requires TreeOk(tree) && IsEdge(tree, c) && |db| == |tree|
  {
    (t: Tuple) => Groups(tree, db, t, c) * f(Content(order, Data(db), t))
  }

  lemma {:induction false} RepeatTotal<T>(x: T, n: nat, f: T -> int)
    ensures Total(Repeat(x, n), f) == n * f(x)
  {
    if n > 0 {
      RepeatTotal(x, n - 1, f);
      assert Repeat(x, n) == Repeat(x, n - 1) + [x];
      TotalSnoc(Repeat(x, n - 1), x, f);
      assert n * f(x) == (n - 1) * f(x) + f(x);
    }
  }

  lemma {:induction false} GroupRowsTotal(tree: seq<JoinNode>, db: seq<seq<Entry>>, ts: seq<Tuple>, order: seq<nat>, c: nat, f: Row -> int)
    requires TreeOk(tree) && IsEdge(tree, c) && LocalOk(tree, db)
    ensures Total(GroupRows(tree, db, ts, order, c), f) == Total(ts, GroupedContent(tree, db, order, c, f))
  {
    if ts != [] {
      var ts', t := ts[..|ts| - 1], ts[|ts| - 1];
      GroupRowsTotal(tree, db, ts', order, c, f);
      GroupsNonNegative(tree, db, t, c);
      var w := Content(order, Data(db), t);
      TotalConcat(GroupRows(tree, db, ts', order, c), Repeat(w, Clip(Groups(tree, db, t, c))), f);
      RepeatTotal(w, Clip(Groups(tree, db, t, c)), f);
    }
  }

  // ---- Flattening groups ----

  /** Each row of b, size(row) times. */
  ghost function Flatten(b: seq<Row>, size: Row -> int): seq<Row> {
    if b == [] then [] else Flatten(b[..|b| - 1], size) + Repeat(b[|b| - 1], Clip(size(b[|b| - 1])))
  }

  ghost function Times(size: Row -> int, f: Row -> int): Row -> int {
    w => size(w) * f(w)
  }

  lemma {:induction false} FlattenTotal(b: seq<Row>, size: Row -> int, f: Row -> int)
    requires forall i :: 0 <= i < |b| ==> 0 <= size(b[i])
    ensures Total(Flatten(b, size), f) == Total(b, Times(size, f))
  {
    if b != [] {
      var b', w := b[..|b| - 1], b[|b| - 1];
      FlattenTotal(b', size, f);
      TotalConcat(Flatten(b', size), Repeat(w, Clip(size(w))), f);
      RepeatTotal(w, Clip(size(w)), f);
    }
  }

  lemma {:induction false} FlattenMembers(b: seq<Row>, size: Row -> int)
    ensures forall w :: w in Flatten(b, size) ==> w in b
  {
    if b != [] {
      FlattenMembers(b[..|b| - 1], size);
    }
  }

  lemma {:induction false} FlattenSorted(b: seq<Row>, size: Row -> int, cmp: (Row, Row) -> int)
    requires SortedBy(b, cmp) && forall w :: w in b ==> cmp(w, w) <= 0
    ensures SortedBy(Flatten(b, size), cmp)
  {
    if b != [] {
      var b', w := b[..|b| - 1], b[|b| - 1];
      FlattenSorted(b', size, cmp);
      FlattenMembers(b', size);
      forall x | x in b' ensures cmp(x, w) <= 0 {
        var i :| 0 <= i < |b'| && b'[i] == x;
        assert b[i] == x;
      }
      AppendRepeat(Flatten(b', size), w, Clip(size(w)), cmp);
    }
  }

  lemma AppendRepeat(s: seq<Row>, w: Row, n: nat, cmp: (Row, Row) -> int)
    requires SortedBy(s, cmp) && cmp(w, w) <= 0 && forall x :: x in s ==> cmp(x, w) <= 0
    ensures SortedBy(s + Repeat(w, n), cmp)
  {
  }

  // ---- Sorted permutations are unique when ties are equal ----

  /** Every element compares as not after itself, and elements that tie are equal. */
  ghost predicate TiesEqual<T>(s: seq<T>, cmp: (T, T) -> int) {
    && (forall i :: 0 <= i < |s| ==> cmp(s[i], s[i]) <= 0)
    && (forall i, j :: 0 <= i < |s| && 0 <= j < |s| && cmp(s[i], s[j]) <= 0 && cmp(s[j], s[i]) <= 0 ==> s[i] == s[j])
  }

  lemma LastBelow<T>(s: seq<T>, t: seq<T>, cmp: (T, T) -> int)
    requires SortedBy(t, cmp) && multiset(s) == multiset(t) && |s| == |t| > 0
    requires cmp(s[|s| - 1], s[|s| - 1]) <= 0
    ensures cmp(s[|s| - 1], t[|t| - 1]) <= 0
  {
    var x := s[|s| - 1];
    assert x in multiset(t);
    var i :| 0 <= i < |t| && t[i] == x;
  }

  lemma LastEqual<T>(s: seq<T>, t: seq<T>, cmp: (T, T) -> int)
    requires SortedBy(s, cmp) && SortedBy(t, cmp) && multiset(s) == multiset(t) && |s| == |t| > 0
    requires TiesEqual(s, cmp)
    ensures s[|s| - 1] == t[|t| - 1]
  {
    var y := t[|t| - 1];
    assert y in multiset(s);
    var j :| 0 <= j < |s| && s[j] == y;
    LastBelow(s, t, cmp);
    LastBelow(t, s, cmp);
  }

  lemma {:induction false} SortedUnique<T>(s: seq<T>, t: seq<T>, cmp: (T, T) -> int)
    requires SortedBy(s, cmp) && SortedBy(t, cmp) && multiset(s) == multiset(t) && TiesEqual(s, cmp)
    ensures s == t
    decreases |s|
  {
    assert |multiset(s)| == |multiset(t)|;
    if s != [] {
      LastEqual(s, t, cmp);
      DropLast(s, t);
      SortedUnique(s[..|s| - 1], t[..|t| - 1], cmp);
    }
  }

  // ---- The sorted accumulator is the flattened list of groups ----

  /** An accumulator row with its join attribute set from column col. */
  function KeyedRow(col: int, w: Row): RRow {
    RRow(Attr(w, col), NullValue, w)
  }

  ghost function ContentCmp(col: int, width: nat): (Row, Row) -> int {
    (x: Row, y: Row) => RrCmp(width)(KeyedRow(col, x), KeyedRow(col, y))
  }

  lemma ContentCmpIsLex(col: int, width: nat, x: Row, y: Row)
    ensures ContentCmp(col, width)(x, y) == Lex(KeyedRow(col, x), KeyedRow(col, y), width)
  {
    var a, b := KeyedRow(col, x), KeyedRow(col, y);
    assert RrCmp(width)(a, b) == PadAdjust(false, false, Lex(a, b, width));
  }

  lemma ContentCmpOrders(col: int, width: nat)
    ensures Comparator(ContentCmp(col, width))
  {
    RrCmpOrders(width);
    forall x, y, z
      ensures ContentCmp(col, width)(x, y) <= 0 || ContentCmp(col, width)(y, x) <= 0
      ensures ContentCmp(col, width)(x, y) <= 0 && ContentCmp(col, width)(y, z) <= 0 ==> ContentCmp(col, width)(x, z) <= 0
    {
      var a, b, c := KeyedRow(col, x), KeyedRow(col, y), KeyedRow(col, z);
      assert RrCmp(width)(a, b) <= 0 || RrCmp(width)(b, a) <= 0;
      assert RrCmp(width)(a, b) <= 0 && RrCmp(width)(b, c) <= 0 ==> RrCmp(width)(a, c) <= 0;
    }
  }

  lemma EqualContent(col: int, width: nat, x: Row, y: Row)
    requires |x| == |y| == width
    requires ContentCmp(col, width)(x, y) <= 0 && ContentCmp(col, width)(y, x) <= 0
    ensures x == y
  {
    ContentCmpIsLex(col, width, x, y);
    ContentCmpIsLex(col, width, y, x);
    LexFlips(KeyedRow(col, x), KeyedRow(col, y), width);
    LexEqual(KeyedRow(col, x), KeyedRow(col, y), width);
    forall j | 0 <= j < width ensures x[j] == y[j] {
      assert Attr(x, j) == Attr(y, j);
    }
  }

  lemma SelfTies(col: int, width: nat, x: Row)
    ensures ContentCmp(col, width)(x, x) == 0
  {
    ContentCmpIsLex(col, width, x, x);
    LexFlips(KeyedRow(col, x), KeyedRow(col, x), width);
  }

  lemma ContentTiesEqual(s: seq<Row>, col: int, width: nat)
    requires forall i :: 0 <= i < |s| ==> |s[i]| == width
    ensures TiesEqual(s, ContentCmp(col, width))
  {
    forall i | 0 <= i < |s| ensures ContentCmp(col, width)(s[i], s[i]) <= 0 {
      SelfTies(col, width, s[i]);
    }
    forall i, j | 0 <= i < |s| && 0 <= j < |s|
      && ContentCmp(col, width)(s[i], s[j]) <= 0 && ContentCmp(col, width)(s[j], s[i]) <= 0
      ensures s[i] == s[j]
    {
      EqualContent(col, width, s[i], s[j]);
    }
  }

  lemma ContentCmpByAttr(col: int, width: nat, x: Row, y: Row)
    requires ContentCmp(col, width)(x, y) <= 0
    ensures Attr(x, col) <= Attr(y, col)
  {
    ContentCmpIsLex(col, width, x, y);
    LexByJoinAttr(KeyedRow(col, x), KeyedRow(col, y), width);
  }

  /** How many copies of an accumulator row make one group for child c. */
  ghost function GroupSize(tree: seq<JoinNode>, db: seq<seq<Entry>>, c: nat, col: int): Row -> int
    requires TreeOk(tree) && IsEdge(tree, c) && |db| == |tree|
  {
    (w: Row) => MatchSum(tree[c], db[c], Attr(w, col))
  }

  /** The groups in the order in which the sorted accumulator holds them. */
  ghost function GroupList(tree: seq<JoinNode>, db: seq<seq<Entry>>, ts: seq<Tuple>, order: seq<nat>, c: nat, col: int, width: nat): seq<Row>
    requires TreeOk(tree) && IsEdge(tree, c) && |db| == |tree|
  {
    Sorted(GroupRows(tree, db, ts, order, c), ContentCmp(col, width))
  }

  lemma GroupListSorted(tree: seq<JoinNode>, db: seq<seq<Entry>>, ts: seq<Tuple>, order: seq<nat>, c: nat, col: int, width: nat)
    requires TreeOk(tree) && IsEdge(tree, c) && LocalOk(tree, db)
    ensures SortedBy(GroupList(tree, db, ts, order, c, col, width), ContentCmp(col, width))
    ensures multiset(GroupList(tree, db, ts, order, c, col, width)) == multiset(GroupRows(tree, db, ts, order, c))
  {
    ContentCmpOrders(col, width);
    SortedSorts(GroupRows(tree, db, ts, order, c), ContentCmp(col, width));
    SortedMultiset(GroupRows(tree, db, ts, order, c), ContentCmp(col, width));
  }

  /** Sums over the groups are sums over the tuples, group by group. */
  lemma GroupListTotal(tree: seq<JoinNode>, db: seq<seq<Entry>>, ts: seq<Tuple>, order: seq<nat>, c: nat, col: int, width: nat, f: Row -> int)
    requires TreeOk(tree) && IsEdge(tree, c) && LocalOk(tree, db)
    ensures Total(GroupList(tree, db, ts, order, c, col, width), f) == Total(ts, GroupedContent(tree, db, order, c, f))
  {
    GroupListSorted(tree, db, ts, order, c, col, width);
    TotalPermutation(GroupList(tree, db, ts, order, c, col, width), GroupRows(tree, db, ts, order, c), f);
    GroupRowsTotal(tree, db, ts, order, c, f);
  }

  lemma SizeIsContinuations(tree: seq<JoinNode>, db: seq<seq<Entry>>, ts: seq<Tuple>, order: seq<nat>, widths: seq<nat>, c: nat, f: Row -> int, i: nat)
    requires Attaching(tree, db, ts, order, widths, c) && i < |ts|
    ensures var col := JoinColumn(tree, order, widths, c);
      WeightedContent(tree, db, order, f)(ts[i]) == GroupedContent(tree, db, order, c, Times(GroupSize(tree, db, c, col), f))(ts[i])
  {
    var col := JoinColumn(tree, order, widths, c);
    var t, w := ts[i], Content(order, Data(db), ts[i]);
    StageTuple(tree, db, ts, Members(order), c, i);
    ContentOffers(tree, db, ts, order, widths, c, i);
    AttachGroups(tree, db, t, c);
    var k, s := Groups(tree, db, t, c), GroupSize(tree, db, c, col)(w);
    assert s == Continuations(tree, db, t, c);
    assert Weight(tree, db, t) == k * s;
    Associate(k, s, f(w));
    assert Times(GroupSize(tree, db, c, col), f)(w) == s * f(w);
  }

  lemma Associate(a: int, b: int, c: int)
    ensures (a * b) * c == a * (b * c)
  {
  }

  /** Sums over the accumulator are sums over the groups, size by size. */
  lemma AccumulatorTotal(a: seq<Row>, tree: seq<JoinNode>, db: seq<seq<Entry>>, ts: seq<Tuple>, order: seq<nat>, widths: seq<nat>, c: nat, f: Row -> int)
    requires Attaching(tree, db, ts, order, widths, c) && Represents(a, tree, db, ts, order)
    ensures var col := JoinColumn(tree, order, widths, c);
      Total(a, f) == Total(GroupList(tree, db, ts, order, c, col, Width(order, widths)), Times(GroupSize(tree, db, c, col), f))
  {
    var col := JoinColumn(tree, order, widths, c);
    var g := Times(GroupSize(tree, db, c, col), f);
    forall i | 0 <= i < |ts| ensures WeightedContent(tree, db, order, f)(ts[i]) == GroupedContent(tree, db, order, c, g)(ts[i]) {
      SizeIsContinuations(tree, db, ts, order, widths, c, f, i);
    }
    TotalExt(ts, WeightedContent(tree, db, order, f), GroupedContent(tree, db, order, c, g));
    GroupListTotal(tree, db, ts, order, c, col, Width(order, widths), g);
  }

  lemma GroupSizesPositive(tree: seq<JoinNode>, db: seq<seq<Entry>>, c: nat, col: int, w: Row)
    requires TreeOk(tree) && IsEdge(tree, c) && LocalOk(tree, db)
    ensures 0 <= GroupSize(tree, db, c, col)(w)
  {
    LocalNonNegative(tree, db, |db|);
    MatchSumNonNegative(tree[c], db[c], Attr(w, col));
  }

  ghost function Is(w: Row): Row -> int {
    x => if x == w then 1 else 0
  }

  /** However the sort broke its ties, the sorted accumulator is the groups one after the other. */
  lemma SortedIsFlattened(a: seq<Row>, s: seq<Row>, tree: seq<JoinNode>, db: seq<seq<Entry>>, ts: seq<Tuple>, order: seq<nat>, widths: seq<nat>, c: nat)
    requires Attaching(tree, db, ts, order, widths, c) && Represents(a, tree, db, ts, order)
    requires SortOf(s, a, ContentCmp(JoinColumn(tree, order, widths, c), Width(order, widths)))
    requires forall i :: 0 <= i < |a| ==> |a[i]| == Width(order, widths)
    ensures var col := JoinColumn(tree, order, widths, c);
      s == Flatten(GroupList(tree, db, ts, order, c, col, Width(order, widths)), GroupSize(tree, db, c, col))
  {
    var col, width := JoinColumn(tree, order, widths, c), Width(order, widths);
    var b, size, cmp := GroupList(tree, db, ts, order, c, col, width), GroupSize(tree, db, c, col), ContentCmp(col, width);
    forall w ensures multiset(s)[w] == multiset(Flatten(b, size))[w] {
      MultiplicityIsCount(s, w, Is(w));
      MultiplicityIsCount(Flatten(b, size), w, Is(w));
      TotalPermutation(s, a, Is(w));
      AccumulatorTotal(a, tree, db, ts, order, widths, c, Is(w));
      SizesPositive(b, tree, db, c, col);
      FlattenTotal(b, size, Is(w));
    }
    SortOfElements(s, a, cmp);
    forall i | 0 <= i < |s| ensures |s[i]| == width {
      assert s[i] in a;
    }
    ContentTiesEqual(s, col, width);
    GroupListSorted(tree, db, ts, order, c, col, width);
    FlattenedSorted(b, size, col, width);
    SortedUnique(s, Flatten(b, size), cmp);
  }

  lemma SizesPositive(b: seq<Row>, tree: seq<JoinNode>, db: seq<seq<Entry>>, c: nat, col: int)
    requires TreeOk(tree) && IsEdge(tree, c) && LocalOk(tree, db)
    ensures forall i :: 0 <= i < |b| ==> 0 <= GroupSize(tree, db, c, col)(b[i])
  {
    forall i | 0 <= i < |b| ensures 0 <= GroupSize(tree, db, c, col)(b[i]) {
      GroupSizesPositive(tree, db, c, col, b[i]);
    }
  }

  lemma FlattenedSorted(b: seq<Row>, size: Row -> int, col: int, width: nat)
    requires SortedBy(b, ContentCmp(col, width))
    ensures SortedBy(Flatten(b, size), ContentCmp(col, width))
  {
    forall w | w in b ensures ContentCmp(col, width)(w, w) <= 0 {
      SelfTies(col, width, w);
    }
    FlattenSorted(b, size, ContentCmp(col, width));
  }
}
