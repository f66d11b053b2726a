/** Why row i of the sorted child belongs to row i of the sorted accumulator: the alignment key is the group number. */
module AttachSums {
  import opened Totals
  import opened Records
  import opened ObliviousSort
  import opened TrimmedRows
  import opened Combined
  import opened TopDown
  import opened JoinTree
  import opened JoinSpec
  import opened Weights
  import opened NodeTotals
  import opened Columns
  import opened GroupsOfCopies
  import opened Distribute
  import opened AlignKeys

  ghost predicate Untagged(t: seq<Entry>) {
    forall i :: 0 <= i < |t| ==> t[i].fieldType == NullValue
  }

  /** Node c joins the tuples ts over the nodes in order. */
  datatype Attachment = Attachment(tree: seq<JoinNode>, db: seq<seq<Entry>>, ts: seq<Tuple>, order: seq<nat>, widths: seq<nat>, c: nat) {

    ghost predicate Ready() {
      Attaching(tree, db, ts, order, widths, c) && c !in order && Untagged(db[c])
    }

    ghost function Node(): JoinNode
      requires Ready()
    {
      tree[c]
    }

    ghost function Child(): seq<Entry>
      requires Ready()
    {
      db[c]
    }

    ghost function Col(): nat
      requires Ready()
    {
      JoinColumn(tree, order, widths, c)
    }

    /** The groups in accumulator order. */
    ghost function Rows(): seq<Row>
      requires Ready()
    {
      GroupList(tree, db, ts, order, c, Col(), Width(order, widths))
    }

    ghost function Size(): Row -> int
      requires Ready()
    {
      GroupSize(tree, db, c, Col())
    }

    /** How many groups a child row takes. */
    ghost function Interval(): Entry -> int
      requires Ready()
    {
      (e: Entry) => JoinedShares(tree[c], db[Parent(tree, c)], db[c], Attr(e.attributes, tree[c].joinCol))
    }

    /** The parent value of group g. */
    ghost function Value(g: nat): int
      requires Ready() && g < |Rows()|
    {
      Attr(Rows()[g], Col())
    }

    ghost function KeyedChild(): seq<TRow>
      requires Ready() && Counts(db[c])
    {
      KeyedTable(db[c], tree[c].joinCol, |db[c]|)
    }
  }

  // ---- Groups by parent value ----

  ghost function AttrIs(p: int -> bool, col: int): Row -> bool {
    (w: Row) => p(Attr(w, col))
  }

  lemma GroupsWhere(a: Attachment, p: int -> bool)
    requires a.Ready()
    ensures Count(a.Rows(), AttrIs(p, a.Col())) == Total(a.ts, GroupsIf(a.tree, a.db, a.c, p))
  {
    var f := Ind(AttrIs(p, a.Col()));
    GroupListTotal(a.tree, a.db, a.ts, a.order, a.c, a.Col(), Width(a.order, a.widths), f);
    forall i | 0 <= i < |a.ts|
      ensures GroupedContent(a.tree, a.db, a.order, a.c, f)(a.ts[i]) == GroupsIf(a.tree, a.db, a.c, p)(a.ts[i])
    {
      ContentOffers(a.tree, a.db, a.ts, a.order, a.widths, a.c, i);
    }
    TotalExt(a.ts, GroupedContent(a.tree, a.db, a.order, a.c, f), GroupsIf(a.tree, a.db, a.c, p));
  }

  lemma ValuesAscend(a: Attachment, i: nat, j: nat)
    requires a.Ready() && i < j < |a.Rows()|
    ensures a.Value(i) <= a.Value(j)
  {
    GroupListSorted(a.tree, a.db, a.ts, a.order, a.c, a.Col(), Width(a.order, a.widths));
    ContentCmpByAttr(a.Col(), Width(a.order, a.widths), a.Rows()[i], a.Rows()[j]);
  }

  ghost predicate DownClosed(p: int -> bool) {
    forall x, y :: p(y) && x <= y ==> p(x)
  }

  /** Groups whose value satisfies a downward-closed test come first, and their number is a sum over the tuples. */
  lemma PrefixGroups(a: Attachment, p: int -> bool)
    requires a.Ready() && DownClosed(p)
    ensures 0 <= Total(a.ts, GroupsIf(a.tree, a.db, a.c, p)) <= |a.Rows()|
    ensures forall g: nat :: g < |a.Rows()| ==> (g < Total(a.ts, GroupsIf(a.tree, a.db, a.c, p)) <==> p(a.Value(g)))
  {
    GroupsWhere(a, p);
    var b, q := a.Rows(), AttrIs(p, a.Col());
    forall i, j | 0 <= i < j < |b| && q(b[j]) ensures q(b[i]) {
      ValuesAscend(a, i, j);
    }
    PrefixByCount(b, q);
  }

  lemma SidesClosed(n: JoinNode, x: int)
    ensures DownClosed(Passes(n, x)) && DownClosed(Reaches(n, x))
  {
  }

  lemma IntervalNonNegative(a: Attachment, x: int)
    requires a.Ready()
    ensures 0 <= JoinedShares(a.tree[a.c], a.db[Parent(a.tree, a.c)], a.db[a.c], x)
  {
    JoinedIsGroups(a.tree, a.db, a.ts, Members(a.order), a.c, x);
    GroupsWhere(a, Covers(a.Node(), x));
    TotalNonNegative(a.Rows(), Ind(AttrIs(Covers(a.Node(), x), a.Col())));
  }

  lemma RowStart(a: Attachment, r: nat)
    requires a.Ready() && r < |a.Child()|
    ensures var e := a.Child()[r];
      e.foreignSum == EarlierShares(a.tree[a.c], a.db[Parent(a.tree, a.c)], a.db[a.c], Attr(e.attributes, a.Node().joinCol))
    ensures a.Child()[r].finalMult == a.Interval()(a.Child()[r]) * a.Child()[r].localMult
  {
    assert NodeFinal(a.tree, a.db, a.c);
    assert RowFinal(a.tree, a.db, a.c, a.db[a.c][r]);
  }

  /** The arithmetic heart: a child row takes group g exactly if the group's value lies in its band. */
  lemma TakesMatchingGroups(a: Attachment, r: nat)
    requires a.Ready() && r < |a.Child()|
    ensures var e := a.Child()[r];
      0 <= e.foreignSum && 0 <= a.Interval()(e) && e.foreignSum + a.Interval()(e) <= |a.Rows()|
    ensures forall g: nat :: g < |a.Rows()| ==>
      (TakesGroup(a.Child()[r], a.Interval()(a.Child()[r]), g)
       <==> InBand(a.Node(), Attr(a.Child()[r].attributes, a.Node().joinCol), a.Value(g)))
  {
    var e, n := a.Child()[r], a.Node();
    var x := Attr(e.attributes, n.joinCol);
    RowStart(a, r);
    EarlierIsGroups(a.tree, a.db, a.ts, Members(a.order), a.c, x);
    JoinedIsGroups(a.tree, a.db, a.ts, Members(a.order), a.c, x);
    ReachedIsGroups(a.tree, a.db, a.ts, a.c, x);
    IntervalNonNegative(a, x);
    SidesClosed(n, x);
    PrefixGroups(a, Passes(n, x));
    PrefixGroups(a, Reaches(n, x));
    forall g: nat | g < |a.Rows()|
      ensures TakesGroup(e, a.Interval()(e), g) <==> InBand(n, x, a.Value(g))
    {
      BandSides(n, x, a.Value(g));
    }
  }

  // ---- The copies of one key ----

  lemma ProductNotNegative(x: int, y: int)
    requires 0 <= x && 0 <= y
    ensures 0 <= x * y
  {
  }

  lemma RowInGroups(a: Attachment, r: nat)
    requires a.Ready() && r < |a.Child()|
    ensures 0 <= a.Interval()(a.Child()[r])
    ensures 0 <= a.Child()[r].localMult && 0 <= a.Child()[r].finalMult
    ensures a.Child()[r].finalMult == a.Interval()(a.Child()[r]) * a.Child()[r].localMult
  {
    LocalNonNegative(a.tree, a.db, |a.db|);
    TakesMatchingGroups(a, r);
    RowStart(a, r);
    ProductNotNegative(a.Interval()(a.Child()[r]), a.Child()[r].localMult);
  }

  lemma ChildInGroups(a: Attachment)
    requires a.Ready()
    ensures InGroups(a.Child(), a.Interval()) && Counts(a.Child())
  {
    var t, interval := a.Child(), a.Interval();
    forall r | 0 <= r < |t|
      ensures 0 <= interval(t[r]) && 0 <= t[r].localMult && 0 <= t[r].finalMult && t[r].finalMult == interval(t[r]) * t[r].localMult
    {
      RowInGroups(a, r);
    }
  }

  ghost function MultTimes(f: seq<int> -> int): Entry -> int {
    (e: Entry) => e.localMult * f(e.attributes)
  }

  /** The copies with key g are the matching child rows, local_mult times each. */
  lemma KeyTotal(a: Attachment, g: nat, f: seq<int> -> int)
    requires a.Ready() && Counts(a.Child()) && g < |a.Rows()|
    ensures Total(a.KeyedChild(), AtKey(g, f)) == Total(a.Child(), Inside(a.Node(), MultTimes(f), a.Value(g)))
  {
    var t := a.Child();
    ChildInGroups(a);
    TableTotal(t, a.Node().joinCol, |t|, a.Interval(), g, f);
    assert t[..|t|] == t;
    forall r | 0 <= r < |t|
      ensures GroupShare(a.Interval(), g, f)(t[r]) == Inside(a.Node(), MultTimes(f), a.Value(g))(t[r])
    {
      TakesMatchingGroups(a, r);
    }
    TotalExt(t, GroupShare(a.Interval(), g, f), Inside(a.Node(), MultTimes(f), a.Value(g)));
  }

  ghost function One(): seq<int> -> int {
    (w: seq<int>) => 1
  }

  /** Key g occurs as often as group g has copies. */
  lemma KeyCount(a: Attachment, g: nat)
    requires a.Ready() && Counts(a.Child()) && g < |a.Rows()|
    ensures Total(a.KeyedChild(), AtKey(g, One())) == a.Size()(a.Rows()[g])
  {
    KeyTotal(a, g, One());
    TotalExt(a.Child(), Inside(a.Node(), MultTimes(One()), a.Value(g)), MatchedMult(a.Node(), a.Value(g)));
  }

  /** Where group g starts. */
  ghost function GroupStart(b: seq<Row>, size: Row -> int, g: nat): int
    requires g <= |b|
  {
    Total(b[..g], size)
  }

  lemma GroupStartStep(b: seq<Row>, size: Row -> int, g: nat)
    requires g < |b|
    ensures GroupStart(b, size, g + 1) == GroupStart(b, size, g) + size(b[g])
  {
    assert b[..g + 1] == b[..g] + [b[g]];
    TotalSnoc(b[..g], b[g], size);
  }

  ghost function KeyBelow(g: int): TRow -> bool {
    (r: TRow) => r.alignmentKey < g
  }

  /** Every keyed row comes from a table row and carries the number of a group. */
  ghost predicate Grouped(a: Attachment, r: TRow)
    requires a.Ready()
  {
    && 0 <= r.alignmentKey < |a.Rows()| && r.fieldType == NullValue
    && |r.attributes| == WidthOf(a.widths, a.c)
  }

  lemma KeyedGrouped(a: Attachment, k: nat)
    requires a.Ready() && Counts(a.Child()) && k < |a.KeyedChild()|
    ensures Grouped(a, a.KeyedChild()[k])
  {
    ChildInGroups(a);
    var r := KeyedRows(a.Child(), a.Node().joinCol, |a.Child()|, a.Interval(), k);
    TakesMatchingGroups(a, r);
    assert Data(a.db)[a.c][r] == a.db[a.c][r].attributes;
  }

  lemma NoNegativeKeys(a: Attachment)
    requires a.Ready() && Counts(a.Child())
    ensures Count(a.KeyedChild(), KeyBelow(0)) == 0
  {
    var k := a.KeyedChild();
    forall i | 0 <= i < |k| ensures Ind(KeyBelow(0))(k[i]) == 0 {
      KeyedGrouped(a, i);
    }
    TotalZero(k, Ind(KeyBelow(0)));
  }

  lemma {:induction false} KeysBelow(a: Attachment, g: nat)
    requires a.Ready() && Counts(a.Child()) && g <= |a.Rows()|
    ensures Count(a.KeyedChild(), KeyBelow(g)) == GroupStart(a.Rows(), a.Size(), g)
  {
    var k := a.KeyedChild();
    if g == 0 {
      NoNegativeKeys(a);
    } else {
      KeysBelow(a, g - 1);
      KeyCount(a, g - 1);
      TotalAdd(k, Ind(KeyBelow(g - 1)), AtKey(g - 1, One()), Ind(KeyBelow(g)));
      GroupStartStep(a.Rows(), a.Size(), g - 1);
    }
  }

  lemma AllKeysBelow(a: Attachment)
    requires a.Ready() && Counts(a.Child())
    ensures |a.KeyedChild()| == GroupStart(a.Rows(), a.Size(), |a.Rows()|)
  {
    var k := a.KeyedChild();
    KeysBelow(a, |a.Rows()|);
    forall i | 0 <= i < |k| ensures Ind(KeyBelow(|a.Rows()|))(k[i]) == 1 {
      KeyedGrouped(a, i);
    }
    TotalConstant(k, 1, Ind(KeyBelow(|a.Rows()|)));
  }

  // ---- The sorted child ----

  /** cs is the keyed child in alignment order, however ties fell. */
  ghost predicate InKeyOrder(a: Attachment, cs: seq<TRow>) {
    a.Ready() && Counts(a.Child()) && SortOf(cs, a.KeyedChild(), CmpAlignmentKey)
  }

  lemma SortedGrouped(a: Attachment, cs: seq<TRow>, i: nat)
    requires InKeyOrder(a, cs) && i < |cs|
    ensures Grouped(a, cs[i])
  {
    SortOfElements(cs, a.KeyedChild(), CmpAlignmentKey);
    assert cs[i] in a.KeyedChild();
    var k :| 0 <= k < |a.KeyedChild()| && a.KeyedChild()[k] == cs[i];
    KeyedGrouped(a, k);
  }

  lemma KeyPrefix(a: Attachment, cs: seq<TRow>, g: nat)
    requires InKeyOrder(a, cs) && g <= |a.Rows()|
    ensures 0 <= GroupStart(a.Rows(), a.Size(), g) <= |cs|
    ensures forall i :: 0 <= i < |cs| ==> (i < GroupStart(a.Rows(), a.Size(), g) <==> cs[i].alignmentKey < g)
  {
    forall i, j | 0 <= i < j < |cs| && KeyBelow(g)(cs[j]) ensures KeyBelow(g)(cs[i]) {
      SortedGrouped(a, cs, i);
      SortedGrouped(a, cs, j);
      assert CmpAlignmentKey(cs[i], cs[j]) <= 0;
    }
    PrefixByCount(cs, KeyBelow(g));
    TotalPermutation(cs, a.KeyedChild(), Ind(KeyBelow(g)));
    KeysBelow(a, g);
  }

  ghost function OfAttributes(f: seq<int> -> int): TRow -> int {
    (r: TRow) => f(r.attributes)
  }

  /** The rows that face group g in the sorted child are the matching child rows, local_mult times each. */
  lemma BlockTotal(a: Attachment, cs: seq<TRow>, g: nat, f: seq<int> -> int)
    requires InKeyOrder(a, cs) && g < |a.Rows()|
    ensures 0 <= GroupStart(a.Rows(), a.Size(), g) <= GroupStart(a.Rows(), a.Size(), g + 1) <= |cs|
    ensures Total(cs[GroupStart(a.Rows(), a.Size(), g)..GroupStart(a.Rows(), a.Size(), g + 1)], OfAttributes(f))
         == Total(a.Child(), Inside(a.Node(), MultTimes(f), a.Value(g)))
  {
    var lo, hi := GroupStart(a.Rows(), a.Size(), g), GroupStart(a.Rows(), a.Size(), g + 1);
    KeyPrefix(a, cs, g);
    KeyPrefix(a, cs, g + 1);
    GroupStartStep(a.Rows(), a.Size(), g);
    GroupSizesPositive(a.tree, a.db, a.c, a.Col(), a.Rows()[g]);
    TotalMiddle(cs, lo, hi, AtKey(g, f));
    TotalExt(cs[lo..hi], AtKey(g, f), OfAttributes(f));
    TotalPermutation(cs, a.KeyedChild(), AtKey(g, f));
    KeyTotal(a, g, f);
  }

  // ---- The concatenation ----

  lemma {:induction false} FlattenLength(b: seq<Row>, size: Row -> int)
    requires forall i :: 0 <= i < |b| ==> 0 <= size(b[i])
    ensures |Flatten(b, size)| == Total(b, size)
  {
    if b != [] {
      FlattenLength(b[..|b| - 1], size);
    }
  }

  /** Group g occupies its slots in the flattened list. */
  lemma {:induction false} FlattenBlock(b: seq<Row>, size: Row -> int, g: nat)
    requires g < |b| && forall i :: 0 <= i < |b| ==> 0 <= size(b[i])
    ensures 0 <= GroupStart(b, size, g) <= GroupStart(b, size, g + 1) <= |Flatten(b, size)|
    ensures forall i :: GroupStart(b, size, g) <= i < GroupStart(b, size, g + 1) ==> Flatten(b, size)[i] == b[g]
  {
    var m := |b| - 1;
    FlattenLength(b[..m], size);
    if g < m {
      FlattenBlock(b[..m], size, g);
      assert b[..m][..g] == b[..g] && b[..m][..g + 1] == b[..g + 1];
    } else {
      GroupStartStep(b, size, g);
    }
  }

  /** Row i of the accumulator next to row i of the child. */
  ghost function Beside(s: seq<Row>, cs: seq<TRow>): (r: seq<Row>)
    requires |s| <= |cs|
    ensures |r| == |s|
  {
    seq(|s|, i requires 0 <= i < |s| => s[i] + cs[i].attributes)
  }

  ghost function Appended(w: Row, f: Row -> int): seq<int> -> int {
    (x: seq<int>) => f(w + x)
  }

  /** f summed over the rows that w continues with, local_mult times each. */
  ghost function Continued(a: Attachment, f: Row -> int): Row -> int
    requires a.Ready()
  {
    (w: Row) => Total(a.db[a.c], Inside(a.tree[a.c], MultTimes(Appended(w, f)), Attr(w, JoinColumn(a.tree, a.order, a.widths, a.c))))
  }

  ghost predicate FacesGroups(a: Attachment, s: seq<Row>, cs: seq<TRow>) {
    InKeyOrder(a, cs) && s == Flatten(a.Rows(), a.Size()) && |s| == |cs|
  }

  lemma SizesNonNegative(a: Attachment)
    requires a.Ready()
    ensures forall i :: 0 <= i < |a.Rows()| ==> 0 <= a.Size()(a.Rows()[i])
  {
    SizesPositive(a.Rows(), a.tree, a.db, a.c, a.Col());
  }

  lemma GroupBeside(a: Attachment, s: seq<Row>, cs: seq<TRow>, g: nat, f: Row -> int)
    requires FacesGroups(a, s, cs) && g < |a.Rows()|
    ensures 0 <= GroupStart(a.Rows(), a.Size(), g) <= GroupStart(a.Rows(), a.Size(), g + 1) <= |s|
    ensures Total(Beside(s, cs)[GroupStart(a.Rows(), a.Size(), g)..GroupStart(a.Rows(), a.Size(), g + 1)], f)
         == Continued(a, f)(a.Rows()[g])
  {
    var w, lo, hi := a.Rows()[g], GroupStart(a.Rows(), a.Size(), g), GroupStart(a.Rows(), a.Size(), g + 1);
    SizesNonNegative(a);
    FlattenBlock(a.Rows(), a.Size(), g);
    BlockTotal(a, cs, g, Appended(w, f));
    BlockBeside(s, cs, lo, hi, w, f);
  }

  lemma BlockBeside(s: seq<Row>, cs: seq<TRow>, lo: nat, hi: nat, w: Row, f: Row -> int)
    requires lo <= hi <= |s| <= |cs| && forall i :: lo <= i < hi ==> s[i] == w
    ensures Total(Beside(s, cs)[lo..hi], f) == Total(cs[lo..hi], OfAttributes(Appended(w, f)))
  {
    var m := Beside(s, cs)[lo..hi];
    forall i | 0 <= i < hi - lo ensures f(m[i]) == OfAttributes(Appended(w, f))(cs[lo..hi][i]) {
      assert m[i] == s[lo + i] + cs[lo + i].attributes;
    }
    TotalZip(m, cs[lo..hi], f, OfAttributes(Appended(w, f)));
  }

  lemma NextBlock<T>(m: seq<T>, lo: nat, hi: nat, f: T -> int)
    requires lo <= hi <= |m|
    ensures Total(m[..hi], f) == Total(m[..lo], f) + Total(m[lo..hi], f)
  {
    assert m[..hi] == m[..lo] + m[lo..hi];
    TotalConcat(m[..lo], m[lo..hi], f);
  }

  lemma {:induction false} BesideTotal(a: Attachment, s: seq<Row>, cs: seq<TRow>, g: nat, f: Row -> int)
    requires FacesGroups(a, s, cs) && g <= |a.Rows()|
    ensures 0 <= GroupStart(a.Rows(), a.Size(), g) <= |s|
    ensures Total(Beside(s, cs)[..GroupStart(a.Rows(), a.Size(), g)], f) == GroupStart(a.Rows(), Continued(a, f), g)
  {
    if g > 0 {
      BesideTotal(a, s, cs, g - 1, f);
      GroupBeside(a, s, cs, g - 1, f);
      NextBlock(Beside(s, cs), GroupStart(a.Rows(), a.Size(), g - 1), GroupStart(a.Rows(), a.Size(), g), f);
      GroupStartStep(a.Rows(), Continued(a, f), g - 1);
    }
  }

  lemma AllBesideTotal(a: Attachment, s: seq<Row>, cs: seq<TRow>, f: Row -> int)
    requires FacesGroups(a, s, cs)
    ensures Total(Beside(s, cs), f) == Total(a.Rows(), Continued(a, f))
  {
    var b := a.Rows();
    SizesNonNegative(a);
    FlattenLength(b, a.Size());
    assert b[..|b|] == b && Beside(s, cs)[..|s|] == Beside(s, cs);
    BesideTotal(a, s, cs, |b|, f);
  }

  // ---- The new accumulator represents the extended tuples ----

  lemma {:induction false} ContentKept(order: seq<nat>, data: seq<seq<seq<int>>>, t: Tuple, c: nat, r: nat)
    requires c !in order
    ensures Content(order, data, t[c := r]) == Content(order, data, t)
  {
    if order != [] {
      ContentKept(order[..|order| - 1], data, t, c, r);
    }
  }

  lemma ContentExtended(order: seq<nat>, data: seq<seq<seq<int>>>, t: Tuple, c: nat, r: nat)
    requires c !in order && c < |data| && r < |data[c]|
    ensures Content(order + [c], data, t[c := r]) == Content(order, data, t) + data[c][r]
  {
    ContentKept(order, data, t, c, r);
    assert (order + [c])[..|order|] == order;
  }

  /** What t's groups continue with is what its extensions weigh. */
  lemma ExtensionsContinue(a: Attachment, i: nat, f: Row -> int)
    requires a.Ready() && i < |a.ts|
    ensures Total(Extensions(a.tree, Data(a.db), a.ts[i], a.c, |Data(a.db)[a.c]|), WeightedContent(a.tree, a.db, a.order + [a.c], f))
         == GroupedContent(a.tree, a.db, a.order, a.c, Continued(a, f))(a.ts[i])
  {
    var t, w := a.ts[i], Content(a.order, Data(a.db), a.ts[i]);
    var g, k := MultTimes(Appended(w, f)), Groups(a.tree, a.db, t, a.c);
    StageTuple(a.tree, a.db, a.ts, Members(a.order), a.c, i);
    AttachGroups(a.tree, a.db, t, a.c);
    ContentOffers(a.tree, a.db, a.ts, a.order, a.widths, a.c, i);
    forall r: nat | r < |a.db[a.c]| && Joins(a.tree, Data(a.db), t, a.c, r)
      ensures WeightedContent(a.tree, a.db, a.order + [a.c], f)(t[a.c := r]) == k * g(a.db[a.c][r])
    {
      ContentExtended(a.order, Data(a.db), t, a.c, r);
      Associate(k, a.db[a.c][r].localMult, f(w + a.db[a.c][r].attributes));
    }
    ExtensionsTotal(a.tree, a.db, t, a.c, |a.db[a.c]|, WeightedContent(a.tree, a.db, a.order + [a.c], f), k, g);
    assert a.db[a.c][..|a.db[a.c]|] == a.db[a.c];
  }

  lemma ExtendedTotal(a: Attachment, f: Row -> int)
    requires a.Ready()
    ensures Total(a.Rows(), Continued(a, f))
         == Total(Extend(a.tree, Data(a.db), a.ts, a.c), WeightedContent(a.tree, a.db, a.order + [a.c], f))
  {
    GroupListTotal(a.tree, a.db, a.ts, a.order, a.c, a.Col(), Width(a.order, a.widths), Continued(a, f));
    forall i | 0 <= i < |a.ts|
      ensures Total(Extensions(a.tree, Data(a.db), a.ts[i], a.c, |Data(a.db)[a.c]|), WeightedContent(a.tree, a.db, a.order + [a.c], f))
           == GroupedContent(a.tree, a.db, a.order, a.c, Continued(a, f))(a.ts[i])
    {
      ExtensionsContinue(a, i, f);
    }
    ExtendTotal(a.tree, Data(a.db), a.ts, a.c, WeightedContent(a.tree, a.db, a.order + [a.c], f),
      GroupedContent(a.tree, a.db, a.order, a.c, Continued(a, f)));
  }

  /** The attach invariant: sort both sides, concatenate row by row, and the accumulator represents the tuples with c. */
  lemma AttachRepresents(a: Attachment, acc: seq<Row>, s: seq<Row>, cs: seq<TRow>)
    requires a.Ready() && Represents(acc, a.tree, a.db, a.ts, a.order)
    requires forall i :: 0 <= i < |acc| ==> |acc[i]| == Width(a.order, a.widths)
    requires SortOf(s, acc, ContentCmp(a.Col(), Width(a.order, a.widths))) && InKeyOrder(a, cs)
    ensures |s| == |cs|
    ensures Represents(Beside(s, cs), a.tree, a.db, Extend(a.tree, Data(a.db), a.ts, a.c), a.order + [a.c])
    ensures Stage(a.tree, a.db, Extend(a.tree, Data(a.db), a.ts, a.c), Members(a.order + [a.c]))
  {
    SortedIsFlattened(acc, s, a.tree, a.db, a.ts, a.order, a.widths, a.c);
    SizesNonNegative(a);
    FlattenLength(a.Rows(), a.Size());
    assert a.Rows()[..|a.Rows()|] == a.Rows();
    AllKeysBelow(a);
    SortOfElements(cs, a.KeyedChild(), CmpAlignmentKey);
    forall f: Row -> int
      ensures Total(Beside(s, cs), f) == Total(Extend(a.tree, Data(a.db), a.ts, a.c), WeightedContent(a.tree, a.db, a.order + [a.c], f))
    {
      AllBesideTotal(a, s, cs, f);
      ExtendedTotal(a, f);
    }
    StageExtends(a.tree, a.db, a.ts, Members(a.order), a.c);
    assert Members(a.order + [a.c]) == Members(a.order) + {a.c};
  }
}
