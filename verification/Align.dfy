/** Align-concat: sort both sides of an edge, concatenate row by row, top-down over the tree. */
module Align {
  import opened Records
  import opened ObliviousSort
  import opened Boundary
  import opened TrimmedRows
  import opened GroupsOfCopies
  import opened AlignKeys
  import opened AttachSums
  import opened WholeJoin

  /** The accumulated result: narrow rows of the width attached so far. */
  class ResultTable {
    var rows: array<RRow>
    var width: nat

    constructor (rows: array<RRow>, width: nat)
      ensures this.rows == rows && this.width == width
    {
      this.rows := rows;
      this.width := width;
    }
  }

  ghost predicate Shaped(rows: seq<RRow>, width: nat) {
    forall i :: 0 <= i < |rows| ==> rows[i].fieldType == NullValue && |rows[i].attributes| == width
  }

  ghost predicate TShaped(rows: seq<TRow>, width: nat) {
    forall i :: 0 <= i < |rows| ==> rows[i].fieldType == NullValue && |rows[i].attributes| == width
  }

  // ---- The narrow accumulator layout ----

  method ToAccumulator(t: array<TRow>) returns (rows: array<RRow>)
    ensures fresh(rows) && rows.Length == t.Length
    ensures forall i :: 0 <= i < t.Length ==> rows[i] == RRow(t[i].joinAttr, t[i].fieldType, t[i].attributes)
  {
    rows := new RRow[t.Length](_ => RR_PAD);
    for i := 0 to t.Length
      invariant forall j :: 0 <= j < i ==> rows[j] == RRow(t[j].joinAttr, t[j].fieldType, t[j].attributes)
    {
      rows[i] := RRow(t[i].joinAttr, t[i].fieldType, t[i].attributes);
    }
  }

  // ---- The accumulator side of an attach ----

  method SetJoinAttr(rows: array<RRow>, col: nat, ghost width: nat)
    requires Shaped(rows[..], width) && col < width
    modifies rows
    ensures forall i :: 0 <= i < rows.Length ==> rows[i] == KeyedRow(col, old(rows[i].attributes))
  {
    ghost var was := rows[..];
    for i := 0 to rows.Length
      invariant forall j :: 0 <= j < rows.Length ==> rows[j] == if j < i then KeyedRow(col, was[j].attributes) else was[j]
    {
      rows[i] := rows[i].(joinAttr := rows[i].attributes[col]);
    }
  }

  ghost function AttributesOf(): RRow -> Row {
    (r: RRow) => r.attributes
  }

  /** Sorting keyed rows sorts their contents. */
  lemma ContentsSorted(s: seq<RRow>, t: seq<RRow>, col: int, width: nat)
    requires SortOf(t, s, RrCmp(width)) && forall i :: 0 <= i < |s| ==> s[i] == KeyedRow(col, s[i].attributes)
    ensures SortOf(Attrs(t), Attrs(s), ContentCmp(col, width))
    ensures forall i :: 0 <= i < |t| ==> t[i] == KeyedRow(col, t[i].attributes)
  {
    SortOfElements(t, s, RrCmp(width));
    forall i | 0 <= i < |t| ensures t[i] == KeyedRow(col, t[i].attributes) {
      assert t[i] in s;
    }
    ImagePermutation(t, s, AttributesOf());
    assert Image(t, AttributesOf()) == Attrs(t) && Image(s, AttributesOf()) == Attrs(s);
  }

  lemma WidthsKept(s: seq<Row>, t: seq<Row>, width: nat)
    requires multiset(t) == multiset(s) && forall i :: 0 <= i < |s| ==> |s[i]| == width
    ensures forall i :: 0 <= i < |t| ==> |t[i]| == width
  {
    forall i | 0 <= i < |t| ensures |t[i]| == width {
      assert t[i] in multiset(s);
    }
  }

  /** The accumulator in (join attribute, all columns) order. */
  method SortAccumulator(rows: array<RRow>, col: nat, width: nat)
    requires Shaped(rows[..], width) && col < width
    modifies rows
    ensures SortOf(Attrs(rows[..]), old(Attrs(rows[..])), ContentCmp(col, width))
    ensures Shaped(rows[..], width)
  {
    ghost var was := Attrs(rows[..]);
    SetJoinAttr(rows, col, width);
    ghost var s := rows[..];
    assert Attrs(s) == was;
    RrCmpOrders(width);
    OSort(rows, RrCmp(width), RR_PAD);
    ContentsSorted(s, rows[..], col, width);
    WidthsKept(was, Attrs(rows[..]), width);
    forall i | 0 <= i < rows.Length ensures rows[i].fieldType == NullValue && |rows[i].attributes| == width {
      assert Attrs(rows[..])[i] == rows[i].attributes;
    }
  }

  // ---- The child side ----

  lemma {:induction false} CopyIndexSame(s: seq<TRow>, t: seq<TRow>, k: nat)
    requires k < |s| == |t| && forall i :: 0 <= i < |s| ==> s[i].originalIndex == t[i].originalIndex
    ensures CopyIndex(s, k) == CopyIndex(t, k)
  {
    if k > 0 {
      CopyIndexSame(s, t, k - 1);
    }
  }

  method SetChildAttr(child: array<TRow>, col: nat, ghost width: nat)
    requires TShaped(child[..], width) && col < width
    modifies child
    ensures forall i :: 0 <= i < child.Length ==>
      child[i] == old(child[i]).(joinAttr := Attr(old(child[i]).attributes, col))
  {
    ghost var was := child[..];
    for i := 0 to child.Length
      invariant forall j :: 0 <= j < child.Length ==>
        child[j] == if j < i then was[j].(joinAttr := Attr(was[j].attributes, col)) else was[j]
    {
      child[i] := child[i].(joinAttr := child[i].attributes[col]);
    }
  }

  /** copy_index counts within each block of copies. */
  method SetCopyIndex(child: array<TRow>)
    modifies child
    ensures forall i :: 0 <= i < child.Length ==> child[i] == old(child[i]).(copyIndex := CopyIndex(old(child[..]), i))
  {
    ghost var was := child[..];
    if child.Length > 0 {
      child[0] := child[0].(copyIndex := 0);
    }
    var i := 1;
    while i < child.Length
      invariant 1 <= i
      invariant forall j :: 0 <= j < child.Length ==>
        child[j] == if j < i then was[j].(copyIndex := CopyIndex(was, j)) else was[j]
    {
      var same := Bit(child[i].originalIndex == child[i - 1].originalIndex);
      child[i] := child[i].(copyIndex := same * (child[i - 1].copyIndex + 1));
      i := i + 1;
    }
  }

  method SetAlignmentKey(child: array<TRow>)
    modifies child
    ensures forall i :: 0 <= i < child.Length ==> child[i] == old(child[i]).(alignmentKey := KeyOf(old(child[i])))
  {
    ghost var was := child[..];
    for i := 0 to child.Length
      invariant forall j :: 0 <= j < child.Length ==>
        child[j] == if j < i then was[j].(alignmentKey := KeyOf(was[j])) else was[j]
    {
      var safeMult := child[i].localMult + Bit(child[i].localMult == 0);
      child[i] := child[i].(alignmentKey := child[i].foreignSum + child[i].copyIndex / safeMult);
    }
  }

  method KeyChild(child: array<TRow>, col: nat, ghost width: nat)
    requires TShaped(child[..], width) && col < width
    modifies child
    ensures child[..] == Keyed(old(child[..]), col)
  {
    ghost var was := child[..];
    SetChildAttr(child, col, width);
    ghost var s := child[..];
    SetCopyIndex(child);
    SetAlignmentKey(child);
    forall i | 0 <= i < child.Length ensures child[i] == Keyed(was, col)[i] {
      CopyIndexSame(was, s, i);
      assert Keyed(was, col)[i] == KeyedAt(was, col, i);
    }
  }

  method SortChild(child: array<TRow>, col: nat, ghost width: nat)
    requires TShaped(child[..], width) && col < width
    modifies child
    ensures SortOf(child[..], Keyed(old(child[..]), col), CmpAlignmentKey) && TShaped(child[..], width)
  {
    KeyChild(child, col, width);
    ghost var s := child[..];
    RowComparatorsOrder();
    OSort(child, CmpAlignmentKey, T_PAD);
    SortOfElements(child[..], s, CmpAlignmentKey);
    forall i | 0 <= i < child.Length ensures child[i].fieldType == NullValue && |child[i].attributes| == width {
      assert child[..][i] in s;
    }
  }

  // ---- Attaching one child ----

  method Merge(rows: array<RRow>, child: array<TRow>) returns (merged: array<RRow>)
    requires rows.Length <= child.Length
    ensures fresh(merged) && merged.Length == rows.Length
    ensures forall i :: 0 <= i < rows.Length ==>
      merged[i] == RRow(rows[i].joinAttr, rows[i].fieldType, rows[i].attributes + child[i].attributes)
  {
    merged := new RRow[rows.Length](_ => RR_PAD);
    for i := 0 to rows.Length
      invariant forall j :: 0 <= j < i ==>
        merged[j] == RRow(rows[j].joinAttr, rows[j].fieldType, rows[j].attributes + child[j].attributes)
    {
      merged[i] := RRow(rows[i].joinAttr, rows[i].fieldType, rows[i].attributes + child[i].attributes);
    }
  }

  /** attach_child: row i of the sorted accumulator next to row i of the sorted child; the ghost results are the two orders. */
  method AttachChild(res: ResultTable, child: array<TRow>, childWidth: nat, parentCol: nat, joinCol: nat)
    returns (ghost s: seq<Row>, ghost cs: seq<TRow>)
    requires Shaped(res.rows[..], res.width) && parentCol < res.width
    requires TShaped(child[..], childWidth) && joinCol < childWidth
    requires res.rows.Length <= child.Length
    modifies res, res.rows, child
    ensures SortOf(s, old(Attrs(res.rows[..])), ContentCmp(parentCol, old(res.width)))
    ensures SortOf(cs, Keyed(old(child[..]), joinCol), CmpAlignmentKey)
    ensures fresh(res.rows) && |s| <= |cs| && Attrs(res.rows[..]) == Beside(s, cs)
    ensures res.width == old(res.width) + childWidth && Shaped(res.rows[..], res.width)
  {
    SortAccumulator(res.rows, parentCol, res.width);
    s := Attrs(res.rows[..]);
    SortChild(child, joinCol, childWidth);
    cs := child[..];
    var merged := Merge(res.rows, child);
    res.rows, res.width := merged, res.width + childWidth;
  }
}
