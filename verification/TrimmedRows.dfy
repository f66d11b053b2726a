/** Width-trimmed rows of the distribute and align phases, their comparators and their sort padding. */
module TrimmedRows {
  import opened Records
  import opened ObliviousSort
  import opened Boundary

  /** trow_t: a row of an expanded table. */
  datatype TRow = TRow(
    joinAttr: int,
    fieldType: FieldType,
    originalIndex: int,
    localMult: int,
    foreignSum: int,
    copyIndex: int,
    alignmentKey: int,
    finalMult: int,
    dstIdx: int,
    index: int,
    attributes: seq<int>)

  /** rrow_t: a row of the result accumulator. */
  datatype RRow = RRow(joinAttr: int, fieldType: FieldType, attributes: seq<int>)

  const T_PAD := TRow(INT32_MAX, SortPadding, INT32_MAX, 0, 0, 0, 0, 0, 0, 0, [])
  const RR_PAD := RRow(INT32_MAX, SortPadding, [])

  function CmpInt(x: int, y: int): int {
    if x != y then Sign(x, y) else 0
  }

  /** Rows before distribution padding, each class by original index. */
  function CmpDistPaddingLast(e1: TRow, e2: TRow): int {
    PadAdjust(e1.fieldType == SortPadding, e2.fieldType == SortPadding,
      if (e1.fieldType == DistPadding) != (e2.fieldType == DistPadding)
      then Bit(e1.fieldType == DistPadding) - Bit(e2.fieldType == DistPadding)
      else CmpInt(e1.originalIndex, e2.originalIndex))
  }

  function CmpAlignmentKey(e1: TRow, e2: TRow): int {
    PadAdjust(e1.fieldType == SortPadding, e2.fieldType == SortPadding,
      if e1.alignmentKey != e2.alignmentKey then Sign(e1.alignmentKey, e2.alignmentKey)
      else if e1.originalIndex != e2.originalIndex then Sign(e1.originalIndex, e2.originalIndex)
      else CmpInt(e1.copyIndex, e2.copyIndex))
  }

  lemma RowComparatorsOrder()
    ensures Comparator(CmpDistPaddingLast) && Comparator(CmpAlignmentKey)
  {
  }

  // ---- Lexicographic order of accumulator rows ----

  function Compare(x: int, y: int): int {
    Bit(x > y) - Bit(x < y)
  }

  /** The first non-zero sign among the join attributes and the first i attributes. */
  function Lex(e1: RRow, e2: RRow, i: nat): int {
    if i == 0 then Compare(e1.joinAttr, e2.joinAttr)
    else
      var cmp := Lex(e1, e2, i - 1);
      if cmp == 0 then Compare(Attr(e1.attributes, i - 1), Attr(e2.attributes, i - 1)) else cmp
  }

  /** rr_cmp_join_then_other for rows of the given width. */
  function RrCmp(width: nat): (RRow, RRow) -> int {
    (e1: RRow, e2: RRow) =>
      PadAdjust(e1.fieldType == SortPadding, e2.fieldType == SortPadding, Lex(e1, e2, width))
  }

  /** The comparator as a loop over all attributes, without early exit. */
  method RrCompare(e1: RRow, e2: RRow, width: nat) returns (r: int)
    ensures r == RrCmp(width)(e1, e2)
  {
    var cmp := Bit(e1.joinAttr > e2.joinAttr) - Bit(e1.joinAttr < e2.joinAttr);
    for i := 0 to width
      invariant cmp == Lex(e1, e2, i)
    {
      var c := Bit(Attr(e1.attributes, i) > Attr(e2.attributes, i)) - Bit(Attr(e1.attributes, i) < Attr(e2.attributes, i));
      cmp := cmp + Bit(cmp == 0) * c;
    }
    r := PadAdjust(e1.fieldType == SortPadding, e2.fieldType == SortPadding, cmp);
  }

  lemma {:induction false} LexFlips(e1: RRow, e2: RRow, i: nat)
    ensures Lex(e1, e2, i) == -Lex(e2, e1, i)
  {
    if i > 0 {
      LexFlips(e1, e2, i - 1);
    }
  }

  lemma {:induction false} LexTransitive(e1: RRow, e2: RRow, e3: RRow, i: nat)
    requires Lex(e1, e2, i) <= 0 && Lex(e2, e3, i) <= 0
    ensures Lex(e1, e3, i) <= 0
    ensures Lex(e1, e3, i) == 0 ==> Lex(e1, e2, i) == 0 && Lex(e2, e3, i) == 0
  {
    if i > 0 {
      LexTransitive(e1, e2, e3, i - 1);
    }
  }

  lemma RrCmpOrders(width: nat)
    ensures Comparator(RrCmp(width))
  {
    forall x, y, z
      ensures RrCmp(width)(x, y) <= 0 || RrCmp(width)(y, x) <= 0
      ensures RrCmp(width)(x, y) <= 0 && RrCmp(width)(y, z) <= 0 ==> RrCmp(width)(x, z) <= 0
    {
      LexFlips(x, y, width);
      if Lex(x, y, width) <= 0 && Lex(y, z, width) <= 0 {
        LexTransitive(x, y, z, width);
      }
    }
  }

  /** Rows that compare equal have equal join attributes and equal columns. */
  lemma {:induction false} LexEqual(e1: RRow, e2: RRow, i: nat)
    requires Lex(e1, e2, i) == 0
    ensures e1.joinAttr == e2.joinAttr
    ensures forall j :: 0 <= j < i ==> Attr(e1.attributes, j) == Attr(e2.attributes, j)
  {
    if i > 0 {
      LexEqual(e1, e2, i - 1);
    }
  }

  lemma {:induction false} LexByJoinAttr(e1: RRow, e2: RRow, i: nat)
    requires Lex(e1, e2, i) <= 0
    ensures e1.joinAttr <= e2.joinAttr
  {
    if i > 0 {
      LexByJoinAttr(e1, e2, i - 1);
    }
  }
}
