/** Rows, join-tree nodes and bands: the data that the four join phases work on. */
module Records {
  import opened Totals

  type int32 = x: int | -0x8000_0000 <= x < 0x8000_0000

  const INT32_MAX: int32 := 0x7FFF_FFFF

  /** Join attributes stay in this range, band offsets in the next, so that their sum fits int32. */
  const JOIN_ATTR_MIN := -1073741820
  const JOIN_ATTR_MAX := 1073741820
  const JOIN_ATTR_NEG_INF := -1073741821
  const JOIN_ATTR_POS_INF := 1073741821

  datatype FieldType = SortPadding | Source | Start | End | Target | DistPadding | NullValue

  datatype Equality = None | Eq | Neq

  /** One row of an input table with the metadata that the phases keep on it. */
  datatype Entry = Entry(
    fieldType: FieldType,
    originalIndex: int,
    localMult: int,
    finalMult: int,
    foreignSum: int,
    attributes: seq<int>)

  /** One node of the serialised join tree; every non-root node carries the band of the edge to its parent. */
  datatype JoinNode = JoinNode(
    tableIdx: nat,
    parentIdx: int,
    joinCol: nat,
    parentJoinCol: nat,
    deviation1: int,
    equality1: Equality,
    deviation2: int,
    equality2: Equality)

  /** Column access that is total. */
  function Attr(attributes: seq<int>, col: int): int {
    if 0 <= col < |attributes| then attributes[col] else 0
  }

  // ---- Bands ----

  /** x is below the band that n puts around y. */
  ghost predicate Under(n: JoinNode, x: int, y: int) {
    if n.equality1 == Eq then x < y + n.deviation1 else x <= y + n.deviation1
  }

  /** x is above the band that n puts around y. */
  ghost predicate Over(n: JoinNode, x: int, y: int) {
    if n.equality2 == Eq then x > y + n.deviation2 else x >= y + n.deviation2
  }

  /** The join predicate of the edge above n: child value x lies in the band around parent value y. */
  ghost predicate InBand(n: JoinNode, x: int, y: int) {
    && (if n.equality1 == Eq then y + n.deviation1 <= x else y + n.deviation1 < x)
    && (if n.equality2 == Eq then x <= y + n.deviation2 else x < y + n.deviation2)
  }

  /** Not empty, not reversed, offsets in range. */
  ghost predicate ValidBand(n: JoinNode) {
    && JOIN_ATTR_NEG_INF <= n.deviation1 <= JOIN_ATTR_POS_INF
    && JOIN_ATTR_NEG_INF <= n.deviation2 <= JOIN_ATTR_POS_INF
    && n.equality1 != None && n.equality2 != None
    && (n.deviation1 < n.deviation2 || (n.deviation1 == n.deviation2 && n.equality1 == n.equality2 == Eq))
  }

  /** A valid band leaves each value on exactly one of three sides. */
  lemma BandSides(n: JoinNode, x: int, y: int)
    requires ValidBand(n)
    ensures !(Under(n, x, y) && Over(n, x, y))
    ensures InBand(n, x, y) <==> !Under(n, x, y) && !Over(n, x, y)
  {
  }

  // ---- Tables ----

  ghost predicate SafeAttr(x: int) {
    JOIN_ATTR_MIN <= x <= JOIN_ATTR_MAX
  }

  ghost predicate SafeColumn(t: seq<Entry>, col: nat) {
    forall i :: 0 <= i < |t| ==> col < |t[i].attributes| && SafeAttr(t[i].attributes[col])
  }

  ghost predicate Indexed(t: seq<Entry>) {
    forall i :: 0 <= i < |t| ==> t[i].originalIndex == i
  }

  /** local_mult of the rows whose join attribute lies in the band around y. */
  ghost function MatchedMult(n: JoinNode, y: int): Entry -> int {
    (e: Entry) => if InBand(n, Attr(e.attributes, n.joinCol), y) then e.localMult else 0
  }

  /** The match sum of a parent value y: what the child's rows inside the band add up to. */
  ghost function MatchSum(n: JoinNode, child: seq<Entry>, y: int): int {
    Total(child, MatchedMult(n, y))
  }
}
