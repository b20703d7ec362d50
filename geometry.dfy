/**
 * Board geometry: the 10x10 coordinate space, square footprints anchored at
 * their top-left origin, and the Moore ring around a footprint
 * (`getSurroundingCells`).
 */
module Geometry {

  const BoardSize: int := 10

  datatype Pos = Pos(r: int, c: int)

  predicate OnBoard(r: int, c: int) {
    0 <= r < BoardSize && 0 <= c < BoardSize
  }

  /** Every listed cell is on the board. */
  predicate AllOnBoard(cells: seq<Pos>) {
    forall i :: 0 <= i < |cells| ==> OnBoard(cells[i].r, cells[i].c)
  }

  /** The cells of a non-empty list are its head and the cells of its tail. */
  lemma ElementsOfCons(cells: seq<Pos>)
    requires cells != []
    ensures (set q | q in cells) == {cells[0]} + (set q | q in cells[1..])
  {
    assert cells == [cells[0]] + cells[1..];
  }

  /** (r, c) comes strictly before (r', c') in row-major order, the order of the board scans. */
  predicate Before(r: int, c: int, r': int, c': int) {
    r < r' || (r == r' && c < c')
  }

  /** (r, c) lies in the size x size square whose top-left corner is (row, col). */
  predicate InFootprint(row: int, col: int, size: int, r: int, c: int) {
    row <= r < row + size && col <= c < col + size
  }

  /** The placement bounds check: the whole footprint lies on the board. */
  predicate Fits(row: int, col: int, size: int) {
    0 <= row && row + size <= BoardSize && 0 <= col && col + size <= BoardSize
  }

  /** (r, c) lies in the (size+2) x (size+2) square around the footprint but not in the footprint. */
  predicate InRing(row: int, col: int, size: int, r: int, c: int) {
    row - 1 <= r <= row + size && col - 1 <= c <= col + size && !InFootprint(row, col, size, r, c)
  }

  /** The sizes for which the ring is defined; any other size has an empty ring. */
  predicate RingSize(size: int) {
    size == 1 || size == 2 || size == 3
  }

  /** The whole ring lies on the board. */
  predicate RingOnBoard(row: int, col: int, size: int) {
    1 <= row && row + size < BoardSize && 1 <= col && col + size < BoardSize
  }

  /** Ring cells of row r from column c to the ring's last column, left to right, off-board ones skipped. */
  function RingRow(row: int, col: int, size: int, r: int, c: int): seq<Pos>
    decreases col + size + 1 - c
  {
    if c > col + size then []
    else if !InFootprint(row, col, size, r, c) && OnBoard(r, c) then [Pos(r, c)] + RingRow(row, col, size, r, c + 1)
    else RingRow(row, col, size, r, c + 1)
  }

  /** Ring cells from row r to the ring's last row, in row-major order. */
  function RingRows(row: int, col: int, size: int, r: int): seq<Pos>
    decreases row + size + 1 - r
  {
    if r > row + size then [] else RingRow(row, col, size, r, col - 1) + RingRows(row, col, size, r + 1)
  }

  /** `getSurroundingCells(row, col, size)`. */
  function Surrounding(row: int, col: int, size: int): (ring: seq<Pos>)
    ensures forall i :: 0 <= i < |ring| ==> OnBoard(ring[i].r, ring[i].c) && InRing(row, col, size, ring[i].r, ring[i].c)
  {
    if RingSize(size) then
      var rows := RingRows(row, col, size, row - 1);
      RingRowsMembers(row, col, size, row - 1);
      assert forall i :: 0 <= i < |rows| ==> rows[i] in rows;
      rows
    else []
  }

  /** One row of the loops of `getSurroundingCells`: appends the ring cells of row r that are on the board, left to right. */
  method RingRowCells(row: int, col: int, size: int, r: int, out: seq<Pos>) returns (out': seq<Pos>)
    requires 0 <= size
    ensures out' == out + RingRow(row, col, size, r, col - 1)
  {
    out' := out;
    var c := col - 1;
    while c <= col + size
      invariant col - 1 <= c <= col + size + 1
      invariant out' + RingRow(row, col, size, r, c) == out + RingRow(row, col, size, r, col - 1)
    {
      if !InFootprint(row, col, size, r, c) && OnBoard(r, c) {
        assert out' + RingRow(row, col, size, r, c) == (out' + [Pos(r, c)]) + RingRow(row, col, size, r, c + 1);
        out' := out' + [Pos(r, c)];
      }
      c := c + 1;
    }
    assert out' + [] == out';
  }

  /** Appending row r of the ring and then the rows below it is appending the rows from r on. */
  lemma RingRowsStep(row: int, col: int, size: int, r: int, out: seq<Pos>)
    requires r <= row + size
    ensures (out + RingRow(row, col, size, r, col - 1)) + RingRows(row, col, size, r + 1) == out + RingRows(row, col, size, r)
  {
    assert RingRows(row, col, size, r) == RingRow(row, col, size, r, col - 1) + RingRows(row, col, size, r + 1);
  }

  /**
   * `getSurroundingCells(row, col, size)`: the three size branches of the
   * source walk the (size+2)-square row by row, skip the footprint and keep
   * the on-board cells; any other size gives the empty list.
   */
  method SurroundingCells(row: int, col: int, size: int) returns (out: seq<Pos>)
    ensures out == Surrounding(row, col, size)
  {
    out := [];
    if !RingSize(size) {
      return;
    }
    var r := row - 1;
    while r <= row + size
      invariant row - 1 <= r <= row + size + 1
      invariant out + RingRows(row, col, size, r) == RingRows(row, col, size, row - 1)
    {
      RingRowsStep(row, col, size, r, out);
      out := RingRowCells(row, col, size, r, out);
      r := r + 1;
    }
    assert out + [] == out;
  }

  /** The number of ring cells (on the board or not) in row r from column c on. */
  function RowSlots(row: int, col: int, size: int, r: int, c: int): int {
    if row <= r < row + size then
      (if c <= col - 1 then 1 else 0) + (if c <= col + size then 1 else 0)
    else col + size + 1 - c
  }

  /** The number of ring cells (on the board or not) from row r on. */
  function RowsSlots(row: int, col: int, size: int, r: int): int {
    (if r <= row - 1 then size + 2 else 0)
    + 2 * (if r <= row then size else if r <= row + size then row + size - r else 0)
    + (if r <= row + size then size + 2 else 0)
  }

  predicate NoDuplicates(s: seq<Pos>) {
    forall i, j :: 0 <= i < j < |s| ==> s[i] != s[j]
  }

  lemma {:induction false} RingRowMembers(row: int, col: int, size: int, r: int, c: int)
    ensures forall p :: p in RingRow(row, col, size, r, c) <==>
      p.r == r && c <= p.c <= col + size && !InFootprint(row, col, size, p.r, p.c) && OnBoard(p.r, p.c)
    ensures NoDuplicates(RingRow(row, col, size, r, c))
    ensures forall i :: 0 <= i < |RingRow(row, col, size, r, c)| ==> RingRow(row, col, size, r, c)[i].r == r
    decreases col + size + 1 - c
  {
    if c <= col + size {
      RingRowMembers(row, col, size, r, c + 1);
    }
  }

  lemma {:induction false} RingRowsMembers(row: int, col: int, size: int, r: int)
    ensures forall p :: p in RingRows(row, col, size, r) <==>
      r <= p.r <= row + size && col - 1 <= p.c <= col + size && !InFootprint(row, col, size, p.r, p.c) && OnBoard(p.r, p.c)
    ensures NoDuplicates(RingRows(row, col, size, r))
    ensures forall i :: 0 <= i < |RingRows(row, col, size, r)| ==> RingRows(row, col, size, r)[i].r >= r
    decreases row + size + 1 - r
  {
    if r <= row + size {
      RingRowMembers(row, col, size, r, col - 1);
      RingRowsMembers(row, col, size, r + 1);
      var a, b := RingRow(row, col, size, r, col - 1), RingRows(row, col, size, r + 1);
      assert forall i :: 0 <= i < |a + b| ==> (a + b)[i] == if i < |a| then a[i] else b[i - |a|];
    }
  }

  lemma {:induction false} RingRowCount(row: int, col: int, size: int, r: int, c: int)
    requires 1 <= size && col - 1 <= c <= col + size + 1
    ensures |RingRow(row, col, size, r, c)| <= RowSlots(row, col, size, r, c)
    ensures RingOnBoard(row, col, size) && row - 1 <= r <= row + size ==>
      |RingRow(row, col, size, r, c)| == RowSlots(row, col, size, r, c)
    decreases col + size + 1 - c
  {
    if c <= col + size {
      RingRowCount(row, col, size, r, c + 1);
    }
  }

  lemma {:induction false} RingRowsCount(row: int, col: int, size: int, r: int)
    requires 1 <= size && row - 1 <= r <= row + size + 1
    ensures |RingRows(row, col, size, r)| <= RowsSlots(row, col, size, r)
    ensures RingOnBoard(row, col, size) ==> |RingRows(row, col, size, r)| == RowsSlots(row, col, size, r)
    decreases row + size + 1 - r
  {
    if r <= row + size {
      RingRowCount(row, col, size, r, col - 1);
      RingRowsCount(row, col, size, r + 1);
    }
  }

  /** A row that skips an off-board ring cell at or after column c has fewer cells than slots. */
  lemma {:induction false} RingRowShort(row: int, col: int, size: int, r: int, c: int, c0: int)
    requires 1 <= size && col - 1 <= c <= c0 <= col + size
    requires !OnBoard(r, c0) && !InFootprint(row, col, size, r, c0)
    ensures |RingRow(row, col, size, r, c)| < RowSlots(row, col, size, r, c)
    decreases col + size + 1 - c
  {
    if c < c0 {
      RingRowShort(row, col, size, r, c + 1, c0);
    } else {
      RingRowCount(row, col, size, r, c + 1);
    }
  }

  /** Rows from r on that skip an off-board ring cell in row r0 have fewer cells than slots. */
  lemma {:induction false} RingRowsShort(row: int, col: int, size: int, r: int, r0: int, c0: int)
    requires 1 <= size && row - 1 <= r <= r0 <= row + size && col - 1 <= c0 <= col + size
    requires !OnBoard(r0, c0) && !InFootprint(row, col, size, r0, c0)
    ensures |RingRows(row, col, size, r)| < RowsSlots(row, col, size, r)
    decreases row + size + 1 - r
  {
    if r < r0 {
      RingRowCount(row, col, size, r, col - 1);
      RingRowsShort(row, col, size, r + 1, r0, c0);
    } else {
      RingRowShort(row, col, size, r, col - 1, c0);
      RingRowsCount(row, col, size, r + 1);
    }
  }

  /**
   * The ring holds exactly the on-board cells of the (size+2)-square around
   * the footprint that are not in the footprint, each once, for sizes 1, 2
   * and 3; it is empty for any other size.
   */
  lemma SurroundingMembers(row: int, col: int, size: int)
    ensures forall p :: p in Surrounding(row, col, size) <==>
      RingSize(size) && InRing(row, col, size, p.r, p.c) && OnBoard(p.r, p.c)
    ensures NoDuplicates(Surrounding(row, col, size))
    ensures !RingSize(size) ==> Surrounding(row, col, size) == []
  {
    if RingSize(size) {
      assert Surrounding(row, col, size) == RingRows(row, col, size, row - 1);
      RingRowsMembers(row, col, size, row - 1);
    }
  }

  /**
   * 8, 12 or 16 ring cells for size 1, 2 or 3 when the ring is on the board,
   * and strictly fewer when it runs off an edge.
   */
  lemma SurroundingCount(row: int, col: int, size: int)
    requires RingSize(size)
    ensures |Surrounding(row, col, size)| <= 4 * size + 4
    ensures RingOnBoard(row, col, size) <==> |Surrounding(row, col, size)| == 4 * size + 4
    ensures !RingOnBoard(row, col, size) ==> |Surrounding(row, col, size)| < 4 * size + 4
  {
    RingRowsCount(row, col, size, row - 1);
    if row < 1 || col < 1 {
      RingRowsShort(row, col, size, row - 1, row - 1, col - 1);
    } else if col + size >= BoardSize {
      RingRowsShort(row, col, size, row - 1, row - 1, col + size);
    } else if row + size >= BoardSize {
      RingRowsShort(row, col, size, row - 1, row + size, col);
    }
  }
}
