/**
 * The board as a value: a 10x10 grid of optional cell records, the piece
 * invariant every operation keeps, and the read-only queries over it
 * (`isAreaEmpty`, `isEmptyAndSatisfiesCondition`).
 */
module Board {
  import opened Wrappers
  import opened Geometry
  import opened Catalog

  /**
   * The record stored in every cell of a piece's footprint. The source also
   * stores the cell's own coordinates in it; they always equal the position
   * the record is stored at and nothing in the engine reads them.
   */
  datatype Cell = Cell(
    cardTypeId: int,
    isPlayerPlaced: bool,
    growthStage: int,
    originRow: int,
    originCol: int,
    size: int,
    placementId: int)

  function Origin(x: Cell): Pos {
    Pos(x.originRow, x.originCol)
  }

  type Grid = g: seq<seq<Option<Cell>>> | |g| == BoardSize && forall r :: 0 <= r < BoardSize ==> |g[r]| == BoardSize
    witness seq(BoardSize, _ => seq(BoardSize, _ => None))

  /** `createEmptyBoard()`. */
  function EmptyGrid(): (g: Grid)
    ensures forall r, c :: OnBoard(r, c) ==> g[r][c].None?
  {
    seq(BoardSize, _ => seq(BoardSize, _ => None))
  }

  /** The contents of a 10x10 array as a grid value: `board.map(row => row.map(...))`. */
  function GridOf(a: array2<Option<Cell>>): (g: Grid)
    reads a
    requires a.Length0 == BoardSize && a.Length1 == BoardSize
    ensures forall r, c :: OnBoard(r, c) ==> g[r][c] == a[r, c]
  {
    seq(BoardSize, r requires 0 <= r < BoardSize reads a =>
      seq(BoardSize, c requires 0 <= c < BoardSize reads a => a[r, c]))
  }

  /** Two grids that agree on every cell are equal. */
  lemma GridExt(a: Grid, b: Grid)
    requires forall r, c :: OnBoard(r, c) ==> a[r][c] == b[r][c]
    ensures a == b
  {
    forall r | 0 <= r < BoardSize ensures a[r] == b[r] {
      assert forall c :: 0 <= c < BoardSize ==> a[r][c] == b[r][c];
    }
  }

  /**
   * The occupied cell at (r, c) belongs to a well-formed piece: its type is in
   * the catalog and gives its size, its footprint contains (r, c) and lies on
   * the board, and every footprint cell holds the same record.
   */
  ghost predicate PieceAt(g: Grid, catalog: seq<CardType>, r: int, c: int)
    requires OnBoard(r, c) && g[r][c].Some?
  {
    var x := g[r][c].value;
    0 <= x.cardTypeId < |catalog| && x.size == catalog[x.cardTypeId].size
    && InFootprint(x.originRow, x.originCol, x.size, r, c)
    && Fits(x.originRow, x.originCol, x.size)
    && forall r', c' :: InFootprint(x.originRow, x.originCol, x.size, r', c') ==> g[r'][c'] == Some(x)
  }

  /** The structural invariant: every occupied cell belongs to a well-formed piece. */
  ghost predicate Pieces(g: Grid, catalog: seq<CardType>)
    ensures Pieces(g, catalog) ==> TypesKnown(g, catalog)
  {
    forall r, c :: OnBoard(r, c) && g[r][c].Some? ==> PieceAt(g, catalog, r, c)
  }

  /** Every occupied cell names a type of the catalog. */
  ghost predicate TypesKnown(g: Grid, catalog: seq<CardType>) {
    forall r, c :: OnBoard(r, c) && g[r][c].Some? ==> 0 <= g[r][c].value.cardTypeId < |catalog|
  }

  /** Every placement id on the board was handed out before `counter`. */
  ghost predicate IdsBelow(g: Grid, counter: int) {
    forall r, c :: OnBoard(r, c) && g[r][c].Some? ==> g[r][c].value.placementId < counter
  }

  ghost predicate ValidGrid(g: Grid, catalog: seq<CardType>, counter: int) {
    Pieces(g, catalog) && IdsBelow(g, counter)
  }

  /** Under the invariant, the cell at a piece's origin is occupied by that piece. */
  lemma OriginHoldsPiece(g: Grid, catalog: seq<CardType>, r: int, c: int)
    requires Pieces(g, catalog) && OnBoard(r, c) && g[r][c].Some?
    ensures OnBoard(g[r][c].value.originRow, g[r][c].value.originCol)
    ensures g[g[r][c].value.originRow][g[r][c].value.originCol] == g[r][c]
  {
    assert PieceAt(g, catalog, r, c);
  }

  /** `isAreaEmpty`, one row from column c on. */
  function RowEmpty(g: Grid, r: int, c: int, colEnd: int): (b: bool)
    ensures b <==> forall c' :: c <= c' < colEnd ==> OnBoard(r, c') && g[r][c'].None?
    decreases colEnd - c
  {
    if c >= colEnd then true
    else if !OnBoard(r, c) || g[r][c].Some? then false
    else RowEmpty(g, r, c + 1, colEnd)
  }

  /** `isAreaEmpty`, from row r on. */
  function RowsEmpty(g: Grid, r: int, rowEnd: int, col: int, size: int): (b: bool)
    ensures b <==> forall r', c' :: r <= r' < rowEnd && col <= c' < col + size ==> OnBoard(r', c') && g[r'][c'].None?
    decreases rowEnd - r
  {
    if r >= rowEnd then true
    else if !RowEmpty(g, r, col, col + size) then false
    else RowsEmpty(g, r + 1, rowEnd, col, size)
  }

  /** `isAreaEmpty(board, row, col, size)`: the whole footprint is on the board and empty. */
  function AreaEmpty(g: Grid, row: int, col: int, size: int): (b: bool)
    ensures b <==> forall r, c :: InFootprint(row, col, size, r, c) ==> OnBoard(r, c) && g[r][c].None?
    ensures b && 1 <= size ==> Fits(row, col, size)
  {
    var b := RowsEmpty(g, row, row + size, col, size);
    assert b && 1 <= size ==> OnBoard(row, col) && OnBoard(row + size - 1, col + size - 1);
    b
  }

  /** `isAreaEmpty(board, row, col, size)` on the live board: stops at the first footprint cell that is off the board or taken. */
  method IsAreaEmpty(board: array2<Option<Cell>>, row: int, col: int, size: int) returns (b: bool)
    requires board.Length0 == BoardSize && board.Length1 == BoardSize
    ensures b == AreaEmpty(GridOf(board), row, col, size)
  {
    ghost var g := GridOf(board);
    var r := row;
    while r < row + size
      invariant row <= r
      invariant forall r', c' :: InFootprint(row, col, size, r', c') && r' < r ==> OnBoard(r', c') && g[r'][c'].None?
    {
      var c := col;
      while c < col + size
        invariant col <= c
        invariant forall r', c' :: InFootprint(row, col, size, r', c') && Before(r', c', r, c) ==> OnBoard(r', c') && g[r'][c'].None?
      {
        if r < 0 || r >= BoardSize || c < 0 || c >= BoardSize || board[r, c].Some? {
          assert InFootprint(row, col, size, r, c);
          return false;
        }
        c := c + 1;
      }
      r := r + 1;
    }
    return true;
  }

  /** Does the cell at p hold a piece of type `id`? */
  predicate HasType(g: Grid, p: Pos, id: int) {
    OnBoard(p.r, p.c) && g[p.r][p.c].Some? && g[p.r][p.c].value.cardTypeId == id
  }

  /** The per-type count of `isEmptyAndSatisfiesCondition`: list cells holding type `id`. */
  function CountOfType(g: Grid, cells: seq<Pos>, id: int): nat {
    if cells == [] then 0
    else (if HasType(g, cells[0], id) then 1 else 0) + CountOfType(g, cells[1..], id)
  }

  /** Counting along a list without repetitions counts each grid cell once. */
  lemma {:induction false} CountIsCardinality(g: Grid, cells: seq<Pos>, id: int)
    requires NoDuplicates(cells)
    ensures CountOfType(g, cells, id) == |set p | p in cells && HasType(g, p, id)|
  {
    if cells != [] {
      var tail := cells[1..];
      assert NoDuplicates(tail) by {
        forall i, j | 0 <= i < j < |tail| ensures tail[i] != tail[j] {
          assert tail[i] == cells[i + 1] && tail[j] == cells[j + 1];
        }
      }
      CountIsCardinality(g, tail, id);
      var all := set p | p in cells && HasType(g, p, id);
      var rest := set p | p in tail && HasType(g, p, id);
      assert cells[0] !in tail by {
        forall j | 0 <= j < |tail| ensures tail[j] != cells[0] {
          assert tail[j] == cells[j + 1];
        }
      }
      assert cells == [cells[0]] + tail;
      if HasType(g, cells[0], id) {
        assert all == rest + {cells[0]};
      } else {
        assert all == rest;
      }
    }
  }

  /** The ring cells of the footprint at (row, col) that hold type `id` (a reference definition by set). */
  ghost function RingCellsOfType(g: Grid, row: int, col: int, size: int, id: int): set<Pos> {
    set r, c | 0 <= r < BoardSize && 0 <= c < BoardSize && RingSize(size) && InRing(row, col, size, r, c)
                 && g[r][c].Some? && g[r][c].value.cardTypeId == id :: Pos(r, c)
  }

  /** Counting along a list extended by one cell adds that cell's share. */
  lemma {:induction false} CountOfTypeSnoc(g: Grid, cells: seq<Pos>, p: Pos, id: int)
    ensures CountOfType(g, cells + [p], id) == CountOfType(g, cells, id) + (if HasType(g, p, id) then 1 else 0)
  {
    if cells == [] {
      assert [] + [p] == [p];
    } else {
      assert (cells + [p])[1..] == cells[1..] + [p];
      CountOfTypeSnoc(g, cells[1..], p, id);
    }
  }

  /** `cellCountByType[id] || 0`: a type never counted reads as 0. */
  function CountIn(counts: map<int, int>, id: int): int {
    if id in counts then counts[id] else 0
  }

  /** Every condition holds against the counts over the given ring list. */
  predicate AllConditionsHold(g: Grid, ring: seq<Pos>, conditions: seq<Condition>) {
    forall i :: 0 <= i < |conditions| ==> CountOfType(g, ring, conditions[i].id) >= conditions[i].amount
  }

  /** `isEmptyAndSatisfiesCondition(board, row, col, conditions, size)`. */
  function SatisfiesCondition(g: Grid, row: int, col: int, conditions: seq<Condition>, size: int): (b: bool)
    requires OnBoard(row, col)
    ensures b <==> (g[row][col].None? && |conditions| > 0 &&
                    forall i :: 0 <= i < |conditions| ==>
                      |RingCellsOfType(g, row, col, size, conditions[i].id)| >= conditions[i].amount)
  {
    if g[row][col].Some? then false
    else if |conditions| == 0 then false
    else
      var ring := Surrounding(row, col, size);
      RingCountsAreCellCounts(g, row, col, size, conditions);
      AllConditionsHold(g, ring, conditions)
  }

  /** The tally of `isEmptyAndSatisfiesCondition`: for each occupied cell of the list, one more for its card type. */
  method TallyTypes(board: array2<Option<Cell>>, cells: seq<Pos>) returns (counts: map<int, int>)
    requires board.Length0 == BoardSize && board.Length1 == BoardSize && AllOnBoard(cells)
    ensures forall id :: CountIn(counts, id) == CountOfType(GridOf(board), cells, id)
  {
    ghost var g := GridOf(board);
    counts := map[];
    var i := 0;
    while i < |cells|
      invariant 0 <= i <= |cells|
      invariant forall id :: CountIn(counts, id) == CountOfType(g, cells[..i], id)
    {
      var p := cells[i];
      var cell := board[p.r, p.c];
      if cell.Some? {
        var id := cell.value.cardTypeId;
        counts := counts[id := CountIn(counts, id) + 1];
      }
      forall id ensures CountIn(counts, id) == CountOfType(g, cells[..i + 1], id) {
        assert cells[..i + 1] == cells[..i] + [p];
        CountOfTypeSnoc(g, cells[..i], p, id);
      }
      i := i + 1;
    }
    assert cells[..i] == cells;
  }

  /**
   * `isEmptyAndSatisfiesCondition` on the live board: tallies the occupied
   * ring cells by card type in a dictionary, then checks each condition's
   * amount against the tally.
   */
  method IsEmptyAndSatisfiesCondition(board: array2<Option<Cell>>, row: int, col: int, conditions: seq<Condition>, spawnSize: int)
      returns (b: bool)
    requires board.Length0 == BoardSize && board.Length1 == BoardSize && OnBoard(row, col)
    ensures b == SatisfiesCondition(GridOf(board), row, col, conditions, spawnSize)
  {
    ghost var g := GridOf(board);
    if board[row, col].Some? {
      return false;
    }
    if |conditions| == 0 {
      return false;
    }
    var surrounding := SurroundingCells(row, col, spawnSize);
    assert AllOnBoard(surrounding) by {
      SurroundingMembers(row, col, spawnSize);
    }
    var counts := TallyTypes(board, surrounding);
    b := MeetsAll(counts, conditions);
  }

  /** The condition loop of `isEmptyAndSatisfiesCondition`: false at the first condition whose amount the tally falls short of. */
  method MeetsAll(counts: map<int, int>, conditions: seq<Condition>) returns (b: bool)
    ensures b <==> forall j :: 0 <= j < |conditions| ==> CountIn(counts, conditions[j].id) >= conditions[j].amount
  {
    var k := 0;
    while k < |conditions|
      invariant 0 <= k <= |conditions|
      invariant forall j :: 0 <= j < k ==> CountIn(counts, conditions[j].id) >= conditions[j].amount
    {
      if CountIn(counts, conditions[k].id) < conditions[k].amount {
        return false;
      }
      k := k + 1;
    }
    return true;
  }

  lemma RingCountsAreCellCounts(g: Grid, row: int, col: int, size: int, conditions: seq<Condition>)
    ensures forall i :: 0 <= i < |conditions| ==>
      CountOfType(g, Surrounding(row, col, size), conditions[i].id) == |RingCellsOfType(g, row, col, size, conditions[i].id)|
  {
    var ring := Surrounding(row, col, size);
    SurroundingMembers(row, col, size);
    forall i | 0 <= i < |conditions|
      ensures CountOfType(g, ring, conditions[i].id) == |RingCellsOfType(g, row, col, size, conditions[i].id)|
    {
      var id := conditions[i].id;
      CountIsCardinality(g, ring, id);
      var s1 := set p | p in ring && HasType(g, p, id);
      var s2 := RingCellsOfType(g, row, col, size, id);
      assert s1 == s2 by {
        forall p | p in s1 ensures p in s2 { assert Pos(p.r, p.c) == p; }
        forall p | p in s2 ensures p in s1 { }
      }
    }
  }
}
