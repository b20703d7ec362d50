/**
 * Placement and removal as functions on grid values: the effect of
 * `placeCard` (evict every overlapping piece in full, then stamp the new
 * piece) and of `destroyCard` / `destroyCardInternal` (clear one piece).
 */
module Placement {
  import opened Wrappers
  import opened Geometry
  import opened Catalog
  import opened Board

  /** Every on-board footprint cell of (row, col, size) set to `x`; all other cells as in g. */
  function Stamp(g: Grid, row: int, col: int, size: int, x: Cell): (g': Grid)
    ensures forall r, c :: OnBoard(r, c) ==>
      g'[r][c] == if InFootprint(row, col, size, r, c) then Some(x) else g[r][c]
  {
    seq(BoardSize, r requires 0 <= r < BoardSize =>
      seq(BoardSize, c requires 0 <= c < BoardSize =>
        if InFootprint(row, col, size, r, c) then Some(x) else g[r][c]))
  }

  /** Every cell whose piece has its origin in `origins` emptied; all other cells as in g. */
  function Clear(g: Grid, origins: set<Pos>): (g': Grid)
    ensures forall r, c :: OnBoard(r, c) ==>
      g'[r][c] == if g[r][c].Some? && Origin(g[r][c].value) in origins then None else g[r][c]
  {
    seq(BoardSize, r requires 0 <= r < BoardSize =>
      seq(BoardSize, c requires 0 <= c < BoardSize =>
        if g[r][c].Some? && Origin(g[r][c].value) in origins then None else g[r][c]))
  }

  /** The origins of the pieces that occupy some cell of the footprint. */
  ghost function Overlapping(g: Grid, row: int, col: int, size: int): set<Pos> {
    set r, c | 0 <= r < BoardSize && 0 <= c < BoardSize && InFootprint(row, col, size, r, c) && g[r][c].Some?
      :: Origin(g[r][c].value)
  }

  /** Under the invariant, each overlapping origin is an occupied cell of its own piece. */
  lemma OverlappingAreOrigins(g: Grid, catalog: seq<CardType>, row: int, col: int, size: int, p: Pos)
    requires Pieces(g, catalog) && p in Overlapping(g, row, col, size)
    ensures OnBoard(p.r, p.c) && g[p.r][p.c].Some? && Origin(g[p.r][p.c].value) == p
  {
    var r, c :| OnBoard(r, c) && InFootprint(row, col, size, r, c) && g[r][c].Some? && Origin(g[r][c].value) == p;
    OriginHoldsPiece(g, catalog, r, c);
  }

  /** The initial growth stage of a player placement. */
  function InitialStage(card: CardType, simulationMode: bool): (s: int)
    ensures s == 0 || s == card.maxGrowthStage
    ensures s == 0 && card.maxGrowthStage != 0 ==> simulationMode && card.category != "mutated"
  {
    if simulationMode then (if card.category == "mutated" then card.maxGrowthStage else 0)
    else card.maxGrowthStage
  }

  /** The record `placeCard` writes into each footprint cell. */
  function PlacedCell(catalog: seq<CardType>, typeId: int, simulationMode: bool, row: int, col: int, placementId: int): (x: Cell)
    requires 0 <= typeId < |catalog|
    ensures x.isPlayerPlaced && Origin(x) == Pos(row, col) && x.placementId == placementId
    ensures x.cardTypeId == typeId && x.size == catalog[typeId].size
    ensures !simulationMode || catalog[typeId].category == "mutated" ==> x.growthStage == catalog[typeId].maxGrowthStage
    ensures simulationMode && catalog[typeId].category != "mutated" ==> x.growthStage == 0
  {
    Cell(typeId, true, InitialStage(catalog[typeId], simulationMode), row, col, catalog[typeId].size, placementId)
  }

  /** The board after a successful `placeCard(row, col, typeId)` with placement id `counter`. */
  ghost function PlaceGrid(g: Grid, catalog: seq<CardType>, row: int, col: int, typeId: int, simulationMode: bool, counter: int): (g': Grid)
    requires 0 <= typeId < |catalog|
    ensures forall r, c :: OnBoard(r, c) && InFootprint(row, col, catalog[typeId].size, r, c) ==>
      g'[r][c] == Some(PlacedCell(catalog, typeId, simulationMode, row, col, counter))
    ensures forall r, c :: OnBoard(r, c) && !InFootprint(row, col, catalog[typeId].size, r, c) ==>
      g'[r][c] == if g[r][c].Some? && Origin(g[r][c].value) in Overlapping(g, row, col, catalog[typeId].size) then None else g[r][c]
  {
    var size := catalog[typeId].size;
    Stamp(Clear(g, Overlapping(g, row, col, size)), row, col, size,
          PlacedCell(catalog, typeId, simulationMode, row, col, counter))
  }

  /**
   * The board after `destroyCard(r, c)`: the piece covering (r, c), if any,
   * removed. A column off the board reads as an empty cell.
   */
  function DestroyGrid(g: Grid, r: int, c: int): (g': Grid)
    requires 0 <= r < BoardSize
    ensures !OnBoard(r, c) || g[r][c].None? ==> g' == g
    ensures OnBoard(r, c) && g[r][c].Some? ==> forall r', c' :: OnBoard(r', c') ==>
      g'[r'][c'] == if g[r'][c'].Some? && Origin(g[r'][c'].value) == Origin(g[r][c].value) then None else g[r'][c']
  {
    if !OnBoard(r, c) || g[r][c].None? then g else Clear(g, {Origin(g[r][c].value)})
  }

  /** The eviction loop of `placeCard`: `destroyCardInternal` at each listed cell in turn. */
  function DestroyEach(g: Grid, cells: seq<Pos>): (g': Grid)
    requires AllOnBoard(cells)
    ensures forall r, c :: OnBoard(r, c) ==> g'[r][c].None? || g'[r][c] == g[r][c]
    decreases |cells|
  {
    if cells == [] then g else DestroyEach(DestroyGrid(g, cells[0].r, cells[0].c), cells[1..])
  }

  /** Under the invariant, a piece's cells are exactly its footprint. */
  lemma PieceIsFootprint(g: Grid, catalog: seq<CardType>, r: int, c: int)
    requires Pieces(g, catalog) && OnBoard(r, c) && g[r][c].Some?
    ensures var x := g[r][c].value;
      forall r', c' :: OnBoard(r', c') ==>
        (g[r'][c'].Some? && Origin(g[r'][c'].value) == Origin(x) <==> InFootprint(x.originRow, x.originCol, x.size, r', c'))
  {
    var x := g[r][c].value;
    assert PieceAt(g, catalog, r, c);
    forall r', c' | OnBoard(r', c') && g[r'][c'].Some? && Origin(g[r'][c'].value) == Origin(x)
      ensures InFootprint(x.originRow, x.originCol, x.size, r', c')
    {
      assert PieceAt(g, catalog, r', c');
      var y := g[r'][c'].value;
      assert g[x.originRow][x.originCol] == Some(y);
      assert g[x.originRow][x.originCol] == Some(x);
    }
  }

  /** Removing whole pieces keeps the invariant. */
  lemma ClearKeepsValid(g: Grid, catalog: seq<CardType>, counter: int, origins: set<Pos>)
    requires ValidGrid(g, catalog, counter)
    ensures ValidGrid(Clear(g, origins), catalog, counter)
  {
    var g' := Clear(g, origins);
    forall r, c | OnBoard(r, c) && g'[r][c].Some? ensures PieceAt(g', catalog, r, c) {
      assert PieceAt(g, catalog, r, c);
    }
  }

  /** Clearing one set of pieces and then another clears their union. */
  lemma ClearTwice(g: Grid, a: set<Pos>, b: set<Pos>)
    ensures Clear(Clear(g, a), b) == Clear(g, a + b)
  {
    GridExt(Clear(Clear(g, a), b), Clear(g, a + b));
  }

  /**
   * Destroying at the origins of distinct pieces, one after the other,
   * removes exactly those pieces and nothing else.
   */
  lemma {:induction false} DestroyEachIsClear(g: Grid, cells: seq<Pos>)
    requires AllOnBoard(cells) && NoDuplicates(cells)
    requires forall i :: 0 <= i < |cells| ==>
      g[cells[i].r][cells[i].c].Some? && Origin(g[cells[i].r][cells[i].c].value) == cells[i]
    ensures DestroyEach(g, cells) == Clear(g, set p | p in cells)
    decreases |cells|
  {
    if cells == [] {
      GridExt(Clear(g, {}), g);
      assert (set p | p in cells) == {};
    } else {
      var p, rest := cells[0], cells[1..];
      var g1 := Clear(g, {p});
      assert DestroyGrid(g, p.r, p.c) == g1;
      assert DestroyEach(g, cells) == DestroyEach(g1, rest);
      forall i | 0 <= i < |rest|
        ensures g1[rest[i].r][rest[i].c].Some? && Origin(g1[rest[i].r][rest[i].c].value) == rest[i]
      {
        assert rest[i] == cells[i + 1] && cells[0] != cells[i + 1];
      }
      DestroyEachIsClear(g1, rest);
      ClearTwice(g, {p}, set q | q in rest);
      ElementsOfCons(cells);
    }
  }

  /**
   * Placement keeps the invariant and hands out the id `counter`: after the
   * overlapping pieces are gone the footprint is empty, no surviving piece
   * reaches into it, and the new piece fills it.
   */
  lemma PlaceKeepsValid(g: Grid, catalog: seq<CardType>, row: int, col: int, typeId: int, simulationMode: bool, counter: int)
    requires ValidGrid(g, catalog, counter) && 0 <= typeId < |catalog| && Fits(row, col, catalog[typeId].size)
    ensures ValidGrid(PlaceGrid(g, catalog, row, col, typeId, simulationMode, counter), catalog, counter + 1)
  {
    var size := catalog[typeId].size;
    var o := Overlapping(g, row, col, size);
    var cleared := Clear(g, o);
    ClearKeepsValid(g, catalog, counter, o);
    var x := PlacedCell(catalog, typeId, simulationMode, row, col, counter);
    var g' := PlaceGrid(g, catalog, row, col, typeId, simulationMode, counter);
    assert g' == Stamp(cleared, row, col, size, x);
    // No surviving piece covers a footprint cell.
    assert forall r, c :: OnBoard(r, c) && InFootprint(row, col, size, r, c) ==> cleared[r][c].None? by {
      forall r, c | OnBoard(r, c) && InFootprint(row, col, size, r, c) && g[r][c].Some?
        ensures Origin(g[r][c].value) in o { }
    }
    forall r, c | OnBoard(r, c) && g'[r][c].Some? ensures PieceAt(g', catalog, r, c) && g'[r][c].value.placementId < counter + 1 {
      if !InFootprint(row, col, size, r, c) {
        var y := cleared[r][c].value;
        assert PieceAt(cleared, catalog, r, c);
        forall r', c' | InFootprint(y.originRow, y.originCol, y.size, r', c')
          ensures !InFootprint(row, col, size, r', c')
        {
          assert cleared[r'][c'] == Some(y);
        }
      }
    }
  }

  /** Placing on an empty footprint and destroying the new piece gives the board back. */
  lemma PlaceThenDestroy(g: Grid, catalog: seq<CardType>, row: int, col: int, typeId: int, simulationMode: bool, counter: int)
    requires Pieces(g, catalog) && 0 <= typeId < |catalog| && 1 <= catalog[typeId].size
    requires AreaEmpty(g, row, col, catalog[typeId].size)
    ensures OnBoard(row, col)
    ensures DestroyGrid(PlaceGrid(g, catalog, row, col, typeId, simulationMode, counter), row, col) == g
  {
    var size := catalog[typeId].size;
    assert Overlapping(g, row, col, size) == {};
    var g' := PlaceGrid(g, catalog, row, col, typeId, simulationMode, counter);
    assert InFootprint(row, col, size, row, col);
    var d := DestroyGrid(g', row, col);
    forall r, c | OnBoard(r, c) ensures d[r][c] == g[r][c] {
      if g[r][c].Some? {
        OriginHoldsPiece(g, catalog, r, c);
        var x := g[r][c].value;
        assert Origin(x) != Pos(row, col);
      }
    }
    GridExt(d, g);
  }

  /** Destroying keeps the invariant. */
  lemma DestroyKeepsValid(g: Grid, catalog: seq<CardType>, counter: int, r: int, c: int)
    requires ValidGrid(g, catalog, counter) && 0 <= r < BoardSize
    ensures ValidGrid(DestroyGrid(g, r, c), catalog, counter)
  {
    if OnBoard(r, c) && g[r][c].Some? {
      ClearKeepsValid(g, catalog, counter, {Origin(g[r][c].value)});
    }
  }

  /** Destroying an occupied cell empties exactly that piece's footprint. */
  lemma DestroyClearsFootprint(g: Grid, catalog: seq<CardType>, r: int, c: int)
    requires Pieces(g, catalog) && OnBoard(r, c) && g[r][c].Some?
    ensures var x := g[r][c].value;
      forall r', c' :: OnBoard(r', c') ==>
        DestroyGrid(g, r, c)[r'][c'] == if InFootprint(x.originRow, x.originCol, x.size, r', c') then None else g[r'][c']
  {
    PieceIsFootprint(g, catalog, r, c);
  }
}
