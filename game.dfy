/**
 * The session object of the engine (`createGameState`): the live board as a
 * 10x10 array of optional cell records, the catalog, the placement counter,
 * the simulation switch and the undo/redo history, with the operations that
 * update them in place.
 */
module Game {
  import opened Wrappers
  import opened Geometry
  import opened Catalog
  import opened Board
  import opened Placement
  import opened Growth
  import opened Spawn
  import opened Score
  import opened History
  import opened Shuffle

  /**
   * The visiting order of the spawn pass is a permutation of the empty cells:
   * it lists every empty cell, and only empty cells, once per listing.
   */
  lemma ShuffleVisitsEmptyCells(g: Grid, draws: seq<int>)
    requires DrawsFit(draws, |EmptyCellsFrom(g, 0, 0)|)
    ensures multiset(Shuffled(EmptyCellsFrom(g, 0, 0), draws)) == multiset(EmptyCellsFrom(g, 0, 0))
    ensures forall p :: p in Shuffled(EmptyCellsFrom(g, 0, 0), draws) <==> OnBoard(p.r, p.c) && g[p.r][p.c].None?
    ensures AllOnBoard(Shuffled(EmptyCellsFrom(g, 0, 0), draws))
  {
    var empty := EmptyCellsFrom(g, 0, 0);
    var order := Shuffled(empty, draws);
    ShuffledPermutes(empty, draws);
    EmptyCellsMembers(g, 0, 0);
    forall p ensures p in order <==> p in empty {
      assert p in order <==> p in multiset(order);
      assert p in empty <==> p in multiset(empty);
    }
  }

  class GameState {
    const catalog: seq<CardType>
    var board: array2<Option<Cell>>
    var scoreParamIndex: int
    var placementIdCounter: int
    var simulationMode: bool
    var history: seq<Snapshot>
    var historyIndex: int

    /** The live board as a value; also the deep copy that a snapshot stores. */
    function Current(): (g: Grid)
      reads this`board, board
      requires board.Length0 == BoardSize && board.Length1 == BoardSize
      ensures forall r, c :: OnBoard(r, c) ==> g[r][c] == board[r, c]
    {
      GridOf(board)
    }

    /**
     * The object invariant: a 10x10 board whose pieces are well formed and
     * numbered below the counter, catalog ids equal to positions, a cursor
     * inside the history (or -1 before the first snapshot), and well-formed
     * snapshots.
     */
    ghost predicate Valid()
      reads this, board
    {
      board.Length0 == BoardSize && board.Length1 == BoardSize
      && IdsArePositions(catalog)
      && ValidGrid(Current(), catalog, placementIdCounter)
      && HistoryValid()
    }

    /** A cursor inside the history (or -1 before the first snapshot) and well-formed snapshots. */
    ghost predicate HistoryValid()
      reads this`history, this`historyIndex
    {
      -1 <= historyIndex < |history|
      && EntriesValid(history, catalog)
    }

    /** `createGameState(config)`: the normalised catalog, an empty board and an empty history. */
    constructor (cards: seq<RawCard>, scoreParams: seq<string>)
      ensures Valid() && fresh(board)
      ensures catalog == NormalizeCatalog(cards, scoreParams)
      ensures Current() == EmptyGrid() && placementIdCounter == 0 && scoreParamIndex == 0
      ensures !simulationMode && history == [] && historyIndex == -1
    {
      catalog := NormalizeCatalog(cards, scoreParams);
      board := new Option<Cell>[BoardSize, BoardSize]((r, c) => None);
      scoreParamIndex := 0;
      placementIdCounter := 0;
      simulationMode := false;
      history := [];
      historyIndex := -1;
      new;
      GridExt(Current(), EmptyGrid());
    }

    /** Writes `x` into every footprint cell; the loops of `placeCard` and of the spawn pass. */
    method StampPiece(row: int, col: int, size: int, x: Cell)
      requires board.Length0 == BoardSize && board.Length1 == BoardSize
      requires forall r, c :: InFootprint(row, col, size, r, c) ==> OnBoard(r, c)
      modifies board
      ensures Current() == Stamp(old(Current()), row, col, size, x)
    {
      ghost var g := Current();
      var r := row;
      while r < row + size
        invariant row <= r
        invariant forall i, j :: OnBoard(i, j) ==>
          board[i, j] == if InFootprint(row, col, size, i, j) && i < r then Some(x) else g[i][j]
      {
        var c := col;
        while c < col + size
          invariant col <= c
          invariant forall i, j :: OnBoard(i, j) ==>
            board[i, j] == if InFootprint(row, col, size, i, j) && (i < r || (i == r && j < c)) then Some(x) else g[i][j]
        {
          assert InFootprint(row, col, size, r, c);
          board[r, c] := Some(x);
          c := c + 1;
        }
        r := r + 1;
      }
      GridExt(Current(), Stamp(g, row, col, size, x));
    }

    /** `destroyCardInternal(state, row, col)`: clears the whole footprint of the piece at (row, col). */
    method DestroyCardInternal(row: int, col: int) returns (ok: bool)
      requires Valid() && OnBoard(row, col)
      modifies board
      ensures Valid()
      ensures ok <==> old(Current())[row][col].Some?
      ensures Current() == DestroyGrid(old(Current()), row, col)
    {
      var cell := board[row, col];
      if cell.None? {
        return false;
      }
      ghost var g := Current();
      var x := cell.value;
      PieceIsFootprint(g, catalog, row, col);
      assert PieceAt(g, catalog, row, col);
      var r := x.originRow;
      while r < x.originRow + x.size
        invariant x.originRow <= r
        invariant forall i, j :: OnBoard(i, j) ==>
          board[i, j] == if InFootprint(x.originRow, x.originCol, x.size, i, j) && i < r then None else g[i][j]
      {
        var c := x.originCol;
        while c < x.originCol + x.size
          invariant x.originCol <= c
          invariant forall i, j :: OnBoard(i, j) ==>
            board[i, j] == if InFootprint(x.originRow, x.originCol, x.size, i, j) && (i < r || (i == r && j < c)) then None else g[i][j]
        {
          assert InFootprint(x.originRow, x.originCol, x.size, r, c);
          board[r, c] := None;
          c := c + 1;
        }
        r := r + 1;
      }
      GridExt(Current(), DestroyGrid(g, row, col));
      DestroyKeepsValid(g, catalog, placementIdCounter, row, col);
      ok := true;
    }

    /**
     * `destroyCard(state, row, col)`: removes the piece covering (row, col) and
     * reports whether there was one; a column off the board reads as empty.
     */
    method DestroyCard(row: int, col: int) returns (ok: bool)
      requires Valid() && 0 <= row < BoardSize
      modifies board
      ensures Valid()
      ensures ok <==> OnBoard(row, col) && old(Current())[row][col].Some?
      ensures Current() == DestroyGrid(old(Current()), row, col)
    {
      if !(0 <= col < BoardSize) || board[row, col].None? {
        return false;
      }
      ok := DestroyCardInternal(row, col);
    }

    /** One row of the first loop of `placeCard`: appends the origins met in row r of the footprint that are not listed yet. */
    method OverlappingInRow(row: int, col: int, size: int, r: int, overlapping: seq<Pos>) returns (overlapping': seq<Pos>)
      requires board.Length0 == BoardSize && board.Length1 == BoardSize && Fits(row, col, size) && row <= r < row + size
      requires NoDuplicates(overlapping)
      requires forall i :: 0 <= i < |overlapping| ==> overlapping[i] in Overlapping(Current(), row, col, size)
      ensures NoDuplicates(overlapping')
      ensures forall i :: 0 <= i < |overlapping'| ==> overlapping'[i] in Overlapping(Current(), row, col, size)
      ensures forall q :: q in overlapping ==> q in overlapping'
      ensures forall j :: col <= j < col + size && Current()[r][j].Some? ==> Origin(Current()[r][j].value) in overlapping'
    {
      ghost var g := Current();
      ghost var over := Overlapping(g, row, col, size);
      overlapping' := overlapping;
      var c := col;
      while c < col + size
        invariant col <= c <= col + size
        invariant NoDuplicates(overlapping')
        invariant forall i :: 0 <= i < |overlapping'| ==> overlapping'[i] in over
        invariant forall q :: q in overlapping ==> q in overlapping'
        invariant forall j :: col <= j < c && g[r][j].Some? ==> Origin(g[r][j].value) in overlapping'
      {
        var cell := board[r, c];
        if cell.Some? {
          var o := Origin(cell.value);
          if o !in overlapping' {
            assert InFootprint(row, col, size, r, c) && g[r][c] == cell;
            overlapping' := overlapping' + [o];
          }
        }
        c := c + 1;
      }
    }

    /**
     * The first loop of `placeCard`: the origins of the pieces met in the
     * footprint, in row-major order of the cells, each once.
     */
    method OverlappingOrigins(row: int, col: int, size: int) returns (overlapping: seq<Pos>)
      requires board.Length0 == BoardSize && board.Length1 == BoardSize && Fits(row, col, size)
      requires Pieces(Current(), catalog)
      ensures NoDuplicates(overlapping)
      ensures (set p | p in overlapping) == Overlapping(Current(), row, col, size)
      ensures forall i :: 0 <= i < |overlapping| ==>
        OnBoard(overlapping[i].r, overlapping[i].c) && Current()[overlapping[i].r][overlapping[i].c].Some?
        && Origin(Current()[overlapping[i].r][overlapping[i].c].value) == overlapping[i]
    {
      ghost var g := Current();
      ghost var over := Overlapping(g, row, col, size);
      overlapping := [];
      var r := row;
      while r < row + size
        invariant row <= r
        invariant forall i :: 0 <= i < |overlapping| ==> overlapping[i] in over
        invariant NoDuplicates(overlapping)
        invariant forall i, j :: InFootprint(row, col, size, i, j) && i < r && g[i][j].Some? ==>
          Origin(g[i][j].value) in overlapping
      {
        ghost var before := overlapping;
        overlapping := OverlappingInRow(row, col, size, r, overlapping);
        forall i, j | InFootprint(row, col, size, i, j) && i <= r && g[i][j].Some?
          ensures Origin(g[i][j].value) in overlapping
        {
          if i < r {
            assert Origin(g[i][j].value) in before;
          } else {
            assert col <= j < col + size && Current()[r][j] == g[r][j];
          }
        }
        r := r + 1;
      }
      forall q | q in over ensures q in overlapping {
        var i, j :| OnBoard(i, j) && InFootprint(row, col, size, i, j) && g[i][j].Some? && Origin(g[i][j].value) == q;
      }
      forall i | 0 <= i < |overlapping|
        ensures OnBoard(overlapping[i].r, overlapping[i].c) && g[overlapping[i].r][overlapping[i].c].Some?
                && Origin(g[overlapping[i].r][overlapping[i].c].value) == overlapping[i]
      {
        OverlappingAreOrigins(g, catalog, row, col, size, overlapping[i]);
      }
    }

    /** The eviction loop of `placeCard`: `destroyCardInternal` at each listed cell in turn. */
    method EvictAll(cells: seq<Pos>)
      requires Valid() && AllOnBoard(cells)
      modifies board
      ensures Valid()
      ensures Current() == DestroyEach(old(Current()), cells)
    {
      ghost var final := DestroyEach(Current(), cells);
      var k := 0;
      while k < |cells|
        invariant 0 <= k <= |cells|
        invariant Valid()
        invariant DestroyEach(Current(), cells[k..]) == final
      {
        assert cells[k..][0] == cells[k] && cells[k..][1..] == cells[k + 1..];
        var _ := DestroyCardInternal(cells[k].r, cells[k].c);
        k := k + 1;
      }
      assert cells[|cells|..] == [];
    }

    /**
     * `placeCard(state, row, col, cardTypeId)`: fails without any change for an
     * unknown type or a footprint off the board; otherwise evicts every piece
     * overlapping the footprint in full and stamps a player-placed piece there
     * with the next placement id.
     */
    method PlaceCard(row: int, col: int, typeId: int) returns (ok: bool)
      requires Valid()
      modifies this`placementIdCounter, board
      ensures Valid()
      ensures ok <==> 0 <= typeId < |catalog| && Fits(row, col, catalog[typeId].size)
      ensures ok ==> Current() == PlaceGrid(old(Current()), catalog, row, col, typeId, simulationMode, old(placementIdCounter))
                     && placementIdCounter == old(placementIdCounter) + 1
      ensures !ok ==> Current() == old(Current()) && placementIdCounter == old(placementIdCounter)
    {
      if !(0 <= typeId < |catalog|) {
        return false;
      }
      var card := catalog[typeId];
      var size := card.size;
      if row < 0 || row + size > BoardSize || col < 0 || col + size > BoardSize {
        return false;
      }
      ghost var g := Current();
      var overlapping := OverlappingOrigins(row, col, size);
      EvictAll(overlapping);
      DestroyEachIsClear(g, overlapping);

      var growthStage;
      if simulationMode {
        growthStage := if card.category == "mutated" then card.maxGrowthStage else 0;
      } else {
        growthStage := card.maxGrowthStage;
      }
      var placementId := placementIdCounter;
      var x := Cell(typeId, true, growthStage, row, col, size, placementId);
      assert x == PlacedCell(catalog, typeId, simulationMode, row, col, placementId);
      placementIdCounter := placementIdCounter + 1;
      StampPiece(row, col, size, x);
      PlaceKeepsValid(g, catalog, row, col, typeId, simulationMode, placementId);
      ok := true;
    }

    /** The growth phase of `progress`: with simulation on, every occupied cell advances one stage. */
    method AdvanceGrowth()
      requires Valid()
      modifies board
      ensures Valid()
      ensures Current() == Grow(old(Current()), catalog, simulationMode)
    {
      if !simulationMode {
        return;
      }
      ghost var g := Current();
      var r := 0;
      while r < BoardSize
        invariant 0 <= r <= BoardSize
        invariant forall i, j :: OnBoard(i, j) ==> board[i, j] == if i < r then GrowCell(catalog, g[i][j]) else g[i][j]
      {
        var c := 0;
        while c < BoardSize
          invariant 0 <= c <= BoardSize
          invariant forall i, j :: OnBoard(i, j) ==>
            board[i, j] == if i < r || (i == r && j < c) then GrowCell(catalog, g[i][j]) else g[i][j]
        {
          var cell := board[r, c];
          if cell.Some? {
            var x := cell.value;
            var card := catalog[x.cardTypeId];
            if IsGlasscorn(card) {
              if x.growthStage >= card.maxGrowthStage - 1 {
                board[r, c] := Some(x.(growthStage := 1));
              } else {
                board[r, c] := Some(x.(growthStage := x.growthStage + 1));
              }
            } else if x.growthStage < card.maxGrowthStage {
              board[r, c] := Some(x.(growthStage := x.growthStage + 1));
            }
          }
          c := c + 1;
        }
        r := r + 1;
      }
      GridExt(Current(), Grow(g, catalog, true));
      GrowKeepsValid(g, catalog, placementIdCounter, true);
    }

    /** One row of the collection loop of `progress`: appends the empty cells of row r, left to right. */
    method EmptyCellsInRow(r: int, cells: seq<Pos>) returns (cells': seq<Pos>)
      requires board.Length0 == BoardSize && board.Length1 == BoardSize && 0 <= r < BoardSize
      ensures cells' + EmptyCellsFrom(Current(), r + 1, 0) == cells + EmptyCellsFrom(Current(), r, 0)
    {
      ghost var g := Current();
      cells' := cells;
      var c := 0;
      while c < BoardSize
        invariant 0 <= c <= BoardSize
        invariant cells' + EmptyCellsFrom(g, r, c) == cells + EmptyCellsFrom(g, r, 0)
      {
        if board[r, c].None? {
          assert g[r][c].None?;
          assert cells' + EmptyCellsFrom(g, r, c) == (cells' + [Pos(r, c)]) + EmptyCellsFrom(g, r, c + 1);
          cells' := cells' + [Pos(r, c)];
        }
        c := c + 1;
      }
    }

    /** The collection loop of `progress`: the empty cells in row-major order. */
    method EmptyCells() returns (cells: seq<Pos>)
      requires board.Length0 == BoardSize && board.Length1 == BoardSize
      ensures cells == EmptyCellsFrom(Current(), 0, 0)
    {
      cells := [];
      var r := 0;
      while r < BoardSize
        invariant 0 <= r <= BoardSize
        invariant cells + EmptyCellsFrom(Current(), r, 0) == EmptyCellsFrom(Current(), 0, 0)
      {
        cells := EmptyCellsInRow(r, cells);
        r := r + 1;
      }
      assert cells + [] == cells;
    }

    /** One cell of the spawn loop: the cell must be empty with the conditions met around it, and the footprint free. */
    method SpawnAt(card: CardType, p: Pos)
      requires board.Length0 == BoardSize && board.Length1 == BoardSize && OnBoard(p.r, p.c)
      modifies this`placementIdCounter, board
      ensures (Current(), placementIdCounter) == TrySpawn(old(Current()), card, p, old(placementIdCounter))
    {
      var size := card.size;
      var satisfied := IsEmptyAndSatisfiesCondition(board, p.r, p.c, card.conditions, size);
      if satisfied {
        var empty := IsAreaEmpty(board, p.r, p.c, size);
        if empty {
          var placementId := placementIdCounter;
          placementIdCounter := placementIdCounter + 1;
          StampPiece(p.r, p.c, size, SpawnedCell(card, p.r, p.c, placementId));
        }
      }
    }

    /**
     * The inner loop of the spawn pass: type `card` tried at every cell of
     * the visiting order, each attempt reading the board as the earlier ones
     * left it.
     */
    method SpawnCardType(card: CardType, order: seq<Pos>)
      requires board.Length0 == BoardSize && board.Length1 == BoardSize && AllOnBoard(order)
      modifies this`placementIdCounter, board
      ensures (Current(), placementIdCounter) == SpawnType(old(Current()), card, order, old(placementIdCounter))
    {
      ghost var final := SpawnType(Current(), card, order, placementIdCounter);
      var i := 0;
      while i < |order|
        invariant 0 <= i <= |order|
        invariant SpawnType(Current(), card, order[i..], placementIdCounter) == final
      {
        var p := order[i];
        assert order[i..][0] == p && order[i..][1..] == order[i + 1..];
        SpawnAt(card, p);
        i := i + 1;
      }
      assert order[|order|..] == [];
    }

    /**
     * The spawn pass of `progress` over the visiting order `order`: every type
     * with conditions, in catalog order, tried at every cell of the order
     * against the live board.
     */
    method SpawnMutations(order: seq<Pos>)
      requires Valid() && AllOnBoard(order)
      modifies this`placementIdCounter, board
      ensures Valid()
      ensures (Current(), placementIdCounter) == SpawnPass(old(Current()), catalog, order, old(placementIdCounter))
      ensures Spawned(old(Current()), Current(), catalog, order, old(placementIdCounter), placementIdCounter)
    {
      ghost var g := Current();
      ghost var final := SpawnPass(g, catalog, order, placementIdCounter);
      var t := 0;
      while t < |catalog|
        invariant 0 <= t <= |catalog|
        invariant board.Length0 == BoardSize && board.Length1 == BoardSize
        invariant SpawnFrom(Current(), catalog, t, order, placementIdCounter) == final
      {
        if |catalog[t].conditions| > 0 {
          SpawnCardType(catalog[t], order);
        }
        t := t + 1;
      }
      SpawnPassSound(g, catalog, order, old(placementIdCounter));
    }

    /** The list shuffled in a fresh array, as `shuffle(emptyCells)` does. */
    static method ShuffledCopy(s: seq<Pos>, draws: seq<int>) returns (t: seq<Pos>)
      requires DrawsFit(draws, |s|)
      ensures t == Shuffled(s, draws) && multiset(t) == multiset(s)
    {
      var a := new Pos[|s|](i requires 0 <= i < |s| => s[i]);
      assert a[..] == s;
      ShuffleInPlace(a, draws);
      t := a[..];
    }

    /**
     * `progress(state)`: the growth phase, then the spawn pass over the empty
     * cells shuffled with the random draws `draws`. Returns the visiting order
     * used, a permutation of the empty cells.
     */
    method Progress(draws: seq<int>) returns (order: seq<Pos>)
      requires Valid() && DrawsFit(draws, |EmptyCellsFrom(Grow(Current(), catalog, simulationMode), 0, 0)|)
      modifies this`placementIdCounter, board
      ensures Valid()
      ensures var grown := Grow(old(Current()), catalog, simulationMode);
        multiset(order) == multiset(EmptyCellsFrom(grown, 0, 0))
        && order == Shuffled(EmptyCellsFrom(grown, 0, 0), draws)
        && AllOnBoard(order)
        && (Current(), placementIdCounter) == SpawnPass(grown, catalog, order, old(placementIdCounter))
        && Spawned(grown, Current(), catalog, order, old(placementIdCounter), placementIdCounter)
    {
      AdvanceGrowth();
      var empty := EmptyCells();
      order := ShuffledCopy(empty, draws);
      ShuffleVisitsEmptyCells(Current(), draws);
      SpawnMutations(order);
    }

    /**
     * One row of the scan of `calculateScore`: adds the yield of each piece
     * met in row r whose origin is not counted yet, and counts it.
     */
    method ScoreRow(r: int, total: int, counted: set<Pos>) returns (total': int, counted': set<Pos>)
      requires board.Length0 == BoardSize && board.Length1 == BoardSize
      requires TypesKnown(Current(), catalog) && 0 <= r < BoardSize
      ensures total' + ScanScore(Current(), catalog, scoreParamIndex, simulationMode, r + 1, 0, counted')
              == total + ScanScore(Current(), catalog, scoreParamIndex, simulationMode, r, 0, counted)
    {
      ghost var g := Current();
      total', counted' := total, counted;
      var c := 0;
      while c < BoardSize
        invariant 0 <= c <= BoardSize
        invariant total' + ScanScore(g, catalog, scoreParamIndex, simulationMode, r, c, counted')
                  == total + ScanScore(g, catalog, scoreParamIndex, simulationMode, r, 0, counted)
      {
        var cell := board[r, c];
        assert cell == g[r][c];
        if cell.Some? {
          var x := cell.value;
          var key := Origin(x);
          if key !in counted' {
            counted' := counted' + {key};
            total' := total' + PieceScore(x, catalog[x.cardTypeId], scoreParamIndex, simulationMode);
          }
        }
        c := c + 1;
      }
    }

    /**
     * `calculateScore(state)`: the row-major scan that scores each piece once,
     * at the first of its cells met, skipping the cells of pieces already counted.
     */
    method CalculateScore() returns (total: int)
      requires Valid()
      ensures total == OriginSum(Current(), catalog, scoreParamIndex, simulationMode, 0, 0)
    {
      ghost var g := Current();
      assert TypesKnown(g, catalog);
      total := 0;
      var counted: set<Pos> := {};
      var r := 0;
      while r < BoardSize
        invariant 0 <= r <= BoardSize
        invariant total + ScanScore(g, catalog, scoreParamIndex, simulationMode, r, 0, counted)
                  == ScanScore(g, catalog, scoreParamIndex, simulationMode, 0, 0, {})
      {
        total, counted := ScoreRow(r, total, counted);
        r := r + 1;
      }
      ScanCountsEachPieceOnce(g, catalog, scoreParamIndex, simulationMode);
    }

    /**
     * `saveStateSnapshot(state)`: drops the redo branch, appends a deep copy
     * of the board and the counter as the current entry, and shifts out the
     * oldest entry beyond 50.
     */
    method SaveStateSnapshot()
      requires Valid()
      modifies this`history, this`historyIndex
      ensures Valid()
      ensures (history, historyIndex) == Saved(old(history), old(historyIndex), Snapshot(Current(), placementIdCounter))
      ensures old(historyIndex) < HistoryCap ==> |history| <= HistoryCap
    {
      ghost var h, index := history, historyIndex;
      if historyIndex < |history| - 1 {
        history := history[..historyIndex + 1];
      }
      var snapshot := Current();
      history := history + [Snapshot(snapshot, placementIdCounter)];
      historyIndex := historyIndex + 1;
      if |history| > HistoryCap {
        history := history[1..];
        historyIndex := historyIndex - 1;
      }
      SavedKeepsValid(h, index, Snapshot(snapshot, placementIdCounter), catalog);
    }

    /** `saveInitialState(state)`: appends a deep copy of the board and points the cursor at the first entry. */
    method SaveInitialState()
      requires Valid()
      modifies this`history, this`historyIndex
      ensures Valid()
      ensures history == old(history) + [Snapshot(Current(), placementIdCounter)] && historyIndex == 0
    {
      var snapshot := Current();
      history := history + [Snapshot(snapshot, placementIdCounter)];
      historyIndex := 0;
    }

    /** `canUndo(state)`: undo would move the cursor. */
    predicate CanUndo()
      reads this
      ensures CanUndo() <==> UndoCursor(historyIndex) != historyIndex
    {
      historyIndex > 0
    }

    /** `canRedo(state)`: redo would move the cursor. */
    predicate CanRedo()
      reads this
      ensures CanRedo() <==> RedoCursor(history, historyIndex) != historyIndex
    {
      historyIndex < |history| - 1
    }

    /** Restores a fresh copy of entry `historyIndex` and its counter. */
    method Restore()
      requires board.Length0 == BoardSize && board.Length1 == BoardSize
      requires 0 <= historyIndex < |history|
      modifies this`board, this`placementIdCounter
      ensures fresh(board) && board.Length0 == BoardSize && board.Length1 == BoardSize
      ensures Current() == history[historyIndex].board && placementIdCounter == history[historyIndex].placementIdCounter
    {
      var snapshot := history[historyIndex];
      board := new Option<Cell>[BoardSize, BoardSize]((r, c) requires 0 <= r < BoardSize && 0 <= c < BoardSize => snapshot.board[r][c]);
      placementIdCounter := snapshot.placementIdCounter;
      GridExt(Current(), snapshot.board);
    }

    /**
     * `undo(state)`: fails without change at the first entry; otherwise moves
     * the cursor back one entry and restores its board and counter.
     */
    method Undo() returns (ok: bool)
      requires Valid()
      modifies this`board, this`historyIndex, this`placementIdCounter
      ensures Valid() && history == old(history)
      ensures ok <==> old(historyIndex) > 0
      ensures historyIndex == UndoCursor(old(historyIndex))
      ensures ok ==> fresh(board) && Current() == history[historyIndex].board
                     && placementIdCounter == history[historyIndex].placementIdCounter
      ensures !ok ==> board == old(board) && placementIdCounter == old(placementIdCounter)
    {
      if historyIndex <= 0 {
        return false;
      }
      historyIndex := historyIndex - 1;
      Restore();
      ok := true;
    }

    /**
     * `redo(state)`: fails without change at the last entry; otherwise moves
     * the cursor forward one entry and restores its board and counter.
     */
    method Redo() returns (ok: bool)
      requires Valid()
      modifies this`board, this`historyIndex, this`placementIdCounter
      ensures Valid() && history == old(history)
      ensures ok <==> old(historyIndex) < |history| - 1
      ensures historyIndex == RedoCursor(history, old(historyIndex))
      ensures ok ==> fresh(board) && Current() == history[historyIndex].board
                     && placementIdCounter == history[historyIndex].placementIdCounter
      ensures !ok ==> board == old(board) && placementIdCounter == old(placementIdCounter)
    {
      if historyIndex >= |history| - 1 {
        return false;
      }
      historyIndex := historyIndex + 1;
      Restore();
      ok := true;
    }
  }
}
