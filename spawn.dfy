/**
 * The spawn pass of `progress`: card types in catalog order, each tried at
 * every cell of the (shuffled) list of empty cells, reading the live board so
 * that earlier spawns are seen by later checks.
 */
module Spawn {
  import opened Wrappers
  import opened Geometry
  import opened Catalog
  import opened Board
  import opened Placement

  /** The row-major list of the empty cells from (r, c) on: the collection loop of `progress`. */
  function EmptyCellsFrom(g: Grid, r: nat, c: nat): seq<Pos>
    decreases BoardSize - r, BoardSize - c
  {
    if r >= BoardSize then []
    else if c >= BoardSize then EmptyCellsFrom(g, r + 1, 0)
    else if g[r][c].None? then [Pos(r, c)] + EmptyCellsFrom(g, r, c + 1)
    else EmptyCellsFrom(g, r, c + 1)
  }

  /** The list holds exactly the empty cells at or after (r, c). */
  lemma {:induction false} EmptyCellsMembers(g: Grid, r: nat, c: nat)
    ensures forall p :: p in EmptyCellsFrom(g, r, c) <==> OnBoard(p.r, p.c) && !Before(p.r, p.c, r, c) && g[p.r][p.c].None?
    decreases BoardSize - r, BoardSize - c
  {
    if r < BoardSize {
      if c >= BoardSize {
        EmptyCellsMembers(g, r + 1, 0);
      } else {
        EmptyCellsMembers(g, r, c + 1);
      }
    }
  }

  /** No cell is listed twice, so there are at most as many as there are cells after (r, c). */
  lemma {:induction false} EmptyCellsDistinct(g: Grid, r: nat, c: nat)
    ensures NoDuplicates(EmptyCellsFrom(g, r, c))
    decreases BoardSize - r, BoardSize - c
  {
    if r < BoardSize {
      if c >= BoardSize {
        EmptyCellsDistinct(g, r + 1, 0);
      } else {
        EmptyCellsDistinct(g, r, c + 1);
        EmptyCellsMembers(g, r, c + 1);
      }
    }
  }

  /** At most one entry per cell of the board. */
  lemma {:induction false} EmptyCellsLength(g: Grid, r: nat, c: nat)
    requires r < BoardSize && c <= BoardSize
    ensures |EmptyCellsFrom(g, r, c)| <= (BoardSize - r) * BoardSize - c
    decreases BoardSize - r, BoardSize - c
  {
    if c == BoardSize {
      assert (BoardSize - r) * BoardSize == (BoardSize - (r + 1)) * BoardSize + BoardSize;
      if r + 1 < BoardSize {
        EmptyCellsLength(g, r + 1, 0);
      }
    } else {
      EmptyCellsLength(g, r, c + 1);
    }
  }

  /** The record of a piece spawned at (row, col) with placement id `id`. */
  function SpawnedCell(card: CardType, row: int, col: int, id: int): (x: Cell)
    ensures !x.isPlayerPlaced && x.growthStage == 0 && Origin(x) == Pos(row, col)
    ensures x.cardTypeId == card.id && x.size == card.size && x.placementId == id
  {
    Cell(card.id, false, 0, row, col, card.size, id)
  }

  /**
   * One attempt of type `card` at p: a piece is created iff the spawn
   * condition and the empty-footprint check both hold on g.
   */
  function TrySpawn(g: Grid, card: CardType, p: Pos, counter: int): (res: (Grid, int))
    requires OnBoard(p.r, p.c)
    ensures res.1 == counter || res.1 == counter + 1
    ensures res.1 == counter + 1 <==>
      SatisfiesCondition(g, p.r, p.c, card.conditions, card.size) && AreaEmpty(g, p.r, p.c, card.size)
    ensures res.1 == counter ==> res.0 == g
    ensures res.1 == counter + 1 ==> res.0 == Stamp(g, p.r, p.c, card.size, SpawnedCell(card, p.r, p.c, counter))
  {
    if SatisfiesCondition(g, p.r, p.c, card.conditions, card.size) && AreaEmpty(g, p.r, p.c, card.size) then
      (Stamp(g, p.r, p.c, card.size, SpawnedCell(card, p.r, p.c, counter)), counter + 1)
    else (g, counter)
  }

  /** Type `card` tried at every cell of `order`, in order. */
  function SpawnType(g: Grid, card: CardType, order: seq<Pos>, counter: int): (res: (Grid, int))
    requires AllOnBoard(order)
    ensures counter <= res.1 <= counter + |order|
    decreases |order|
  {
    if order == [] then (g, counter)
    else
      var (g1, c1) := TrySpawn(g, card, order[0], counter);
      SpawnType(g1, card, order[1..], c1)
  }

  /** The spawn pass from catalog position t on; types without conditions are skipped. */
  function SpawnFrom(g: Grid, catalog: seq<CardType>, t: nat, order: seq<Pos>, counter: int): (res: (Grid, int))
    requires AllOnBoard(order)
    ensures counter <= res.1
    ensures t <= |catalog| ==> res.1 <= counter + (|catalog| - t) * |order|
    decreases |catalog| - t
  {
    assert (|catalog| - t) * |order| == |order| + (|catalog| - (t + 1)) * |order|;
    if t >= |catalog| then (g, counter)
    else if |catalog[t].conditions| == 0 then SpawnFrom(g, catalog, t + 1, order, counter)
    else
      var (g1, c1) := SpawnType(g, catalog[t], order, counter);
      SpawnFrom(g1, catalog, t + 1, order, c1)
  }

  /** A cell the pass has created: a spawned record with a fresh id whose type has spawn conditions. */
  ghost predicate NewSpawn(x: Cell, catalog: seq<CardType>, order: seq<Pos>, lo: int, hi: int) {
    !x.isPlayerPlaced && x.growthStage == 0 && lo <= x.placementId < hi
    && 0 <= x.cardTypeId < |catalog| && |catalog[x.cardTypeId].conditions| > 0
    && Origin(x) in order
  }

  /**
   * What the pass promises between two boards: the counter does not go down,
   * cells occupied before keep their contents, and every newly occupied cell
   * holds a new spawn numbered in between.
   */
  ghost predicate Spawned(g: Grid, g': Grid, catalog: seq<CardType>, order: seq<Pos>, counter: int, counter': int) {
    counter <= counter'
    && (forall r, c :: OnBoard(r, c) && g[r][c].Some? ==> g'[r][c] == g[r][c])
    && (forall r, c :: OnBoard(r, c) && g[r][c].None? && g'[r][c].Some? ==>
          NewSpawn(g'[r][c].value, catalog, order, counter, counter'))
  }

  lemma SpawnedTrans(g0: Grid, g1: Grid, g2: Grid, catalog: seq<CardType>, order: seq<Pos>, c0: int, c1: int, c2: int)
    requires Spawned(g0, g1, catalog, order, c0, c1) && Spawned(g1, g2, catalog, order, c1, c2)
    ensures Spawned(g0, g2, catalog, order, c0, c2)
  {
    forall r, c | OnBoard(r, c) && g0[r][c].None? && g2[r][c].Some?
      ensures NewSpawn(g2[r][c].value, catalog, order, c0, c2)
    {
      if g1[r][c].Some? {
        assert g2[r][c] == g1[r][c];
      }
    }
  }

  /** One attempt keeps the invariant and makes only a new spawn. */
  lemma TrySpawnSound(g: Grid, catalog: seq<CardType>, t: int, p: Pos, order: seq<Pos>, counter: int)
    requires IdsArePositions(catalog) && 0 <= t < |catalog| && |catalog[t].conditions| > 0
    requires ValidGrid(g, catalog, counter) && OnBoard(p.r, p.c) && p in order
    ensures var (g', c') := TrySpawn(g, catalog[t], p, counter);
      ValidGrid(g', catalog, c') && Spawned(g, g', catalog, order, counter, c')
  {
    var card := catalog[t];
    var (g', c') := TrySpawn(g, card, p, counter);
    if c' == counter + 1 {
      var x := SpawnedCell(card, p.r, p.c, counter);
      assert AreaEmpty(g, p.r, p.c, card.size);
      assert OnBoard(p.r, p.c) && g[p.r][p.c].None?;
      forall r, c | OnBoard(r, c) && g'[r][c].Some? ensures PieceAt(g', catalog, r, c) && g'[r][c].value.placementId < c' {
        if !InFootprint(p.r, p.c, card.size, r, c) {
          var y := g[r][c].value;
          assert PieceAt(g, catalog, r, c);
          forall r', c' | InFootprint(y.originRow, y.originCol, y.size, r', c')
            ensures !InFootprint(p.r, p.c, card.size, r', c')
          {
            assert g[r'][c'] == Some(y);
          }
        }
      }
    }
  }

  lemma {:induction false} SpawnTypeSound(g: Grid, catalog: seq<CardType>, t: int, rest: seq<Pos>, order: seq<Pos>, counter: int)
    requires IdsArePositions(catalog) && 0 <= t < |catalog| && |catalog[t].conditions| > 0
    requires ValidGrid(g, catalog, counter) && AllOnBoard(rest) && (forall i :: 0 <= i < |rest| ==> rest[i] in order)
    ensures var (g', c') := SpawnType(g, catalog[t], rest, counter);
      ValidGrid(g', catalog, c') && Spawned(g, g', catalog, order, counter, c')
    decreases |rest|
  {
    if rest != [] {
      var (g1, c1) := TrySpawn(g, catalog[t], rest[0], counter);
      TrySpawnSound(g, catalog, t, rest[0], order, counter);
      SpawnTypeSound(g1, catalog, t, rest[1..], order, c1);
      var (g2, c2) := SpawnType(g1, catalog[t], rest[1..], c1);
      SpawnedTrans(g, g1, g2, catalog, order, counter, c1, c2);
    }
  }

  lemma {:induction false} SpawnFromSound(g: Grid, catalog: seq<CardType>, t: nat, order: seq<Pos>, counter: int)
    requires IdsArePositions(catalog) && ValidGrid(g, catalog, counter) && AllOnBoard(order)
    ensures var (g', c') := SpawnFrom(g, catalog, t, order, counter);
      ValidGrid(g', catalog, c') && Spawned(g, g', catalog, order, counter, c')
    decreases |catalog| - t
  {
    if t < |catalog| {
      if |catalog[t].conditions| == 0 {
        SpawnFromSound(g, catalog, t + 1, order, counter);
      } else {
        SpawnTypeSound(g, catalog, t, order, order, counter);
        var (g1, c1) := SpawnType(g, catalog[t], order, counter);
        SpawnFromSound(g1, catalog, t + 1, order, c1);
        var (g2, c2) := SpawnFrom(g1, catalog, t + 1, order, c1);
        SpawnedTrans(g, g1, g2, catalog, order, counter, c1, c2);
      }
    }
  }

  /** The whole spawn pass over the visiting order `order`. */
  function SpawnPass(g: Grid, catalog: seq<CardType>, order: seq<Pos>, counter: int): (res: (Grid, int))
    requires AllOnBoard(order)
    ensures counter <= res.1 <= counter + |catalog| * |order|
  {
    SpawnFrom(g, catalog, 0, order, counter)
  }

  /**
   * For every visiting order (in particular every permutation of the empty
   * cells): the pass keeps the invariant, leaves occupied cells alone, and
   * every cell it fills belongs to a non-player spawn at stage 0 with a fresh
   * id, of a type that has spawn conditions, anchored at a visited cell.
   */
  lemma SpawnPassSound(g: Grid, catalog: seq<CardType>, order: seq<Pos>, counter: int)
    requires IdsArePositions(catalog) && ValidGrid(g, catalog, counter) && AllOnBoard(order)
    ensures var (g', c') := SpawnPass(g, catalog, order, counter);
      ValidGrid(g', catalog, c') && Spawned(g, g', catalog, order, counter, c')
  {
    SpawnFromSound(g, catalog, 0, order, counter);
  }
}
