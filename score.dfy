/**
 * `calculateScore`: each piece is scored once, at the first of its cells met
 * in row-major order, gated on who placed it, its category and its stage.
 */
module Score {
  import opened Wrappers
  import opened Geometry
  import opened Catalog
  import opened Board
  import opened Growth

  /** `card.params[index] ?? 0` */
  function ParamOr0(card: CardType, index: int): (v: int)
    ensures 0 <= index < |card.params| ==> v == card.params[index]
    ensures !(0 <= index < |card.params|) ==> v == 0
  {
    if 0 <= index < |card.params| then card.params[index] else 0
  }

  /** Is the piece fully grown for scoring? Glasscorn counts at stages 7 and 8 only. */
  predicate Ripe(card: CardType, stage: int)
    ensures IsGlasscorn(card) ==> (Ripe(card, stage) <==> 7 <= stage <= 8)
    ensures !IsGlasscorn(card) && card.maxGrowthStage > 0 ==> (Ripe(card, stage) <==> stage >= card.maxGrowthStage)
    ensures !IsGlasscorn(card) && card.maxGrowthStage <= 0 ==> Ripe(card, stage)
  {
    if IsGlasscorn(card) then stage == 7 || stage == 8
    else card.maxGrowthStage <= 0 || stage >= card.maxGrowthStage
  }

  /**
   * An ordinary piece that starts at a stage between 0 and its maximum is
   * ripe once it has grown for the remaining stages.
   */
  lemma RipeAfterGrowth(card: CardType, s: int)
    requires !IsGlasscorn(card) && 0 <= s <= card.maxGrowthStage
    ensures Ripe(card, StageAfter(card, s, card.maxGrowthStage - s))
  {
    OrdinaryGrowth(card, s, card.maxGrowthStage - s);
  }

  /**
   * A glasscorn whose maximum is 9 or more is ripe at stage 7, which it
   * reaches from any stage between 0 and 7 by growing, and is not ripe
   * once it wraps to stage 1.
   */
  lemma GlasscornRipens(card: CardType, s: int)
    requires IsGlasscorn(card) && 9 <= card.maxGrowthStage && 0 <= s <= 7
    ensures Ripe(card, StageAfter(card, s, 7 - s))
    ensures !Ripe(card, NextStage(card, card.maxGrowthStage - 1))
  {
    GlasscornClimbs(card, s, 7 - s);
  }

  /** The yield of one piece. */
  function PieceScore(x: Cell, card: CardType, index: int, simulationMode: bool): (v: int)
    ensures !simulationMode && x.isPlayerPlaced ==> v == 0
    ensures simulationMode && x.isPlayerPlaced && card.category == "mutated" ==> v == 0
    ensures IsGlasscorn(card) && x.growthStage != 7 && x.growthStage != 8 ==> v == 0
    ensures !IsGlasscorn(card) && 0 < card.maxGrowthStage && x.growthStage < card.maxGrowthStage ==> v == 0
    ensures v == 0 || v == ParamOr0(card, index)
    ensures ((simulationMode || !x.isPlayerPlaced)
             && !(simulationMode && x.isPlayerPlaced && card.category == "mutated")
             && Ripe(card, x.growthStage)) ==> v == ParamOr0(card, index)
  {
    if !simulationMode && x.isPlayerPlaced then 0
    else if simulationMode && x.isPlayerPlaced && card.category == "mutated" then 0
    else if !Ripe(card, x.growthStage) then 0
    else ParamOr0(card, index)
  }

  /** No piece at or after (r, c) in row-major order. */
  ghost predicate EmptyFrom(g: Grid, r: int, c: int) {
    forall i, j :: OnBoard(i, j) && !Before(i, j, r, c) ==> g[i][j].None?
  }

  /** The scan of `calculateScore` from (r, c) on, in row-major order, with the set of origins already counted. */
  function ScanScore(g: Grid, catalog: seq<CardType>, index: int, simulationMode: bool, r: nat, c: nat, counted: set<Pos>): int
    requires TypesKnown(g, catalog)
    decreases BoardSize - r, BoardSize - c
  {
    if r >= BoardSize then 0
    else if c >= BoardSize then ScanScore(g, catalog, index, simulationMode, r + 1, 0, counted)
    else
      match g[r][c]
      case None => ScanScore(g, catalog, index, simulationMode, r, c + 1, counted)
      case Some(x) =>
        if Origin(x) in counted then ScanScore(g, catalog, index, simulationMode, r, c + 1, counted)
        else PieceScore(x, catalog[x.cardTypeId], index, simulationMode)
             + ScanScore(g, catalog, index, simulationMode, r, c + 1, counted + {Origin(x)})
  }

  /** Reference total: the yields of the cells that are their piece's own origin, from (r, c) on. */
  function OriginSum(g: Grid, catalog: seq<CardType>, index: int, simulationMode: bool, r: nat, c: nat): int
    requires TypesKnown(g, catalog)
    decreases BoardSize - r, BoardSize - c
  {
    if r >= BoardSize then 0
    else if c >= BoardSize then OriginSum(g, catalog, index, simulationMode, r + 1, 0)
    else
      (match g[r][c]
       case None => 0
       case Some(x) => if Origin(x) == Pos(r, c) then PieceScore(x, catalog[x.cardTypeId], index, simulationMode) else 0)
      + OriginSum(g, catalog, index, simulationMode, r, c + 1)
  }

  /** With no piece left at or after (r, c), the rest of the scan adds nothing; an empty board scores 0. */
  lemma {:induction false} ScanOfEmptyIsZero(g: Grid, catalog: seq<CardType>, index: int, simulationMode: bool, r: nat, c: nat, counted: set<Pos>)
    requires TypesKnown(g, catalog) && EmptyFrom(g, r, c)
    ensures ScanScore(g, catalog, index, simulationMode, r, c, counted) == 0
    decreases BoardSize - r, BoardSize - c
  {
    if r < BoardSize {
      if c >= BoardSize {
        ScanOfEmptyIsZero(g, catalog, index, simulationMode, r + 1, 0, counted);
      } else {
        assert OnBoard(r, c) && !Before(r, c, r, c);
        ScanOfEmptyIsZero(g, catalog, index, simulationMode, r, c + 1, counted);
      }
    }
  }

  /** The origins of the occupied cells before (r, c). */
  ghost function OriginsBefore(g: Grid, r: int, c: int): set<Pos> {
    set i, j | 0 <= i < BoardSize && 0 <= j < BoardSize && Before(i, j, r, c) && g[i][j].Some? :: Origin(g[i][j].value)
  }

  /** Stepping over an empty cell adds no origin. */
  lemma OriginsBeforeEmpty(g: Grid, r: int, c: int)
    requires OnBoard(r, c) && g[r][c].None?
    ensures OriginsBefore(g, r, c + 1) == OriginsBefore(g, r, c)
  {
    forall q | q in OriginsBefore(g, r, c + 1) ensures q in OriginsBefore(g, r, c) {
      var i, j :| OnBoard(i, j) && Before(i, j, r, c + 1) && g[i][j].Some? && q == Origin(g[i][j].value);
    }
  }

  /** Stepping over an occupied cell adds its origin. */
  lemma OriginsBeforeOccupied(g: Grid, r: int, c: int)
    requires OnBoard(r, c) && g[r][c].Some?
    ensures OriginsBefore(g, r, c + 1) == OriginsBefore(g, r, c) + {Origin(g[r][c].value)}
  {
    forall q | q in OriginsBefore(g, r, c + 1) ensures q in OriginsBefore(g, r, c) + {Origin(g[r][c].value)} {
      var i, j :| OnBoard(i, j) && Before(i, j, r, c + 1) && g[i][j].Some? && q == Origin(g[i][j].value);
    }
  }

  /** The end of a row is the start of the next. */
  lemma OriginsBeforeRowEnd(g: Grid, r: int)
    ensures OriginsBefore(g, r, BoardSize) == OriginsBefore(g, r + 1, 0)
  {
    forall q | q in OriginsBefore(g, r + 1, 0) ensures q in OriginsBefore(g, r, BoardSize) {
      var i, j :| OnBoard(i, j) && Before(i, j, r + 1, 0) && g[i][j].Some? && q == Origin(g[i][j].value);
    }
  }

  /** No cell before a piece's origin (in row-major order) belongs to it, and every other cell of it comes after. */
  lemma OriginComesFirst(g: Grid, catalog: seq<CardType>, r: int, c: int)
    requires Pieces(g, catalog) && OnBoard(r, c) && g[r][c].Some?
    ensures var o := Origin(g[r][c].value);
      (o == Pos(r, c) ==> o !in OriginsBefore(g, r, c)) && (o != Pos(r, c) ==> o in OriginsBefore(g, r, c))
  {
    var x := g[r][c].value;
    var o := Origin(x);
    assert PieceAt(g, catalog, r, c);
    if o == Pos(r, c) {
      forall i, j | OnBoard(i, j) && Before(i, j, r, c) && g[i][j].Some?
        ensures Origin(g[i][j].value) != o
      {
        assert PieceAt(g, catalog, i, j);
      }
    } else {
      assert g[o.r][o.c] == Some(x);
      assert Before(o.r, o.c, r, c);
    }
  }

  lemma {:induction false} ScanIsOriginSum(g: Grid, catalog: seq<CardType>, index: int, simulationMode: bool, r: nat, c: nat)
    requires Pieces(g, catalog) && r <= BoardSize && c <= BoardSize
    ensures ScanScore(g, catalog, index, simulationMode, r, c, OriginsBefore(g, r, c)) == OriginSum(g, catalog, index, simulationMode, r, c)
    decreases BoardSize - r, BoardSize - c
  {
    if r < BoardSize {
      if c == BoardSize {
        ScanIsOriginSum(g, catalog, index, simulationMode, r + 1, 0);
        OriginsBeforeRowEnd(g, r);
      } else {
        ScanIsOriginSum(g, catalog, index, simulationMode, r, c + 1);
        if g[r][c].None? {
          OriginsBeforeEmpty(g, r, c);
        } else {
          OriginsBeforeOccupied(g, r, c);
          OriginComesFirst(g, catalog, r, c);
          var o := Origin(g[r][c].value);
          if o != Pos(r, c) {
            assert OriginsBefore(g, r, c) + {o} == OriginsBefore(g, r, c);
          }
        }
      }
    }
  }

  /**
   * With the piece invariant, the row-major scan of `calculateScore` with its
   * set of counted origins adds each piece's yield exactly once, at its origin.
   */
  lemma ScanCountsEachPieceOnce(g: Grid, catalog: seq<CardType>, index: int, simulationMode: bool)
    requires Pieces(g, catalog)
    ensures ScanScore(g, catalog, index, simulationMode, 0, 0, {}) == OriginSum(g, catalog, index, simulationMode, 0, 0)
  {
    assert OriginsBefore(g, 0, 0) == {};
    ScanIsOriginSum(g, catalog, index, simulationMode, 0, 0);
  }
}
