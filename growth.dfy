/**
 * The growth phase of `progress`: every occupied cell advances its stage by
 * one, capped at the type's maximum, except that a "glasscorn" cell wraps
 * back to stage 1 once it has reached maxGrowthStage - 1.
 */
module Growth {
  import opened Wrappers
  import opened Geometry
  import opened Catalog
  import opened Board

  const Glasscorn: string := "glasscorn"

  predicate IsGlasscorn(card: CardType) {
    card.specialEffect == Some(Glasscorn)
  }

  /** The stage a cell of type `card` at stage s has after one growth step. */
  function NextStage(card: CardType, s: int): (n: int)
    ensures !IsGlasscorn(card) ==> s <= n <= s + 1 && (n == s + 1 <==> s < card.maxGrowthStage)
    ensures IsGlasscorn(card) ==> n == s + 1 || n == 1
    ensures IsGlasscorn(card) && s >= card.maxGrowthStage - 1 ==> n == 1
    ensures IsGlasscorn(card) && s < card.maxGrowthStage - 1 ==> n == s + 1
  {
    if IsGlasscorn(card) then (if s >= card.maxGrowthStage - 1 then 1 else s + 1)
    else if s < card.maxGrowthStage then s + 1 else s
  }

  /** The stage after n growth steps. */
  function StageAfter(card: CardType, s: int, n: nat): int
    decreases n
  {
    if n == 0 then s else StageAfter(card, NextStage(card, s), n - 1)
  }

  /** An ordinary type grows one stage per step up to its maximum and then stays there. */
  lemma {:induction false} OrdinaryGrowth(card: CardType, s: int, n: nat)
    requires !IsGlasscorn(card) && s <= card.maxGrowthStage
    ensures StageAfter(card, s, n) == if s + n <= card.maxGrowthStage then s + n else card.maxGrowthStage
    decreases n
  {
    if n > 0 {
      OrdinaryGrowth(card, NextStage(card, s), n - 1);
    }
  }

  /**
   * An ordinary type never moves past its maximum, nor leaves a stage above it.
   * A corollary of the first ensures of `NextStage`, named for use by callers.
   */
  lemma OrdinaryNeverOvershoots(card: CardType, s: int)
    requires !IsGlasscorn(card)
    ensures s <= card.maxGrowthStage ==> s <= NextStage(card, s) <= card.maxGrowthStage
    ensures s >= card.maxGrowthStage ==> NextStage(card, s) == s
  {
  }

  /** n steps after a steps is a + n steps. */
  lemma {:induction false} StageAfterAdd(card: CardType, s: int, a: nat, b: nat)
    ensures StageAfter(card, s, a + b) == StageAfter(card, StageAfter(card, s, a), b)
    decreases a
  {
    if a > 0 {
      StageAfterAdd(card, NextStage(card, s), a - 1, b);
    }
  }

  /** Below maxGrowthStage - 1 a glasscorn climbs one stage per step. */
  lemma {:induction false} GlasscornClimbs(card: CardType, s: int, k: nat)
    requires IsGlasscorn(card) && s + k <= card.maxGrowthStage - 1
    ensures StageAfter(card, s, k) == s + k
    decreases k
  {
    if k > 0 {
      GlasscornClimbs(card, s + 1, k - 1);
    }
  }

  /**
   * A glasscorn whose maximum is at least 2 cycles through the stages
   * 1, 2, ..., maxGrowthStage - 1 and then 1 again: from any stage in that
   * range it is back at the same stage after maxGrowthStage - 1 steps, and
   * it never reaches maxGrowthStage.
   */
  lemma GlasscornCycle(card: CardType, s: int)
    requires IsGlasscorn(card) && 2 <= card.maxGrowthStage && 1 <= s <= card.maxGrowthStage - 1
    ensures StageAfter(card, s, card.maxGrowthStage - 1) == s
    ensures 1 <= NextStage(card, s) <= card.maxGrowthStage - 1
  {
    var m := card.maxGrowthStage - 1;
    StageAfterAdd(card, s, m - s, s);
    GlasscornClimbs(card, s, m - s);
    assert StageAfter(card, m, s) == StageAfter(card, 1, s - 1);
    GlasscornClimbs(card, 1, s - 1);
  }

  /**
   * A glasscorn at maxGrowthStage - 1 (or beyond) wraps to stage 1 instead of
   * reaching its maximum. This restates the third ensures of `NextStage` as a
   * named lemma beside `GlasscornClimbs` and `GlasscornCycle`.
   */
  lemma GlasscornWraps(card: CardType, s: int)
    requires IsGlasscorn(card) && s >= card.maxGrowthStage - 1
    ensures NextStage(card, s) == 1
  {
  }

  /** One cell after the growth step. */
  function GrowCell(catalog: seq<CardType>, v: Option<Cell>): (v': Option<Cell>)
    requires v.Some? ==> 0 <= v.value.cardTypeId < |catalog|
    ensures v'.None? <==> v.None?
    ensures v.Some? ==> v'.value.(growthStage := v.value.growthStage) == v.value
  {
    match v
    case None => None
    case Some(x) => Some(x.(growthStage := NextStage(catalog[x.cardTypeId], x.growthStage)))
  }

  /** The growth phase applied to the whole grid (`progress`, before the spawn pass). */
  function Grow(g: Grid, catalog: seq<CardType>, simulationMode: bool): (g': Grid)
    requires TypesKnown(g, catalog)
    ensures !simulationMode ==> g' == g
    ensures forall r, c :: OnBoard(r, c) ==> (g'[r][c].None? <==> g[r][c].None?)
    ensures forall r, c :: OnBoard(r, c) && g[r][c].Some? ==>
      g'[r][c].value.(growthStage := 0) == g[r][c].value.(growthStage := 0)
  {
    if !simulationMode then g
    else
      seq(BoardSize, r requires 0 <= r < BoardSize =>
        seq(BoardSize, c requires 0 <= c < BoardSize =>
          assert OnBoard(r, c);
          GrowCell(catalog, g[r][c])))
  }

  /** With simulation on, each occupied cell's stage moves by exactly one growth step. */
  lemma GrowSteps(g: Grid, catalog: seq<CardType>, r: int, c: int)
    requires Pieces(g, catalog) && OnBoard(r, c) && g[r][c].Some?
    ensures var x := g[r][c].value;
      Grow(g, catalog, true)[r][c] == Some(x.(growthStage := NextStage(catalog[x.cardTypeId], x.growthStage)))
  {
    assert PieceAt(g, catalog, r, c);
  }

  /** Growth keeps the invariant: all cells of a piece share its type, so they advance alike. */
  lemma GrowKeepsValid(g: Grid, catalog: seq<CardType>, counter: int, simulationMode: bool)
    requires ValidGrid(g, catalog, counter)
    ensures ValidGrid(Grow(g, catalog, simulationMode), catalog, counter)
  {
    var g' := Grow(g, catalog, simulationMode);
    forall r, c | OnBoard(r, c) && g'[r][c].Some? ensures PieceAt(g', catalog, r, c) {
      assert PieceAt(g, catalog, r, c);
    }
  }
}
