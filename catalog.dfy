/**
 * The card catalog: raw configuration entries and the normalised card types
 * the engine works with (`normalizeCard` and the catalog built by `createGameState`).
 */
module Catalog {
  import opened Wrappers

  /** One AND-ed spawn requirement: at least `amount` ring cells of type `id`. */
  datatype Condition = Condition(id: int, amount: int)

  /** The optional `spawnCondition` object of a raw entry, whose `conditions` may be missing too. */
  datatype SpawnCondition = SpawnCondition(conditions: Option<seq<Condition>>)

  /**
   * A configuration entry as parsed from JSON. Every field may be missing.
   * `scores` is the optional per-parameter score object, `fields` the entry's
   * other numeric top-level members (the legacy `card[param]` shape).
   * Display-only members (`name`, `image`) are not part of the model.
   */
  datatype RawCard = RawCard(
    size: int,
    scores: Option<map<string, int>>,
    fields: map<string, int>,
    conditions: Option<seq<Condition>>,
    spawnCondition: Option<SpawnCondition>,
    category: Option<string>,
    maxGrowthStage: Option<int>,
    specialEffect: Option<string>)

  /** A normalised card type. */
  datatype CardType = CardType(
    id: int,
    size: int,
    params: seq<int>,
    conditions: seq<Condition>,
    category: string,
    maxGrowthStage: int,
    specialEffect: Option<string>)

  const DefaultCategory: string := "basecrop"
  const DefaultMaxGrowthStage: int := 1

  /** `card.scores?.[p] ?? card[p] ?? 0` */
  function ScoreFor(card: RawCard, p: string): (v: int)
    ensures card.scores.Some? && p in card.scores.value ==> v == card.scores.value[p]
    ensures (card.scores.None? || p !in card.scores.value) && p in card.fields ==> v == card.fields[p]
    ensures (card.scores.None? || p !in card.scores.value) && p !in card.fields ==> v == 0
  {
    if card.scores.Some? && p in card.scores.value then card.scores.value[p]
    else if p in card.fields then card.fields[p]
    else 0
  }

  /** `card.conditions ?? card.spawnCondition?.conditions ?? []` */
  function ConditionsOf(card: RawCard): (cs: seq<Condition>)
    ensures card.conditions.Some? ==> cs == card.conditions.value
    ensures card.conditions.None? && card.spawnCondition.Some? && card.spawnCondition.value.conditions.Some? ==>
      cs == card.spawnCondition.value.conditions.value
    ensures card.conditions.None? && (card.spawnCondition.None? || card.spawnCondition.value.conditions.None?) ==> cs == []
  {
    match card.conditions
    case Some(cs) => cs
    case None =>
      match card.spawnCondition
      case Some(sc) => sc.conditions.GetOr([])
      case None => []
  }

  /** Applies the documented defaults to one raw entry. */
  function NormalizeCard(card: RawCard, scoreParams: seq<string>, id: int): (t: CardType)
    ensures t.id == id && t.size == card.size && t.specialEffect == card.specialEffect
    ensures |t.params| == |scoreParams|
    ensures forall i :: 0 <= i < |scoreParams| ==>
      t.params[i] == (if card.scores.Some? && scoreParams[i] in card.scores.value then card.scores.value[scoreParams[i]]
                      else if scoreParams[i] in card.fields then card.fields[scoreParams[i]]
                      else 0)
    ensures card.conditions.Some? ==> t.conditions == card.conditions.value
    ensures card.conditions.None? && card.spawnCondition.Some? && card.spawnCondition.value.conditions.Some? ==>
      t.conditions == card.spawnCondition.value.conditions.value
    ensures card.conditions.None? && (card.spawnCondition.None? || card.spawnCondition.value.conditions.None?) ==>
      t.conditions == []
    ensures t.category == (if card.category.Some? then card.category.value else DefaultCategory)
    ensures t.maxGrowthStage == (if card.maxGrowthStage.Some? then card.maxGrowthStage.value else DefaultMaxGrowthStage)
  {
    CardType(
      id,
      card.size,
      seq(|scoreParams|, i requires 0 <= i < |scoreParams| => ScoreFor(card, scoreParams[i])),
      ConditionsOf(card),
      card.category.GetOr(DefaultCategory),
      card.maxGrowthStage.GetOr(DefaultMaxGrowthStage),
      card.specialEffect)
  }

  /** A catalog in which every type's id is its position. */
  predicate IdsArePositions(catalog: seq<CardType>) {
    forall i :: 0 <= i < |catalog| ==> catalog[i].id == i
  }

  /** The catalog of `createGameState`: entry `i` normalised with id `i`. */
  function NormalizeCatalog(cards: seq<RawCard>, scoreParams: seq<string>): (catalog: seq<CardType>)
    ensures |catalog| == |cards|
    ensures IdsArePositions(catalog)
    ensures forall i :: 0 <= i < |cards| ==>
      catalog[i].size == cards[i].size && |catalog[i].params| == |scoreParams|
    ensures forall i :: 0 <= i < |cards| ==> catalog[i] == NormalizeCard(cards[i], scoreParams, i)
  {
    seq(|cards|, i requires 0 <= i < |cards| => NormalizeCard(cards[i], scoreParams, i))
  }
}
