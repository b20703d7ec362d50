# Mutation Planner engine in Dafny

A model of the game engine of the Mutation Planner, a 10x10 grid card game
(`game.js`). Players place square cards of size 1 to 3 on the board. Each
`progress` step first advances growth, but only when simulation mode is on.
An ordinary piece below its maximum stage grows one stage. A "glasscorn" piece
wraps back to stage 1 from its maximum stage minus one. Then each card type
that has spawn conditions, in catalog order, tries to appear on every empty
cell, visited in a shuffled order. A type appears on a cell when the cell is still empty, enough
cells of the ring around it hold the required card types (counted one per
cell), and the type's whole footprint from that cell is on the board and
empty. The score is
taken once per piece: it is the piece's value for the selected score
parameter, gated on who placed the piece, its category and its growth stage.
Placements and removals can be undone and redone through a capped linear
history of board snapshots.

The project is organised as follows:

- `geometry.dfy` (`Geometry`): the coordinate space, square footprints, and the
  Moore ring of `getSurroundingCells`. This is a specification function plus the loop
  that builds it.
- `catalog.dfy` (`Catalog`): raw configuration entries and `normalizeCard`.
- `board.dfy` (`Board`): the board as a value (`Grid`) and the piece
  invariant. It also holds `isAreaEmpty` and `isEmptyAndSatisfiesCondition`,
  both as specification functions and as loops over the live array.
- `placement.dfy`, `growth.dfy`, `spawn.dfy`, `score.dfy`, `history.dfy`,
  `shuffle.dfy`: the effect of each engine operation as a function on values,
  with the properties proved about it.
- `game.dfy` (`Game.GameState`): the session object of `createGameState`. It
  is a class with the live board as an `array2`, the placement counter, the
  simulation switch, and the history with its cursor. Its methods are the
  source's loops, each proved equal to the value-level function of its
  module. The public operations (`PlaceCard`, `DestroyCard`, `Progress`,
  `SaveStateSnapshot`, `SaveInitialState`, `Undo`, `Redo`) require and keep
  the object invariant `Valid()`. The internal steps (`StampPiece`, `SpawnAt`,
  `SpawnCardType`, `Restore`) are specified only by the function they compute.

The piece invariant (`Board.Pieces`) says that every occupied cell holds the
record of a piece whose whole on-board footprint holds that same record. Every
operation keeps it, together with "every placement id is below the counter".

## Model

| member | source | states |
|---|---|---|
| Catalog.NormalizeCard | game.js:9-25 | Each score parameter reads `scores[p]`, then the top-level field, then 0. Conditions come from `conditions`, then `spawnCondition.conditions`, then `[]`. Category defaults to "basecrop" and maxGrowthStage to 1. Size and special effect are copied, and the id is the given position. |
| Catalog.ScoreFor | game.js:10 | A parameter's value is `scores[p]` when present, else the top-level field `p`, else 0. |
| Catalog.ConditionsOf | game.js:11 | The conditions are `conditions` when present, else `spawnCondition.conditions`, else `[]`. |
| Catalog.NormalizeCatalog | game.js:103-106 | The catalog has one entry per configured card, and entry i is card i normalised with id i. In particular it has that card's size and one value per score parameter, and ids equal positions. |
| Geometry.RingRowCells | game.js:44-49 | One row of the ring loop appends exactly the row's ring cells that are on the board, left to right. |
| Geometry.SurroundingCells | game.js:29-62 | The loop returns the ring list for sizes 1, 2 and 3 and the empty list for any other size. |
| Geometry.RingRowsStep | game.js:43-50 | Appending one ring row and then the rows below it is the ring from that row on. |
| Geometry.RingRowMembers | game.js:44-48 | A ring row lists exactly the on-board ring cells of that row from the given column on, with no repeats. |
| Geometry.RingRowsMembers | game.js:43-50 | The ring rows from r on list exactly the on-board ring cells in those rows, with no repeats. |
| Geometry.RingRowCount | game.js:44-48 | A ring row is no longer than its column range minus the footprint, and has exactly that length when the ring is on the board. |
| Geometry.RingRowsCount | game.js:43-50 | The ring rows are no longer than their slots, and have exactly that many when the ring is on the board. |
| Geometry.Surrounding | game.js:29-62 | Every listed cell is on the board and in the ring around the footprint. |
| Geometry.RingRowShort | game.js:36 | A ring row that meets an off-board ring cell lists fewer cells than it has slots. |
| Geometry.RingRowsShort | game.js:29-62 | Ring rows of which one meets an off-board ring cell list fewer cells than they have slots. |
| Geometry.SurroundingMembers | game.js:29-62 | `getSurroundingCells` lists exactly the on-board cells of the (size+2)-square minus the footprint, each once. Any size other than 1, 2 or 3 gives []. |
| Geometry.SurroundingCount | game.js:27-62 | The ring has at most 8, 12 or 16 cells for sizes 1, 2 and 3. It has exactly that many iff it lies inside the board, and strictly fewer when it runs off an edge, because only on-board cells are pushed. |
| Board.EmptyGrid | game.js:98-100 | Every cell of a new board is empty. |
| Board.GridOf | game.js:312-315 | The copied grid holds, at every cell, what the array holds there. |
| Board.RowEmpty | game.js:90-93 | One row is free iff every one of its footprint columns is on the board and empty. |
| Board.RowsEmpty | game.js:89-94 | The rows from r on are free iff every footprint cell in them is on the board and empty. |
| Board.AreaEmpty | game.js:88-96 | True iff every footprint cell is on the board and empty. When it is true and size >= 1, the footprint fits the board. |
| Board.IsAreaEmpty | game.js:88-96 | The loop on the live array answers `AreaEmpty` and stops at the first footprint cell that is off the board or taken. |
| Board.OriginHoldsPiece | game.js:194-206 | Under the invariant, a piece's origin is on the board and holds that piece. |
| Board.CountIsCardinality | game.js:72-77 | For a list without repeats, the count equals the number of distinct cells of that type. |
| Board.CountOfType | game.js:73-78 | The per-type tally along the ring list. It has no contract of its own; `CountOfTypeSnoc` states one tally step and `CountIsCardinality` states its value as the number of distinct listed cells holding the type. |
| Board.CountOfTypeSnoc | game.js:76 | Counting one more cell adds 1 exactly when it holds the type. |
| Board.TallyTypes | game.js:71-77 | The per-type dictionary holds, for every id (missing reads as 0), the number of listed cells of that type. |
| Board.MeetsAll | game.js:79-83 | The condition loop answers true iff every condition's amount is reached by the tally. |
| Board.SatisfiesCondition | game.js:68-85 | True iff the cell is empty, there is at least one condition, and for each condition the ring holds at least `amount` distinct cells of its type. |
| Board.IsEmptyAndSatisfiesCondition | game.js:68-85 | The loop on the live array (emptiness check, tally, condition loop) answers `SatisfiesCondition`. |
| Board.RingCountsAreCellCounts | game.js:65-77 | Counting along the ring list equals counting the set of ring cells of that type. |
| Placement.Stamp | game.js:193-208 | Exactly the on-board footprint cells hold the new record, and all other cells are unchanged. |
| Placement.Clear | game.js:221-232 | Exactly the cells of the listed pieces are emptied. |
| Placement.OverlappingAreOrigins | game.js:167-178 | Under the invariant, each collected origin is an occupied cell of its own piece. |
| Placement.InitialStage | game.js:184-191 | The initial stage is 0 or the type's maximum. A nonzero maximum gives 0 only in simulation mode for a type that is not "mutated". |
| Placement.PlacedCell | game.js:183-206 | The record is player-placed, with its origin at (row, col), the next id, the type and the type's size. Its stage is the maximum outside simulation or for a mutated type, and 0 otherwise. |
| Placement.PlaceGrid | game.js:157-210 | After a placement, every on-board footprint cell holds the new record. Every other cell is emptied if its piece overlapped the footprint, and is unchanged otherwise. |
| Placement.DestroyGrid | game.js:212-232 | An off-board column or an empty cell leaves the board unchanged. Otherwise exactly the cells sharing the piece's origin are emptied. |
| Placement.DestroyEach | game.js:181 | Destroying along a list only ever empties cells: every cell ends up empty or as it was. |
| Placement.PieceIsFootprint | game.js:221-232 | Under the invariant, the cells sharing a piece's origin are exactly its footprint. |
| Placement.ClearKeepsValid | game.js:221-232 | Removing whole pieces keeps the piece invariant. |
| Placement.ClearTwice | game.js:181 | Clearing one set of pieces and then another is clearing their union. |
| Placement.DestroyEachIsClear | game.js:167-181 | Destroying at the distinct collected origins one after another removes exactly those pieces. |
| Placement.PlaceKeepsValid | game.js:157-210 | A placement that fits keeps the piece invariant and the id bound with the counter bumped. |
| Placement.PlaceThenDestroy | game.js:157-232 | Placing on a free footprint and then destroying at the origin gives back the original board. |
| Placement.DestroyKeepsValid | game.js:212-232 | Destroying keeps the invariant. |
| Placement.DestroyClearsFootprint | game.js:221-232 | Destroying an occupied cell empties exactly its piece's footprint and leaves every other cell alone. |
| Growth.NextStage | game.js:241-254 | An ordinary type grows by one exactly when it is below its maximum, and otherwise stays put. A glasscorn grows by one below its maximum minus one, and goes to 1 from its maximum minus one or higher. |
| Growth.OrdinaryGrowth | game.js:249-254 | An ordinary type at or below its maximum is at `min(s + n, max)` after n steps. |
| Growth.OrdinaryNeverOvershoots | game.js:249-254 | An ordinary type stays within [s, max] when at or below the maximum, and a stage above the maximum is left as it is (a corollary of `NextStage`'s first ensures). |
| Growth.StageAfterAdd | game.js:234-258 | a + b growth steps are a steps followed by b steps. |
| Growth.GlasscornClimbs | game.js:241-247 | Below maxGrowthStage - 1, a glasscorn climbs one stage per step. |
| Growth.GlasscornCycle | game.js:241-247 | A glasscorn cycles through 1 .. maxGrowthStage - 1 with period maxGrowthStage - 1 and never reaches maxGrowthStage. |
| Growth.GlasscornWraps | game.js:242-244 | From maxGrowthStage - 1 or higher, a glasscorn goes back to stage 1 (the third ensures of `NextStage`, as a named lemma). |
| Growth.GrowCell | game.js:238-256 | One cell of the growth loop: an empty cell stays empty, and an occupied cell keeps every field but its stage. `GrowSteps` states that the stage moves by one `NextStage` step. |
| Growth.Grow | game.js:234-258 | Outside simulation the board is unchanged. In simulation, occupancy and every field but the stage are unchanged. |
| Growth.GrowSteps | game.js:236-258 | In simulation, each occupied cell's stage advances by exactly one growth step of its type. |
| Growth.GrowKeepsValid | game.js:234-258 | Growth keeps the piece invariant, because all cells of a piece advance alike. |
| Spawn.EmptyCellsFrom | game.js:260-266 | The collection loop as a list. It has no contract of its own; `EmptyCellsMembers`, `EmptyCellsDistinct` and `EmptyCellsLength` state its content. |
| Spawn.EmptyCellsMembers | game.js:260-266 | The collected list holds exactly the empty cells at or after the starting cell. |
| Spawn.EmptyCellsDistinct | game.js:260-266 | No empty cell is collected twice. |
| Spawn.EmptyCellsLength | game.js:260-266 | The list has at most one entry per remaining cell of the board. |
| Spawn.SpawnedCell | game.js:279-289 | A spawned record is not player-placed, starts at stage 0, has its origin at the cell, and has the type's id and size and the given placement id. |
| Spawn.TrySpawn | game.js:274-291 | A piece appears iff the condition check and the area check both hold. It is then a stage-0 non-player piece with the next id stamped over the footprint. Otherwise nothing changes. |
| Spawn.SpawnType | game.js:273-295 | One type along the order takes at most one new placement id per visited cell. |
| Spawn.SpawnFrom | game.js:269-296 | The pass over the remaining types never lowers the counter, and takes at most one id per type and cell. |
| Spawn.SpawnPass | game.js:269-296 | The whole pass takes between 0 and (number of types) × (number of cells) new placement ids. |
| Spawn.SpawnedTrans | game.js:269-296 | The "only new spawns" relation between boards composes. |
| Spawn.TrySpawnSound | game.js:274-291 | One attempt keeps the invariant and only adds a new spawn. |
| Spawn.SpawnTypeSound | game.js:272-295 | One type tried along the order keeps the invariant and only adds new spawns. |
| Spawn.SpawnFromSound | game.js:269-296 | The pass over the remaining types keeps the invariant and only adds new spawns. |
| Spawn.SpawnPassSound | game.js:269-296 | For every visiting order the pass keeps the invariant and leaves occupied cells alone. Every filled cell holds a stage-0 non-player spawn with a fresh id, of a type with conditions, anchored at a visited cell. |
| Shuffle.Swap | game.js:301 | The swap keeps the length. |
| Shuffle.ShuffledFrom | game.js:299-302 | The remaining swaps keep the length and leave every position above i as it is. |
| Shuffle.Shuffled | game.js:298-303 | The shuffled list has the input's length. `ShuffledPermutes` states that it is a permutation. |
| Shuffle.SwapPermutes | game.js:301 | The swap exchanges the two positions, keeps the rest, and is a permutation. |
| Shuffle.ShuffledFromPermutes | game.js:298-303 | The remaining swaps give a permutation. |
| Shuffle.ShuffledPermutes | game.js:298-303 | For any fair draws, `shuffle` yields a permutation of its input. |
| Shuffle.ShuffleInPlace | game.js:298-303 | The in-place loop leaves the array in the shuffled order, a permutation of the old contents. |
| Score.ParamOr0 | game.js:151 | The selected parameter value, or 0 when the index is outside the parameter list. |
| Score.Ripe | game.js:143-148 | A glasscorn is ripe exactly at stages 7 and 8. Another type is ripe exactly from its maximum on, and always when its maximum is 0 or less. |
| Score.RipeAfterGrowth | game.js:143-148 | An ordinary piece is ripe once it has grown through its remaining stages. |
| Score.GlasscornRipens | game.js:143-148 | A glasscorn with maximum 9 or more reaches a ripe stage by growing, and is not ripe right after it wraps. |
| Score.PieceScore | game.js:135-151 | The yield is 0 for a player placement outside simulation, and 0 for a player-placed mutated type in simulation. It is 0 for a glasscorn not at stage 7 or 8, and 0 for another type below a positive maximum. Otherwise it is the parameter value, or 0 if that is missing. |
| Score.ScanScore | game.js:123-155 | The scan with its counted set, as a function. It has no contract of its own; `ScanIsOriginSum`, `ScanCountsEachPieceOnce` and `ScanOfEmptyIsZero` state its value. |
| Score.OriginSum | game.js:123-155 | The reference total: the yields at the cells that are their piece's origin. `ScanIsOriginSum` equates the scan to it. |
| Score.ScanOfEmptyIsZero | game.js:123-155 | With no piece left to scan, the rest of the scan adds nothing; an empty board scores 0. |
| Score.OriginsBeforeEmpty | game.js:128-129 | Passing an empty cell adds no origin to the counted set. |
| Score.OriginsBeforeOccupied | game.js:131-133 | Passing an occupied cell adds its piece's origin to the counted set. |
| Score.OriginsBeforeRowEnd | game.js:125-126 | The end of a row is the start of the next one. |
| Score.OriginComesFirst | game.js:131-132 | A piece's origin is the first of its cells in row-major order. |
| Score.ScanIsOriginSum | game.js:123-155 | From any cell, the scan with the origins seen so far equals the sum of the yields at the remaining origins. |
| Score.ScanCountsEachPieceOnce | game.js:123-155 | Under the invariant, the scan with its counted set adds each piece's yield exactly once. |
| History.Saved | game.js:306-328 | The redo branch is dropped, the snapshot is appended as the current entry, and the oldest entry is shifted out beyond 50. The length never exceeds 50 if the cursor was below 50. |
| History.SavedKeepsValid | game.js:306-328 | Saving a well-formed state keeps every entry well formed. |
| History.SaveThenUndo | game.js:306-343 | Right after a save, undo goes back to the entry that was current before it, also when the oldest entry was shifted out. |
| History.UndoCursor | game.js:330-333 | Undo moves the cursor back one entry unless it is at the first one. |
| History.RedoCursor | game.js:345-348 | Redo moves the cursor forward one entry unless it is at the last one. |
| History.Undos | game.js:330-333 | Repeated undos never move the cursor forward, and never below 0 from a cursor at 0 or above. |
| History.Redos | game.js:345-348 | Repeated redos never move the cursor back, and never past the last entry from a cursor inside the history. |
| History.UndosStepBack | game.js:330-343 | n undos with n entries behind the cursor move it back n. |
| History.RedosStepForward | game.js:345-358 | n redos with n entries ahead of the cursor move it forward n. |
| History.UndoRedoRoundTrip | game.js:330-358 | n undos followed by n redos return the cursor to its entry. |
| History.CursorStaysInside | game.js:330-358 | No number of undos or redos moves the cursor out of the history. |
| Game.ShuffleVisitsEmptyCells | game.js:260-267 | The shuffled visiting order is a permutation of the empty cells and lists only on-board empty cells. |
| Game.GameState.constructor | game.js:103-120 | A new state has the normalised catalog, an empty board, counter 0, score parameter 0, simulation off, an empty history and cursor -1. |
| Game.GameState.Current | game.js:397 | The board value holds, at every cell, what the live array holds. |
| Game.GameState.StampPiece | game.js:193-208 | The footprint loops write the record into exactly the footprint. |
| Game.GameState.DestroyCardInternal | game.js:221-232 | It succeeds iff the cell is occupied, and then clears the piece's footprint. The invariant is kept. |
| Game.GameState.DestroyCard | game.js:212-219 | It succeeds iff an on-board cell is occupied, and then removes that piece. An off-board column changes nothing. |
| Game.GameState.OverlappingInRow | game.js:170-177 | One footprint row adds each origin met there not yet listed, keeps the list free of repeats, and adds only overlapping origins. |
| Game.GameState.OverlappingOrigins | game.js:167-178 | The list holds exactly the origins of the pieces meeting the footprint, once each. |
| Game.GameState.EvictAll | game.js:181 | Destroying at each listed cell in turn gives the board `DestroyEach` describes, and keeps the invariant. |
| Game.GameState.PlaceCard | game.js:157-210 | An unknown type or a footprint off the board fails with nothing changed. Otherwise every overlapping piece is removed in full, the new piece is stamped with the next id, and the invariant holds. |
| Game.GameState.AdvanceGrowth | game.js:235-258 | The growth loops give the board `Grow` describes and keep the invariant. |
| Game.GameState.EmptyCellsInRow | game.js:263-265 | One row of the collection loop appends that row's empty cells in order. |
| Game.GameState.EmptyCells | game.js:260-266 | The collection loop returns the empty cells in row-major order. |
| Game.GameState.SpawnAt | game.js:276-292 | One attempt on the live board has the effect `TrySpawn` describes. |
| Game.GameState.SpawnCardType | game.js:272-295 | One type tried along the order, against the live board, has the effect `SpawnType` describes. |
| Game.GameState.SpawnMutations | game.js:269-296 | The spawn loops keep the invariant and only add new spawns, as `SpawnPass` describes. |
| Game.GameState.ShuffledCopy | game.js:267 | Shuffling the collected list yields its shuffled order, a permutation of it. |
| Game.GameState.Progress | game.js:234-297 | Growth, then a spawn pass over a permutation of the empty cells of the grown board. The invariant is kept, occupied cells are kept, and only new spawns appear. |
| Game.GameState.ScoreRow | game.js:126-153 | One row of the scan adds the yields of the new pieces it meets and records their origins. |
| Game.GameState.CalculateScore | game.js:123-155 | The total is the sum of the piece yields, taken at their origins. |
| Game.GameState.SaveStateSnapshot | game.js:306-328 | The history and cursor become `Saved` of a deep copy of the board and counter, and stay capped at 50 if they were. |
| Game.GameState.SaveInitialState | game.js:361-371 | A deep copy is appended and the cursor points at the first entry. |
| Game.GameState.CanUndo | game.js:394 | True iff undo would move the cursor. |
| Game.GameState.CanRedo | game.js:395 | True iff redo would move the cursor. |
| Game.GameState.Restore | game.js:335-340 | A fresh array holding the current entry's board replaces the board, and the counter is restored. |
| Game.GameState.Undo | game.js:330-343 | At the first entry it fails with nothing changed. Otherwise the cursor moves back and that entry's board and counter are restored. |
| Game.GameState.Redo | game.js:345-358 | At the last entry it fails with nothing changed. Otherwise the cursor moves forward and that entry's board and counter are restored. |

## Left out

- `loadConfig` (game.js:374-380) fetches the configuration over the network. The model starts from the parsed entries.
- `ui.js` (rendering and input handling) is not part of this model.
- The `window.Game` export object and its getters (`getCardTypes`, `getBoard`, `getScoreParam`) are not modelled beyond `Current`, because they only return fields.
- `Math.random` in `shuffle` becomes the parameter `draws`: `draws[i]` lies in 0..i and is the index swapped with position i. Progress requires one draw per empty cell of the grown board.
- Display-only state is left out: `name`, `image`, `scoreParams` names, `scoreParamNames`, `scoreParamName` and `selectedCardTypeId`.
- The `config.scoreParams || []` and `config.cards || []` defaults are left to the caller, who passes sequences.
- Score parameters are integers rather than floating-point numbers.
- Catalog.NormalizeCard: the `id ?? card.id` fallback of game.js:15 is not modelled; configured cards carry no `id`, and the only caller (game.js:105) always passes the position, so the fallback is never reached.
- Fields that are missing or not numbers (NaN or undefined compared with `<`, an undefined `size` or `amount`) are not modelled. Every numeric field is an integer.
- Cell records omit the `row` and `col` fields. They always equal the position the record is stored at, and no engine code reads them.
- Game.GameState.DestroyCard: requires `0 <= row < 10`, because the source throws on a row off the board. An off-board column is modelled, and it reads as an empty cell.
- `saveInitialState` does not apply the 50-entry cap, so the cap is not part of `Valid()`. `SaveStateSnapshot` and `History.Saved` state that they keep it.
- The deep copies of `saveStateSnapshot`, `undo` and `redo` are value semantics: a snapshot is a `Grid` value. Undo and redo allocate a fresh array.
- Geometry.SurroundingCells: the three size branches of the source are one loop over the (size+2)-square that skips the footprint. For size 1 this lists the same cells in the same order as the offset loops.
- Spawn order: `game.js` (lines 269-296) tries each type, in catalog order, at every cell of the shuffled order. There is no tie-break between types at one cell and no probability gate. The model follows this order.
