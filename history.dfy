/**
 * The undo/redo history of `saveStateSnapshot`, `undo` and `redo` as
 * functions on the list of snapshots and its cursor: a linear history whose
 * redo branch is discarded by a new snapshot, capped at 50 entries.
 */
module History {
  import opened Catalog
  import opened Board

  /** The largest number of entries `saveStateSnapshot` keeps. */
  const HistoryCap: int := 50

  /** A deep copy of the board with the placement counter of that moment. */
  datatype Snapshot = Snapshot(board: Grid, placementIdCounter: int)

  /**
   * The history and cursor after `saveStateSnapshot` pushes `s`: entries past
   * the cursor are dropped, `s` is appended and becomes current, and the
   * oldest entry is shifted out once there are more than 50.
   */
  function Saved(h: seq<Snapshot>, index: int, s: Snapshot): (res: (seq<Snapshot>, int))
    requires -1 <= index < |h|
    ensures 0 <= res.1 == |res.0| - 1 && res.0[res.1] == s
    ensures index < HistoryCap ==> |res.0| <= HistoryCap
    ensures index + 2 <= HistoryCap ==> res.0 == h[..index + 1] + [s]
    ensures index + 2 > HistoryCap ==> res.0 == h[1..index + 1] + [s]
  {
    var kept := if index < |h| - 1 then h[..index + 1] else h;
    var pushed := kept + [s];
    if |pushed| > HistoryCap then (pushed[1..], index) else (pushed, index + 1)
  }

  /** Every entry holds a well-formed board numbered below its counter. */
  ghost predicate EntriesValid(h: seq<Snapshot>, catalog: seq<CardType>) {
    forall i :: 0 <= i < |h| ==> ValidGrid(h[i].board, catalog, h[i].placementIdCounter)
  }

  /** A snapshot of a well-formed state keeps every entry of the history well formed. */
  lemma SavedKeepsValid(h: seq<Snapshot>, index: int, s: Snapshot, catalog: seq<CardType>)
    requires -1 <= index < |h| && EntriesValid(h, catalog) && ValidGrid(s.board, catalog, s.placementIdCounter)
    ensures EntriesValid(Saved(h, index, s).0, catalog)
  {
    var h' := Saved(h, index, s).0;
    forall i | 0 <= i < |h'| ensures ValidGrid(h'[i].board, catalog, h'[i].placementIdCounter) {
      if index + 2 > HistoryCap {
        assert h' == h[1..index + 1] + [s];
        if i < index {
          assert h'[i] == h[i + 1];
        }
      } else {
        assert h' == h[..index + 1] + [s];
        if i <= index {
          assert h'[i] == h[i];
        }
      }
    }
  }

  /**
   * Undoing right after a snapshot goes back to the entry that was current
   * before it, also when the oldest entry was shifted out: the cursor keeps
   * pointing at the same logical state.
   */
  lemma SaveThenUndo(h: seq<Snapshot>, index: int, s: Snapshot)
    requires 0 <= index < |h|
    ensures var (h', i') := Saved(h, index, s);
      i' > 0 && h'[i' - 1] == h[index]
  {
    var (h', i') := Saved(h, index, s);
    if index + 2 > HistoryCap {
      assert h'[i' - 1] == h[1..index + 1][index - 1];
    } else {
      assert h'[i' - 1] == h[..index + 1][index];
    }
  }

  /** The cursor after `undo`: one step back unless it is already at the first entry. */
  function UndoCursor(index: int): (i: int)
    ensures index > 0 ==> i == index - 1
    ensures index <= 0 ==> i == index
  {
    if index <= 0 then index else index - 1
  }

  /** The cursor after `redo`: one step forward unless it is already at the last entry. */
  function RedoCursor(h: seq<Snapshot>, index: int): (i: int)
    ensures index < |h| - 1 ==> i == index + 1
    ensures index >= |h| - 1 ==> i == index
  {
    if index >= |h| - 1 then index else index + 1
  }

  /** The cursor after n calls of `undo`. */
  function Undos(index: int, n: nat): (i: int)
    ensures i <= index && (index >= 0 ==> i >= 0)
    decreases n
  {
    if n == 0 then index else Undos(UndoCursor(index), n - 1)
  }

  /** The cursor after n calls of `redo`. */
  function Redos(h: seq<Snapshot>, index: int, n: nat): (i: int)
    ensures index <= i && (index < |h| ==> i < |h|)
    decreases n
  {
    if n == 0 then index else Redos(h, RedoCursor(h, index), n - 1)
  }

  /** n undos move the cursor back n entries, as long as there are n entries before it. */
  lemma {:induction false} UndosStepBack(index: int, n: nat)
    requires n <= index
    ensures Undos(index, n) == index - n
    decreases n
  {
    if n > 0 {
      UndosStepBack(index - 1, n - 1);
    }
  }

  /** n redos move the cursor forward n entries, as long as there are n entries after it. */
  lemma {:induction false} RedosStepForward(h: seq<Snapshot>, index: int, n: nat)
    requires index + n <= |h| - 1
    ensures Redos(h, index, n) == index + n
    decreases n
  {
    if n > 0 {
      RedosStepForward(h, index + 1, n - 1);
    }
  }

  /**
   * Undoing n times and then redoing n times brings the cursor back to the
   * entry it started at, so the board and counter restored are that entry's.
   */
  lemma UndoRedoRoundTrip(h: seq<Snapshot>, index: int, n: nat)
    requires n <= index < |h|
    ensures Redos(h, Undos(index, n), n) == index
  {
    UndosStepBack(index, n);
    RedosStepForward(h, index - n, n);
  }

  /** Undo and redo stop at the ends: no cursor move leaves the history. */
  lemma {:induction false} CursorStaysInside(h: seq<Snapshot>, index: int, n: nat)
    requires 0 <= index < |h|
    ensures 0 <= Undos(index, n) < |h| && 0 <= Redos(h, index, n) < |h|
    decreases n
  {
    if n > 0 {
      CursorStaysInside(h, UndoCursor(index), n - 1);
      CursorStaysInside(h, RedoCursor(h, index), n - 1);
    }
  }
}
