/**
 The undo/redo history of the drawing-canvas component (src/App.tsx).

 The component keeps two pieces of React state: `history`, the list of
 serialized canvas snapshots, and `historyDepth`, a cursor into that list.
 A `setState` call is modelled as an immediate update that the handler itself
 does not observe: every handler computes from the values it was called with,
 exactly as the closure over the render's state does.

 The three handlers are modelled as written, including two index choices that
 differ from the usual "restore the previous state" design:
 - `undo` loads the snapshot at the cursor BEFORE it is decremented, which is
   out of range (nothing is loaded) when the cursor sits at the end;
 - `redo` only acts while the cursor is below `length - 1`, so it can never
   bring the cursor back to the end of the history.
 */
module UndoHistory {
  import opened Options

  /** A serialized canvas, `JSON.stringify(canvas.toDatalessJSON())`; opaque to the history. */
  type Snapshot = string

  /** `history` and `historyDepth`. */
  datatype History = History(snaps: seq<Snapshot>, depth: nat)

  /** What `undo` and `redo` produce: the next state and the snapshot passed to
      `canvas.loadFromJSON`, or `None` when nothing (or `undefined`) is loaded. */
  datatype Step = Step(next: History, load: Option<Snapshot>)

  /** The initial state: `useState<string[]>([])` and `useState(0)`. */
  const Init: History := History([], 0)

  /** The cursor never points past the end of the history. */
  predicate Valid(h: History) {
    h.depth <= |h.snaps|
  }

  function Min(a: nat, b: nat): (m: nat) {
    if a <= b then a else b
  }

  /** `history[i]` as JavaScript reads it: out of range gives `undefined`. */
  function At(snaps: seq<Snapshot>, i: nat): (r: Option<Snapshot>) {
    if i < |snaps| then Some(snaps[i]) else None
  }

  /**
   `saveState`: without a canvas it returns at once. Otherwise the cursor moves
   one forward, the redo branch (every snapshot at index >= cursor) is cut off
   when the cursor is mid-history, and the new snapshot is appended.
   */
  function SaveState(h: History, hasCanvas: bool, snap: Snapshot): (r: History)
    ensures !hasCanvas ==> r == h
    ensures hasCanvas ==> r.depth == h.depth + 1
    ensures hasCanvas ==> |r.snaps| == Min(h.depth, |h.snaps|) + 1
    ensures hasCanvas ==> forall i :: 0 <= i < Min(h.depth, |h.snaps|) ==> r.snaps[i] == h.snaps[i]
    ensures hasCanvas ==> r.snaps[|r.snaps| - 1] == snap
    ensures hasCanvas && h.depth >= |h.snaps| ==> r.snaps == h.snaps + [snap]
    ensures Valid(h) ==> Valid(r)
    ensures hasCanvas && Valid(h) ==> |r.snaps| == r.depth
  {
    if !hasCanvas then h
    else
      var kept := if h.depth < |h.snaps| then h.snaps[..h.depth] else h.snaps;
      History(kept + [snap], h.depth + 1)
  }

  /**
   `undo`: without a canvas, or with the cursor at 0, nothing happens. Otherwise
   the cursor moves one back and the snapshot at the OLD cursor is loaded, which
   exists only when the old cursor was below the length of the history.
   */
  function Undo(h: History, hasCanvas: bool): (r: Step)
    ensures r.next.snaps == h.snaps
    ensures !hasCanvas || h.depth == 0 ==> r == Step(h, None)
    ensures hasCanvas && h.depth > 0 ==> r.next.depth + 1 == h.depth
    ensures r.load.Some? <==> hasCanvas && 0 < h.depth < |h.snaps|
    ensures r.load.Some? ==> r.load.value == h.snaps[r.next.depth + 1]
    ensures Valid(h) ==> Valid(r.next) && r.next.depth <= h.depth
  {
    if !hasCanvas || h.depth == 0 then Step(h, None)
    else Step(History(h.snaps, h.depth - 1), At(h.snaps, h.depth))
  }

  /**
   `redo`: acts only with a canvas and a cursor below `length - 1`; it then
   moves the cursor one forward and loads the snapshot at the OLD cursor.
   In every other case nothing happens.
   */
  function Redo(h: History, hasCanvas: bool): (r: Step)
    ensures r.next.snaps == h.snaps
    ensures r.load.Some? <==> hasCanvas && h.depth + 1 < |h.snaps|
    ensures r.load.Some? ==> r.next.depth == h.depth + 1 && r.load.value == h.snaps[r.next.depth - 1]
    ensures r.load.None? ==> r.next == h
    ensures Valid(h) ==> Valid(r.next)
    ensures r.next.depth != h.depth ==> r.next.depth < |h.snaps|
  {
    if hasCanvas && h.depth < |h.snaps| - 1 then
      Step(History(h.snaps, h.depth + 1), Some(h.snaps[h.depth]))
    else
      Step(h, None)
  }

}
