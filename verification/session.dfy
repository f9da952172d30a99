/**
 Sequences of events reaching the history: canvas change notifications
 (`object:added`, `object:modified`, `object:removed`, each calling
 `saveState`) and clicks on the Undo and Redo buttons, processed one at a
 time in arrival order. Restores triggered by `undo`/`redo` are not recorded.
 */
module Session {
  import opened Options
  import opened UndoHistory

  /** A change notification carries the snapshot `saveState` would serialize. */
  datatype Event = Change(snap: Snapshot) | UndoClick | RedoClick

  /** Dispatch of one event to its handler: notifications reach `saveState`,
      the buttons reach `undo` and `redo`. */
  function Apply(h: History, hasCanvas: bool, e: Event): (r: Step)
    ensures Valid(h) ==> Valid(r.next)
    ensures e.Change? ==> r.load == None && r.next.depth == if hasCanvas then h.depth + 1 else h.depth
    ensures !e.Change? ==> r.next.snaps == h.snaps
  {
    match e
    case Change(s) => Step(SaveState(h, hasCanvas, s), None)
    case UndoClick => Undo(h, hasCanvas)
    case RedoClick => Redo(h, hasCanvas)
  }

  /** The state after processing `es` in order. Each event adds at most one
      snapshot and moves the cursor at most one step forward. */
  function Run(h: History, hasCanvas: bool, es: seq<Event>): (r: History)
    ensures |r.snaps| <= |h.snaps| + |es|
    ensures r.depth <= h.depth + |es|
    decreases |es|
  {
    if es == [] then h else Run(Apply(h, hasCanvas, es[0]).next, hasCanvas, es[1..])
  }

  /** One change notification per snapshot, in order. */
  function Changes(snaps: seq<Snapshot>): (es: seq<Event>) {
    seq(|snaps|, i requires 0 <= i < |snaps| => Change(snaps[i]))
  }

  function Repeat(e: Event, k: nat): (es: seq<Event>) {
    seq(k, _ => e)
  }

  /** Only Undo and Redo clicks. */
  predicate NavigationOnly(es: seq<Event>) {
    forall i :: 0 <= i < |es| ==> !es[i].Change?
  }

  /** Every sequence of events keeps the cursor within the history. */
  lemma {:induction false} RunPreservesValid(h: History, hasCanvas: bool, es: seq<Event>)
    requires Valid(h)
    ensures Valid(Run(h, hasCanvas, es))
    decreases |es|
  {
    if es != [] {
      RunPreservesValid(Apply(h, hasCanvas, es[0]).next, hasCanvas, es[1..]);
    }
  }

  /** Every state reachable from the initial one is valid. */
  lemma ReachableIsValid(hasCanvas: bool, es: seq<Event>)
    ensures Valid(Run(Init, hasCanvas, es))
  {
    RunPreservesValid(Init, hasCanvas, es);
  }

  /** Without a canvas no event changes the history. */
  lemma {:induction false} NoCanvasIsInert(h: History, es: seq<Event>)
    ensures Run(h, false, es) == h
    decreases |es|
  {
    if es != [] {
      NoCanvasIsInert(h, es[1..]);
    }
  }

  /** From a state whose cursor is at the end, change notifications append
      their snapshots in order and keep the cursor at the end. */
  lemma {:induction false} ChangesAppend(h: History, t: seq<Snapshot>)
    requires h.depth == |h.snaps|
    ensures Run(h, true, Changes(t)) == History(h.snaps + t, |h.snaps| + |t|)
    decreases |t|
  {
    if t != [] {
      var h' := SaveState(h, true, t[0]);
      assert h' == History(h.snaps + [t[0]], |h.snaps| + 1);
      assert Changes(t)[1..] == Changes(t[1..]);
      ChangesAppend(h', t[1..]);
      assert h.snaps + [t[0]] + t[1..] == h.snaps + t;
    }
  }

  /** For every sequence of recorded snapshots starting from the initial state,
      the history is exactly those snapshots and the cursor equals its length. */
  lemma ChangesFromStart(t: seq<Snapshot>)
    ensures Run(Init, true, Changes(t)).snaps == t
    ensures Run(Init, true, Changes(t)).depth == |t|
  {
    ChangesAppend(Init, t);
  }

  /** Undo and Redo clicks never alter the recorded snapshots. */
  lemma {:induction false} NavigationKeepsSnapshots(h: History, hasCanvas: bool, es: seq<Event>)
    requires NavigationOnly(es)
    ensures Run(h, hasCanvas, es).snaps == h.snaps
    decreases |es|
  {
    if es != [] {
      NavigationKeepsSnapshots(Apply(h, hasCanvas, es[0]).next, hasCanvas, es[1..]);
    }
  }

  /** Once the cursor is below the end, no sequence of Undo and Redo clicks
      brings it back to the end: only a new change can. */
  lemma {:induction false} NavigationStaysBelowEnd(h: History, hasCanvas: bool, es: seq<Event>)
    requires h.depth < |h.snaps|
    requires NavigationOnly(es)
    ensures Run(h, hasCanvas, es).depth < |h.snaps|
    decreases |es|
  {
    if es != [] {
      var h' := Apply(h, hasCanvas, es[0]).next;
      assert h'.snaps == h.snaps && h'.depth < |h.snaps|;
      NavigationStaysBelowEnd(h', hasCanvas, es[1..]);
    }
  }

  /** In particular, after an undo from the end of a non-empty history the
      newest snapshot's position is never reached again by navigation. */
  lemma UndoFromEndIsFinal(h: History, es: seq<Event>)
    requires 0 < h.depth == |h.snaps|
    requires NavigationOnly(es)
    ensures Run(Undo(h, true).next, true, es).depth < |h.snaps|
    ensures Run(Undo(h, true).next, true, es).snaps == h.snaps
  {
    NavigationStaysBelowEnd(Undo(h, true).next, true, es);
    NavigationKeepsSnapshots(Undo(h, true).next, true, es);
  }

  /** `k` Undo clicks move the cursor back by `k`, stopping at 0. */
  lemma {:induction false} UndoRepeated(h: History, k: nat)
    ensures Run(h, true, Repeat(UndoClick, k)).snaps == h.snaps
    ensures Run(h, true, Repeat(UndoClick, k)).depth == if k <= h.depth then h.depth - k else 0
    decreases k
  {
    if k > 0 {
      assert Repeat(UndoClick, k)[1..] == Repeat(UndoClick, k - 1);
      UndoRepeated(Undo(h, true).next, k - 1);
    }
  }

  /** `k` Redo clicks move the cursor forward by `k`, stopping at `length - 1`
      (and not moving at all from a cursor at or past `length - 1`). */
  lemma {:induction false} RedoRepeated(h: History, k: nat)
    ensures Run(h, true, Repeat(RedoClick, k)).snaps == h.snaps
    ensures Run(h, true, Repeat(RedoClick, k)).depth ==
      if h.depth + 1 >= |h.snaps| then h.depth else Min(h.depth + k, |h.snaps| - 1)
    decreases k
  {
    if k > 0 {
      assert Repeat(RedoClick, k)[1..] == Repeat(RedoClick, k - 1);
      RedoRepeated(Redo(h, true).next, k - 1);
    }
  }

  /** Undo at cursor 0 is a no-op, so repeating it changes nothing. */
  lemma UndoAtZeroIdempotent(h: History, hasCanvas: bool)
    requires h.depth == 0
    ensures Undo(h, hasCanvas) == Step(h, None)
    ensures Undo(Undo(h, hasCanvas).next, hasCanvas) == Undo(h, hasCanvas)
  {
  }

  /** Right after any `saveState` the cursor is at the end, so `undo` loads nothing. */
  lemma UndoAfterSaveLoadsNothing(h: History, snap: Snapshot)
    requires Valid(h)
    ensures Undo(SaveState(h, true, snap), true).load == None
    ensures Undo(SaveState(h, true, snap), true).next.depth == h.depth
  {
  }

  /** Undo followed by Redo from a cursor `d > 0` returns the cursor to `d`
      exactly when `d` is below the length of the history. */
  lemma UndoRedoDepth(h: History)
    requires Valid(h) && h.depth > 0
    ensures Redo(Undo(h, true).next, true).next.depth == h.depth <==> h.depth < |h.snaps|
  {
  }

  /** From cursor 0 Undo does nothing, so Undo then Redo returns the cursor
      to 0 exactly when Redo does nothing too, that is when the history has
      at most one snapshot. */
  lemma UndoRedoDepthAtZero(h: History)
    requires h.depth == 0
    ensures Redo(Undo(h, true).next, true).next.depth == 0 <==> |h.snaps| <= 1
  {
  }

  /** Mid-history, Undo then Redo is a round trip on the state. Undo loads
      the snapshot at the old cursor `d`; Redo loads the one at `d - 1`. */
  lemma UndoRedoRoundTrip(h: History)
    requires 0 < h.depth < |h.snaps|
    ensures Undo(h, true).load == Some(h.snaps[h.depth])
    ensures Redo(Undo(h, true).next, true) == Step(h, Some(h.snaps[h.depth - 1]))
  {
  }

  /** At the end of the history Undo loads nothing and the Redo guard blocks
      the way back: the cursor stays one below the end. */
  lemma UndoRedoBlockedAtEnd(h: History)
    requires 0 < h.depth == |h.snaps|
    ensures Undo(h, true).load == None
    ensures Redo(Undo(h, true).next, true) == Step(History(h.snaps, h.depth - 1), None)
  {
  }

  /** A change while mid-history discards every snapshot at index >= the
      cursor and replaces them by exactly the new one; a following Redo does
      nothing. */
  lemma ChangeDiscardsRedoBranch(h: History, snap: Snapshot)
    requires h.depth < |h.snaps|
    ensures SaveState(h, true, snap).snaps == h.snaps[..h.depth] + [snap]
    ensures Redo(SaveState(h, true, snap), true) == Step(SaveState(h, true, snap), None)
  {
  }

}
