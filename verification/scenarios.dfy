/**
 Two edit/undo/redo traces, run through the handlers as written. They show where the code departs
 from "undo restores the previous snapshot, redo the next one".
 */
module Scenarios {
  import opened Options
  import opened UndoHistory

  /** Record a, b, c; undo twice; redo once. The first undo loads nothing
      (index 3 is out of range), the second loads c (not a), and redo loads b. */
  lemma ThreeEditsUndoUndoRedo(a: Snapshot, b: Snapshot, c: Snapshot)
    ensures SaveState(SaveState(SaveState(Init, true, a), true, b), true, c) == History([a, b, c], 3)
    ensures Undo(History([a, b, c], 3), true) == Step(History([a, b, c], 2), None)
    ensures Undo(History([a, b, c], 2), true) == Step(History([a, b, c], 1), Some(c))
    ensures Redo(History([a, b, c], 1), true) == Step(History([a, b, c], 2), Some(b))
  {
  }

  /** After two undos (cursor 1), a new edit d discards b and c; the history
      is [a, d] with cursor 2, and redo is then a no-op. */
  lemma EditAfterUndoDiscardsBranch(a: Snapshot, b: Snapshot, c: Snapshot, d: Snapshot)
    ensures SaveState(History([a, b, c], 1), true, d) == History([a, d], 2)
    ensures Redo(History([a, d], 2), true) == Step(History([a, d], 2), None)
  {
  }

}
