# Undo/redo history of the FabricJS drawing canvas demo

The demo is a React component (`App`) wrapping a FabricJS canvas. Its only
logic is a snapshot-based undo/redo history: a list `history` of serialized
canvas snapshots and a cursor `historyDepth`. Every canvas change
notification calls `saveState`, which cuts off the redo branch and appends a
snapshot. The Undo and Redo buttons call `undo` and `redo`, which move the
cursor and hand one snapshot to `canvas.loadFromJSON`.

This project models that history as an immutable value
`History(snaps, depth)` with pure transition functions, and proves the
invariant `depth <= |snaps|`, the boundary behaviour of each handler, and
laws about sequences of events.

- `options.dfy`: module `Options`, the `Option` type used for "which snapshot is loaded".
- `history.dfy`: module `UndoHistory`, the state and the three handlers `SaveState`, `Undo` and `Redo`.
- `session.dfy`: module `Session`, event sequences (`Run`) and the lemmas relating several calls.
- `scenarios.dfy`: module `Scenarios`, two concrete edit/undo/redo traces.

Modelling choices:
- A snapshot (`JSON.stringify(canvas.toDatalessJSON())`) is an opaque `string` argument of `SaveState`.
- Whether `canvas` is set is a `bool` argument of every handler.
- `undo` and `redo` return a `Step`: the next state plus an `Option<Snapshot>` load target.
  `None` stands both for "nothing loaded" and for an out-of-range read.
  An out-of-range read is `undefined` in JavaScript.
- `setState` is an immediate sequential update. Each handler computes from the state it was called with.
  So `undo` and `redo` read `history[historyDepth]` at the cursor value from before the update.
- The in-place truncation `history.length = historyDepth` followed by the spread-append gives `snaps[..depth] + [snap]`.
- The handlers are total. A state with `depth > |snaps|` cannot be reached, but `SaveState` then appends without truncating, as the code does.

## Code versus the usual undo/redo

A conventional snapshot history restores the snapshot before the new cursor
on undo, and lets redo act while the cursor is below the length. The code
does something else, and the model follows the code:
- `undo` loads `history[historyDepth]` with the cursor from before the decrement (src/App.tsx:44).
  Right after any save this index equals the length, so nothing is loaded (`Session.UndoAfterSaveLoadsNothing`).
- `redo` is guarded by `historyDepth < history.length - 1` (src/App.tsx:53).
  Once the cursor leaves the end of the history, Undo and Redo never bring it back (`Session.NavigationStaysBelowEnd`).
- After saving A, B and C, a conventional history would undo to B and then A. As written, the first undo loads nothing and the second loads C.
  Redo then loads B (`Scenarios.ThreeEditsUndoUndoRedo`).
- Undo followed by Redo returns the cursor to `d > 0` only when `d < |snaps|` (`Session.UndoRedoDepth`).
  At `d == 0` both are no-ops when the history has at most one snapshot (`Session.UndoRedoDepthAtZero`).

## Model

| member | source | states |
|---|---|---|
| UndoHistory.SaveState | src/App.tsx:25-35 | Without a canvas nothing changes. Otherwise the cursor grows by one, the first `min(depth, length)` snapshots are kept, and the new snapshot is the last and only other element. A valid state stays valid, with the length equal to the cursor. |
| UndoHistory.Undo | src/App.tsx:37-46 | Snapshots never change. Without a canvas, or at cursor 0, it is a no-op. Otherwise the cursor drops by one. A snapshot is loaded iff `0 < old cursor < length`, and it is the one at the old cursor. Validity is kept. |
| UndoHistory.Redo | src/App.tsx:48-57 | Snapshots never change. It acts iff there is a canvas and `cursor + 1 < length`. It then raises the cursor by one and loads the snapshot at the old cursor. Otherwise it is a no-op. A moved cursor stays below the length. |
| Session.Apply | src/App.tsx:69-81 | Dispatches one event: a canvas change notification (`object:modified`, `object:added`, `object:removed`) reaches `saveState`, and the Undo and Redo buttons (src/App.tsx:160-173) reach `undo` and `redo`. Validity is kept. A change loads nothing and moves the cursor one forward when there is a canvas, or not at all otherwise. Undo and Redo clicks never change the snapshots. |
| Session.Run | src/App.tsx:25-57 | Processes events one at a time in order, as immediate sequential updates. Each event adds at most one snapshot and moves the cursor at most one step forward. |
| Session.RunPreservesValid | src/App.tsx:22-57 | Any sequence of changes, undos and redos keeps `0 <= depth <= length`. |
| Session.ReachableIsValid | src/App.tsx:22-57 | Every state reached from `UndoHistory.Init` satisfies the invariant. `Init` is the empty history with cursor 0, as set by `useState<string[]>([])` and `useState(0)` (src/App.tsx:22-23). |
| Session.NoCanvasIsInert | src/App.tsx:25-57 | Without a canvas no sequence of events changes the history or the cursor. |
| Session.ChangesAppend | src/App.tsx:30-34 | With the cursor at the end, change notifications append their snapshots in order and keep the cursor at the end. |
| Session.ChangesFromStart | src/App.tsx:22-35 | From the initial state, any sequence of saves leaves exactly the saved snapshots, with the cursor equal to their number. |
| Session.NavigationKeepsSnapshots | src/App.tsx:37-57 | Undo and Redo clicks never change the recorded snapshots. |
| Session.NavigationStaysBelowEnd | src/App.tsx:42-56 | Once the cursor is below the length, no Undo/Redo sequence brings it back to the length. |
| Session.UndoFromEndIsFinal | src/App.tsx:42-56 | After an undo from the end of a non-empty history, navigation never returns the cursor to the end and never changes the snapshots. |
| Session.UndoRepeated | src/App.tsx:42-45 | `k` undos lower the cursor by `k`, stopping at 0, and keep the snapshots. |
| Session.RedoRepeated | src/App.tsx:53-56 | `k` redos raise the cursor by `k`, stopping at `length - 1`. From a cursor at or past `length - 1` they do not move it. |
| Session.UndoAtZeroIdempotent | src/App.tsx:42-45 | At cursor 0 undo is a no-op that loads nothing, so repeating it changes nothing. |
| Session.UndoAfterSaveLoadsNothing | src/App.tsx:30-44 | Right after a save from a valid state, undo loads nothing and returns the cursor to its value before the save. |
| Session.UndoRedoDepth | src/App.tsx:42-56 | For a cursor `d > 0`, undo then redo returns the cursor to `d` iff `d < length`. |
| Session.UndoRedoDepthAtZero | src/App.tsx:42-56 | For cursor 0, undo then redo leaves the cursor at 0 iff the history has at most one snapshot. |
| Session.UndoRedoRoundTrip | src/App.tsx:42-56 | Mid-history, undo then redo restores the exact state. Undo loads the snapshot at `d` and redo loads the one at `d - 1`. |
| Session.UndoRedoBlockedAtEnd | src/App.tsx:42-56 | At the end of a non-empty history, undo loads nothing and the following redo is blocked, leaving the cursor one below the end. |
| Session.ChangeDiscardsRedoBranch | src/App.tsx:30-56 | A save mid-history replaces every snapshot from the cursor on by the single new one. A following redo does nothing. |
| Scenarios.ThreeEditsUndoUndoRedo | src/App.tsx:25-57 | Saving a, b, c gives `[a, b, c]` with cursor 3. Undo loads nothing (cursor 2), undo loads c (cursor 1), and redo loads b (cursor 2). |
| Scenarios.EditAfterUndoDiscardsBranch | src/App.tsx:25-57 | At cursor 1 of `[a, b, c]`, saving d gives `[a, d]` with cursor 2, and redo is then a no-op. |

## Left out

- Canvas internals (construction, `toDatalessJSON`, `loadFromJSON` and its callback, `clear`, `remove`, `getActiveObject`, brush settings): calls into FabricJS, which is not part of this model; snapshots stay opaque strings and a load is only named, not performed.
- What `loadFromJSON` does when handed `undefined`: library behaviour; the model records it as no load.
- Event-handler wiring in `useEffect` (src/App.tsx:59-114): the effect's closure captures the first render's `saveState`, where `canvas` is still unset. That is React closure semantics, not history logic. `Session.Event` models each notification as reaching the current `saveState`.
- Re-entrant recording: a restore through `loadFromJSON` may fire `object:added` and call `saveState` again. Restores are modelled as not recording.
- React specifics: `setState` batching, asynchronous re-rendering, and the in-place mutation of the state array aliasing the previous render's value. Updates are modelled as sequential.
- Presentation: JSX layout, the colour picker, the drawing toggle, zoom/pan and the background image (src/App.tsx:115-205).
- `console.log` calls (src/App.tsx:70, 75, 79): output only.
