# Undo/redo history of the editor framework, in Dafny

This project models the undo/redo history in `lib/share/undo.js` and proves
properties of it. The history has three parts:

- **Command**: one reversible edit with an opaque payload.
- **CommandGroup**: an ordered batch of commands, undone and redone as a unit.
- **UndoList**: the history stack. It holds a registry from command id to
  constructor, a pending (uncommitted) group, the committed groups, a cursor
  `_position` and a save marker `_savePosition`.

The model has three modules:

- `Commands` (`commands.dfy`): the `Command`, `CommandDef` (a registered
  constructor) and `Event` values, and the class `CommandGroup`. Its loops are
  proved against `UndoEvents`, `RedoEvents` and `AnyDirty`. What a command's
  `undo()`/`redo()` does to the document cannot be seen from the history, so
  each call is recorded as an event, `Undid(c)` or `Redid(c)`. The
  `_changed()` broadcast is recorded as the event `Changed`.
- `History` (`history.dfy`): the list's fields as a value `State`, plus the
  log of events. There is one function per operation, the invariant `Inv`
  that every operation keeps, `Run` over a list of calls, and the lemmas that
  relate several calls.
- `UndoLists` (`undo_list.dfy`): the class `UndoList`, with the same fields as
  the source. Each operation that changes the list (`Register`, `Reset`,
  `Undo`, `Redo`, `Add`, `Commit`, `Save`, `Clear`, `ClearRedo`) ensures
  `Valid()` and `Abstract() == History.<Op>(old(Abstract()))`. `Dirty`
  ensures that its answer is `History.DirtyOf(Abstract())`. `Changed` only
  appends one `Changed` event to the log.

Behaviour the proofs pin down:

- The undo cursor has a floor at 0. `undo` from `p` undoes `groups[p-1]`.
  `redo` to `p` redoes `groups[p]` (`UndoRedoAsymmetry`, `RedoUndoAsymmetry`).
  So undo followed by redo restores the cursor but touches two different
  groups. This is consistent only if each group's `undo()` and `redo()` both
  re-establish a state recorded by that group, with group 0 as the baseline.
- `redo` skips index 0 whenever it starts from cursor -1 with at least one
  group. With two or more groups it lands on 1 and redoes `groups[1]`
  (`RedoSkipsIndexZero`). With exactly one group it lands on 1 and calls
  `redo()` on the missing `_groups[1]`, which throws; `History.Redo`'s
  precondition `RedoTargetExists` leaves that state out
  (`RedoSkipPastSingleGroup`). No call sequence reaches either state, because
  the cursor is -1 exactly when there are no groups (`RedoSkipUnreachable`).
- `dirty()` is given an explicit outcome, not a precondition. It either
  returns a boolean or throws (`Threw(i)`), because the source calls
  `this._groups[i].dirty()` on an undefined element. `_clearRedo` truncates
  the groups but never moves `_savePosition`, and `StaleSavePoint`
  shows a reachable state where `dirty()` throws. One commit later, `dirty()`
  answers false even though the group at the save point has been replaced.
- A save taken on an empty list leaves the save point at -1. Undo stops at
  cursor 0, so once a group is committed undo can never return to that save
  point. If every group is dirty, `dirty()` stays true after any number of
  undo calls (`SaveOnEmptyUnreachableByUndo`, `SaveOnEmptyThenUndo`).
- Behaviour of `undo.js` that is easy to misread:
  - Committing a single group and then calling `undo` does nothing. The
    command's `undo()` is not called, because the cursor is 0 and lines 91-93
    return (`FirstGroupIsFloor`).
  - `undo` does undo group 0, when it moves the cursor from 1 to 0 (lines
    95-97).
  - Redo followed by undo does not reverse the redone group. It undoes the
    group below it.
  - `dirty()` can throw instead of answering (lines 163-166).

## Model

| member | source | states |
|---|---|---|
| `Commands.Construct` | lib/share/undo.js:6-13 | a constructed command keeps its kind and payload; a kind that does not override `dirty()` gives a command that is dirty |
| `Commands.UndoOrder` | lib/share/undo.js:24-28 | the k-th effect of undoing a group is the undo of its k-th command from the end |
| `Commands.RedoOrder` | lib/share/undo.js:30-34 | the k-th effect of redoing a group is the redo of its k-th command |
| `Commands.UndoMirrorsRedo` | lib/share/undo.js:24-34 | undo visits the same commands as redo, in the mirror order |
| `Commands.CommandGroup.constructor` | lib/share/undo.js:19-22 | a new group has no commands and an empty description |
| `Commands.CommandGroup.Undo` | lib/share/undo.js:24-28 | the effects are exactly `UndoEvents(commands)`: every command undone, last first; none for an empty group |
| `Commands.CommandGroup.Redo` | lib/share/undo.js:30-34 | the effects are exactly `RedoEvents(commands)`: every command redone, first first; none for an empty group |
| `Commands.CommandGroup.Dirty` | lib/share/undo.js:36-43 | true iff some command is dirty, so false for an empty group |
| `Commands.CommandGroup.Add` | lib/share/undo.js:45-47 | the command is appended; the description is kept |
| `Commands.CommandGroup.Clear` | lib/share/undo.js:49-51 | the group has no commands left; the description is kept |
| `Commands.CommandGroup.CanCommit` | lib/share/undo.js:53-55 | returns the command count, which is non-zero (truthy) iff the group has a command |
| `History.Initial` | lib/share/undo.js:62-69 | a new list: empty registry, no pending commands, no groups, cursor and save point at -1, empty log, invariant holds |
| `History.Register` | lib/share/undo.js:71-73 | the id maps to the new constructor, overwriting any earlier one; other ids and the history are untouched |
| `History.Reset` | lib/share/undo.js:75-78 | like `clear`, and the registry is emptied; no change event |
| `History.Undo` | lib/share/undo.js:80-100 | pending commands are undone, then discarded, cursor unchanged; otherwise no-op at cursor <= 0, else the cursor moves to p-1 and `groups[p-1]` is undone; groups never change; invariant kept |
| `History.Redo` | lib/share/undo.js:102-119 | no-op at cursor >= #groups-1; otherwise the cursor moves to `RedoTarget` (one further if it lands on 0) and that group is redone; invariant kept |
| `History.Add` | lib/share/undo.js:121-133 | unknown id: nothing changes and no change event; known id: groups cut to `groups[..p+1]`, pending emptied if something was cut, new command appended, afterwards #groups == p+1 |
| `History.Commit` | lib/share/undo.js:135-144 | non-empty pending group: appended with `desc` or `''`, cursor advanced to the last index, change event; empty: nothing changes; pending is empty afterwards |
| `History.Save` | lib/share/undo.js:146-149 | save point := cursor, so `dirty()` is false right afterwards; change event |
| `History.Clear` | lib/share/undo.js:151-156 | no pending commands, no groups, cursor and save point -1; registry and log kept |
| `History.ClearRedo` | lib/share/undo.js:173-180 | afterwards #groups == cursor+1, the groups are the applied prefix, pending emptied iff redo history was dropped; save point untouched |
| `History.Run` | lib/share/undo.js:61-185 | every call sequence keeps the invariant: -1 <= cursor < #groups, cursor == -1 iff no groups, save point >= -1, pending commands only at the last group |
| `History.RedoSkipUnreachable` | lib/share/undo.js:108-113 | in every state reached from a new list, `redo` moves the cursor by exactly one: the index-0 skip never fires |
| `History.RedoSkipsIndexZero` | lib/share/undo.js:108-116 | from cursor -1 with two or more groups, `redo` lands on 1 and redoes `groups[1]` |
| `History.UndoRedoAsymmetry` | lib/share/undo.js:95-116 | from cursor p > 0 with nothing pending, undo then redo restores p, undoing `groups[p-1]` and redoing `groups[p]` |
| `History.RedoSkipPastSingleGroup` | lib/share/undo.js:104-116 | from cursor -1 with exactly one group, `redo` would land on index 1, past the groups, so `RedoTargetExists` fails there |
| `History.RedoUndoAsymmetry` | lib/share/undo.js:95-116 | from cursor p below the last group, redo then undo restores p, redoing `groups[p+1]` and undoing `groups[p]` |
| `History.FirstGroupIsFloor` | lib/share/undo.js:90-93 | after the first commit (cursor 0), undo is a no-op |
| `History.AddClearsRedo` | lib/share/undo.js:104-106 | after a registered add, redo is a no-op |
| `History.AddsAccumulate` | lib/share/undo.js:121-133 | registered adds at the last group append their commands, in order, to the pending group; groups and cursor unchanged |
| `History.PendingPriority` | lib/share/undo.js:80-88 | undo after uncommitted adds undoes exactly those commands, last first, and leaves groups and cursor alone |
| `History.CommitsAppend` | lib/share/undo.js:135-144 | adds and effective commits keep the cursor on the last group and only append, one group per commit |
| `History.CommitMonotonicity` | lib/share/undo.js:135-144 | from an empty history, after N effective commits there are N groups and the cursor is N-1 |
| `History.DirtyThrowsOnlyPastEnd` | lib/share/undo.js:158-171 | `dirty()` throws only when the save point is above the cursor and past the last group; a save point inside the history always gives an answer |
| `History.CommitAfterSaveIsDirty` | lib/share/undo.js:135-171 | saving and then committing a group with a dirty command makes `dirty()` true |
| `History.UndoToSavePointIsClean` | lib/share/undo.js:80-171 | undoing back onto the save point makes `dirty()` false |
| `History.SaveOnEmptyUnreachableByUndo` | lib/share/undo.js:91-97 | with the save point at -1 and every group dirty, any number of undo calls leaves the cursor at 0 or above and `dirty()` true |
| `History.SaveOnEmptyThenUndo` | lib/share/undo.js:146-171 | register, save on the empty list, add, commit, undo: the undo changes nothing and `dirty()` is true |
| `History.StaleSavePoint` | lib/share/undo.js:173-180 | save at 1, undo, add: `dirty()` throws at index 1; after one more commit it answers false though the saved group was replaced |
| `UndoLists.UndoList.constructor` | lib/share/undo.js:62-69 | the new list is `History.Initial()` and valid |
| `UndoLists.UndoList.Register` | lib/share/undo.js:71-73 | state moves as `History.Register` |
| `UndoLists.UndoList.Reset` | lib/share/undo.js:75-78 | state moves as `History.Reset`, with a fresh pending group |
| `UndoLists.UndoList.Undo` | lib/share/undo.js:80-100 | state and effects move as `History.Undo` |
| `UndoLists.UndoList.Redo` | lib/share/undo.js:102-119 | state and effects move as `History.Redo` |
| `UndoLists.UndoList.Add` | lib/share/undo.js:121-133 | state and effects move as `History.Add` |
| `UndoLists.UndoList.Commit` | lib/share/undo.js:135-144 | state moves as `History.Commit`; the pending group is a fresh object |
| `UndoLists.UndoList.Save` | lib/share/undo.js:146-149 | state moves as `History.Save` |
| `UndoLists.UndoList.Clear` | lib/share/undo.js:151-156 | state moves as `History.Clear`, with a fresh pending group |
| `UndoLists.UndoList.Dirty` | lib/share/undo.js:158-171 | the scan returns exactly `History.DirtyOf`: true at the first dirty group in the window, false if none, and a throw at the first index past the groups |
| `UndoLists.UndoList.ClearRedo` | lib/share/undo.js:173-180 | state moves as `History.ClearRedo`; the pending group object is kept |
| `UndoLists.UndoList.Changed` | lib/share/undo.js:182-184 | appends one change event to the log and changes nothing else |

## Left out

- The `Undo` facade, its dispatch on page or core level, the `local()` factory
  and the IPC handlers (lib/share/undo.js:187-300) are cross-process transport.
  `local()` is the `UndoList` constructor. The facade's `dirty()` sends
  `'undo:is-dirty'` (line 263), but the core listens on `'undo:dirty'`
  (line 298). That mismatch belongs to the transport, not to this model.
- `Editor.warn` and `Editor.error` (lines 10-11, 124) are log lines and are
  left out: no event. `Editor.sendToAll` (line 183) is the `Changed` event.
- What concrete commands do is left out. The `info` payload is the abstract
  type `Info`, and the effect of `undo()`/`redo()` is only the event that
  records the call.
- Commands.Construct: a command's `dirty()` is fixed when the command is
  built. A concrete kind whose `dirty()` depends on state that changes later
  is not modelled.
- The registry is a map from id to `CommandDef`. Registering a falsy
  constructor is not modelled; the source's `!ctor` test would treat it as
  unregistered. Ids that name members of the JavaScript object prototype
  (`constructor`, `toString`) are also not modelled; the
  source's lookup finds these although nobody registered them.
- History.Commit: `desc` is `None` (missing) or a string. Every falsy value
  becomes `''`, as in the source. Non-string descriptions are not modelled.
- Exceptions are not modelled, except the one `dirty()` raises on a missing
  group. This covers exceptions thrown by a command constructor or by a
  command's `undo()`/`redo()`. It also covers `redo` from cursor -1 with
  exactly one group, which calls `redo()` on the missing `_groups[1]` and
  throws. `History.Redo` requires `RedoTargetExists`, which excludes that
  state; no call sequence reaches it.
- The cursor and save point are unbounded integers. JavaScript numbers would
  only lose precision far beyond any real history length.
- lib/renderer/ui/elements/props.js and lib/renderer/ui/elements/slider.js are
  DOM widgets with floating-point and colour parsing. page/editor-init.js and
  page/editor-window.js are window bootstrap and IPC. None of them is part of
  this model.
