/** The undo history of lib/share/undo.js (class `UndoList`) as a value: one
    function per operation, each from the state before the call to the state
    after it, and the lemmas that relate several calls. The class in module
    UndoLists is proved to follow these functions step by step. */
module History {
  import opened Commands

  /** The fields of an `UndoList`, plus the log of effects its calls produced. */
  datatype State = State(
    registry: map<string, CommandDef>,  // `_id2cmdDef`
    pending: seq<Command>,              // the commands of `_curGroup`
    groups: seq<Group>,                 // `_groups`
    position: int,                      // `_position`
    savePosition: int,                  // `_savePosition`
    log: seq<Event>)                    // calls of `undo()`/`redo()` on commands, and `_changed()`

  /** What `dirty()` does: it answers, or it throws because `_groups[index]` is undefined. */
  datatype Outcome = Returned(dirty: bool) | Threw(index: int)

  /** One call of the public interface; `dirty()` is left out because it changes nothing. */
  datatype Op =
    | RegisterOp(id: string, def: CommandDef)
    | AddOp(id: string, info: Info)
    | CommitOp(desc: Option<string>)
    | UndoOp
    | RedoOp
    | SaveOp
    | ClearOp
    | ResetOp

  /** The invariant every operation keeps: the cursor lies in [-1, |groups|-1], it is
      -1 exactly when nothing is committed, the save point is never below -1, and
      uncommitted commands only exist while the cursor is at the last group. */
  ghost predicate Inv(s: State)
  {
    -1 <= s.position < |s.groups|
    && (s.position == -1 <==> |s.groups| == 0)
    && s.savePosition >= -1
    && (|s.pending| != 0 ==> s.position + 1 == |s.groups|)
  }

  function Min(a: int, b: int): int { if a <= b then a else b }
  function Max(a: int, b: int): int { if a <= b then b else a }

  /** `desc || ''`: a missing or empty description becomes the empty string. */
  function DescOrEmpty(desc: Option<string>): string
  {
    match desc
    case None => ""
    case Some(d) => d
  }

  /** A freshly constructed list. */
  ghost function Initial(): (s: State)
    ensures Inv(s)
    ensures s.registry == map[] && s.pending == [] && s.groups == [] && s.log == []
    ensures s.position == -1 && s.savePosition == -1
  {
    State(map[], [], [], -1, -1, [])
  }

  /** `register(id, def)`: the last registration of an id wins; nothing else changes. */
  ghost function Register(s: State, id: string, def: CommandDef): (r: State)
    ensures Inv(s) ==> Inv(r)
    ensures r.registry.Keys == s.registry.Keys + {id} && r.registry[id] == def
    ensures forall k :: k in s.registry && k != id ==> r.registry[k] == s.registry[k]
    ensures r.(registry := s.registry) == s
  {
    s.(registry := s.registry[id := def])
  }

  /** `clear()`: empties the history but keeps the registry; no change event. */
  ghost function Clear(s: State): (r: State)
    ensures Inv(r)
    ensures r.registry == s.registry && r.log == s.log
    ensures r.pending == [] && r.groups == [] && r.position == -1 && r.savePosition == -1
  {
    State(s.registry, [], [], -1, -1, s.log)
  }

  /** `reset()`: `clear()` and also forget every registered kind; no change event. */
  ghost function Reset(s: State): (r: State)
    ensures Inv(r)
    ensures r.registry == map[] && r.log == s.log
    ensures r.pending == [] && r.groups == [] && r.position == -1 && r.savePosition == -1
  {
    Clear(s).(registry := map[])
  }

  /** `_clearRedo()`: when redo history exists, drop it together with the pending commands. */
  ghost function ClearRedo(s: State): (r: State)
    requires Inv(s)
    ensures Inv(r) && |r.groups| == r.position + 1
    ensures r.groups == s.groups[..s.position + 1] && r.position == s.position
    ensures r.pending == if s.position + 1 == |s.groups| then s.pending else []
    ensures r.registry == s.registry && r.savePosition == s.savePosition && r.log == s.log
  {
    if s.position + 1 == |s.groups| then s
    else s.(groups := s.groups[..s.position + 1], pending := [])
  }

  /** `add(id, info)`: an unknown id changes nothing (the source only logs an error);
      a known one drops redo history, then appends the new command to the pending group. */
  ghost function Add(s: State, id: string, info: Info): (r: State)
    requires Inv(s)
    ensures Inv(r)
    ensures id !in s.registry ==> r == s
    ensures id in s.registry ==>
              && |r.groups| == r.position + 1
              && r.groups == s.groups[..s.position + 1] && r.position == s.position
              && r.pending == (if s.position + 1 == |s.groups| then s.pending else [])
                              + [Construct(id, s.registry[id], info)]
              && r.registry == s.registry && r.savePosition == s.savePosition
              && r.log == s.log + [Changed]
  {
    if id !in s.registry then s
    else
      var c := ClearRedo(s);
      c.(pending := c.pending + [Construct(id, s.registry[id], info)], log := c.log + [Changed])
  }

  /** `commit(desc)`: a non-empty pending group is pushed and becomes the cursor's
      group; in every case the pending group ends up empty. */
  ghost function Commit(s: State, desc: Option<string>): (r: State)
    requires Inv(s)
    ensures Inv(r)
    ensures r.pending == [] && r.registry == s.registry && r.savePosition == s.savePosition
    ensures |s.pending| != 0 ==>
              && r.groups == s.groups + [Group(s.pending, DescOrEmpty(desc))]
              && r.position == s.position + 1 == |r.groups| - 1
              && r.log == s.log + [Changed]
    ensures |s.pending| == 0 ==> r == s
  {
    if |s.pending| != 0 then
      s.(groups := s.groups + [Group(s.pending, DescOrEmpty(desc))], position := s.position + 1,
         pending := [], log := s.log + [Changed])
    else s.(pending := [])
  }

  /** `undo()`: pending commands are undone first and discarded without moving the
      cursor; otherwise the cursor steps back (never below 0) and the group it
      lands on is undone. */
  ghost function Undo(s: State): (r: State)
    requires Inv(s)
    ensures Inv(r)
    ensures r.pending == [] && r.groups == s.groups
    ensures r.registry == s.registry && r.savePosition == s.savePosition
    ensures |s.pending| != 0 ==>
              r.position == s.position && r.log == s.log + UndoEvents(s.pending) + [Changed]
    ensures |s.pending| == 0 && s.position <= 0 ==> r == s
    ensures |s.pending| == 0 && s.position > 0 ==>
              && r.position == s.position - 1
              && r.log == s.log + UndoEvents(s.groups[s.position - 1].commands) + [Changed]
  {
    if |s.pending| != 0 then
      s.(pending := [], log := s.log + UndoEvents(s.pending) + [Changed])
    else if s.position <= 0 then s
    else
      s.(position := s.position - 1,
         log := s.log + UndoEvents(s.groups[s.position - 1].commands) + [Changed])
  }

  /** Where `redo()` moves the cursor from `p`: one step on, and one more if that is 0. */
  function RedoTarget(p: int): int
  {
    if p + 1 == 0 then p + 2 else p + 1
  }

  /** `redo()` does not read past `_groups`. Weaker than Inv, so that the index-0
      skip can be exhibited on a state no call sequence reaches. */
  ghost predicate RedoTargetExists(s: State)
  {
    s.position >= -1 && (s.position < |s.groups| - 1 ==> RedoTarget(s.position) < |s.groups|)
  }

  /** `redo()`: at the last group nothing happens; otherwise the cursor moves to
      RedoTarget and the group there is redone. */
  ghost function Redo(s: State): (r: State)
    requires RedoTargetExists(s)
    ensures Inv(s) ==> Inv(r)
    ensures r.pending == s.pending && r.groups == s.groups
    ensures r.registry == s.registry && r.savePosition == s.savePosition
    ensures s.position >= |s.groups| - 1 ==> r == s
    ensures s.position < |s.groups| - 1 ==>
              && r.position == RedoTarget(s.position)
              && r.log == s.log + RedoEvents(s.groups[r.position].commands) + [Changed]
  {
    if s.position >= |s.groups| - 1 then s
    else
      var p := RedoTarget(s.position);
      s.(position := p, log := s.log + RedoEvents(s.groups[p].commands) + [Changed])
  }

  /** `dirty()`: when the cursor is off the save point, the groups with index in
      (min, max] of the two are scanned upwards; the first dirty one answers true,
      and an index past `_groups` makes `_groups[i].dirty()` throw. */
  ghost function DirtyOf(s: State): Outcome
    requires Inv(s)
  {
    if s.savePosition == s.position then Returned(false)
    else
      var lo := Min(s.position, s.savePosition);
      var hi := Max(s.position, s.savePosition);
      if exists i :: lo < i <= hi && i < |s.groups| && AnyDirty(s.groups[i].commands) then Returned(true)
      else if hi < |s.groups| then Returned(false)
      else Threw(|s.groups|)
  }

  /** `save()`: the save point moves to the cursor, so the list is clean at once. */
  ghost function Save(s: State): (r: State)
    requires Inv(s)
    ensures Inv(r) && DirtyOf(r) == Returned(false)
    ensures r.savePosition == s.position
    ensures r.(savePosition := s.savePosition, log := s.log) == s && r.log == s.log + [Changed]
  {
    s.(savePosition := s.position, log := s.log + [Changed])
  }

  ghost function Apply(s: State, op: Op): (r: State)
    requires Inv(s)
    ensures Inv(r)
  {
    match op
    case RegisterOp(id, def) => Register(s, id, def)
    case AddOp(id, info) => Add(s, id, info)
    case CommitOp(desc) => Commit(s, desc)
    case UndoOp => Undo(s)
    case RedoOp => Redo(s)
    case SaveOp => Save(s)
    case ClearOp => Clear(s)
    case ResetOp => Reset(s)
  }

  /** The calls `ops`, in order. */
  ghost function Run(s: State, ops: seq<Op>): (r: State)
    requires Inv(s)
    ensures Inv(r)
    decreases |ops|
  {
    if ops == [] then s else Run(Apply(s, ops[0]), ops[1..])
  }

  /** The commands `add` constructs for a run of registered adds. */
  ghost function Constructed(reg: map<string, CommandDef>, ops: seq<Op>): (cmds: seq<Command>)
    requires RegisteredAdds(reg, ops)
    ensures |cmds| == |ops|
    ensures forall i :: 0 <= i < |ops| ==> cmds[i].kind == ops[i].id && cmds[i].info == ops[i].info
  {
    if ops == [] then [] else [Construct(ops[0].id, reg[ops[0].id], ops[0].info)] + Constructed(reg, ops[1..])
  }

  ghost predicate RegisteredAdds(reg: map<string, CommandDef>, ops: seq<Op>)
  {
    forall i :: 0 <= i < |ops| ==> ops[i].AddOp? && ops[i].id in reg
  }

  ghost function CommitCount(ops: seq<Op>): nat
  {
    if ops == [] then 0 else (if ops[0].CommitOp? then 1 else 0) + CommitCount(ops[1..])
  }

  /** Only adds and commits, and every commit finds something to commit: it
      directly follows a registered add, or comes first while commands are pending. */
  ghost predicate AddCommitRun(s: State, ops: seq<Op>)
  {
    && (forall i :: 0 <= i < |ops| ==> ops[i].AddOp? || ops[i].CommitOp?)
    && (|ops| > 0 && ops[0].CommitOp? ==> |s.pending| != 0)
    && (forall i :: 0 < i < |ops| && ops[i].CommitOp? ==> ops[i - 1].AddOp? && ops[i - 1].id in s.registry)
  }

  /** `n` calls of `undo()`. */
  ghost function UndoTimes(s: State, n: nat): (r: State)
    requires Inv(s)
    ensures Inv(r) && r.groups == s.groups && r.savePosition == s.savePosition
    decreases n
  {
    if n == 0 then s else UndoTimes(Undo(s), n - 1)
  }

  // ---------------------------------------------------------------------------
  // Lemmas

  /** Every state a call sequence reaches from a new list keeps the invariant, so
      the index-0 skip in `redo()` never fires: wherever `redo()` moves, it moves by one. */
  lemma {:induction false} RedoSkipUnreachable(ops: seq<Op>)
    ensures var s := Run(Initial(), ops);
      Inv(s) && (s.position < |s.groups| - 1 ==> RedoTarget(s.position) == s.position + 1)
  {
  }

  /** On a state with the cursor at -1 and at least two groups (which no call sequence
      reaches), `redo()` skips index 0: it lands on 1 and redoes `groups[1]`. */
  lemma RedoSkipsIndexZero(s: State)
    requires s.position == -1 && |s.groups| >= 2
    ensures RedoTargetExists(s)
    ensures Redo(s).position == 1
    ensures Redo(s).log == s.log + RedoEvents(s.groups[1].commands) + [Changed]
  {
  }

  /** From cursor -1 with exactly one group (which no call sequence reaches either),
      `redo()` would move to 0, skip to 1 and call `redo()` on the missing
      `_groups[1]`; Redo's precondition leaves this state out. */
  lemma RedoSkipPastSingleGroup(s: State)
    requires s.position == -1 && |s.groups| == 1
    ensures s.position < |s.groups| - 1 && RedoTarget(s.position) == |s.groups|
    ensures !RedoTargetExists(s)
  {
  }

  /** Undo then redo restores the cursor, but the group undone (`groups[p-1]`) is
      not the group redone (`groups[p]`). */
  lemma UndoRedoAsymmetry(s: State)
    requires Inv(s) && s.pending == [] && s.position > 0
    ensures var r := Redo(Undo(s));
      && r.position == s.position && r.groups == s.groups && r.pending == []
      && r.log == s.log + UndoEvents(s.groups[s.position - 1].commands) + [Changed]
                        + RedoEvents(s.groups[s.position].commands) + [Changed]
  {
  }

  /** Redo then undo restores the cursor; it redoes `groups[p+1]` and undoes `groups[p]`. */
  lemma RedoUndoAsymmetry(s: State)
    requires Inv(s) && s.pending == [] && 0 <= s.position < |s.groups| - 1
    ensures var r := Undo(Redo(s));
      && r.position == s.position && r.groups == s.groups
      && r.log == s.log + RedoEvents(s.groups[s.position + 1].commands) + [Changed]
                        + UndoEvents(s.groups[s.position].commands) + [Changed]
  {
  }

  /** With only the first group committed, `undo()` is a no-op: that group is the floor. */
  lemma FirstGroupIsFloor(s: State, id: string, info: Info, desc: Option<string>)
    requires Inv(s) && s.groups == [] && s.pending == [] && id in s.registry
    ensures var c := Commit(Add(s, id, info), desc);
      && |c.groups| == 1 && c.position == 0
      && Undo(c) == c
  {
  }

  /** After a registered add there is no redo history: `redo()` is a no-op. */
  lemma AddClearsRedo(s: State, id: string, info: Info)
    requires Inv(s) && id in s.registry
    ensures Redo(Add(s, id, info)) == Add(s, id, info)
  {
  }

  /** The first call of a run of registered adds at the last group. */
  lemma AddAtTail(s: State, ops: seq<Op>) returns (s': State)
    requires Inv(s) && s.position + 1 == |s.groups| && ops != [] && RegisteredAdds(s.registry, ops)
    ensures Inv(s') && s'.position + 1 == |s'.groups|
    ensures s'.groups == s.groups && s'.position == s.position && s'.savePosition == s.savePosition
    ensures s'.registry == s.registry && RegisteredAdds(s'.registry, ops[1..])
    ensures Run(s, ops) == Run(s', ops[1..])
    ensures s'.pending + Constructed(s.registry, ops[1..]) == s.pending + Constructed(s.registry, ops)
  {
    var op := ops[0];
    s' := Add(s, op.id, op.info);
    assert Apply(s, op) == s';
    RegisteredAddsTail(s.registry, ops);
    var c := Construct(op.id, s.registry[op.id], op.info);
    var rest := Constructed(s.registry, ops[1..]);
    assert Constructed(s.registry, ops) == [c] + rest;
    assert s'.pending + rest == s.pending + ([c] + rest);
  }

  lemma RegisteredAddsTail(reg: map<string, CommandDef>, ops: seq<Op>)
    requires RegisteredAdds(reg, ops) && ops != []
    ensures RegisteredAdds(reg, ops[1..])
  {
    forall i | 0 <= i < |ops[1..]| ensures ops[1..][i].AddOp? && ops[1..][i].id in reg {
      assert ops[1..][i] == ops[i + 1];
    }
  }

  /** Registered adds at the last group accumulate, in order, in the pending group,
      and touch neither the committed groups nor the cursor. */
  lemma {:induction false} AddsAccumulate(s: State, ops: seq<Op>)
    requires Inv(s) && s.position + 1 == |s.groups| && RegisteredAdds(s.registry, ops)
    ensures var m := Run(s, ops);
      && m.groups == s.groups && m.position == s.position && m.savePosition == s.savePosition
      && m.registry == s.registry
      && m.pending == s.pending + Constructed(s.registry, ops)
    decreases |ops|
  {
    if ops != [] {
      var s' := AddAtTail(s, ops);
      AddsAccumulate(s', ops[1..]);
    } else {
      assert s.pending + Constructed(s.registry, ops) == s.pending;
    }
  }


  /** Undo right after uncommitted adds undoes exactly those commands, last first,
      and leaves the committed groups and the cursor where they were. */
  lemma {:induction false} PendingPriority(s: State, ops: seq<Op>)
    requires Inv(s) && s.pending == [] && s.position + 1 == |s.groups|
    requires |ops| > 0 && RegisteredAdds(s.registry, ops)
    ensures var m := Run(s, ops); var u := Undo(m);
      && u.groups == s.groups && u.position == s.position && u.pending == []
      && u.log == m.log + UndoEvents(Constructed(s.registry, ops)) + [Changed]
  {
    AddsAccumulate(s, ops);
    assert s.pending + Constructed(s.registry, ops) == Constructed(s.registry, ops);
  }

  /** Adds and commits with no undo in between keep the cursor on the last group and
      only ever append groups, one per commit. */
  lemma {:induction false} CommitsAppend(s: State, ops: seq<Op>)
    requires Inv(s) && s.position + 1 == |s.groups| && AddCommitRun(s, ops)
    ensures var m := Run(s, ops);
      && m.position + 1 == |m.groups|
      && |m.groups| == |s.groups| + CommitCount(ops)
      && m.groups[..|s.groups|] == s.groups
    decreases |ops|
  {
    if ops != [] {
      var s' := Apply(s, ops[0]);
      assert s'.registry == s.registry;
      if ops[0].CommitOp? {
        assert |s.pending| != 0;
        assert |s'.groups| == |s.groups| + 1;
      } else {
        assert |s'.groups| == |s.groups|;
      }
      assert AddCommitRun(s', ops[1..]) by {
        forall i | 0 <= i < |ops[1..]| ensures ops[1..][i].AddOp? || ops[1..][i].CommitOp? {
          assert ops[1..][i] == ops[i + 1];
        }
        forall i | 0 < i < |ops[1..]| && ops[1..][i].CommitOp?
          ensures ops[1..][i - 1].AddOp? && ops[1..][i - 1].id in s'.registry
        {
          assert ops[1..][i] == ops[i + 1] && ops[1..][i - 1] == ops[i];
        }
      }
      CommitsAppend(s', ops[1..]);
      var m := Run(s', ops[1..]);
      assert m == Run(s, ops);
      assert s'.groups[..|s.groups|] == s.groups;
      assert m.groups[..|s.groups|] == m.groups[..|s'.groups|][..|s.groups|];
    }
  }

  /** From an empty history, after N effective commits the cursor is N-1 and there are N groups. */
  lemma CommitMonotonicity(s: State, ops: seq<Op>)
    requires Inv(s) && s.groups == [] && AddCommitRun(s, ops)
    ensures |Run(s, ops).groups| == CommitCount(ops)
    ensures Run(s, ops).position == CommitCount(ops) - 1
  {
    CommitsAppend(s, ops);
  }

  /** `dirty()` throws only when the save point lies past the last group and above the cursor. */
  lemma DirtyThrowsOnlyPastEnd(s: State)
    requires Inv(s)
    ensures DirtyOf(s).Threw? ==> s.position < s.savePosition && s.savePosition >= |s.groups|
    ensures s.savePosition < |s.groups| ==> DirtyOf(s).Returned?
  {
  }

  /** Committing a dirty command right after saving makes the list dirty. */
  lemma CommitAfterSaveIsDirty(s: State, desc: Option<string>)
    requires Inv(s) && s.savePosition == s.position && AnyDirty(s.pending)
    ensures DirtyOf(Commit(s, desc)) == Returned(true)
  {
    var r := Commit(s, desc);
    assert AnyDirty(r.groups[r.position].commands);
  }

  /** Undoing back to the save point makes the list clean again. */
  lemma UndoToSavePointIsClean(s: State)
    requires Inv(s) && s.pending == [] && s.position == s.savePosition + 1 && s.savePosition >= 0
    ensures DirtyOf(Undo(s)) == Returned(false)
  {
  }

  /** A save taken on an empty list (save point -1) can never be returned to by undo:
      once a group is committed the cursor is at least 0, and undo stops at 0, so the
      list stays dirty after every further undo. */
  lemma {:induction false} SaveOnEmptyUnreachableByUndo(s: State, n: nat)
    requires Inv(s) && s.savePosition == -1 && |s.groups| > 0
    requires forall i :: 0 <= i < |s.groups| ==> AnyDirty(s.groups[i].commands)
    ensures var u := UndoTimes(s, n);
      u.position >= 0 && u.savePosition == -1 && DirtyOf(u) == Returned(true)
    decreases n
  {
    if n > 0 {
      SaveOnEmptyUnreachableByUndo(Undo(s), n - 1);
    }
    var u := UndoTimes(s, n);
    assert AnyDirty(u.groups[u.position].commands);
  }

  /** Register "move", save on the empty list, add, commit, undo: nothing is undone
      and `dirty()` stays true. */
  lemma SaveOnEmptyThenUndo(info: Info)
    ensures var s0 := Save(Register(Initial(), "move", CommandDef(None)));
      var c := Commit(Add(s0, "move", info), None);
      && Undo(c) == c && c.savePosition == -1 && c.position == 0
      && DirtyOf(Undo(c)) == Returned(true)
  {
    var s0 := Save(Register(Initial(), "move", CommandDef(None)));
    var c := Commit(Add(s0, "move", info), None);
    assert c.groups[0].commands[0] == Construct("move", CommandDef(None), info);
    assert AnyDirty(c.groups[0].commands);
  }

  /** `_clearRedo` leaves `_savePosition` behind. Save at 1, undo, add: `dirty()` reads
      `_groups[1]`, which is gone, and throws. Commit once more and `dirty()` answers
      false although the group at the save point is no longer the saved one. */
  lemma StaleSavePoint(a: Info, b: Info)
    requires a != b
    ensures var s0 := Register(Initial(), "move", CommandDef(None));
      var saved := Save(Commit(Add(Commit(Add(s0, "move", a), None), "move", a), None));
      var s1 := Add(Undo(saved), "move", b);
      && saved.savePosition == 1 && DirtyOf(saved) == Returned(false)
      && DirtyOf(s1) == Threw(1)
      && DirtyOf(Commit(s1, None)) == Returned(false)
      && Commit(s1, None).position == saved.position
      && Commit(s1, None).groups[1] != saved.groups[1]
  {
  }
}
