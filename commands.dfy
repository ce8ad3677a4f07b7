/** Commands and command groups of the undo history (lib/share/undo.js, classes
    `Command` and `CommandGroup`).

    A command is an opaque, reversible edit. What its `undo()` and `redo()` do to
    the edited document is invisible to the history, so the model records each
    call as an `Event`; the order of those events is what the history promises. */
module Commands {

  datatype Option<+T> = None | Some(value: T)

  /** The payload handed to a command's constructor; the history never inspects it. */
  type Info

  /** A registered command kind, i.e. the constructor `UndoList.add` instantiates.
      `dirtyOverride` is the kind's own `dirty()`, or None when the kind inherits
      the base class's, which always answers true. */
  datatype CommandDef = CommandDef(dirtyOverride: Option<Info -> bool>)

  /** One constructed command: its kind, its payload and what its `dirty()` answers. */
  datatype Command = Command(kind: string, info: Info, dirty: bool)

  /** An observable effect: a command's `undo()` or `redo()` was called, or the
      history broadcast its "changed" notification. */
  datatype Event = Undid(cmd: Command) | Redid(cmd: Command) | Changed

  /** The value of a committed group: its commands in insertion order and its description. */
  datatype Group = Group(commands: seq<Command>, desc: string)

  /** `new ctor(info)`: a command of kind `id` built by `def`. */
  function Construct(id: string, def: CommandDef, info: Info): (c: Command)
    ensures c.kind == id && c.info == info
    ensures def.dirtyOverride.None? ==> c.dirty
  {
    Command(id, info, match def.dirtyOverride case None => true case Some(f) => f(info))
  }

  /** The events of undoing `cmds` as a group: last command first. */
  function UndoEvents(cmds: seq<Command>): (r: seq<Event>)
    ensures |r| == |cmds|
  {
    if cmds == [] then [] else UndoEvents(cmds[1..]) + [Undid(cmds[0])]
  }

  /** The events of redoing `cmds` as a group: first command first. */
  function RedoEvents(cmds: seq<Command>): (r: seq<Event>)
    ensures |r| == |cmds|
  {
    if cmds == [] then [] else RedoEvents(cmds[..|cmds| - 1]) + [Redid(cmds[|cmds| - 1])]
  }

  /** A group is dirty when one of its commands is. */
  predicate AnyDirty(cmds: seq<Command>)
  {
    exists i :: 0 <= i < |cmds| && cmds[i].dirty
  }

  /** The k-th effect of undoing a group is the undo of its k-th command from the end. */
  lemma {:induction false} UndoOrder(cmds: seq<Command>, k: int)
    requires 0 <= k < |cmds|
    ensures UndoEvents(cmds)[k] == Undid(cmds[|cmds| - 1 - k])
  {
    if k < |cmds| - 1 {
      UndoOrder(cmds[1..], k);
    }
  }

  /** The k-th effect of redoing a group is the redo of its k-th command. */
  lemma {:induction false} RedoOrder(cmds: seq<Command>, k: int)
    requires 0 <= k < |cmds|
    ensures RedoEvents(cmds)[k] == Redid(cmds[k])
  {
    if k < |cmds| - 1 {
      RedoOrder(cmds[..|cmds| - 1], k);
    }
  }

  /** Undoing a group touches the same commands as redoing it, in the mirror order. */
  lemma {:induction false} UndoMirrorsRedo(cmds: seq<Command>, k: int)
    requires 0 <= k < |cmds|
    ensures UndoEvents(cmds)[k].Undid? && RedoEvents(cmds)[|cmds| - 1 - k].Redid?
    ensures UndoEvents(cmds)[k].cmd == RedoEvents(cmds)[|cmds| - 1 - k].cmd
  {
    UndoOrder(cmds, k);
    RedoOrder(cmds, |cmds| - 1 - k);
  }

  /** A batch of commands that is undone and redone as a unit. */
  class CommandGroup {
    var commands: seq<Command>
    var desc: string

    constructor ()
      ensures commands == [] && desc == ""
    {
      commands := [];
      desc := "";
    }

    function Value(): Group
      reads this
    {
      Group(commands, desc)
    }

    /** Calls `undo()` on every command, from the last index down to 0. */
    method Undo() returns (effects: seq<Event>)
      ensures effects == UndoEvents(commands)
    {
      effects := [];
      var i := |commands|;
      while i > 0
        invariant 0 <= i <= |commands|
        invariant effects == UndoEvents(commands[i..])
      {
        i := i - 1;
        assert commands[i..][1..] == commands[i + 1..];
        effects := effects + [Undid(commands[i])];
      }
      assert commands[0..] == commands;
    }

    /** Calls `redo()` on every command, from index 0 up. */
    method Redo() returns (effects: seq<Event>)
      ensures effects == RedoEvents(commands)
    {
      effects := [];
      var i := 0;
      while i < |commands|
        invariant 0 <= i <= |commands|
        invariant effects == RedoEvents(commands[..i])
      {
        assert commands[..i + 1][..i] == commands[..i];
        effects := effects + [Redid(commands[i])];
        i := i + 1;
      }
      assert commands[..|commands|] == commands;
    }

    /** True as soon as one command reports dirty; false for an empty group. */
    method Dirty() returns (r: bool)
      ensures r <==> AnyDirty(commands)
    {
      var i := 0;
      while i < |commands|
        invariant 0 <= i <= |commands|
        invariant forall j :: 0 <= j < i ==> !commands[j].dirty
      {
        if commands[i].dirty {
          return true;
        }
        i := i + 1;
      }
      return false;
    }

    method Add(cmd: Command)
      modifies this
      ensures commands == old(commands) + [cmd] && desc == old(desc)
    {
      commands := commands + [cmd];
    }

    method Clear()
      modifies this
      ensures commands == [] && desc == old(desc)
    {
      commands := [];
    }

    /** The number of commands; the source tests it for truthiness, so a group
        can be committed exactly when the count is non-zero. */
    method CanCommit() returns (n: nat)
      ensures n == |commands|
      ensures n != 0 <==> commands != []
    {
      n := |commands|;
    }
  }

  /** The values of a sequence of group objects, index by index. */
  ghost function Values(gs: seq<CommandGroup>): (r: seq<Group>)
    reads gs
    ensures |r| == |gs|
    ensures forall i :: 0 <= i < |gs| ==> r[i] == gs[i].Value()
  {
    seq(|gs|, i requires 0 <= i < |gs| reads gs => gs[i].Value())
  }
}
