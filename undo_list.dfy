/** The history stack of lib/share/undo.js (class `UndoList`), with the fields the
    source updates in place. Every method keeps Valid() and moves Abstract() exactly
    as the matching function of module History does, so the lemmas proved there
    hold of any sequence of calls on an UndoList. */
module UndoLists {
  import opened Commands
  import History

  class UndoList {
    var pending: CommandGroup                   // `_curGroup`
    var groups: seq<CommandGroup>               // `_groups`
    var position: int                           // `_position`
    var savePosition: int                       // `_savePosition`
    var registry: map<string, CommandDef>       // `_id2cmdDef`
    ghost var log: seq<Event>                   // effects of the calls made so far

    /** The pending group is never one of the committed groups, and the history invariant holds. */
    ghost predicate Valid()
      reads this, pending, groups
    {
      pending !in groups && History.Inv(Abstract())
    }

    ghost function Abstract(): History.State
      reads this, pending, groups
    {
      History.State(registry, pending.commands, Values(groups), position, savePosition, log)
    }

    constructor ()
      ensures Valid() && Abstract() == History.Initial()
    {
      pending := new CommandGroup();
      groups := [];
      position := -1;
      savePosition := -1;
      registry := map[];
      log := [];
    }

    method Register(id: string, def: CommandDef)
      requires Valid()
      modifies this
      ensures Valid() && pending == old(pending)
      ensures Abstract() == History.Register(old(Abstract()), id, def)
    {
      registry := registry[id := def];
    }

    method Reset()
      modifies this
      ensures Valid() && fresh(pending)
      ensures Abstract() == History.Reset(old(Abstract()))
    {
      Clear();
      registry := map[];
    }

    method Undo()
      requires Valid()
      modifies this, pending
      ensures Valid() && pending == old(pending)
      ensures Abstract() == History.Undo(old(Abstract()))
    {
      var n := pending.CanCommit();
      if n != 0 {
        var effects := pending.Undo();
        log := log + effects;
        Changed();
        pending.Clear();
        return;
      }
      if position <= 0 {
        return;
      }
      position := position - 1;
      var group := groups[position];
      var effects := group.Undo();
      log := log + effects;
      Changed();
    }

    method Redo()
      requires Valid()
      modifies this
      ensures Valid() && pending == old(pending)
      ensures Abstract() == History.Redo(old(Abstract()))
    {
      if position >= |groups| - 1 {
        return;
      }
      var next := position + 1;
      if next == 0 {
        // index 0 is skipped; unreachable while Valid() holds (History.RedoSkipUnreachable)
        next := next + 1;
      }
      position := next;
      var group := groups[position];
      var effects := group.Redo();
      log := log + effects;
      Changed();
    }

    method Add(id: string, info: Info)
      requires Valid()
      modifies this, pending
      ensures Valid() && pending == old(pending)
      ensures Abstract() == History.Add(old(Abstract()), id, info)
    {
      if id !in registry {
        // the source reports the unknown id through its editor log and returns
        return;
      }
      ClearRedo();
      var cmd := Construct(id, registry[id], info);
      pending.Add(cmd);
      Changed();
    }

    method Commit(desc: Option<string>)
      requires Valid()
      modifies this, pending
      ensures Valid() && fresh(pending)
      ensures Abstract() == History.Commit(old(Abstract()), desc)
    {
      var n := pending.CanCommit();
      if n != 0 {
        pending.desc := History.DescOrEmpty(desc);
        groups := groups + [pending];
        position := position + 1;
        Changed();
      }
      pending := new CommandGroup();
    }

    method Save()
      requires Valid()
      modifies this
      ensures Valid() && pending == old(pending)
      ensures Abstract() == History.Save(old(Abstract()))
    {
      savePosition := position;
      Changed();
    }

    method Clear()
      modifies this
      ensures Valid() && fresh(pending) && registry == old(registry)
      ensures Abstract() == History.Clear(old(Abstract()))
    {
      pending := new CommandGroup();
      groups := [];
      position := -1;
      savePosition := -1;
    }

    /** Scans the groups between the save point and the cursor; `_groups[i]` past
        the end is undefined in the source and calling `dirty()` on it throws. */
    method Dirty() returns (r: History.Outcome)
      requires Valid()
      ensures r == History.DirtyOf(Abstract())
    {
      if savePosition != position {
        var lo := History.Min(position, savePosition);
        var hi := History.Max(position, savePosition);
        var i := lo + 1;
        while i <= hi
          invariant lo + 1 <= i <= |groups|
          invariant forall j :: lo < j < i ==> !AnyDirty(groups[j].commands)
        {
          if i == |groups| {
            return History.Threw(i);
          }
          var d := groups[i].Dirty();
          if d {
            return History.Returned(true);
          }
          i := i + 1;
        }
      }
      return History.Returned(false);
    }

    /** `_clearRedo()`. */
    method ClearRedo()
      requires Valid()
      modifies this, pending
      ensures Valid() && pending == old(pending)
      ensures Abstract() == History.ClearRedo(old(Abstract()))
    {
      if position + 1 == |groups| {
        return;
      }
      groups := groups[..position + 1];
      pending.Clear();
    }

    /** `_changed()`: the "changed" broadcast, recorded in the log. */
    method Changed()
      modifies this`log
      ensures log == old(log) + [Event.Changed]
    {
      log := log + [Event.Changed];
    }
  }
}
