/**
 The Windows DNS modifier as the program runs it: write after write on the registry.
 */
module DnsModifiers {
  import opened Words
  import opened WinDns

  class WinDnsModifier {
    var registry: Registry

    method SetBackup(name: string, value: string, works: bool) returns (ok: bool)
      requires name in registry
      modifies this
      ensures ok == works
      ensures registry == if works then old(registry)[name := old(registry)[name].(backup := Some(value))]
                          else old(registry)
    {
      if works { registry := registry[name := registry[name].(backup := Some(value))]; }
      ok := works;
    }

    method DeleteBackup(name: string, works: bool) returns (ok: bool)
      requires name in registry
      modifies this
      ensures ok == works
      ensures registry == if works then old(registry)[name := old(registry)[name].(backup := None)] else old(registry)
    {
      if works { registry := registry[name := registry[name].(backup := None)]; }
      ok := works;
    }

    method SetNameServers(name: string, value: string, works: bool) returns (ok: bool)
      requires name in registry
      modifies this
      ensures ok == works
      ensures registry == if works then old(registry)[name := old(registry)[name].(nameServer := Some(value))]
                          else old(registry)
    {
      if works { registry := registry[name := registry[name].(nameServer := Some(value))]; }
      ok := works;
    }

    method SubvertInterface(name: string, fate: Fate) returns (ok: bool)
      requires name in registry && registry[name].nameServer.Some?
      modifies this
      ensures registry == old(registry)[name := SubvertOne(old(registry)[name], fate).0]
      ensures ok == SubvertOne(old(registry)[name], fate).1
    {
      hide IsSubverted, MakesNoSense;
      var nameServers := registry[name].nameServer.value;
      if IsSubverted(nameServers) {
        return true;
      }
      if MakesNoSense(nameServers) {
        return false;
      }
      ok := SetBackup(name, nameServers, fate.first);
      if !ok {
        return;
      }
      ok := SetNameServers(name, LOCALHOST, fate.second);
    }

    method RollBackSubvert(name: string, fate: Fate) returns (completed: bool)
      requires name in registry
      modifies this
      ensures registry == old(registry)[name := RollBackSubvertOne(old(registry)[name], fate).0]
      ensures completed == RollBackSubvertOne(old(registry)[name], fate).1
    {
      hide IsSubverted, MakesNoSense;
      if registry[name].backup.None? {
        return true;
      }
      var oldNameServers := registry[name].backup.value;
      completed := DeleteBackup(name, fate.first);
      if !completed {
        return;
      }
      if registry[name].nameServer.None? {
        return false;
      }
      if IsSubverted(registry[name].nameServer.value) {
        completed := SetNameServers(name, oldNameServers, fate.second);
      }
    }

    method RevertInterface(name: string, fate: Fate) returns (ok: bool)
      requires name in registry && registry[name].backup.Some?
      modifies this
      ensures registry == old(registry)[name := RevertOne(old(registry)[name], fate).0]
      ensures ok == RevertOne(old(registry)[name], fate).1
    {
      var oldNameServers := registry[name].backup.value;
      if registry[name].nameServer.Some? {
        ok := SetNameServers(name, oldNameServers, fate.first);
        if !ok {
          return;
        }
      }
      ok := DeleteBackup(name, fate.second);
    }

    method RollBackRevert(name: string, fate: Fate) returns (completed: bool)
      requires name in registry
      modifies this
      ensures registry == old(registry)[name := RollBackRevertOne(old(registry)[name], fate).0]
      ensures completed == RollBackRevertOne(old(registry)[name], fate).1
    {
      hide IsSubverted, MakesNoSense;
      if registry[name].nameServer.None? {
        return true;
      }
      var oldNameServers := registry[name].nameServer.value;
      if IsSubverted(oldNameServers) {
        return true;
      }
      completed := SetBackup(name, oldNameServers, fate.first);
      if !completed {
        return;
      }
      completed := SetNameServers(name, LOCALHOST, fate.second);
    }

    /** Interface after interface, until one fails. */
    method Advance(mode: Mode, names: seq<string>, fates: string -> Fate) returns (visited: nat, ok: bool)
      requires AllEligible(mode, registry, names)
      modifies this
      ensures Progress(registry, visited, ok) == Sweep(mode, old(registry), names, fates)
    {
      hide Forward, Sweep, Eligible, Distinct;
      visited, ok := 0, true;
      while visited < |names| && ok
        invariant visited <= |names|
        invariant ok ==> AllEligible(mode, registry, names[visited..])
        invariant ok ==> var rest := Sweep(mode, registry, names[visited..], fates);
                         Sweep(mode, old(registry), names, fates) == rest.(visited := visited + rest.visited)
        invariant !ok ==> Sweep(mode, old(registry), names, fates) == Progress(registry, visited, false)
        decreases |names| - visited, ok
      {
        var name := names[visited];
        assert names[visited..][0] == name && names[visited..][1..] == names[visited + 1..];
        SweepStep(mode, registry, names[visited..], fates);
        ok := AdvanceOne(mode, name, fates(name));
        visited := visited + 1;
      }
      SweepNothing(mode, registry, fates);
    }

    method AdvanceOne(mode: Mode, name: string, fate: Fate) returns (ok: bool)
      requires name in registry && Eligible(mode, registry[name])
      modifies this
      ensures registry == old(registry)[name := Forward(mode, old(registry)[name], fate).0]
      ensures ok == Forward(mode, old(registry)[name], fate).1
    {
      hide SubvertOne, RevertOne;
      if mode.Subverting? {
        ok := SubvertInterface(name, fate);
      } else {
        ok := RevertInterface(name, fate);
      }
    }

    /** The visited interfaces undone; false stands for a panic. */
    method RollBack(mode: Mode, names: seq<string>, fates: string -> Fate) returns (completed: bool)
      requires forall i :: 0 <= i < |names| ==> names[i] in registry
      modifies this
      ensures (registry, completed) == Undo(mode, old(registry), names, fates)
    {
      hide RollBackSubvertOne, RollBackRevertOne;
      completed := true;
      var k := 0;
      while k < |names| && completed
        invariant k <= |names|
        invariant forall i :: 0 <= i < |names| ==> names[i] in registry
        invariant completed ==> Undo(mode, registry, names[k..], fates) == Undo(mode, old(registry), names, fates)
        invariant !completed ==> Undo(mode, old(registry), names, fates) == (registry, false)
        decreases |names| - k, completed
      {
        var name := names[k];
        assert names[k..][0] == name && names[k..][1..] == names[k + 1..];
        if mode.Subverting? {
          completed := RollBackSubvert(name, fates(name));
        } else {
          completed := RollBackRevert(name, fates(name));
        }
        k := k + 1;
      }
    }

    method Perform(c: Attempt) returns (outcome: Outcome)
      requires Listing(registry, c.keys)
      modifies this
      ensures (registry, outcome) == Call(old(registry), c)
    {
      hide Select, Sweep, Undo, Wanted;
      SelectExact(c.mode, registry, c.keys);
      var names := Select(c.mode, registry, c.keys);
      if !Found(c.mode, registry, names, c.accessible) {
        return Refused;
      }
      SweepPointwise(c.mode, registry, names, c.fates);
      var visited, ok := Advance(c.mode, names, c.fates);
      if ok {
        return Succeeded;
      }
      var completed := RollBack(c.mode, names[..visited], c.undoFates);
      outcome := if completed then Refused else Panicked;
    }
  }
}
