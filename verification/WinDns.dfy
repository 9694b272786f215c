/**
 The Windows DNS modifier: pointing the DNS settings of network interfaces at this machine
 (subverting), putting them back (reverting), and rolling back when an interface fails halfway.
 A write to the registry or through netsh either takes effect or fails without effect.
 */
module WinDns {
  import opened Words

  const LOCALHOST := "127.0.0.1"

  // Name-server strings

  function Split(s: string): (parts: seq<string>)
    ensures parts != []
  {
    if s == "" then [""]
    else
      var rest := Split(s[1..]);
      if s[0] == ',' then [""] + rest else [[s[0]] + rest[0]] + rest[1..]
  }

  predicate IsSubverted(nameServers: string)
  {
    nameServers == LOCALHOST || LOCALHOST + "," <= nameServers
  }

  /** This machine appears somewhere in the list. */
  predicate MakesNoSense(nameServers: string)
  {
    LOCALHOST in Split(nameServers)
  }

  /** The first part is what precedes the first comma. */
  lemma {:induction false} SplitFirst(part: string, s: string)
    requires ',' !in part
    ensures Split(s)[0] == part <==> part <= s && (s == part || s[|part|] == ',')
    decreases |part|
  {
    if part != "" && s != "" {
      assert part[0] in part;
      SplitFirst(part[1..], s[1..]);
      assert part == [part[0]] + part[1..] && s == [s[0]] + s[1..];
    }
  }

  /** The parts with a comma between each two. */
  function Joined(parts: seq<string>): (s: string)
    requires parts != []
  {
    if |parts| == 1 then parts[0] else parts[0] + "," + Joined(parts[1..])
  }

  lemma JoinedFront(c: char, part: string, rest: seq<string>)
    ensures Joined([[c] + part] + rest) == [c] + Joined([part] + rest)
    ensures rest != [] ==> Joined([""] + rest) == "," + Joined(rest)
  {
    assert ([[c] + part] + rest)[1..] == rest && ([part] + rest)[1..] == rest && ([""] + rest)[1..] == rest;
    if rest != [] { assert ([c] + part) + "," + Joined(rest) == [c] + (part + "," + Joined(rest)); }
  }

  /** The parts have no commas, and joined by commas give the string. */
  lemma {:induction false} SplitExact(s: string)
    ensures forall i :: 0 <= i < |Split(s)| ==> ',' !in Split(s)[i]
    ensures Joined(Split(s)) == s
  {
    if s != "" {
      hide Joined;
      var rest := Split(s[1..]);
      SplitExact(s[1..]);
      JoinedFront(s[0], rest[0], rest[1..]);
      JoinedFront(s[0], rest[0], rest);
      assert rest == [rest[0]] + rest[1..] && s == [s[0]] + s[1..];
    }
  }

  /** The string has this part from position `i` up to a comma or its end, at its start or after a comma. */
  predicate PartAt(s: string, i: nat, part: string)
  {
    var end := i + |part|;
    end <= |s| && s[i..end] == part && (i == 0 || s[i - 1] == ',') && (end == |s| || s[end] == ',')
  }

  lemma PartAtNext(s: string, i: nat, part: string)
    requires s != ""
    ensures PartAt(s, i + 1, part) <==> PartAt(s[1..], i, part) && (i > 0 || s[0] == ',')
  {
    var end := i + |part|;
    if end < |s| { assert s[i + 1..end + 1] == s[1..][i..end]; }
  }

  lemma {:induction false} LaterParts(part: string, s: string)
    requires ',' !in part && part != ""
    ensures part in Split(s)[1..] <==> exists i :: i > 0 && PartAt(s, i, part)
  {
    if s != "" {
      hide PartAt;
      var t, rest := s[1..], Split(s[1..]);
      LaterParts(part, t);
      FirstPart(part, t);
      assert rest == [rest[0]] + rest[1..];
      assert Split(s)[1..] == if s[0] == ',' then rest else rest[1..];
      if i: nat :| PartAt(t, i, part) && (i > 0 || s[0] == ',') {
        PartAtNext(s, i, part);
        assert PartAt(s, i + 1, part);
      }
      if i: nat :| i > 0 && PartAt(s, i, part) {
        PartAtNext(s, i - 1, part);
        assert PartAt(t, i - 1, part);
      }
    }
  }

  lemma FirstPart(part: string, s: string)
    requires ',' !in part
    ensures Split(s)[0] == part <==> PartAt(s, 0, part)
  {
    hide Split;
    SplitFirst(part, s);
    if part <= s { assert s[0..|part|] == part; }
  }

  /** Settings make no sense exactly when this machine stands somewhere between commas or ends. */
  lemma MakesNoSenseExactly(nameServers: string)
    ensures MakesNoSense(nameServers) <==> exists i: nat :: PartAt(nameServers, i, LOCALHOST)
  {
    hide PartAt, Split;
    var parts := Split(nameServers);
    assert parts == [parts[0]] + parts[1..];
    FirstPart(LOCALHOST, nameServers);
    LaterParts(LOCALHOST, nameServers);
  }

  /** Settings count as subverted exactly when the first server listed is this machine. */
  lemma SubvertedExactly(nameServers: string)
    ensures IsSubverted(nameServers) <==> Split(nameServers)[0] == LOCALHOST
  {
    hide Split;
    SplitFirst(LOCALHOST, nameServers);
    if LOCALHOST <= nameServers && |nameServers| > 9 && nameServers[9] == ',' {
      assert nameServers[..10] == LOCALHOST + ",";
    }
  }

  lemma SubvertedMakesNoSense(nameServers: string)
    ensures IsSubverted(nameServers) ==> MakesNoSense(nameServers)
  {
    SubvertedExactly(nameServers);
  }

  lemma LocalhostIsSubverted()
    ensures IsSubverted(LOCALHOST) && MakesNoSense(LOCALHOST)
  {
    SubvertedMakesNoSense(LOCALHOST);
  }

  // Interfaces

  /** An interface's registry values; a missing value is `None`. */
  datatype Interface = Interface(
    defaultGateway: Option<string>,
    dhcpDefaultGateway: Option<string>,
    nameServer: Option<string>,
    backup: Option<string>)
  {
    /** The DHCP gateway if there is one, else the configured one; an empty one counts as none. */
    function Gateway(): (r: Option<string>)
      ensures r.Some? ==> r.value != ""
      ensures r.Some? ==> r == dhcpDefaultGateway || (r == defaultGateway && dhcpDefaultGateway.None?)
      ensures dhcpDefaultGateway.Some? && dhcpDefaultGateway.value != "" ==> r == dhcpDefaultGateway
    {
      var g := if dhcpDefaultGateway.Some? then dhcpDefaultGateway else defaultGateway;
      if g == Some("") then None else g
    }

    /** The servers the user had set: the backup if there is one. */
    function Original(): Option<string>
    {
      if backup.Some? then backup else nameServer
    }
  }

  type Registry = map<string, Interface>

  /** Whether the first and the second write of a procedure on an interface succeed. */
  datatype Fate = Fate(first: bool, second: bool)

  datatype Mode = Subverting | Reverting

  datatype Outcome = Succeeded | Refused | Panicked

  // One interface at a time

  function SubvertOne(i: Interface, fate: Fate): (r: (Interface, bool))
    requires i.nameServer.Some?
  {
    var ns := i.nameServer.value;
    if IsSubverted(ns) then (i, true)
    else if MakesNoSense(ns) || !fate.first then (i, false)
    else if !fate.second then (i.(backup := Some(ns)), false)
    else (i.(backup := Some(ns), nameServer := Some(LOCALHOST)), true)
  }

  function RollBackSubvertOne(i: Interface, fate: Fate): (r: (Interface, bool))
  {
    if i.backup.None? then (i, true)
    else if !fate.first then (i, false)
    else
      var j := i.(backup := None);
      if i.nameServer.None? then (j, false)
      else if !IsSubverted(i.nameServer.value) then (j, true)
      else if !fate.second then (j, false)
      else (j.(nameServer := i.backup), true)
  }

  function RevertOne(i: Interface, fate: Fate): (r: (Interface, bool))
    requires i.backup.Some?
  {
    if i.nameServer.Some? && !fate.first then (i, false)
    else
      var j := if i.nameServer.Some? then i.(nameServer := i.backup) else i;
      if fate.second then (j.(backup := None), true) else (j, false)
  }

  function RollBackRevertOne(i: Interface, fate: Fate): (r: (Interface, bool))
  {
    if i.nameServer.None? || IsSubverted(i.nameServer.value) then (i, true)
    else if !fate.first then (i, false)
    else
      var j := i.(backup := i.nameServer);
      if fate.second then (j.(nameServer := Some(LOCALHOST)), true) else (j, false)
  }

  predicate Eligible(mode: Mode, i: Interface)
  {
    if mode.Subverting? then i.nameServer.Some? else i.backup.Some?
  }

  function Forward(mode: Mode, i: Interface, fate: Fate): (r: (Interface, bool))
    requires Eligible(mode, i)
  {
    if mode.Subverting? then SubvertOne(i, fate) else RevertOne(i, fate)
  }

  function Backward(mode: Mode, i: Interface, fate: Fate): (r: (Interface, bool))
  {
    if mode.Subverting? then RollBackSubvertOne(i, fate) else RollBackRevertOne(i, fate)
  }

  // All the interfaces of one call

  predicate Distinct(names: seq<string>)
  {
    forall i, j :: 0 <= i < j < |names| ==> names[i] != names[j]
  }

  predicate AllEligible(mode: Mode, registry: Registry, names: seq<string>)
  {
    Distinct(names) && forall i :: 0 <= i < |names| ==> names[i] in registry && Eligible(mode, registry[names[i]])
  }

  datatype Progress = Progress(registry: Registry, visited: nat, ok: bool)

  /** Interface after interface until one fails; the failing one counts as visited. */
  function Sweep(mode: Mode, registry: Registry, names: seq<string>, fates: string -> Fate): (p: Progress)
    requires AllEligible(mode, registry, names)
    ensures p.visited <= |names| && (p.ok ==> p.visited == |names|)
    decreases |names|
  {
    if names == [] then Progress(registry, 0, true)
    else
      var (i, ok) := Forward(mode, registry[names[0]], fates(names[0]));
      var next := registry[names[0] := i];
      if !ok then Progress(next, 1, false)
      else
        var rest := Sweep(mode, next, names[1..], fates);
        rest.(visited := rest.visited + 1)
  }

  /** The visited interfaces undone in the order they were visited; a failure here is a panic. */
  function Undo(mode: Mode, registry: Registry, names: seq<string>, fates: string -> Fate): (r: (Registry, bool))
    requires forall i :: 0 <= i < |names| ==> names[i] in registry
    decreases |names|
  {
    if names == [] then (registry, true)
    else
      var (i, ok) := Backward(mode, registry[names[0]], fates(names[0]));
      var next := registry[names[0] := i];
      if !ok then (next, false) else Undo(mode, next, names[1..], fates)
  }

  lemma SweepStep(mode: Mode, registry: Registry, names: seq<string>, fates: string -> Fate)
    requires AllEligible(mode, registry, names) && names != []
    ensures names[0] in registry && Eligible(mode, registry[names[0]])
    ensures var (i, ok) := Forward(mode, registry[names[0]], fates(names[0]));
            var next := registry[names[0] := i];
            if !ok then Sweep(mode, registry, names, fates) == Progress(next, 1, false)
            else
              && AllEligible(mode, next, names[1..])
              && var rest := Sweep(mode, next, names[1..], fates);
                 Sweep(mode, registry, names, fates) == rest.(visited := rest.visited + 1)
  {
    hide Forward, Eligible;
  }

  lemma SweepNothing(mode: Mode, registry: Registry, fates: string -> Fate)
    ensures Sweep(mode, registry, [], fates) == Progress(registry, 0, true)
  {
  }

  lemma {:induction false} SweepPointwise(mode: Mode, registry: Registry, names: seq<string>, fates: string -> Fate)
    requires AllEligible(mode, registry, names)
    ensures var p := Sweep(mode, registry, names, fates);
            && p.registry.Keys == registry.Keys
            && (forall n :: n in registry ==>
                  p.registry[n] == if n in names[..p.visited] then Forward(mode, registry[n], fates(n)).0
                                   else registry[n])
            && (p.ok ==> forall n :: n in names ==> Forward(mode, registry[n], fates(n)).1)
            && (!p.ok ==> p.visited > 0)
    decreases |names|
  {
    if names != [] {
      var first := names[0];
      var (i, ok) := Forward(mode, registry[first], fates(first));
      var next := registry[first := i];
      if ok {
        SweepPointwise(mode, next, names[1..], fates);
        var p := Sweep(mode, registry, names, fates);
        assert names[..p.visited] == [first] + names[1..][..p.visited - 1];
      } else {
        assert names[..1] == [first];
      }
    }
  }

  lemma {:induction false} UndoPointwise(mode: Mode, registry: Registry, names: seq<string>, fates: string -> Fate)
    requires Distinct(names) && forall i :: 0 <= i < |names| ==> names[i] in registry
    ensures var r := Undo(mode, registry, names, fates);
            && r.0.Keys == registry.Keys
            && (r.1 ==> forall n :: n in registry ==>
                  if n in names then (r.0[n], true) == Backward(mode, registry[n], fates(n)) else r.0[n] == registry[n])
    decreases |names|
  {
    if names != [] {
      var first := names[0];
      var (i, ok) := Backward(mode, registry[first], fates(first));
      var next := registry[first := i];
      if ok {
        UndoPointwise(mode, next, names[1..], fates);
        assert names == [first] + names[1..];
      }
    }
  }

  /** The steps before the last one visited went through, and a sweep that fails does so at that one. */
  lemma {:induction false} SweepEnds(mode: Mode, registry: Registry, names: seq<string>, fates: string -> Fate)
    requires AllEligible(mode, registry, names)
    ensures var p := Sweep(mode, registry, names, fates);
            && (forall k :: 0 <= k < (if p.ok then p.visited else p.visited - 1) ==>
                  Forward(mode, registry[names[k]], fates(names[k])).1)
            && (!p.ok ==> p.visited > 0 && var last := names[p.visited - 1];
                  !Forward(mode, registry[last], fates(last)).1)
    decreases |names|
  {
    hide Forward, Eligible, Sweep;
    if names == [] {
      SweepNothing(mode, registry, fates);
    } else {
      SweepStep(mode, registry, names, fates);
      var (i, ok) := Forward(mode, registry[names[0]], fates(names[0]));
      if ok {
        var next, rest := registry[names[0] := i], names[1..];
        SweepEnds(mode, next, rest, fates);
        assert forall k :: 0 < k < |names| ==> rest[k - 1] == names[k] && next[names[k]] == registry[names[k]];
        var p := Sweep(mode, registry, names, fates);
        forall k | 0 <= k < (if p.ok then p.visited else p.visited - 1)
          ensures Forward(mode, registry[names[k]], fates(names[k])).1
        {
          if k > 0 { assert Forward(mode, next[rest[k - 1]], fates(rest[k - 1])).1; }
        }
      }
    }
  }

  lemma {:induction false} UndoCompletes(mode: Mode, registry: Registry, names: seq<string>, fates: string -> Fate)
    requires Distinct(names) && forall i :: 0 <= i < |names| ==> names[i] in registry
    requires forall i :: 0 <= i < |names| ==> Backward(mode, registry[names[i]], fates(names[i])).1
    ensures Undo(mode, registry, names, fates).1
    decreases |names|
  {
    hide Backward;
    if names != [] {
      var next := registry[names[0] := Backward(mode, registry[names[0]], fates(names[0])).0];
      var rest := names[1..];
      forall i | 0 <= i < |rest| ensures Backward(mode, next[rest[i]], fates(rest[i])).1 {
        assert rest[i] == names[i + 1] && next[rest[i]] == registry[names[i + 1]];
      }
      UndoCompletes(mode, next, rest, fates);
    }
  }

  /** A roll-back that does not complete stops at the first interface that cannot be undone. */
  predicate StopsAt(mode: Mode, registry: Registry, names: seq<string>, fates: string -> Fate, m: nat)
    requires forall i :: 0 <= i < |names| ==> names[i] in registry
    requires m < |names|
  {
    && !Backward(mode, registry[names[m]], fates(names[m])).1
    && forall k :: 0 <= k < m ==> Backward(mode, registry[names[k]], fates(names[k])).1
  }

  lemma {:induction false} UndoStops(mode: Mode, registry: Registry, names: seq<string>, fates: string -> Fate, m: nat)
    requires Distinct(names) && forall i :: 0 <= i < |names| ==> names[i] in registry
    requires m < |names| && StopsAt(mode, registry, names, fates, m)
    ensures var r := Undo(mode, registry, names, fates);
            && !r.1 && r.0.Keys == registry.Keys
            && forall n :: n in registry ==>
                 r.0[n] == if n in names[..m + 1] then Backward(mode, registry[n], fates(n)).0 else registry[n]
    decreases |names|
  {
    hide Backward;
    var first, rest := names[0], names[1..];
    var (i, ok) := Backward(mode, registry[first], fates(first));
    var next := registry[first := i];
    assert names[..m + 1] == [first] + rest[..m];
    if m > 0 {
      assert forall k :: 0 <= k < |rest| ==> rest[k] == names[k + 1] && next[rest[k]] == registry[rest[k]];
      UndoStops(mode, next, rest, fates, m - 1);
    }
  }

  // Which interfaces a call is about

  predicate Wanted(mode: Mode, i: Interface)
  {
    if mode.Subverting? then i.Gateway().Some? && i.nameServer.Some? else i.backup.Some?
  }

  function Select(mode: Mode, registry: Registry, keys: seq<string>): (names: seq<string>)
    requires forall i :: 0 <= i < |keys| ==> keys[i] in registry
  {
    if keys == [] then []
    else (if Wanted(mode, registry[keys[0]]) then [keys[0]] else []) + Select(mode, registry, keys[1..])
  }

  function Gateways(registry: Registry, names: seq<string>): (g: set<Option<string>>)
    requires forall i :: 0 <= i < |names| ==> names[i] in registry
  {
    set i | 0 <= i < |names| :: registry[names[i]].Gateway()
  }

  /** The interfaces can be listed, and for subverting there are some, all behind one gateway. */
  predicate Found(mode: Mode, registry: Registry, names: seq<string>, accessible: bool)
    requires forall i :: 0 <= i < |names| ==> names[i] in registry
  {
    accessible && (mode.Subverting? ==> names != [] && |Gateways(registry, names)| <= 1)
  }

  predicate Listing(registry: Registry, keys: seq<string>)
  {
    Distinct(keys) && forall i :: 0 <= i < |keys| ==> keys[i] in registry
  }

  lemma {:induction false} SelectExact(mode: Mode, registry: Registry, keys: seq<string>)
    requires Listing(registry, keys)
    ensures var names := Select(mode, registry, keys);
            && AllEligible(mode, registry, names)
            && (forall n :: n in names <==> n in keys && Wanted(mode, registry[n]))
  {
    if keys != [] {
      SelectExact(mode, registry, keys[1..]);
      var rest := Select(mode, registry, keys[1..]);
      assert forall i :: 0 <= i < |rest| ==> rest[i] in keys[1..];
      assert keys == [keys[0]] + keys[1..];
      assert keys[0] !in keys[1..];
    }
  }

  /** The gateway in use: that of DHCP if it has a value at all, even an empty one. */
  predicate HasGateway(i: Interface)
  {
    var g := if i.dhcpDefaultGateway.Some? then i.dhcpDefaultGateway else i.defaultGateway;
    g.Some? && |g.value| > 0
  }

  predicate At(keys: seq<string>, p: int, name: string)
  {
    0 <= p < |keys| && keys[p] == name
  }

  ghost predicate InOrderOf(keys: seq<string>, names: seq<string>)
  {
    forall i, j, p, q :: 0 <= i < j < |names| && At(keys, p, names[i]) && At(keys, q, names[j]) ==> p < q
  }

  /**
   A `subvert` is about the listed interfaces with servers and a gateway, a `revert` about those with
   a backup, each once and in the order of the listing.
   */
  lemma SelectedExactly(mode: Mode, registry: Registry, keys: seq<string>)
    requires Listing(registry, keys)
    ensures var names := Select(mode, registry, keys);
            && Distinct(names)
            && (forall n :: n in names <==>
                  n in keys && if mode.Subverting? then registry[n].nameServer.Some? && HasGateway(registry[n])
                               else registry[n].backup.Some?)
            && InOrderOf(keys, names)
  {
    SelectExact(mode, registry, keys);
    SelectInOrder(mode, registry, keys);
  }

  lemma {:induction false} SelectInOrder(mode: Mode, registry: Registry, keys: seq<string>)
    requires Listing(registry, keys)
    ensures InOrderOf(keys, Select(mode, registry, keys))
  {
    hide Wanted;
    if keys != [] {
      var names, rest := Select(mode, registry, keys), Select(mode, registry, keys[1..]);
      SelectInOrder(mode, registry, keys[1..]);
      SelectExact(mode, registry, keys[1..]);
      var skipped := |names| - |rest|;
      forall i, j, p, q | 0 <= i < j < |names| && At(keys, p, names[i]) && At(keys, q, names[j])
        ensures p < q
      {
        assert names[j] == rest[j - skipped] && rest[j - skipped] in keys[1..];
        if i >= skipped {
          assert names[i] == rest[i - skipped] && rest[i - skipped] in keys[1..];
          assert At(keys[1..], p - 1, rest[i - skipped]) && At(keys[1..], q - 1, rest[j - skipped]);
        }
      }
    }
  }

  /**
   A `subvert` goes ahead exactly when the interfaces can be listed, there is one, and all have one
   gateway; a `revert` when they can be listed.
   */
  lemma FoundOneGateway(registry: Registry, names: seq<string>, accessible: bool)
    requires forall i :: 0 <= i < |names| ==> names[i] in registry
    ensures Found(Subverting, registry, names, accessible) <==>
              && accessible && names != []
              && forall i, j :: 0 <= i < |names| && 0 <= j < |names| ==>
                   registry[names[i]].Gateway() == registry[names[j]].Gateway()
    ensures Found(Reverting, registry, names, accessible) <==> accessible
  {
    if names != [] {
      var g := Gateways(registry, names);
      var first := registry[names[0]].Gateway();
      assert first in g;
      if |g| <= 1 {
        assert |g - {first}| == |g| - 1;
        assert g - {first} == {};
        forall i | 0 <= i < |names| ensures registry[names[i]].Gateway() == first {
          assert registry[names[i]].Gateway() in g;
        }
      }
      if forall i :: 0 <= i < |names| ==> registry[names[i]].Gateway() == first { assert g == {first}; }
    }
  }

  lemma DistinctPrefix(names: seq<string>, k: nat)
    requires Distinct(names) && k <= |names|
    ensures Distinct(names[..k]) && forall n :: n in names[..k] ==> n in names
  {
  }

  // A call, whatever fails

  /** One `subvert` or `revert`: what the registry lists, and which writes succeed going forward and back. */
  datatype Attempt = Attempt(
    mode: Mode,
    keys: seq<string>,
    accessible: bool,
    fates: string -> Fate,
    undoFates: string -> Fate)

  function Call(registry: Registry, c: Attempt): (r: (Registry, Outcome))
    requires Listing(registry, c.keys)
  {
    SelectExact(c.mode, registry, c.keys);
    var names := Select(c.mode, registry, c.keys);
    if !Found(c.mode, registry, names, c.accessible) then (registry, Refused)
    else
      var p := Sweep(c.mode, registry, names, c.fates);
      SweepPointwise(c.mode, registry, names, c.fates);
      if p.ok then (p.registry, Succeeded)
      else
        var (undone, completed) := Undo(c.mode, p.registry, names[..p.visited], c.undoFates);
        (undone, if completed then Refused else Panicked)
  }

  /** The interfaces the call got to, the failing one included. */
  function Visited(registry: Registry, c: Attempt): (names: seq<string>)
    requires Listing(registry, c.keys)
  {
    SelectExact(c.mode, registry, c.keys);
    var names := Select(c.mode, registry, c.keys);
    if !Found(c.mode, registry, names, c.accessible) then []
    else names[..Sweep(c.mode, registry, names, c.fates).visited]
  }

  /** What a call that does not panic does to each interface. */
  lemma CallPointwise(registry: Registry, c: Attempt)
    requires Listing(registry, c.keys)
    ensures var (after, outcome) := Call(registry, c);
            && after.Keys == registry.Keys
            && (forall n :: n in Visited(registry, c) ==> n in registry && Eligible(c.mode, registry[n]))
            && (outcome == Succeeded ==>
                  forall n :: n in registry ==>
                    if n in c.keys && Wanted(c.mode, registry[n])
                    then Eligible(c.mode, registry[n]) && Forward(c.mode, registry[n], c.fates(n)) == (after[n], true)
                    else after[n] == registry[n])
            && (outcome == Refused ==>
                  forall n :: n in registry ==>
                    if n in Visited(registry, c)
                    then
                      Backward(c.mode, Forward(c.mode, registry[n], c.fates(n)).0, c.undoFates(n)) == (after[n], true)
                    else after[n] == registry[n])
  {
    hide Forward, Backward, Wanted, Eligible, Gateways, Select, Sweep, Undo, Found, Distinct;
    SelectExact(c.mode, registry, c.keys);
    var names := Select(c.mode, registry, c.keys);
    if Found(c.mode, registry, names, c.accessible) {
      SweepPointwise(c.mode, registry, names, c.fates);
      var p := Sweep(c.mode, registry, names, c.fates);
      assert names[..|names|] == names;
      DistinctPrefix(names, p.visited);
      if !p.ok { UndoPointwise(c.mode, p.registry, names[..p.visited], c.undoFates); }
    }
  }

  // The invariant

  /** A backup goes with settings that are exactly this machine, and does not itself name this machine. */
  predicate SoundOne(i: Interface)
  {
    i.backup.Some? ==> i.nameServer == Some(LOCALHOST) && !MakesNoSense(i.backup.value)
  }

  predicate Sound(registry: Registry)
  {
    forall n :: n in registry ==> SoundOne(registry[n])
  }

  /** The same original servers and the same gateways. */
  predicate SameUserSettings(i: Interface, j: Interface)
  {
    && i.Original() == j.Original()
    && i.defaultGateway == j.defaultGateway && i.dhcpDefaultGateway == j.dhcpDefaultGateway
  }

  predicate SameOriginals(before: Registry, after: Registry)
  {
    before.Keys == after.Keys && forall n :: n in before ==> SameUserSettings(before[n], after[n])
  }

  predicate NoBackups(registry: Registry)
  {
    forall n :: n in registry ==> registry[n].backup.None?
  }

  lemma ForwardOne(mode: Mode, i: Interface, fate: Fate)
    requires Eligible(mode, i) && SoundOne(i)
    ensures var (j, ok) := Forward(mode, i, fate);
            ok ==> && SoundOne(j) && SameUserSettings(i, j)
                   && (if mode.Subverting? then j.nameServer.Some? && IsSubverted(j.nameServer.value)
                       else j == i.(nameServer := i.backup, backup := None))
  {
    hide IsSubverted, MakesNoSense;
    LocalhostIsSubverted();
  }

  /** Undoing a step, whether it went through or failed halfway. */
  lemma ForwardBackOne(mode: Mode, i: Interface, fate: Fate, undoFate: Fate)
    requires Eligible(mode, i) && SoundOne(i)
    ensures var (j, completed) := Backward(mode, Forward(mode, i, fate).0, undoFate);
            completed ==> j == if mode.Reverting? || i.backup.None? then i
                               else i.(nameServer := i.backup, backup := None)
  {
    hide IsSubverted, MakesNoSense;
    LocalhostIsSubverted();
    if i.backup.Some? { SubvertedMakesNoSense(i.backup.value); }
  }

  /** Whatever fails, a call that does not panic keeps the invariant and every interface's original servers. */
  lemma CallKeepsOriginals(registry: Registry, c: Attempt)
    requires Listing(registry, c.keys) && Sound(registry)
    ensures var (after, outcome) := Call(registry, c);
            outcome != Panicked ==> Sound(after) && SameOriginals(registry, after)
  {
    hide Call, Visited, Forward, Backward, SoundOne, Wanted, Eligible;
    var (after, outcome) := Call(registry, c);
    CallPointwise(registry, c);
    if outcome != Panicked {
      forall n | n in registry ensures SoundOne(after[n]) && SameUserSettings(registry[n], after[n]) {
        if outcome == Succeeded {
          if n in c.keys && Wanted(c.mode, registry[n]) { ForwardOne(c.mode, registry[n], c.fates(n)); }
        } else if n in Visited(registry, c) {
          ForwardBackOne(c.mode, registry[n], c.fates(n), c.undoFates(n));
          RestoredSound(registry[n]);
        }
      }
    }
  }

  lemma RestoredSound(i: Interface)
    requires SoundOne(i)
    ensures var j := i.(nameServer := i.backup, backup := None);
            i.backup.Some? ==> SoundOne(j) && SameUserSettings(i, j)
  {
  }

  /** A step of `revert` on this interface can be rolled back, whatever fails. */
  predicate Restorable(i: Interface)
  {
    i.backup.Some? && i.nameServer == Some(LOCALHOST) && !IsSubverted(i.backup.value)
  }

  lemma SoundRestorable(i: Interface)
    requires SoundOne(i) && i.backup.Some?
    ensures Restorable(i)
  {
    SubvertedMakesNoSense(i.backup.value);
  }

  /** Going forward and then completely back gives the interface back, whatever fails on the way. */
  ghost predicate AlwaysRestored(mode: Mode, i: Interface)
    requires Eligible(mode, i)
  {
    forall fate: Fate, undoFate: Fate ::
      var r := Backward(mode, Forward(mode, i, fate).0, undoFate);
      r.1 ==> r.0 == i
  }

  /** For `revert` that is so exactly when the settings are this machine's and the backup is not subverted. */
  lemma RevertRestoredExactly(i: Interface)
    requires Eligible(Reverting, i)
    ensures AlwaysRestored(Reverting, i) <==> Restorable(i)
  {
    hide IsSubverted, MakesNoSense;
    LocalhostIsSubverted();
    if AlwaysRestored(Reverting, i) {
      var r := Backward(Reverting, Forward(Reverting, i, Fate(true, true)).0, Fate(true, true));
      assert r.1 ==> r.0 == i;
    }
  }

  /** For `subvert` it is so exactly when there is no backup to begin with. */
  lemma SubvertRestoredExactly(i: Interface)
    requires Eligible(Subverting, i)
    ensures AlwaysRestored(Subverting, i) <==> i.backup.None?
  {
    hide IsSubverted, MakesNoSense;
    LocalhostIsSubverted();
    if AlwaysRestored(Subverting, i) {
      var r := Backward(Subverting, Forward(Subverting, i, Fate(true, true)).0, Fate(true, true));
      assert r.1 ==> r.0 == i;
    }
  }

  /** Rolling a `subvert` back completely never leaves a backup behind. */
  lemma SubvertRollBackDrops(i: Interface, fate: Fate, undoFate: Fate)
    requires Eligible(Subverting, i)
    ensures var r := Backward(Subverting, Forward(Subverting, i, fate).0, undoFate);
            r.1 ==> r.0.backup.None?
  {
    hide IsSubverted, MakesNoSense;
  }

  /** A refused call that found its interfaces failed at the last one it got to, and not before. */
  lemma VisitedEnds(registry: Registry, c: Attempt)
    requires Listing(registry, c.keys) && Call(registry, c).1 == Refused
    ensures Distinct(Visited(registry, c))
    ensures forall n :: n in Visited(registry, c) ==> n in registry && Eligible(c.mode, registry[n])
    ensures var v := Visited(registry, c);
            forall k :: 0 <= k < |v| ==>
                          (Forward(c.mode, registry[v[k]], c.fates(v[k])).1 <==> k < |v| - 1)
  {
    hide Forward, Eligible, Wanted, Gateways, Select, Sweep, Undo, Found, Backward;
    CallPointwise(registry, c);
    SelectExact(c.mode, registry, c.keys);
    var names := Select(c.mode, registry, c.keys);
    if Found(c.mode, registry, names, c.accessible) {
      SweepEnds(c.mode, registry, names, c.fates);
      var p := Sweep(c.mode, registry, names, c.fates);
      assert !p.ok;
      assert forall k :: 0 <= k < p.visited ==> Visited(registry, c)[k] == names[k];
    }
  }

  /** What an interface must be for its failed `revert` step, once undone, to leave it as it was. */
  predicate FailureRestored(i: Interface, fate: Fate)
    requires i.backup.Some?
  {
    i.nameServer.Some? ==>
      if !fate.first then IsSubverted(i.nameServer.value)
      else i.nameServer == if IsSubverted(i.backup.value) then i.backup else Some(LOCALHOST)
  }

  /** When a completed roll-back of one `revert` step gives the interface back. */
  lemma RevertUndoneExactly(i: Interface, fate: Fate, undoFate: Fate)
    requires Eligible(Reverting, i)
    ensures var r := Backward(Reverting, Forward(Reverting, i, fate).0, undoFate);
            r.1 ==> (r.0 == i <==> if Forward(Reverting, i, fate).1 then Restorable(i) else FailureRestored(i, fate))
  {
    hide IsSubverted, MakesNoSense;
    LocalhostIsSubverted();
  }

  /**
   A refused `revert` leaves everything as it was exactly when every interface it got to but the last
   could be rolled back, and the last one either was not touched or was put back as it was.
   */
  lemma RevertAtomicExactly(registry: Registry, c: Attempt)
    requires Listing(registry, c.keys) && c.mode == Reverting
    requires Call(registry, c).1 == Refused
    ensures forall n :: n in Visited(registry, c) ==> n in registry && registry[n].backup.Some?
    ensures var v := Visited(registry, c);
            Call(registry, c).0 == registry <==>
              && (forall k :: 0 <= k < |v| - 1 ==> Restorable(registry[v[k]]))
              && (v != [] ==> var last := v[|v| - 1]; FailureRestored(registry[last], c.fates(last)))
  {
    hide Call, Visited, Forward, Backward, Wanted, Restorable, FailureRestored;
    CallPointwise(registry, c);
    VisitedEnds(registry, c);
    var after := Call(registry, c).0;
    var v := Visited(registry, c);
    forall k | 0 <= k < |v|
      ensures after[v[k]] == registry[v[k]] <==>
                if k < |v| - 1 then Restorable(registry[v[k]]) else FailureRestored(registry[v[k]], c.fates(v[k]))
    {
      RevertUndoneExactly(registry[v[k]], c.fates(v[k]), c.undoFates(v[k]));
    }
    UnchangedExactly(registry, after, v);
  }

  lemma UnchangedExactly(registry: Registry, after: Registry, names: seq<string>)
    requires after.Keys == registry.Keys && forall n :: n in names ==> n in registry
    requires forall n :: n in registry && n !in names ==> after[n] == registry[n]
    ensures after == registry <==> forall k :: 0 <= k < |names| ==> after[names[k]] == registry[names[k]]
  {
    if forall k :: 0 <= k < |names| ==> after[names[k]] == registry[names[k]] {
      forall n | n in registry ensures after[n] == registry[n] {
        if n in names {
          var k :| 0 <= k < |names| && names[k] == n;
        }
      }
    }
  }

  lemma RestorableFailure(i: Interface, fate: Fate)
    requires Restorable(i)
    ensures FailureRestored(i, fate)
  {
    LocalhostIsSubverted();
  }

  /** In particular from every registry that meets the invariant. */
  lemma SoundRevertAtomic(registry: Registry, c: Attempt)
    requires Listing(registry, c.keys) && c.mode == Reverting && Sound(registry)
    ensures Call(registry, c).1 == Refused ==> Call(registry, c).0 == registry
  {
    hide Call, Visited, Restorable, FailureRestored, SoundOne;
    CallPointwise(registry, c);
    if Call(registry, c).1 == Refused {
      RevertAtomicExactly(registry, c);
      forall n | n in Visited(registry, c)
        ensures Restorable(registry[n]) && FailureRestored(registry[n], c.fates(n))
      {
        SoundRestorable(registry[n]);
        RestorableFailure(registry[n], c.fates(n));
      }
    }
  }

  /** A refused `subvert` leaves everything as it was exactly when no interface it got to had a backup. */
  lemma SubvertAtomicExactly(registry: Registry, c: Attempt)
    requires Listing(registry, c.keys) && c.mode == Subverting
    requires Call(registry, c).1 == Refused
    ensures forall n :: n in Visited(registry, c) ==> n in registry
    ensures Call(registry, c).0 == registry <==> forall n :: n in Visited(registry, c) ==> registry[n].backup.None?
  {
    hide Call, Visited, Forward, Backward, Wanted, Eligible;
    CallPointwise(registry, c);
    var (after, outcome) := Call(registry, c);
    forall n | n in registry
      ensures after[n] == registry[n] <==> (n in Visited(registry, c) ==> registry[n].backup.None?)
    {
      if n in Visited(registry, c) {
        SubvertRestoredExactly(registry[n]);
        SubvertRollBackDrops(registry[n], c.fates(n), c.undoFates(n));
        var r := Backward(c.mode, Forward(c.mode, registry[n], c.fates(n)).0, c.undoFates(n));
        assert registry[n].backup.None? ==> (r.1 ==> r.0 == registry[n]);
      }
    }
    assert after == registry <==> forall n :: n in registry ==> after[n] == registry[n];
  }

  /** An interface subverted earlier, with its backup, and one that is not. */
  const EARLIER_SUBVERTED := Interface(Some("1.1.1.1"), None, Some("127.0.0.1"), Some("8.8.8.8"))
  const NOT_SUBVERTED := Interface(Some("1.1.1.1"), None, Some("9.9.9.9"), None)

  lemma ExampleSteps(registry: Registry, never: Fate, always: Fate)
    requires registry == map["a" := EARLIER_SUBVERTED, "b" := NOT_SUBVERTED]
    requires never == Fate(false, false) && always == Fate(true, true)
    ensures SubvertOne(EARLIER_SUBVERTED, never) == (EARLIER_SUBVERTED, true)
    ensures SubvertOne(NOT_SUBVERTED, never) == (NOT_SUBVERTED, false)
    ensures RollBackSubvertOne(EARLIER_SUBVERTED, always)
            == (EARLIER_SUBVERTED.(nameServer := Some("8.8.8.8"), backup := None), true)
    ensures RollBackSubvertOne(EARLIER_SUBVERTED, Fate(true, false)) == (EARLIER_SUBVERTED.(backup := None), false)
    ensures RollBackSubvertOne(NOT_SUBVERTED, always) == (NOT_SUBVERTED, true)
  {
    hide MakesNoSense;
  }

  lemma ExampleSelection(registry: Registry)
    requires registry == map["a" := EARLIER_SUBVERTED, "b" := NOT_SUBVERTED]
    ensures Listing(registry, ["a", "b"])
    ensures Select(Subverting, registry, ["a", "b"]) == ["a", "b"]
    ensures Found(Subverting, registry, ["a", "b"], true)
  {
    assert ["a", "b"][1..] == ["b"] && ["b"][1..] == [];
    assert Select(Subverting, registry, ["b"]) == ["b"];
    assert Gateways(registry, ["a", "b"]) == {Some("1.1.1.1")};
  }

  /** So a refused `subvert` can change settings: here it undoes an earlier, successful subversion. */
  lemma RefusedSubvertCanUnsubvert()
    ensures var registry := map["a" := EARLIER_SUBVERTED, "b" := NOT_SUBVERTED];
            var c := Attempt(Subverting, ["a", "b"], true, _ => Fate(false, false), _ => Fate(true, true));
            && Listing(registry, c.keys)
            && Call(registry, c).1 == Refused
            && Call(registry, c).0 == registry["a" := EARLIER_SUBVERTED.(nameServer := Some("8.8.8.8"), backup := None)]
  {
    hide SubvertOne, RollBackSubvertOne, Select, Found;
    var registry := map["a" := EARLIER_SUBVERTED, "b" := NOT_SUBVERTED];
    var c := Attempt(Subverting, ["a", "b"], true, _ => Fate(false, false), _ => Fate(true, true));
    ExampleSelection(registry);
    ExampleSteps(registry, Fate(false, false), Fate(true, true));
    var names := ["a", "b"];
    assert names[1..] == ["b"] && names[..2] == names && ["b"][1..] == [];
    SweepStep(Subverting, registry, names, c.fates);
    assert registry["a" := EARLIER_SUBVERTED] == registry;
    SweepStep(Subverting, registry, ["b"], c.fates);
    assert registry["b" := NOT_SUBVERTED] == registry;
    var undone := registry["a" := EARLIER_SUBVERTED.(nameServer := Some("8.8.8.8"), backup := None)];
    assert undone["b" := NOT_SUBVERTED] == undone;
    assert Undo(Subverting, undone, ["b"], c.undoFates) == (undone, true);
    assert Undo(Subverting, registry, names, c.undoFates) == (undone, true);
  }

  /** Servers set by hand while a backup was still there. */
  const STALE_BACKUP := Interface(Some("1.1.1.1"), None, Some("9.9.9.9"), Some("8.8.8.8"))

  lemma StaleSteps()
    ensures RevertOne(STALE_BACKUP, Fate(false, false)) == (STALE_BACKUP, false)
    ensures RollBackRevertOne(STALE_BACKUP, Fate(true, true))
            == (STALE_BACKUP.(nameServer := Some(LOCALHOST), backup := Some("9.9.9.9")), true)
  {
  }

  /** Nor does a refused `revert` always: here a failed first write costs the user's own servers. */
  lemma RefusedRevertCanSubvert()
    ensures var registry := map["a" := STALE_BACKUP];
            var c := Attempt(Reverting, ["a"], true, _ => Fate(false, false), _ => Fate(true, true));
            && Listing(registry, c.keys)
            && Call(registry, c).1 == Refused
            && Call(registry, c).0
               == registry["a" := STALE_BACKUP.(nameServer := Some(LOCALHOST), backup := Some("9.9.9.9"))]
  {
    hide RevertOne, RollBackRevertOne;
    var registry := map["a" := STALE_BACKUP];
    var c := Attempt(Reverting, ["a"], true, _ => Fate(false, false), _ => Fate(true, true));
    StaleSteps();
    var undone := STALE_BACKUP.(nameServer := Some(LOCALHOST), backup := Some("9.9.9.9"));
    assert ["a"][1..] == [] && ["a"][..1] == ["a"];
    assert Select(Reverting, registry, ["a"]) == ["a"];
    SweepStep(Reverting, registry, ["a"], c.fates);
    assert registry["a" := STALE_BACKUP] == registry;
    assert Undo(Reverting, registry, ["a"], c.undoFates) == (registry["a" := undone], true);
  }

  // Which registries make every refusal harmless

  /** Every refused call of this kind on these interfaces leaves everything as it was, whatever fails. */
  ghost predicate AlwaysAtomic(mode: Mode, registry: Registry, keys: seq<string>)
    requires Listing(registry, keys)
  {
    forall c: Attempt :: c.mode == mode && c.keys == keys && Call(registry, c).1 == Refused ==>
                           Call(registry, c).0 == registry
  }

  /** The step goes through if no write fails. */
  predicate CanPass(mode: Mode, i: Interface)
    requires Eligible(mode, i)
  {
    Forward(mode, i, Fate(true, true)).1
  }

  /** The step fails if every write does. */
  predicate CanFail(mode: Mode, i: Interface)
    requires Eligible(mode, i)
  {
    !Forward(mode, i, Fate(false, false)).1
  }

  /** A call can fail at this interface, having passed all those before it. */
  predicate CanFailAt(mode: Mode, registry: Registry, names: seq<string>, j: nat)
    requires AllEligible(mode, registry, names) && j < |names|
  {
    CanFail(mode, registry[names[j]]) && forall k :: 0 <= k < j ==> CanPass(mode, registry[names[k]])
  }

  /** Steps that went through (`ok`), or that failed, are undone without a trace. */
  ghost predicate StepRestored(mode: Mode, i: Interface, ok: bool)
    requires Eligible(mode, i)
  {
    forall fate: Fate, undoFate: Fate :: Forward(mode, i, fate).1 == ok ==>
      var r := Backward(mode, Forward(mode, i, fate).0, undoFate);
      r.1 ==> r.0 == i
  }

  ghost predicate StepsRestored(mode: Mode, registry: Registry, names: seq<string>)
    requires AllEligible(mode, registry, names)
  {
    forall k, j :: 0 <= k <= j < |names| && CanFailAt(mode, registry, names, j) ==>
                     StepRestored(mode, registry[names[k]], k < j)
  }

  lemma FatesBound(mode: Mode, i: Interface, fate: Fate)
    requires Eligible(mode, i)
    ensures Forward(mode, i, fate).1 ==> CanPass(mode, i)
    ensures !Forward(mode, i, fate).1 ==> CanFail(mode, i)
    ensures Backward(mode, Forward(mode, i, fate).0, Fate(true, true)).1
  {
  }

  /** The call that fails at a given interface, and is rolled back completely. */
  lemma RefusedAt(registry: Registry, c: Attempt, j: nat)
    requires Listing(registry, c.keys) && c.accessible
    requires var names := Select(c.mode, registry, c.keys);
             && AllEligible(c.mode, registry, names) && Found(c.mode, registry, names, true) && j < |names|
             && (forall k :: 0 <= k <= j ==> (Forward(c.mode, registry[names[k]], c.fates(names[k])).1 <==> k < j))
             && (forall k :: 0 <= k <= j ==>
                   Backward(c.mode, Forward(c.mode, registry[names[k]], c.fates(names[k])).0, c.undoFates(names[k])).1)
    ensures Call(registry, c).1 == Refused
    ensures Visited(registry, c) == Select(c.mode, registry, c.keys)[..j + 1]
  {
    hide Forward, Backward, Wanted, Eligible, Gateways, Select, Sweep, Undo, Found;
    var names := Select(c.mode, registry, c.keys);
    SelectExact(c.mode, registry, c.keys);
    var p := Sweep(c.mode, registry, names, c.fates);
    SweepEnds(c.mode, registry, names, c.fates);
    SweepPointwise(c.mode, registry, names, c.fates);
    assert !Forward(c.mode, registry[names[j]], c.fates(names[j])).1;
    assert !p.ok && p.visited == j + 1;
    var visited := names[..j + 1];
    forall k | 0 <= k < |visited|
      ensures visited[k] in p.registry && Backward(c.mode, p.registry[visited[k]], c.undoFates(visited[k])).1
    {
      assert visited[k] == names[k] && names[k] in visited;
    }
    UndoCompletes(c.mode, p.registry, visited, c.undoFates);
  }

  /** If every refusal is harmless, each step of a call that can fail is undone without a trace. */
  lemma AtomicStep(mode: Mode, registry: Registry, keys: seq<string>, k: nat, j: nat, fate: Fate, undoFate: Fate)
    requires Listing(registry, keys) && AlwaysAtomic(mode, registry, keys)
    requires var names := Select(mode, registry, keys);
             && AllEligible(mode, registry, names) && Found(mode, registry, names, true)
             && k <= j < |names| && CanFailAt(mode, registry, names, j)
             && (Forward(mode, registry[names[k]], fate).1 <==> k < j)
             && Backward(mode, Forward(mode, registry[names[k]], fate).0, undoFate).1
    ensures var i := registry[Select(mode, registry, keys)[k]];
            Backward(mode, Forward(mode, i, fate).0, undoFate).0 == i
  {
    hide Forward, Backward, Wanted, Eligible, Gateways, Select, Call, Visited, Found;
    var names := Select(mode, registry, keys);
    var target, failing := names[k], names[j];
    var fates: string -> Fate :=
      n => if n == target then fate else if n == failing then Fate(false, false) else Fate(true, true);
    var undoFates: string -> Fate := n => if n == target then undoFate else Fate(true, true);
    var c := Attempt(mode, keys, true, fates, undoFates);
    forall m | 0 <= m <= j
      ensures Forward(mode, registry[names[m]], fates(names[m])).1 <==> m < j
      ensures Backward(mode, Forward(mode, registry[names[m]], fates(names[m])).0, undoFates(names[m])).1
    {
      FatesBound(mode, registry[names[m]], fates(names[m]));
    }
    RefusedAt(registry, c, j);
    CallPointwise(registry, c);
    assert target in names[..j + 1] by { assert names[..j + 1][k] == target; }
  }

  /**
   Every refusal is harmless exactly when, wherever a call can fail, the failing step and those
   before it are undone without a trace.
   */
  lemma AtomicExactly(mode: Mode, registry: Registry, keys: seq<string>)
    requires Listing(registry, keys)
    ensures AllEligible(mode, registry, Select(mode, registry, keys))
    ensures var names := Select(mode, registry, keys);
            AlwaysAtomic(mode, registry, keys) <==>
              (Found(mode, registry, names, true) ==> StepsRestored(mode, registry, names))
  {
    hide Forward, Backward, Wanted, Eligible, Gateways, Select, Call, Found, CanFailAt;
    SelectExact(mode, registry, keys);
    var names := Select(mode, registry, keys);
    if AlwaysAtomic(mode, registry, keys) && Found(mode, registry, names, true) {
      forall k, j, fate, undoFate |
        && 0 <= k <= j < |names| && CanFailAt(mode, registry, names, j)
        && Forward(mode, registry[names[k]], fate).1 == (k < j)
        && Backward(mode, Forward(mode, registry[names[k]], fate).0, undoFate).1
        ensures Backward(mode, Forward(mode, registry[names[k]], fate).0, undoFate).0 == registry[names[k]]
      {
        AtomicStep(mode, registry, keys, k, j, fate, undoFate);
      }
    }
    if Found(mode, registry, names, true) ==> StepsRestored(mode, registry, names) {
      forall c: Attempt | c.mode == mode && c.keys == keys && Call(registry, c).1 == Refused
        ensures Call(registry, c).0 == registry
      {
        RestoredAtomic(registry, c);
      }
    }
  }

  lemma RestoredAtomic(registry: Registry, c: Attempt)
    requires Listing(registry, c.keys) && Call(registry, c).1 == Refused
    requires var names := Select(c.mode, registry, c.keys);
             && AllEligible(c.mode, registry, names)
             && (Found(c.mode, registry, names, true) ==> StepsRestored(c.mode, registry, names))
    ensures Call(registry, c).0 == registry
  {
    hide Forward, Backward, Wanted, Eligible, Gateways, Select, Call, Sweep;
    var names := Select(c.mode, registry, c.keys);
    var v := Visited(registry, c);
    var after := Call(registry, c).0;
    CallPointwise(registry, c);
    VisitedEnds(registry, c);
    if v != [] {
      var j := |v| - 1;
      assert forall k :: 0 <= k <= j ==> v[k] == names[k];
      forall k | 0 <= k <= j
        ensures k < j ==> CanPass(c.mode, registry[names[k]])
        ensures k == j ==> CanFail(c.mode, registry[names[k]])
      {
        FatesBound(c.mode, registry[v[k]], c.fates(v[k]));
      }
      assert CanFailAt(c.mode, registry, names, j);
      forall k | 0 <= k < |v| ensures after[v[k]] == registry[v[k]] {
        assert StepRestored(c.mode, registry[names[k]], k < j);
      }
    }
    UnchangedExactly(registry, after, v);
  }

  /** The servers are this machine's already, or can be set to it. */
  predicate CanSubvert(i: Interface)
    requires i.nameServer.Some?
  {
    IsSubverted(i.nameServer.value) || !MakesNoSense(i.nameServer.value)
  }

  lemma SubvertStepExactly(i: Interface)
    requires Eligible(Subverting, i)
    ensures CanPass(Subverting, i) <==> CanSubvert(i)
    ensures CanFail(Subverting, i) <==> !IsSubverted(i.nameServer.value)
    ensures CanPass(Subverting, i) ==> (StepRestored(Subverting, i, true) <==> i.backup.None?)
    ensures CanFail(Subverting, i) ==> (StepRestored(Subverting, i, false) <==> i.backup.None?)
  {
    hide IsSubverted, MakesNoSense;
    SubvertRestoredExactly(i);
    FatesBound(Subverting, i, Fate(true, true));
    FatesBound(Subverting, i, Fate(false, false));
    SubvertRollBackDrops(i, Fate(true, true), Fate(true, true));
    SubvertRollBackDrops(i, Fate(false, false), Fate(true, true));
  }

  /**
   Every refused `subvert` is harmless exactly when it finds no interfaces behind one gateway, or when
   it can fail neither at nor after an interface with a backup.
   */
  lemma SubvertAlwaysAtomic(registry: Registry, keys: seq<string>)
    requires Listing(registry, keys)
    ensures AllEligible(Subverting, registry, Select(Subverting, registry, keys))
    ensures var names := Select(Subverting, registry, keys);
            AlwaysAtomic(Subverting, registry, keys) <==>
              (Found(Subverting, registry, names, true) ==>
                 !exists i, j :: 0 <= i <= j < |names|
                   && registry[names[i]].backup.Some?
                   && !IsSubverted(registry[names[j]].nameServer.value)
                   && forall k :: 0 <= k < j ==> CanSubvert(registry[names[k]]))
  {
    hide Forward, Backward, Wanted, Gateways, Select, Call, Found, IsSubverted, CanSubvert, CanPass, CanFail,
         StepRestored, AlwaysAtomic;
    AtomicExactly(Subverting, registry, keys);
    var names := Select(Subverting, registry, keys);
    forall k | 0 <= k < |names|
      ensures var i := registry[names[k]];
              && (CanPass(Subverting, i) <==> CanSubvert(i))
              && (CanFail(Subverting, i) <==> !IsSubverted(i.nameServer.value))
              && (CanPass(Subverting, i) ==> (StepRestored(Subverting, i, true) <==> i.backup.None?))
              && (CanFail(Subverting, i) ==> (StepRestored(Subverting, i, false) <==> i.backup.None?))
    {
      SubvertStepExactly(registry[names[k]]);
    }
    forall j | 0 <= j < |names|
      ensures CanFailAt(Subverting, registry, names, j) <==>
                && !IsSubverted(registry[names[j]].nameServer.value)
                && forall k :: 0 <= k < j ==> CanSubvert(registry[names[k]])
    {
    }
    forall k, j | 0 <= k <= j < |names| && CanFailAt(Subverting, registry, names, j)
      ensures StepRestored(Subverting, registry[names[k]], k < j) <==> registry[names[k]].backup.None?
    {
      assert k < j ==> CanPass(Subverting, registry[names[k]]);
    }
  }

  /** What an interface must be for a failed `revert` step to be undone without a trace, whichever write failed. */
  predicate AnyFailureRestored(i: Interface)
    requires i.backup.Some?
  {
    i.nameServer.Some? ==>
      && IsSubverted(i.nameServer.value)
      && i.nameServer == if IsSubverted(i.backup.value) then i.backup else Some(LOCALHOST)
  }

  lemma RevertStepExactly(i: Interface)
    requires Eligible(Reverting, i)
    ensures CanPass(Reverting, i) && CanFail(Reverting, i)
    ensures StepRestored(Reverting, i, true) <==> Restorable(i)
    ensures StepRestored(Reverting, i, false) <==> AnyFailureRestored(i)
    ensures Restorable(i) ==> AnyFailureRestored(i)
  {
    hide IsSubverted, MakesNoSense;
    LocalhostIsSubverted();
    forall fate: Fate, undoFate: Fate
      ensures var r := Backward(Reverting, Forward(Reverting, i, fate).0, undoFate);
              r.1 ==> (r.0 == i <==> if Forward(Reverting, i, fate).1 then Restorable(i) else FailureRestored(i, fate))
    {
      RevertUndoneExactly(i, fate, undoFate);
    }
    var all := Fate(true, true);
    assert Backward(Reverting, Forward(Reverting, i, all).0, all).1;
    assert Backward(Reverting, Forward(Reverting, i, Fate(false, false)).0, all).1;
    assert Backward(Reverting, Forward(Reverting, i, Fate(true, false)).0, all).1;
  }

  /**
   Every refused `revert` is harmless exactly when all interfaces but the last can be rolled back,
   and the last one can if it is where the call fails.
   */
  lemma RevertAlwaysAtomic(registry: Registry, keys: seq<string>)
    requires Listing(registry, keys)
    ensures AllEligible(Reverting, registry, Select(Reverting, registry, keys))
    ensures var names := Select(Reverting, registry, keys);
            AlwaysAtomic(Reverting, registry, keys) <==>
              && (forall k :: 0 <= k < |names| - 1 ==> Restorable(registry[names[k]]))
              && (names != [] ==> AnyFailureRestored(registry[names[|names| - 1]]))
  {
    hide Forward, Backward, Wanted, Select, Call, IsSubverted, CanPass, CanFail, StepRestored, AlwaysAtomic,
         Restorable, AnyFailureRestored;
    AtomicExactly(Reverting, registry, keys);
    var names := Select(Reverting, registry, keys);
    forall k | 0 <= k < |names|
      ensures var i := registry[names[k]];
              && CanPass(Reverting, i) && CanFail(Reverting, i)
              && (StepRestored(Reverting, i, true) <==> Restorable(i))
              && (StepRestored(Reverting, i, false) <==> AnyFailureRestored(i))
              && (Restorable(i) ==> AnyFailureRestored(i))
    {
      RevertStepExactly(registry[names[k]]);
    }
    if names != [] {
      var last := |names| - 1;
      assert CanFailAt(Reverting, registry, names, last);
      if StepsRestored(Reverting, registry, names) {
        forall k | 0 <= k <= last ensures StepRestored(Reverting, registry[names[k]], k < last) {}
      }
    }
  }

  // When calls succeed, and what they leave, in any state

  lemma SucceedsExactly(registry: Registry, c: Attempt)
    requires Listing(registry, c.keys)
    ensures AllEligible(c.mode, registry, Select(c.mode, registry, c.keys))
    ensures var names := Select(c.mode, registry, c.keys);
            Call(registry, c).1 == Succeeded <==>
              && Found(c.mode, registry, names, c.accessible)
              && forall k :: 0 <= k < |names| ==> Forward(c.mode, registry[names[k]], c.fates(names[k])).1
  {
    hide Forward, Eligible, Wanted, Gateways, Select, Sweep, Undo, Found;
    SelectExact(c.mode, registry, c.keys);
    SweepEnds(c.mode, registry, Select(c.mode, registry, c.keys), c.fates);
  }

  /** A `subvert` succeeds exactly when its interfaces are found and each is subverted already or can be and is. */
  lemma SubvertSucceedsExactly(registry: Registry, c: Attempt)
    requires Listing(registry, c.keys) && c.mode == Subverting
    ensures AllEligible(Subverting, registry, Select(Subverting, registry, c.keys))
    ensures var names := Select(Subverting, registry, c.keys);
            Call(registry, c).1 == Succeeded <==>
              && Found(Subverting, registry, names, c.accessible)
              && forall k :: 0 <= k < |names| ==>
                   var ns := registry[names[k]].nameServer.value;
                   IsSubverted(ns) || (!MakesNoSense(ns) && c.fates(names[k]) == Fate(true, true))
  {
    hide Call, Wanted, Select, Found, IsSubverted, MakesNoSense;
    SucceedsExactly(registry, c);
  }

  /** A `revert` succeeds exactly when the interfaces can be listed and no write it needs fails. */
  lemma RevertSucceedsExactly(registry: Registry, c: Attempt)
    requires Listing(registry, c.keys) && c.mode == Reverting
    ensures AllEligible(Reverting, registry, Select(Reverting, registry, c.keys))
    ensures var names := Select(Reverting, registry, c.keys);
            Call(registry, c).1 == Succeeded <==>
              && c.accessible
              && forall k :: 0 <= k < |names| ==>
                   c.fates(names[k]).second && (registry[names[k]].nameServer.Some? ==> c.fates(names[k]).first)
  {
    hide Call, Wanted, Select;
    SucceedsExactly(registry, c);
  }

  /** A call that fails is refused, not a panic, if the writes of its roll-back work. */
  lemma PanicNeedsFailedUndo(registry: Registry, c: Attempt)
    requires Listing(registry, c.keys)
    requires forall n :: n in Visited(registry, c) ==> c.undoFates(n) == Fate(true, true)
    ensures Call(registry, c).1 != Panicked
  {
    hide Forward, Backward, Eligible, Wanted, Gateways, Select, Sweep, Undo, Found;
    SelectExact(c.mode, registry, c.keys);
    var names := Select(c.mode, registry, c.keys);
    if Found(c.mode, registry, names, c.accessible) {
      SweepPointwise(c.mode, registry, names, c.fates);
      var p := Sweep(c.mode, registry, names, c.fates);
      var visited := names[..p.visited];
      forall k | 0 <= k < |visited|
        ensures visited[k] in p.registry && Backward(c.mode, p.registry[visited[k]], c.undoFates(visited[k])).1
      {
        assert visited[k] == names[k] && names[k] in visited;
        FatesBound(c.mode, registry[names[k]], c.fates(names[k]));
      }
      UndoCompletes(c.mode, p.registry, visited, c.undoFates);
    }
  }

  lemma FirstFailure(mode: Mode, registry: Registry, names: seq<string>, fates: string -> Fate) returns (m: nat)
    requires Distinct(names) && forall i :: 0 <= i < |names| ==> names[i] in registry
    requires !Undo(mode, registry, names, fates).1
    ensures m < |names| && StopsAt(mode, registry, names, fates, m)
  {
    hide Backward, Undo;
    if forall i :: 0 <= i < |names| ==> Backward(mode, registry[names[i]], fates(names[i])).1 {
      UndoCompletes(mode, registry, names, fates);
    }
    m := 0;
    while Backward(mode, registry[names[m]], fates(names[m])).1
      invariant m < |names| && forall k :: 0 <= k < m ==> Backward(mode, registry[names[k]], fates(names[k])).1
      decreases |names| - m
    {
      m := m + 1;
    }
  }

  /**
   A call that panics, at the visited interface `m`: the interfaces before it are undone, it is left
   halfway, those after it are as the call itself left them, and others as they were.
   */
  lemma PanicPointwise(registry: Registry, c: Attempt) returns (m: nat)
    requires Listing(registry, c.keys) && Call(registry, c).1 == Panicked
    ensures Call(registry, c).0.Keys == registry.Keys && m < |Visited(registry, c)|
    ensures forall n :: n in Visited(registry, c) ==> n in registry && Eligible(c.mode, registry[n])
    ensures var v := Visited(registry, c);
            forall k :: 0 <= k < |v| ==>
              var left := Forward(c.mode, registry[v[k]], c.fates(v[k])).0;
              && (k <= m ==> (Call(registry, c).0[v[k]], k < m) == Backward(c.mode, left, c.undoFates(v[k])))
              && (k > m ==> Call(registry, c).0[v[k]] == left)
    ensures forall n :: n in registry && n !in Visited(registry, c) ==> Call(registry, c).0[n] == registry[n]
  {
    hide Forward, Backward, Wanted, Eligible, Gateways, Select, Sweep, Undo, Found;
    SelectExact(c.mode, registry, c.keys);
    var names := Select(c.mode, registry, c.keys);
    SweepPointwise(c.mode, registry, names, c.fates);
    var p := Sweep(c.mode, registry, names, c.fates);
    var v := names[..p.visited];
    DistinctPrefix(names, p.visited);
    m := FirstFailure(c.mode, p.registry, v, c.undoFates);
    UndoStops(c.mode, p.registry, v, c.undoFates, m);
    forall k | 0 <= k < |v| ensures v[k] in v && (v[k] in v[..m + 1] <==> k <= m) {
      if k <= m { assert v[..m + 1][k] == v[k]; }
    }
  }

  /** A step keeps the original servers whether it goes through or fails. */
  lemma ForwardKeeps(mode: Mode, i: Interface, fate: Fate)
    requires Eligible(mode, i) && SoundOne(i)
    ensures SameUserSettings(i, Forward(mode, i, fate).0)
  {
    hide IsSubverted, MakesNoSense;
    LocalhostIsSubverted();
  }

  lemma ForwardBackKeeps(mode: Mode, i: Interface, fate: Fate, undoFate: Fate)
    requires Eligible(mode, i) && SoundOne(i)
    ensures var r := Backward(mode, Forward(mode, i, fate).0, undoFate);
            SameUserSettings(i, r.0) <==> r.1 || mode.Reverting? || !undoFate.first
  {
    hide IsSubverted, MakesNoSense;
    LocalhostIsSubverted();
    if i.backup.Some? { SubvertedMakesNoSense(i.backup.value); }
  }

  /**
   Even a call that panics keeps every interface's original servers if it is a `revert`.  A `subvert`
   does exactly when what failed is the deletion of a backup: once that is gone and the servers
   cannot be set back, they are lost.
   */
  lemma PanicKeepsOriginals(registry: Registry, c: Attempt) returns (name: string)
    requires Listing(registry, c.keys) && Sound(registry) && Call(registry, c).1 == Panicked
    ensures name in Visited(registry, c) && c.undoFates(name) != Fate(true, true)
    ensures SameOriginals(registry, Call(registry, c).0) <==> c.mode == Reverting || !c.undoFates(name).first
  {
    hide Call, Visited, Forward, Backward, Eligible, SameUserSettings, SoundOne;
    var m := PanicPointwise(registry, c);
    var v, after := Visited(registry, c), Call(registry, c).0;
    name := v[m];
    FatesBound(c.mode, registry[name], c.fates(name));
    forall k | 0 <= k < |v|
      ensures SameUserSettings(registry[v[k]], after[v[k]]) <==>
                k != m || c.mode == Reverting || !c.undoFates(name).first
    {
      ForwardKeeps(c.mode, registry[v[k]], c.fates(v[k]));
      ForwardBackKeeps(c.mode, registry[v[k]], c.fates(v[k]), c.undoFates(v[k]));
    }
    forall n | n in registry && n != name ensures SameUserSettings(registry[n], after[n]) {
      if n in v {
        var k :| 0 <= k < |v| && v[k] == n;
      } else {
        SettingsReflexive(registry[n]);
      }
    }
    assert SameUserSettings(registry[name], after[name]) <==> c.mode == Reverting || !c.undoFates(name).first;
  }

  lemma SettingsReflexive(i: Interface)
    ensures SameUserSettings(i, i)
  {
  }

  /** An instance: the servers of an earlier subversion are lost when setting them back fails. */
  lemma PanickedSubvertLosesServers()
    ensures var registry := map["a" := EARLIER_SUBVERTED, "b" := NOT_SUBVERTED];
            var c := Attempt(Subverting, ["a", "b"], true, _ => Fate(false, false), _ => Fate(true, false));
            && Listing(registry, c.keys)
            && Call(registry, c) == (registry["a" := EARLIER_SUBVERTED.(backup := None)], Panicked)
  {
    hide SubvertOne, RollBackSubvertOne, Select, Found;
    var registry := map["a" := EARLIER_SUBVERTED, "b" := NOT_SUBVERTED];
    var c := Attempt(Subverting, ["a", "b"], true, _ => Fate(false, false), _ => Fate(true, false));
    ExampleSelection(registry);
    ExampleSteps(registry, Fate(false, false), Fate(true, true));
    var names := ["a", "b"];
    assert names[1..] == ["b"] && names[..2] == names;
    SweepStep(Subverting, registry, names, c.fates);
    assert registry["a" := EARLIER_SUBVERTED] == registry;
    SweepStep(Subverting, registry, ["b"], c.fates);
    assert registry["b" := NOT_SUBVERTED] == registry;
    assert Undo(Subverting, registry, names, c.undoFates)
           == (registry["a" := EARLIER_SUBVERTED.(backup := None)], false);
  }

  /**
   A successful `subvert` backs up the servers of every interface it is about and points it at this
   machine, unless it is subverted already, and touches no other.
   */
  lemma SubvertSubverts(registry: Registry, c: Attempt)
    requires Listing(registry, c.keys) && c.mode == Subverting && Call(registry, c).1 == Succeeded
    ensures Call(registry, c).0.Keys == registry.Keys
    ensures forall n :: n in registry ==>
              var i, after := registry[n], Call(registry, c).0[n];
              if n in c.keys && Wanted(Subverting, i)
              then
                && after.nameServer.Some? && IsSubverted(after.nameServer.value)
                && after == if IsSubverted(i.nameServer.value) then i
                            else i.(backup := i.nameServer, nameServer := Some(LOCALHOST))
              else after == i
  {
    hide Call, Visited, Backward, IsSubverted, MakesNoSense;
    CallPointwise(registry, c);
    LocalhostIsSubverted();
  }

  /**
   A successful `revert` gives every listed interface with a backup the servers backed up, but none
   where there were none, deletes the backup, and touches no other.
   */
  lemma RevertReverts(registry: Registry, c: Attempt)
    requires Listing(registry, c.keys) && c.mode == Reverting && Call(registry, c).1 == Succeeded
    ensures Call(registry, c).0.Keys == registry.Keys
    ensures forall n :: n in registry ==>
              var i := registry[n];
              Call(registry, c).0[n]
              == if n in c.keys && i.backup.Some?
                 then i.(nameServer := if i.nameServer.Some? then i.backup else None, backup := None)
                 else i
  {
    hide Call, Visited, Backward;
    CallPointwise(registry, c);
  }

  /**
   A refused `subvert` leaves each interface it got to without a backup; the servers are the backed-up
   ones where it was subverted before, and otherwise those it had.
   */
  lemma RefusedSubvertExactly(registry: Registry, c: Attempt)
    requires Listing(registry, c.keys) && c.mode == Subverting && Call(registry, c).1 == Refused
    ensures Call(registry, c).0.Keys == registry.Keys
    ensures forall n :: n in registry ==>
              var i := registry[n];
              Call(registry, c).0[n]
              == if n in Visited(registry, c) && i.backup.Some?
                 then
                   if i.nameServer.Some? && IsSubverted(i.nameServer.value)
                   then i.(nameServer := i.backup, backup := None) else i.(backup := None)
                 else i
  {
    hide Call, Visited, IsSubverted, MakesNoSense;
    CallPointwise(registry, c);
    LocalhostIsSubverted();
  }

  /** What a refused `revert` leaves of an interface whose step went through (`passed`) or failed. */
  function LeftByRefusedRevert(i: Interface, passed: bool, fate: Fate): (j: Interface)
    requires i.backup.Some?
  {
    if i.nameServer.None? then if passed then i.(backup := None) else i
    else if !passed && !fate.first then
      if IsSubverted(i.nameServer.value) then i else i.(nameServer := Some(LOCALHOST), backup := i.nameServer)
    else if !IsSubverted(i.backup.value) then i.(nameServer := Some(LOCALHOST))
    else i.(nameServer := i.backup, backup := if passed then None else i.backup)
  }

  lemma RefusedRevertExactly(registry: Registry, c: Attempt)
    requires Listing(registry, c.keys) && c.mode == Reverting && Call(registry, c).1 == Refused
    ensures Call(registry, c).0.Keys == registry.Keys
    ensures forall n :: n in registry && n !in Visited(registry, c) ==> Call(registry, c).0[n] == registry[n]
    ensures var v := Visited(registry, c);
            forall k :: 0 <= k < |v| ==>
              && v[k] in registry && registry[v[k]].backup.Some?
              && Call(registry, c).0[v[k]] == LeftByRefusedRevert(registry[v[k]], k < |v| - 1, c.fates(v[k]))
  {
    hide Call, Visited, Forward, Backward, LeftByRefusedRevert;
    CallPointwise(registry, c);
    VisitedEnds(registry, c);
    var v := Visited(registry, c);
    forall k | 0 <= k < |v|
      ensures v[k] in registry && registry[v[k]].backup.Some?
      ensures Call(registry, c).0[v[k]] == LeftByRefusedRevert(registry[v[k]], k < |v| - 1, c.fates(v[k]))
    {
      assert v[k] in v;
      RevertStepUndone(registry[v[k]], c.fates(v[k]), c.undoFates(v[k]));
    }
  }

  lemma RevertStepUndone(i: Interface, fate: Fate, undoFate: Fate)
    requires Eligible(Reverting, i)
    ensures var r := Backward(Reverting, Forward(Reverting, i, fate).0, undoFate);
            r.1 ==> r.0 == LeftByRefusedRevert(i, Forward(Reverting, i, fate).1, fate)
  {
    hide IsSubverted, MakesNoSense;
  }

  /** A successful `revert` that lists every interface restores all original servers and removes all backups. */
  lemma RevertRestores(registry: Registry, c: Attempt)
    requires Listing(registry, c.keys) && Sound(registry) && c.mode == Reverting && Call(registry, c).1 == Succeeded
    requires forall n :: n in registry ==> n in c.keys
    ensures var after := Call(registry, c).0;
            && NoBackups(after) && SameOriginals(registry, after)
            && forall n :: n in registry ==> after[n].nameServer == registry[n].Original()
  {
    hide Call, Visited, Forward, Backward, SoundOne, Eligible;
    CallPointwise(registry, c);
    CallKeepsOriginals(registry, c);
    var after := Call(registry, c).0;
    forall n | n in registry ensures after[n].backup.None? {
      if Wanted(Reverting, registry[n]) { ForwardOne(c.mode, registry[n], c.fates(n)); }
    }
  }

  lemma SubvertRevertOne(i: Interface, fate: Fate, revertFate: Fate)
    requires i.backup.None?
    ensures Eligible(Subverting, i) && Forward(Subverting, i, fate).1 ==>
              var j := Forward(Subverting, i, fate).0;
              if j.backup.None? then j == i
              else
                && Eligible(Reverting, j)
                && (Forward(Reverting, j, revertFate).1 ==> Forward(Reverting, j, revertFate).0 == i)
  {
    hide IsSubverted, MakesNoSense;
  }

  /** Subverting and then reverting, both successfully, from a registry without backups, changes nothing. */
  lemma SubvertThenRevert(registry: Registry, c: Attempt, d: Attempt)
    requires Listing(registry, c.keys) && NoBackups(registry) && c.mode == Subverting && d.mode == Reverting
    requires Call(registry, c).1 == Succeeded && Listing(Call(registry, c).0, d.keys)
    requires forall n :: n in registry ==> n in d.keys
    requires Call(Call(registry, c).0, d).1 == Succeeded
    ensures Call(Call(registry, c).0, d).0 == registry
  {
    hide Call, Visited, Forward, Eligible;
    CallPointwise(registry, c);
    var middle := Call(registry, c).0;
    CallPointwise(middle, d);
    var after := Call(middle, d).0;
    forall n | n in registry ensures after[n] == registry[n] {
      SubvertRevertOne(registry[n], c.fates(n), d.fates(n));
    }
  }

  // Whole runs

  /** Calls one after another, each listing interfaces the registry has; a panic ends the run. */
  function Run(registry: Registry, calls: seq<Attempt>): (r: (Registry, bool))
    decreases |calls|
  {
    if calls == [] then (registry, true)
    else if !Listing(registry, calls[0].keys) then (registry, false)
    else
      var (next, outcome) := Call(registry, calls[0]);
      if outcome == Panicked then (next, false) else Run(next, calls[1..])
  }

  /** A run is one call after another: it can be cut anywhere, and one call is what `Call` says. */
  lemma {:induction false} RunInParts(registry: Registry, calls: seq<Attempt>, c: Attempt)
    ensures Run(registry, []) == (registry, true)
    ensures var (middle, alive) := Run(registry, calls);
            var (after, still) := Run(registry, calls + [c]);
            && (still <==> alive && Listing(middle, c.keys) && Call(middle, c).1 != Panicked)
            && (alive && Listing(middle, c.keys) ==> after == Call(middle, c).0)
            && (!alive ==> after == middle)
    decreases |calls|
  {
    hide Call, Listing;
    var all := calls + [c];
    if calls == [] {
      assert all[0] == c && all[1..] == [];
    } else {
      assert all[0] == calls[0] && all[1..] == calls[1..] + [c];
      if Listing(registry, calls[0].keys) { RunInParts(Call(registry, calls[0]).0, calls[1..], c); }
    }
  }

  /** No run panics whose calls list interfaces there are and whose roll-backs can write. */
  lemma {:induction false} RunSurvives(registry: Registry, calls: seq<Attempt>)
    requires forall i :: 0 <= i < |calls| ==> Listing(registry, calls[i].keys)
    requires forall i, n :: 0 <= i < |calls| ==> calls[i].undoFates(n) == Fate(true, true)
    ensures Run(registry, calls).1 && Run(registry, calls).0.Keys == registry.Keys
    decreases |calls|
  {
    hide Call, Visited;
    if calls != [] {
      PanicNeedsFailedUndo(registry, calls[0]);
      CallPointwise(registry, calls[0]);
      var next := Call(registry, calls[0]).0;
      forall i | 0 <= i < |calls[1..]| ensures Listing(next, calls[1..][i].keys) {
        assert Listing(registry, calls[i + 1].keys);
        assert forall n :: n in registry.Keys <==> n in next.Keys;
      }
      RunSurvives(next, calls[1..]);
    }
  }

  /** Over every run without a panic the invariant holds and no interface's original servers change. */
  lemma {:induction false} RunKeepsOriginals(registry: Registry, calls: seq<Attempt>)
    requires Sound(registry)
    ensures var (after, alive) := Run(registry, calls);
            alive ==> Sound(after) && SameOriginals(registry, after)
    decreases |calls|
  {
    hide Call, Sound;
    if calls != [] && Listing(registry, calls[0].keys) {
      CallKeepsOriginals(registry, calls[0]);
      var (next, outcome) := Call(registry, calls[0]);
      if outcome != Panicked { RunKeepsOriginals(next, calls[1..]); }
    }
  }

  /**
   Whatever calls were made and whatever failed, as long as nothing panicked: a successful
   `revert` that lists every interface gives back the registry the run started from.
   */
  lemma RunThenRevert(registry: Registry, calls: seq<Attempt>, d: Attempt)
    requires NoBackups(registry) && Run(registry, calls).1
    requires d.mode == Reverting && Listing(Run(registry, calls).0, d.keys)
    requires forall n :: n in registry ==> n in d.keys
    requires Call(Run(registry, calls).0, d).1 == Succeeded
    ensures Call(Run(registry, calls).0, d).0 == registry
  {
    hide Call, Run;
    RunKeepsOriginals(registry, calls);
    var middle := Run(registry, calls).0;
    RevertRestores(middle, d);
    var after := Call(middle, d).0;
    forall n | n in registry ensures after[n] == registry[n] {
      assert SameUserSettings(registry[n], middle[n]) && SameUserSettings(middle[n], after[n]);
    }
  }
}
