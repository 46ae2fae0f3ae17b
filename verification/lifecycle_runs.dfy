/**
 * What holds in every run of the volume life cycle: no leaked device, no mixed-up
 * create and delete, stable replies, a recovery that can be interrupted and repeated.
 */
module VolumeRuns {
  import opened Outcomes
  import opened VolumeLifecycle

  // ------------------------------------------------------------- whole runs

  lemma {:induction false} RunKeepsInv(gen: string -> string, s: Node, steps: seq<Step>, t: Node)
    requires Injective(gen) && Inv(gen, s) && Run(gen, s, steps) == Some(t)
    ensures Inv(gen, t)
  {
    if steps != [] {
      var before := Run(gen, s, steps[..|steps| - 1]).value;
      RunKeepsInv(gen, s, steps[..|steps| - 1], before);
      StepKeepsInv(gen, before, steps[|steps| - 1], t);
    }
  }

  /** A node on which the driver never ran. */
  function NewNode(mode: Mode): Node
  {
    Node(map[], map[], map[], map[], Down, mode, map[], {})
  }

  /**
   * No run leaks a device: whatever calls overlapped, failed or were cut off by a crash,
   * each device has a persisted entry that survives a power loss, names its mode and does
   * not claim more than its size. No volume ever has two devices.
   */
  lemma NoRunLeaksADevice(gen: string -> string, mode: Mode, steps: seq<Step>, t: Node)
    requires Injective(gen) && Run(gen, NewNode(mode), steps) == Some(t)
    ensures forall k :: k in t.devices ==>
      && k.id in t.visible && t.visible[k.id].mode == k.mode && t.visible[k.id].size <= t.devices[k]
      && k.id in t.durable && t.durable[k.id].mode == k.mode && t.durable[k.id].size <= t.devices[k]
    ensures forall j, k :: j in t.devices && k in t.devices && j.id == k.id ==> j == k
  {
    RunKeepsInv(gen, NewNode(mode), steps, t);
  }

  /**
   * In no run do a create call past its lookups and a delete call past its lookup work on
   * the same volume, although the one locks the name and the other one the ID. What keeps
   * them apart is the volume list: the create call runs while the ID is not in it, the
   * delete call while it is.
   */
  lemma NoRunMixesCreateAndDelete(gen: string -> string, mode: Mode, steps: seq<Step>, t: Node, c: nat, d: nat)
    requires Injective(gen) && Run(gen, NewNode(mode), steps) == Some(t)
    requires c in t.calls && CreateActive(t.calls[c]) && !t.calls[c].cpc.CreateLocked?
    requires d in t.calls && DeleteActive(t.calls[d]) && !t.calls[d].dpc.DeleteLocked?
    ensures gen(t.calls[c].name) != t.calls[d].id
    ensures gen(t.calls[c].name) !in t.memory && t.calls[d].id in t.memory
  {
    RunKeepsInv(gen, NewNode(mode), steps, t);
    assert CallOk(gen, t, t.calls[c]) && CallOk(gen, t, t.calls[d]);
  }

  /** Every successful reply, first or repeated, before or after crashes, names the same volume and is large enough. */
  lemma RepliesAreStable(gen: string -> string, mode: Mode, steps: seq<Step>, t: Node, c: nat)
    requires Injective(gen) && Run(gen, NewNode(mode), steps) == Some(t)
    requires c in t.calls && t.calls[c].Create? && t.calls[c].cpc.Replied? && t.calls[c].cpc.reply.Ok?
    ensures t.calls[c].cpc.reply.id == gen(t.calls[c].name)
    ensures t.calls[c].asked <= t.calls[c].cpc.reply.size
  {
    RunKeepsInv(gen, NewNode(mode), steps, t);
    assert CallOk(gen, t, t.calls[c]);
  }

  // ----------------------------------------------------- restart and retry

  ghost function CleanupSteps(hows: seq<Outcome>): (r: seq<Step>)
    ensures |r| == |hows|
  {
    seq(|hows|, i requires 0 <= i < |hows| => Machine(Cleanup(hows[i])))
  }

  /**
   * Recovery lists exactly the entries whose device exists. Its cleanup touches no device
   * and removes only entries without one, so the entries found on a later attempt are the same
   * no matter where, and after which failures, this attempt was interrupted.
   */
  lemma {:induction false} CleanupKeepsBackedEntries(
      gen: string -> string, s: Node, newMode: Mode, todo: seq<string>, hows: seq<Outcome>, t: Node)
    requires Run(gen, s, [Machine(Recover(newMode, todo))] + CleanupSteps(hows)) == Some(t)
    ensures s.phase.Down? && ListsOrphans(todo, s.visible, s.devices)
    ensures |hows| <= |todo| && t.phase == Recovering(todo[|hows|..])
    ensures t.devices == s.devices && t.memory == Backed(s.visible, s.devices)
    ensures t.calls == s.calls && t.temps == s.temps
    ensures Backed(t.visible, t.devices) == Backed(s.visible, s.devices)
    ensures forall id :: id in t.visible ==> id in s.visible && t.visible[id] == s.visible[id]
    ensures forall id :: id in s.visible && id !in t.visible ==> id in todo[..|hows|]
    ensures (forall i :: 0 <= i < |hows| ==> !hows[i].FailedEarly?) ==>
              forall id :: id in todo[..|hows|] ==> id !in t.visible
  {
    var first := Machine(Recover(newMode, todo));
    var steps := [first] + CleanupSteps(hows);
    if hows == [] {
      assert steps == [first] && steps[..0] == [];
      assert Run(gen, s, []) == Some(s);
    } else {
      var n := |hows| - 1;
      assert steps[..|steps| - 1] == [first] + CleanupSteps(hows[..n]);
      var u := Run(gen, s, [first] + CleanupSteps(hows[..n])).value;
      CleanupKeepsBackedEntries(gen, s, newMode, todo, hows[..n], u);
      assert steps[|steps| - 1] == Machine(Cleanup(hows[n]));
      CleanupStepExact(gen, s, u, todo, n, hows[n], t);
      assert todo[..|hows|] == todo[..n] + [todo[n]];
    }
  }

  lemma CleanupStepExact(gen: string -> string, s: Node, u: Node, todo: seq<string>, n: nat, how: Outcome, t: Node)
    requires ListsOrphans(todo, s.visible, s.devices) && n <= |todo|
    requires u.phase == Recovering(todo[n..]) && u.devices == s.devices
    requires forall id :: id in u.visible ==> id in s.visible && u.visible[id] == s.visible[id]
    requires ApplyMachine(gen, u, Cleanup(how)) == Some(t)
    ensures n < |todo| && t.phase == Recovering(todo[n + 1..]) && t.devices == u.devices && t.memory == u.memory
            && t.calls == u.calls && t.temps == u.temps
    ensures Backed(t.visible, t.devices) == Backed(u.visible, u.devices)
    ensures t.visible == if how.FailedEarly? then u.visible else u.visible - {todo[n]}
  {
    assert todo[n..][0] == todo[n] && todo[n..][1..] == todo[n + 1..];
    assert IsOrphan(s.visible, s.devices, todo[n]);
  }

  /** Interrupting recovery anywhere in its cleanup and starting over lists the same volumes. */
  lemma InterruptedRecoveryIsRepeatable(
      gen: string -> string, s: Node, mode1: Mode, todo1: seq<string>, hows: seq<Outcome>, t: Node,
      mode2: Mode, todo2: seq<string>, u: Node)
    requires Run(gen, s, [Machine(Recover(mode1, todo1))] + CleanupSteps(hows)) == Some(t)
    requires Run(gen, t, [Machine(Crash({})), Machine(Recover(mode2, todo2))]) == Some(u)
    ensures u.memory == t.memory == Backed(s.visible, s.devices)
    ensures u.devices == s.devices
    ensures forall id :: id in todo2 ==> id in todo1
  {
    CleanupKeepsBackedEntries(gen, s, mode1, todo1, hows, t);
    var steps := [Machine(Crash({})), Machine(Recover(mode2, todo2))];
    assert steps[..1] == [Machine(Crash({}))] && steps[..1][..0] == [];
    assert Run(gen, t, []) == Some(t);
    assert Run(gen, t, steps[..1]) == Apply(gen, t, Machine(Crash({})));
    forall id | id in todo2 ensures id in todo1 {
      assert IsOrphan(t.visible, t.devices, id);
      assert IsOrphan(s.visible, s.devices, id);
    }
  }

  lemma {:induction false} RunAppend(gen: string -> string, s: Node, first: seq<Step>, second: seq<Step>, u: Node)
    requires Run(gen, s, first + second) == Some(u)
    ensures Run(gen, s, first).Some? && Run(gen, Run(gen, s, first).value, second) == Some(u)
  {
    var all := first + second;
    if second == [] {
      assert all == first;
    } else {
      assert all[..|all| - 1] == first + second[..|second| - 1];
      var before := Run(gen, s, all[..|all| - 1]).value;
      RunAppend(gen, s, first, second[..|second| - 1], before);
    }
  }

  lemma {:induction false} RunConcat(gen: string -> string, s: Node, first: seq<Step>, t: Node, second: seq<Step>,
        u: Node)
    requires Run(gen, s, first) == Some(t) && Run(gen, t, second) == Some(u)
    ensures Run(gen, s, first + second) == Some(u)
  {
    var all := first + second;
    if second == [] {
      assert all == first;
    } else {
      assert all[..|all| - 1] == first + second[..|second| - 1];
      var before := Run(gen, t, second[..|second| - 1]).value;
      RunConcat(gen, s, first, t, second[..|second| - 1], before);
    }
  }

  /** A CreateVolume call in which nothing fails except for a write that a leftover temporary file blocks. */
  ghost function SmoothCreate(gen: string -> string, s: Node, c: nat, name: string, asked: nat, actual: nat): seq<Step>
  {
    if gen(name) in s.memory then [BeginCreate(c, name, asked), InCreate(c, LookupName(Some(gen(name))))]
    else if gen(name) in s.temps then SmoothEntry(c, name, asked)
    else SmoothEntry(c, name, asked) + SmoothDevice(c, actual)
  }

  ghost function SmoothEntry(c: nat, name: string, asked: nat): seq<Step>
  {
    SmoothLookup(c, name, asked) + [InCreate(c, Persist(Done))]
  }

  ghost function SmoothDevice(c: nat, actual: nat): seq<Step>
  {
    [InCreate(c, MakeDevice(Some(actual))), InCreate(c, StoreSize(Done)), InCreate(c, AddToMemory)]
  }

  /** A run given by the states it passes through. */
  ghost predicate Path(gen: string -> string, states: seq<Node>, steps: seq<Step>)
  {
    && |states| == |steps| + 1
    && forall i :: 0 <= i < |steps| ==> Apply(gen, states[i], steps[i]) == Some(states[i + 1])
  }

  lemma {:induction false} PathIsRun(gen: string -> string, states: seq<Node>, steps: seq<Step>)
    requires Path(gen, states, steps)
    ensures Run(gen, states[0], steps) == Some(states[|steps|])
  {
    if steps != [] {
      var n := |steps| - 1;
      PathIsRun(gen, states[..n + 1], steps[..n]);
      assert Apply(gen, states[n], steps[n]) == Some(states[n + 1]);
    }
  }

  lemma TwoSteps(gen: string -> string, s: Node, first: Step, t: Node, second: Step, u: Node)
    requires Apply(gen, s, first) == Some(t) && Apply(gen, t, second) == Some(u)
    ensures Run(gen, s, [first, second]) == Some(u)
  {
    PathIsRun(gen, [s, t, u], [first, second]);
  }

  ghost function SmoothLookup(c: nat, name: string, asked: nat): seq<Step>
  {
    [BeginCreate(c, name, asked), InCreate(c, LookupName(None)), InCreate(c, LookupId)]
  }

  lemma SmoothLookupRuns(gen: string -> string, s: Node, c: nat, name: string, asked: nat) returns (t: Node)
    requires s.phase.Serving? && c !in s.calls && !NameLocked(s, name) && gen(name) !in s.memory
    requires forall i :: i in s.memory ==> s.memory[i].name != name
    ensures Run(gen, s, SmoothLookup(c, name, asked)) == Some(t)
    ensures t == s.(calls := t.calls) && t.calls == s.calls[c := Create(name, asked, IdFree)]
  {
    var t1 := WithCall(s, c, Create(name, asked, CreateLocked));
    var t2 := CreateTo(t1, c, NameFree);
    t := DoLookupId(gen, t2, c);
    assert Apply(gen, t1, InCreate(c, LookupName(None))) == Some(t2);
    PathIsRun(gen, [s, t1, t2, t], SmoothLookup(c, name, asked));
  }

  lemma SmoothEntryRuns(gen: string -> string, s: Node, c: nat, name: string, asked: nat) returns (t: Node)
    requires s.phase.Serving? && c !in s.calls && !NameLocked(s, name) && gen(name) !in s.memory
    requires forall i :: i in s.memory ==> s.memory[i].name != name
    ensures Run(gen, s, SmoothEntry(c, name, asked)) == Some(t)
    ensures t.phase.Serving? && t.mode == s.mode && t.devices == s.devices && t.memory == s.memory && t.temps == s.temps
    ensures t.calls == s.calls[c := Create(name, asked, if gen(name) in s.temps then Replied(Failed) else EntryStored)]
  {
    var u := SmoothLookupRuns(gen, s, c, name, asked);
    t := DoPersist(gen, u, c, Done);
    assert Apply(gen, u, InCreate(c, Persist(Done))) == Some(t);
    PathIsRun(gen, [u, t], [InCreate(c, Persist(Done))]);
    RunConcat(gen, s, SmoothLookup(c, name, asked), u, [InCreate(c, Persist(Done))], t);
  }

  lemma SmoothDeviceRuns(gen: string -> string, s: Node, c: nat, name: string, asked: nat,
        actual: nat) returns (t: Node)
    requires s.phase.Serving? && c in s.calls && s.calls[c] == Create(name, asked, EntryStored) && asked <= actual
    requires DeviceKey(s.mode, gen(name)) !in s.devices
    ensures Run(gen, s, SmoothDevice(c, actual)) == Some(t)
    ensures c in t.calls && t.calls[c] == Create(name, asked, Replied(Ok(gen(name), actual)))
    ensures t.devices == s.devices[DeviceKey(s.mode, gen(name)) := actual]
  {
    var t1 := DoMakeDevice(gen, s, c, Some(actual)).value;
    var t2 := DoStoreSize(gen, t1, c, Done);
    t := DoAddToMemory(gen, t2, c);
    PathIsRun(gen, [s, t1, t2, t], SmoothDevice(c, actual));
  }

  lemma SmoothCreateOfListed(gen: string -> string, s: Node, c: nat, name: string, asked: nat, actual: nat)
    returns (t: Node)
    requires s.phase.Serving? && s.calls == map[] && gen(name) in s.memory && s.memory[gen(name)].name == name
    ensures Run(gen, s, SmoothCreate(gen, s, c, name, asked, actual)) == Some(t)
    ensures t == WithCall(s, c, Create(name, asked, Replied(
              if asked <= s.memory[gen(name)].size then Ok(gen(name), s.memory[gen(name)].size) else Failed)))
  {
    var t1 := WithCall(s, c, Create(name, asked, CreateLocked));
    t := DoLookupName(t1, c, Some(gen(name))).value;
    assert Apply(gen, s, BeginCreate(c, name, asked)) == Some(t1);
    assert Apply(gen, t1, InCreate(c, LookupName(Some(gen(name))))) == Some(t);
    TwoSteps(gen, s, BeginCreate(c, name, asked), t1, InCreate(c, LookupName(Some(gen(name)))), t);
  }

  /**
   * On a node with no call in progress a CreateVolume call that meets no other failure succeeds if and only if the
   * volume of that name is listed and large enough, or it is not listed and no temporary file of its ID was left
   * behind. It replies with the one ID of that name, and a device exists that is at least as large as reported.
   */
  lemma SmoothCreateSucceeds(gen: string -> string, s: Node, c: nat, name: string, asked: nat, actual: nat)
    returns (t: Node)
    requires Injective(gen) && Inv(gen, s) && s.phase.Serving? && s.calls == map[] && asked <= actual
    ensures Run(gen, s, SmoothCreate(gen, s, c, name, asked, actual)) == Some(t)
    ensures c in t.calls && t.calls[c].Create? && t.calls[c].cpc.Replied?
    ensures t.calls[c].cpc.reply.Ok? <==>
            if gen(name) in s.memory then asked <= s.memory[gen(name)].size else gen(name) !in s.temps
    ensures t.calls[c].cpc.reply.Ok? ==> Delivered(t, t.calls[c].cpc.reply, gen(name), asked)
  {
    var id := gen(name);
    if id in s.memory {
      t := SmoothCreateOfListed(gen, s, c, name, asked, actual);
      var k := DeviceKey(s.memory[id].mode, id);
      assert k in t.devices && s.memory[id].size <= t.devices[k];
    } else {
      var half := SmoothEntryRuns(gen, s, c, name, asked);
      if id in s.temps {
        t := half;
      } else {
        t := SmoothDeviceRuns(gen, half, c, name, asked, actual);
        RunConcat(gen, s, SmoothEntry(c, name, asked), half, SmoothDevice(c, actual), t);
        var k := DeviceKey(s.mode, id);
        assert k in t.devices && actual <= t.devices[k];
      }
    }
  }

  /** The reply names this volume and covers the request, and a device covers the reply. */
  ghost predicate Delivered(t: Node, reply: Reply, id: string, asked: nat)
    requires reply.Ok?
  {
    reply.id == id && asked <= reply.size && exists k :: k in t.devices && k.id == id && reply.size <= t.devices[k]
  }

  /** What a crash or power loss leaves of a create call past its lookup by name: nothing, or an entry large enough. */
  lemma CrashLeavesEnough(gen: string -> string, s: Node, c: nat, how: MachineStep, t: Node)
    requires Injective(gen) && Inv(gen, s) && s.phase.Serving?
    requires c in s.calls && CreateActive(s.calls[c]) && !s.calls[c].cpc.CreateLocked?
    requires (how.Crash? || how.PowerLoss?) && ApplyMachine(gen, s, how) == Some(t)
    ensures t.phase.Down? && t.calls == map[]
    ensures var id := gen(s.calls[c].name);
            id in Backed(t.visible, t.devices) ==> s.calls[c].asked <= t.visible[id].size
  {
    var id := gen(s.calls[c].name);
    assert CallOk(gen, s, s.calls[c]);
    if s.calls[c].cpc.NameFree? {
      EngagedWithoutDevice(gen, s, c);
    }
    if how.PowerLoss? {
      assert SameAt(how.left, s.visible, id) || SameAt(how.left, s.durable, id);
    }
  }

  lemma RestartLists(gen: string -> string, s: Node, newMode: Mode, todo: seq<string>, hows: seq<Outcome>, u: Node)
    requires Run(gen, s, [Machine(Recover(newMode, todo))] + CleanupSteps(hows) + [Machine(Serve)]) == Some(u)
    ensures u.memory == Backed(s.visible, s.devices) && u.phase.Serving? && u.calls == s.calls && u.temps == s.temps
  {
    var up := [Machine(Recover(newMode, todo))] + CleanupSteps(hows);
    var steps := up + [Machine(Serve)];
    assert steps[..|steps| - 1] == up;
    CleanupKeepsBackedEntries(gen, s, newMode, todo, hows, Run(gen, s, up).value);
  }

  /**
   * A CreateVolume call is cut off anywhere after its lookup by name, the driver restarts (possibly in another mode,
   * its cleanup failing at will) and the caller repeats the request. The retry succeeds if and only if the volume is
   * backed by a device after the restart or no temporary file of its ID was left behind. It then replies with the
   * same ID, reports enough, and has a device of at least the reported size.
   */
  lemma RetryAfterCrash(gen: string -> string, mode: Mode, steps: seq<Step>, s: Node, c: nat, how: MachineStep,
      newMode: Mode, todo: seq<string>, hows: seq<Outcome>, u: Node, d: nat, actual: nat) returns (t: Node)
    requires Injective(gen) && Run(gen, NewNode(mode), steps) == Some(s) && s.phase.Serving?
    requires c in s.calls && CreateActive(s.calls[c]) && !s.calls[c].cpc.CreateLocked? && s.calls[c].asked <= actual
    requires how.Crash? || how.PowerLoss?
    requires var restart := [Machine(Recover(newMode, todo))] + CleanupSteps(hows) + [Machine(Serve)];
             Run(gen, s, [Machine(how)] + restart) == Some(u)
    ensures u.temps == if how.Crash? then s.temps + how.cut else how.litter
    ensures u.memory == Backed(if how.Crash? then s.visible else how.left, s.devices)
    ensures var name, asked := s.calls[c].name, s.calls[c].asked;
            && Run(gen, u, SmoothCreate(gen, u, d, name, asked, actual)) == Some(t)
            && d in t.calls && t.calls[d].Create? && t.calls[d].cpc.Replied?
            && (t.calls[d].cpc.reply.Ok? <==> gen(name) in u.memory || gen(name) !in u.temps)
            && (t.calls[d].cpc.reply.Ok? ==> Delivered(t, t.calls[d].cpc.reply, gen(name), asked))
  {
    var restart := [Machine(Recover(newMode, todo))] + CleanupSteps(hows) + [Machine(Serve)];
    RunKeepsInv(gen, NewNode(mode), steps, s);
    RunKeepsInv(gen, s, [Machine(how)] + restart, u);
    RunAppend(gen, s, [Machine(how)], restart, u);
    var down := Run(gen, s, [Machine(how)]).value;
    assert [Machine(how)][..0] == [] && Run(gen, s, []) == Some(s);
    CrashLeavesEnough(gen, s, c, how, down);
    RestartLists(gen, down, newMode, todo, hows, u);
    t := SmoothCreateSucceeds(gen, u, d, s.calls[c].name, s.calls[c].asked, actual);
  }

  // ------------------------------------------------- leftover temporary files

  ghost function CrashWhileWriting(id: string, name: string, asked: nat, mode: Mode): seq<Step>
  {
    SmoothLookup(0, name, asked) + [Machine(Crash({id})), Machine(Recover(mode, [])), Machine(Serve)]
  }

  /** A crash in the middle of writing the entry of any new volume leaves a node on which the same request fails. */
  lemma CrashWhileWritingBlocks(gen: string -> string, mode: Mode, name: string, asked: nat, actual: nat)
    returns (u: Node, t: Node)
    requires asked <= actual
    ensures Run(gen, NewNode(mode).(phase := Serving), CrashWhileWriting(gen(name), name, asked, mode)) == Some(u)
    ensures u == NewNode(mode).(phase := Serving, temps := {gen(name)})
    ensures Run(gen, u, SmoothCreate(gen, u, 0, name, asked, actual)) == Some(t)
    ensures 0 in t.calls && t.calls[0] == Create(name, asked, Replied(Failed))
  {
    var s := NewNode(mode).(phase := Serving);
    var s1 := SmoothLookupRuns(gen, s, 0, name, asked);
    var s2 := NewNode(mode).(temps := {gen(name)});
    u := s2.(phase := Serving);
    assert Writing(gen, s1, gen(name)) by { assert 0 in s1.calls && s1.calls[0] == Create(name, asked, IdFree); }
    assert s1.temps + {gen(name)} == {gen(name)};
    var rest := [Machine(Crash({gen(name)})), Machine(Recover(mode, [])), Machine(Serve)];
    PathIsRun(gen, [s1, s2, s2.(phase := Recovering([])), u], rest);
    RunConcat(gen, s, SmoothLookup(0, name, asked), s1, rest, u);
    t := SmoothEntryRuns(gen, u, 0, name, asked);
  }

  /** The entry cannot be written, there is no volume and no call has got further than writing it. */
  ghost predicate Blocked(gen: string -> string, s: Node, id: string)
  {
    && id in s.temps && id !in s.memory && NoDevice(s.devices, id)
    && forall c :: c in s.calls && s.calls[c].Create? && gen(s.calls[c].name) == id ==> Early(s.calls[c].cpc)
  }

  predicate Early(pc: CreatePc)
  {
    pc.CreateLocked? || pc.NameFree? || pc.IdFree? || pc == Replied(Failed)
  }

  lemma CreateKeepsTemps(gen: string -> string, s: Node, c: nat, cs: CreateStep, t: Node)
    requires ApplyCreate(gen, s, c, cs) == Some(t)
    ensures s.temps <= t.temps
  {
  }

  lemma LookupsKeepBlocked(gen: string -> string, s: Node, c: nat, cs: CreateStep, t: Node, id: string)
    requires Blocked(gen, s, id) && Named(gen, s.memory) && ApplyCreate(gen, s, c, cs) == Some(t)
    requires cs.LookupName? || cs.LookupId?
    ensures Blocked(gen, t, id)
  {
    assert t.calls == s.calls[c := t.calls[c]];
  }

  lemma WritingKeepsBlocked(gen: string -> string, s: Node, c: nat, how: Outcome, id: string)
    requires Blocked(gen, s, id) && CreateIs(s, c) && s.calls[c].cpc.IdFree? && gen(s.calls[c].name) == id
    ensures Blocked(gen, DoPersist(gen, s, c, how), id)
  {
    var t := DoPersist(gen, s, c, how);
    assert t.calls == s.calls[c := t.calls[c]];
  }

  lemma AwayKeepsBlocked(gen: string -> string, s: Node, t: Node, c: nat, other: string, id: string)
    requires Blocked(gen, s, id) && StaysLocal(gen, s, t, c, other) && other != id && s.temps <= t.temps
    ensures Blocked(gen, t, id)
  {
    assert SameAt(t.memory, s.memory, id);
  }

  lemma BlockedCreateStep(gen: string -> string, s: Node, c: nat, cs: CreateStep, t: Node, id: string)
    requires Injective(gen) && Inv(gen, s) && Blocked(gen, s, id) && ApplyCreate(gen, s, c, cs) == Some(t)
    ensures Blocked(gen, t, id)
  {
    var other := gen(s.calls[c].name);
    if cs.LookupName? || cs.LookupId? {
      LookupsKeepBlocked(gen, s, c, cs, t, id);
    } else if other == id {
      WritingKeepsBlocked(gen, s, c, cs.how, id);
    } else {
      EngagedIsLocal(gen, s, c, other);
      EngagedCreateStep(gen, s, c, cs, t);
      CreateKeepsTemps(gen, s, c, cs, t);
      AwayKeepsBlocked(gen, s, t, c, other, id);
    }
  }

  lemma BlockedDeleteStep(gen: string -> string, s: Node, c: nat, ds: DeleteStep, t: Node, id: string)
    requires Blocked(gen, s, id) && ApplyDelete(s, c, ds) == Some(t)
    ensures Blocked(gen, t, id)
  {
    match ds
    case FindVolume => assert t.calls == s.calls[c := t.calls[c]];
    case RemoveDevice(ok) => assert t.calls == s.calls[c := t.calls[c]];
    case RemoveEntry(how) => assert t == DoRemoveEntry(s, c, how) && t.calls == s.calls[c := t.calls[c]];
    case Forget => assert t.calls == s.calls[c := t.calls[c]];
  }

  lemma BlockedMachineStep(gen: string -> string, s: Node, ms: MachineStep, t: Node, id: string)
    requires Blocked(gen, s, id) && ApplyMachine(gen, s, ms) == Some(t) && !ms.PowerLoss?
    ensures Blocked(gen, t, id)
  {
  }

  lemma BlockedStep(gen: string -> string, s: Node, step: Step, t: Node, id: string)
    requires Injective(gen) && Inv(gen, s) && Blocked(gen, s, id) && Apply(gen, s, step) == Some(t)
    requires !(step.Machine? && step.ms.PowerLoss?)
    ensures Blocked(gen, t, id)
  {
    match step
    case InCreate(c, cs) => BlockedCreateStep(gen, s, c, cs, t, id);
    case InDelete(c, ds) => BlockedDeleteStep(gen, s, c, ds, t, id);
    case Machine(ms) => BlockedMachineStep(gen, s, ms, t, id);
    case _ =>
  }

  /**
   * A temporary file that was left behind makes every later attempt fail: until a power loss happens to undo it, no
   * run of any length, with any number of restarts, ever creates that volume.
   */
  lemma {:induction false} LeftoverBlocksForever(gen: string -> string, s: Node, steps: seq<Step>, t: Node, id: string)
    requires Injective(gen) && Inv(gen, s) && Blocked(gen, s, id) && Run(gen, s, steps) == Some(t)
    requires forall i :: 0 <= i < |steps| ==> !(steps[i].Machine? && steps[i].ms.PowerLoss?)
    ensures Blocked(gen, t, id)
  {
    if steps != [] {
      var n := |steps| - 1;
      var u := Run(gen, s, steps[..n]).value;
      LeftoverBlocksForever(gen, s, steps[..n], u, id);
      RunKeepsInv(gen, s, steps[..n], u);
      BlockedStep(gen, u, steps[n], t, id);
    }
  }

  // --------------------------------------------------- what does not hold

  /**
   * A successful reply for a volume that is already listed promises a device exactly when no delete
   * call on it is between removing the device and forgetting the volume.
   */
  lemma ListedReplyIsBackedUnlessDeleting(gen: string -> string, mode: Mode, steps: seq<Step>, s: Node, c: nat,
        i: string, t: Node)
    requires Injective(gen) && Run(gen, NewNode(mode), steps) == Some(s)
    requires Apply(gen, s, InCreate(c, LookupName(Some(i)))) == Some(t) && t.calls[c].cpc.reply.Ok?
    ensures (exists k :: k in t.devices && k.id == i) <==> !(exists d :: d in t.calls && Unmaking(t.calls[d], i))
  {
    RunKeepsInv(gen, NewNode(mode), steps, s);
    StepKeepsInv(gen, s, InCreate(c, LookupName(Some(i))), t);
    ListedIsBackedUnlessDeleting(gen, t, i);
  }

  lemma ListedIsBackedUnlessDeleting(gen: string -> string, t: Node, i: string)
    requires CallsOk(gen, t) && MemoryBacked(t) && i in t.memory
    ensures (exists k :: k in t.devices && k.id == i) <==> !(exists d :: d in t.calls && Unmaking(t.calls[d], i))
  {
  }

  ghost function RetryDuringDelete(name: string, id: string, c: nat, d: nat): seq<Step>
  {
    [BeginDelete(c, id), InDelete(c, FindVolume), InDelete(c, RemoveDevice(true)),
     BeginCreate(d, name, 0), InCreate(d, LookupName(Some(id)))]
  }

  /** Such a reply without a device is possible for every listed volume. */
  lemma ReplyWithoutDevice(gen: string -> string, s: Node, id: string, c: nat, d: nat) returns (t: Node)
    requires Inv(gen, s) && s.phase.Serving? && s.calls == map[] && id in s.memory && c != d
    ensures Run(gen, s, RetryDuringDelete(s.memory[id].name, id, c, d)) == Some(t)
    ensures d in t.calls && t.calls[d] == Create(s.memory[id].name, 0, Replied(Ok(id, s.memory[id].size)))
    ensures forall k :: k in t.devices ==> k.id != id
  {
    forall k | k in s.devices && k.id == id ensures k == DeviceKey(s.memory[id].mode, id) {
      assert DevicesKnown(gen, s);
    }
    t := RetryDuringDeleteRuns(gen, s, id, c, d);
  }

  lemma RetryDuringDeleteRuns(gen: string -> string, s: Node, id: string, c: nat, d: nat) returns (t: Node)
    requires s.phase.Serving? && s.calls == map[] && id in s.memory && c != d
    ensures Run(gen, s, RetryDuringDelete(s.memory[id].name, id, c, d)) == Some(t)
    ensures d in t.calls && t.calls[d] == Create(s.memory[id].name, 0, Replied(Ok(id, s.memory[id].size)))
    ensures t.devices == s.devices - {DeviceKey(s.memory[id].mode, id)}
  {
    var name := s.memory[id].name;
    var t1 := WithCall(s, c, Delete(id, DeleteLocked));
    var t2 := DoFindVolume(t1, c);
    var t3 := DoRemoveDevice(t2, c, true);
    var t4 := WithCall(t3, d, Create(name, 0, CreateLocked));
    t := DoLookupName(t4, d, Some(id)).value;
    assert !NameLocked(t3, name);
    PathIsRun(gen, [s, t1, t2, t3, t4, t], RetryDuringDelete(name, id, c, d));
  }

  ghost function CollidingDevices(): seq<Step>
  {
    [InCreate(0, MakeDevice(Some(1))), InCreate(1, MakeDevice(None)), InCreate(1, Undo(Done))]
  }

  /**
   * The lookup by ID does not make up for colliding IDs: when two names share one, both calls can pass it
   * before either lists its volume, and rolling back the second one removes the entry of the first one's device.
   */
  lemma CollidingNamesLeak(gen: string -> string, s: Node, a: string, b: string) returns (t: Node)
    requires gen(a) == gen(b) && a != b
    requires s.phase.Serving? && s.calls == map[] && gen(a) !in s.memory && DeviceKey(s.mode, gen(a)) !in s.devices
    requires gen(a) !in s.temps
    requires forall i :: i in s.memory ==> s.memory[i].name != a && s.memory[i].name != b
    ensures Run(gen, s, SmoothEntry(0, a, 1) + SmoothEntry(1, b, 1) + CollidingDevices()) == Some(t)
    ensures DeviceKey(s.mode, gen(a)) in t.devices && gen(a) !in t.visible && gen(a) !in t.durable
  {
    var s1 := SmoothEntryRuns(gen, s, 0, a, 1);
    assert !NameLocked(s1, b);
    var s2 := SmoothEntryRuns(gen, s1, 1, b, 1);
    t := CollidingDevicesLeak(gen, s2, a, b);
    RunConcat(gen, s, SmoothEntry(0, a, 1), s1, SmoothEntry(1, b, 1), s2);
    RunConcat(gen, s, SmoothEntry(0, a, 1) + SmoothEntry(1, b, 1), s2, CollidingDevices(), t);
  }

  lemma CollidingDevicesLeak(gen: string -> string, s: Node, a: string, b: string) returns (t: Node)
    requires gen(a) == gen(b) && s.phase.Serving? && 0 in s.calls && 1 in s.calls
    requires s.calls[0] == Create(a, 1, EntryStored) && s.calls[1] == Create(b, 1, EntryStored)
    requires DeviceKey(s.mode, gen(a)) !in s.devices
    ensures Run(gen, s, CollidingDevices()) == Some(t)
    ensures DeviceKey(s.mode, gen(a)) in t.devices && gen(a) !in t.visible && gen(a) !in t.durable
  {
    var t1 := DoMakeDevice(gen, s, 0, Some(1)).value;
    var t2 := DoMakeDevice(gen, t1, 1, None).value;
    t := DoUndo(gen, t2, 1, Done);
    PathIsRun(gen, [s, t1, t2, t], CollidingDevices());
  }

  /** All devices are recorded, both in the entries read after a crash and in those left by a power loss. */
  ghost predicate Leakless(t: Node)
  {
    forall k :: k in t.devices ==> k.id in t.visible && k.id in t.durable
  }

  /** No run leaks a device if and only if different names always get different IDs. */
  lemma NoLeakIffIdsAreInjective(gen: string -> string)
    ensures Injective(gen) <==>
            forall mode, steps :: Run(gen, NewNode(mode), steps).Some?
              ==> Leakless(Run(gen, NewNode(mode), steps).value)
  {
    if Injective(gen) {
      forall mode, steps | Run(gen, NewNode(mode), steps).Some?
        ensures Leakless(Run(gen, NewNode(mode), steps).value)
      {
        NoRunLeaksADevice(gen, mode, steps, Run(gen, NewNode(mode), steps).value);
      }
    } else {
      var a, b :| gen(a) == gen(b) && a != b;
      var up := NewNode(LVM).(phase := Serving);
      var boot := [Machine(Recover(LVM, [])), Machine(Serve)];
      PathIsRun(gen, [NewNode(LVM), NewNode(LVM).(phase := Recovering([])), up], boot);
      var t := CollidingNamesLeak(gen, up, a, b);
      var rest := SmoothEntry(0, a, 1) + SmoothEntry(1, b, 1) + CollidingDevices();
      RunConcat(gen, NewNode(LVM), boot, up, rest, t);
      assert DeviceKey(LVM, gen(a)) in t.devices;
      assert !Leakless(Run(gen, NewNode(LVM), boot + rest).value);
    }
  }

  // ----------------------------------------------------------- volume IDs

  /** SHA-224 in hexadecimal. */
  const HASH_LENGTH: nat := 56

  /** The first characters of the name, a dash and the hash of the whole name. */
  function GenerateVolumeID(hash: string -> string, name: string): string
  {
    name[..if |name| < 6 then |name| else 6] + "-" + hash(name)
  }

  /** IDs collide exactly when the hash does, on names with the same first characters. */
  lemma IdsCollideExactlyWithHash(hash: string -> string, a: string, b: string)
    requires |hash(a)| == HASH_LENGTH && |hash(b)| == HASH_LENGTH
    ensures GenerateVolumeID(hash, a) == GenerateVolumeID(hash, b) <==>
            hash(a) == hash(b) && a[..if |a| < 6 then |a| else 6] == b[..if |b| < 6 then |b| else 6]
  {
    var ia, ib := GenerateVolumeID(hash, a), GenerateVolumeID(hash, b);
    var na, nb := if |a| < 6 then |a| else 6, if |b| < 6 then |b| else 6;
    assert ia[..na] == a[..na] && ia[na + 1..] == hash(a);
    assert ib[..nb] == b[..nb] && ib[nb + 1..] == hash(b);
    if ia == ib {
      assert |ia| == na + 1 + HASH_LENGTH && |ib| == nb + 1 + HASH_LENGTH;
    }
  }
}

