/**
 * Publishing and unpublishing an ephemeral volume any number of times, each call possibly cut off anywhere by a crash
 * of the driver: whatever happened before, the unpublish call that succeeds restores the node.
 */
module EphemeralRuns {
  import opened Outcomes
  import opened VolumeLifecycle
  import opened VolumeRuns
  import opened NodeControllers
  import opened EphemeralVolumes

  // ------------------------------------------------------------ one call leaves other volumes alone

  /** Only the volume with this ID changed in any of the stores. */
  ghost predicate Elsewhere(s: Node, t: Node, id: string)
  {
    && t.phase == s.phase && t.mode == s.mode
    && DevicesElsewhere(s.devices, t.devices, id)
    && forall i :: i != id ==> SameAt(t.visible, s.visible, i) && SameAt(t.memory, s.memory, i)
  }

  ghost predicate DevicesElsewhere(a: Devices, b: Devices, id: string)
  {
    forall k: DeviceKey :: k.id != id ==> (k in b <==> k in a) && (k in b ==> b[k] == a[k])
  }

  /** The only call is number 0 and it is about this volume. */
  ghost predicate OneCall(gen: string -> string, s: Node, id: string)
  {
    forall c :: c in s.calls
      ==> c == 0 && if s.calls[c].Create? then gen(s.calls[c].name) == id else s.calls[c].id == id
  }

  predicate OwnStep(gen: string -> string, step: Step, id: string)
  {
    match step
    case BeginCreate(c, name, _) => c == 0 && gen(name) == id
    case InCreate(c, _) => c == 0
    case BeginDelete(c, i) => c == 0 && i == id
    case InDelete(c, _) => c == 0
    case _ => false
  }

  lemma PersistAway(gen: string -> string, s: Node, how: Outcome)
    requires CreateIs(s, 0) && s.calls[0].cpc.IdFree?
    ensures Away(s, DoPersist(gen, s, 0, how), 0, gen(s.calls[0].name))
  {
  }

  lemma MakeDeviceAway(gen: string -> string, s: Node, got: Option<nat>, t: Node)
    requires CreateIs(s, 0) && s.calls[0].cpc.EntryStored? && DoMakeDevice(gen, s, 0, got) == Some(t)
    ensures Away(s, t, 0, gen(s.calls[0].name))
  {
  }

  lemma UndoAway(gen: string -> string, s: Node, how: Outcome)
    requires CreateIs(s, 0) && s.calls[0].cpc.RollBack?
    ensures Away(s, DoUndo(gen, s, 0, how), 0, gen(s.calls[0].name))
  {
  }

  lemma StoreSizeAway(gen: string -> string, s: Node, how: Outcome)
    requires CreateIs(s, 0) && s.calls[0].cpc.DeviceMade?
    ensures Away(s, DoStoreSize(gen, s, 0, how), 0, gen(s.calls[0].name))
  {
    var call := s.calls[0];
    EntryChangeIsAway(s, 0, DoStoreSize(gen, s, 0, how).calls[0], gen(call.name),
                      Volume(call.name, call.cpc.actual, s.mode),
                      if call.cpc.actual == call.asked then FailedEarly(false) else Landed(s, gen(call.name), how));
  }

  lemma AddToMemoryAway(gen: string -> string, s: Node)
    requires CreateIs(s, 0) && s.calls[0].cpc.SizeStored?
    ensures Away(s, DoAddToMemory(gen, s, 0), 0, gen(s.calls[0].name))
  {
  }

  lemma CreateStepAway(gen: string -> string, s: Node, cs: CreateStep, t: Node)
    requires ApplyCreate(gen, s, 0, cs) == Some(t)
    ensures Away(s, t, 0, gen(s.calls[0].name))
  {
    match cs
    case LookupName(hit) => DeviceChangeIsAway(s, 0, t.calls[0], DeviceKey(s.mode, gen(s.calls[0].name)), 0);
    case LookupId => DeviceChangeIsAway(s, 0, t.calls[0], DeviceKey(s.mode, gen(s.calls[0].name)), 0);
    case Persist(how) => PersistAway(gen, s, how);
    case MakeDevice(got) => MakeDeviceAway(gen, s, got, t);
    case Undo(how) => UndoAway(gen, s, how);
    case StoreSize(how) => StoreSizeAway(gen, s, how);
    case AddToMemory => AddToMemoryAway(gen, s);
  }

  lemma CreateStepKeeps(gen: string -> string, s: Node, cs: CreateStep, t: Node)
    requires ApplyCreate(gen, s, 0, cs) == Some(t)
    ensures 0 in t.calls && t.calls[0].Create? && t.calls[0].name == s.calls[0].name
  {
    match cs
    case LookupName(hit) =>
    case LookupId =>
    case Persist(how) => assert t == DoPersist(gen, s, 0, how);
    case MakeDevice(got) =>
    case Undo(how) => assert t == DoUndo(gen, s, 0, how);
    case StoreSize(how) => assert t == DoStoreSize(gen, s, 0, how);
    case AddToMemory =>
  }

  lemma CreateStepGrows(gen: string -> string, s: Node, cs: CreateStep, t: Node)
    requires ApplyCreate(gen, s, 0, cs) == Some(t)
    ensures s.devices.Keys <= t.devices.Keys
  {
  }

  lemma DeleteStepAway(s: Node, ds: DeleteStep, t: Node)
    requires ApplyDelete(s, 0, ds) == Some(t)
    ensures Away(s, t, 0, s.calls[0].id)
  {
    var call := s.calls[0];
    match ds
    case FindVolume => DeviceChangeIsAway(s, 0, t.calls[0], DeviceKey(s.mode, call.id), 0);
    case RemoveDevice(ok) => DeviceChangeIsAway(s, 0, t.calls[0], DeviceKey(call.dpc.vol.mode, call.id), 0);
    case RemoveEntry(how) => EntryChangeIsAway(s, 0, t.calls[0], call.id, Volume([], 0, LVM), how);
    case Forget => MemoryChangeIsAway(s, 0, t.calls[0], call.id, Volume([], 0, LVM));
  }

  lemma DeleteStepKeeps(s: Node, ds: DeleteStep, t: Node)
    requires ApplyDelete(s, 0, ds) == Some(t)
    ensures 0 in t.calls && t.calls[0].Delete? && t.calls[0].id == s.calls[0].id
  {
  }

  lemma ElsewhereFollows(s: Node, u: Node, t: Node, id: string)
    requires Elsewhere(s, u, id) && Away(u, t, 0, id)
    ensures Elsewhere(s, t, id)
  {
    forall i | i != id ensures SameAt(t.visible, s.visible, i) && SameAt(t.memory, s.memory, i) {
      assert SameAt(t.visible, u.visible, i) && SameAt(t.memory, u.memory, i);
      assert SameAt(u.visible, s.visible, i) && SameAt(u.memory, s.memory, i);
    }
  }

  lemma OwnStepElsewhere(gen: string -> string, s: Node, u: Node, step: Step, t: Node, id: string)
    requires Elsewhere(s, u, id) && OneCall(gen, u, id) && OwnStep(gen, step, id) && Apply(gen, u, step) == Some(t)
    ensures Elsewhere(s, t, id) && OneCall(gen, t, id)
    ensures step.BeginCreate? || step.InCreate? ==> u.devices.Keys <= t.devices.Keys
  {
    match step
    case InCreate(c, cs) =>
      CreateStepAway(gen, u, cs, t);
      CreateStepKeeps(gen, u, cs, t);
      CreateStepGrows(gen, u, cs, t);
      ElsewhereFollows(s, u, t, id);
    case InDelete(c, ds) =>
      DeleteStepAway(u, ds, t);
      DeleteStepKeeps(u, ds, t);
      ElsewhereFollows(s, u, t, id);
    case _ =>
  }

  lemma {:induction false} CallElsewhere(gen: string -> string, s: Node, steps: seq<Step>, t: Node, id: string)
    requires s.calls == map[] && Run(gen, s, steps) == Some(t)
    requires forall i :: 0 <= i < |steps| ==> OwnStep(gen, steps[i], id)
    ensures Elsewhere(s, t, id) && OneCall(gen, t, id)
    ensures (forall i :: 0 <= i < |steps| ==> steps[i].BeginCreate? || steps[i].InCreate?) ==>
            s.devices.Keys <= t.devices.Keys
  {
    if steps == [] {
      forall i ensures SameAt(s.visible, s.visible, i) && SameAt(s.memory, s.memory, i) {}
    } else {
      var n := |steps| - 1;
      var u := Run(gen, s, steps[..n]).value;
      CallElsewhere(gen, s, steps[..n], u, id);
      OwnStepElsewhere(gen, s, u, steps[n], t, id);
    }
  }

  /** The node after the first k steps of a call. */
  ghost function After(gen: string -> string, s: Node, steps: seq<Step>, k: nat): Node
  {
    if k <= |steps| && Run(gen, s, steps[..k]).Some? then Run(gen, s, steps[..k]).value else s
  }

  lemma CreateStepsAreOwn(gen: string -> string, s: Node, name: string, asked: nat, fate: CreateFate)
    ensures forall i :: 0 <= i < |CreateSteps(gen, s, name, asked, fate)| ==>
              OwnStep(gen, CreateSteps(gen, s, name, asked, fate)[i], gen(name))
              && (CreateSteps(gen, s, name, asked, fate)[i].BeginCreate?
                  || CreateSteps(gen, s, name, asked, fate)[i].InCreate?)
  {
  }

  lemma DeleteStepsAreOwn(gen: string -> string, s: Node, id: string, removed: bool, how: Outcome)
    ensures forall i :: 0 <= i < |DeleteSteps(s, id, removed, how)| ==> OwnStep(gen, DeleteSteps(s, id, removed,
            how)[i], id)
  {
  }

  /** Wherever a create call is cut off, only its volume is affected and no device is gone. */
  lemma CreateCutElsewhere(gen: string -> string, s: Node, name: string, asked: nat, fate: CreateFate, k: nat)
    requires Injective(gen) && Inv(gen, s) && s.calls == map[]
    ensures var t := After(gen, s, CreateSteps(gen, s, name, asked, fate), k);
            Elsewhere(s, t, gen(name)) && s.devices.Keys <= t.devices.Keys && Inv(gen, t)
  {
    var steps := CreateSteps(gen, s, name, asked, fate);
    CreateStepsAreOwn(gen, s, name, asked, fate);
    if k <= |steps| && Run(gen, s, steps[..k]).Some? {
      var t := Run(gen, s, steps[..k]).value;
      CallElsewhere(gen, s, steps[..k], t, gen(name));
      RunKeepsInv(gen, s, steps[..k], t);
    }
  }

  lemma DeleteCutElsewhere(gen: string -> string, s: Node, id: string, removed: bool, how: Outcome, k: nat)
    requires Injective(gen) && Inv(gen, s) && s.calls == map[]
    ensures var t := After(gen, s, DeleteSteps(s, id, removed, how), k);
            Elsewhere(s, t, id) && Inv(gen, t)
  {
    var steps := DeleteSteps(s, id, removed, how);
    DeleteStepsAreOwn(gen, s, id, removed, how);
    if k <= |steps| && Run(gen, s, steps[..k]).Some? {
      var t := Run(gen, s, steps[..k]).value;
      CallElsewhere(gen, s, steps[..k], t, id);
      RunKeepsInv(gen, s, steps[..k], t);
    }
  }

  /** A complete create call is the run of all its steps. */
  lemma CreateCompletes(gen: string -> string, s: Node, name: string, asked: nat, fate: CreateFate)
    requires Injective(gen) && Inv(gen, s) && s.phase.Serving? && s.calls == map[]
    requires fate.device.Some? ==> asked <= fate.device.value
    ensures var (t, reply) := CreateResult(gen, s, name, asked, fate);
            && Elsewhere(s, t, gen(name)) && s.devices.Keys <= t.devices.Keys && Inv(gen, t) && t.calls == map[]
            && (reply.Ok? ==> reply.id == gen(name) && gen(name) in t.memory)
  {
    var (t, reply) := CreateResult(gen, s, name, asked, fate);
    var call := Create(name, asked, Replied(reply));
    var steps := CreateSteps(gen, s, name, asked, fate);
    CreateRuns(gen, s, name, asked, fate);
    CreateResultIs(gen, s, name, asked, fate);
    CreateStepsAreOwn(gen, s, name, asked, fate);
    CallElsewhere(gen, s, steps, WithCall(t, 0, call), gen(name));
    FinishedCallKeepsInv(gen, s, steps, t, call);
  }

  lemma CreateRuns(gen: string -> string, s: Node, name: string, asked: nat, fate: CreateFate)
    requires Injective(gen) && Named(gen, s.memory) && s.phase.Serving? && s.calls == map[]
    requires fate.device.Some? ==> asked <= fate.device.value
    ensures var (t, reply) := CreateResult(gen, s, name, asked, fate);
            Run(gen, s, CreateSteps(gen, s, name, asked, fate))
            == Some(WithCall(t, 0, Create(name, asked, Replied(reply))))
  {
    LookupRuns(gen, s, name, asked);
    if gen(name) in s.memory {
      assert CreateSteps(gen, s, name, asked, fate) == LookupSteps(gen, s, name, asked);
    } else {
      var t := CreateResult(gen, s, name, asked, fate);
      MakeRuns(gen, s, name, asked, fate);
      RunConcat(gen, s, LookupSteps(gen, s, name, asked), WithCall(s, 0, Create(name, asked, IdFree)),
                MakeSteps(gen, s, name, fate), WithCall(t.0, 0, Create(name, asked, Replied(t.1))));
    }
  }

  lemma CreateResultIs(gen: string -> string, s: Node, name: string, asked: nat, fate: CreateFate)
    ensures var (t, reply) := CreateResult(gen, s, name, asked, fate);
            t.calls == s.calls && (reply.Ok? ==> reply.id == gen(name) && gen(name) in t.memory)
  {
  }

  lemma DeleteCompletes(gen: string -> string, s: Node, id: string, removed: bool, how: Outcome)
    requires Injective(gen) && Inv(gen, s) && s.phase.Serving? && s.calls == map[]
    ensures var (t, ok) := DeleteResult(s, id, removed, how);
            && Elsewhere(s, t, id) && Inv(gen, t) && t.calls == map[]
            && (ok <==> id !in s.memory || removed) && (ok ==> id !in t.memory) && (!ok ==> t == s)
  {
    var (t, ok) := DeleteResult(s, id, removed, how);
    var steps := DeleteSteps(s, id, removed, how);
    DeleteRuns(gen, s, id, removed, how);
    DeleteStepsAreOwn(gen, s, id, removed, how);
    CallElsewhere(gen, s, steps, WithCall(t, 0, Delete(id, Finished(ok))), id);
    FinishedCallKeepsInv(gen, s, steps, t, Delete(id, Finished(ok)));
  }

  // ------------------------------------------------------------------------------- cut off calls

  datatype PublishCut = WhileCreating(k: nat) | BeforeMkdir | BeforeMount
  datatype UnpublishCut = BeforeRmdir | BeforeDelete | WhileDeleting(k: nat)

  /** The node when a publish call is cut off. */
  ghost function CutPublish(gen: string -> string, h: Host, req: Request, fate: PublishFate, cut: PublishCut): Host
  {
    if cut.WhileCreating?
    then h.(node := After(gen, h.node, CreateSteps(gen, h.node, req.volumeID, req.size, fate.create), cut.k))
    else
    var (n, reply) := CreateResult(gen, h.node, req.volumeID, req.size, fate.create);
    CutAttach(WithNode(h, n), reply, req, fate, cut)
  }

  function CutAttach(h: Host, reply: Reply, req: Request, fate: PublishFate, cut: PublishCut): Host
  {
    if reply.Failed? || DeviceKey(h.node.mode, reply.id) !in h.node.devices then h else
    match Provisioned(h, DeviceKey(h.node.mode, reply.id), FsType(req), fate.detect, fate.mkfs)
    case None => h
    case Some(h1) => if cut.BeforeMkdir? || !fate.target || req.target in h1.mounts then h1 else WithDir(h1, req.target)
  }

  /** The part of a cut off unpublish call that follows the search for the volume. */
  ghost function CutKnown(gen: string -> string, h: Host, id: string, target: string, fate: UnpublishFate,
        cut: UnpublishCut): Host
  {
    if cut.BeforeRmdir?
    then (if target in h.mounts && !(fate.inspect && fate.unmount) then h else WithoutMount(h, target))
    else
    var (h1, detached) := Detached(h, target, fate);
    if cut.BeforeDelete? || !detached then h1
    else WithNode(h1, After(gen, h.node, DeleteSteps(h.node, id, fate.removed, fate.entry), cut.k))
  }

  /** The node when an unpublish call is cut off. */
  ghost function CutUnpublish(gen: string -> string, h: Host, volumeID: string, target: string, fate: UnpublishFate,
        cut: UnpublishCut): Host
  {
    match Target(gen, h.node, volumeID)
    case None => h
    case Some(id) => CutKnown(gen, h, id, target, fate, cut)
  }

  /** A crash, possibly in the middle of writing an entry, and a restart in some mode whose cleanup may fail. */
  datatype Restart = Restart(cut: set<string>, mode: Mode, todo: seq<string>, hows: seq<Outcome>)

  ghost function RestartSteps(how: Restart): seq<Step>
  {
    [Machine(Crash(how.cut))] + ([Machine(Recover(how.mode, how.todo))] + CleanupSteps(how.hows) + [Machine(Serve)])
  }

  /** The driver is started again; mounts, directories and devices outlive it. */
  ghost predicate Restarted(gen: string -> string, h: Host, r: Host, how: Restart)
  {
    && Run(gen, h.node, RestartSteps(how)) == Some(r.node)
    && r.filesystems == h.filesystems && r.mounts == h.mounts && r.dirs == h.dirs
  }

  // --------------------------------------------------------------------------- what stays the same

  ghost predicate HasDevice(devices: Devices, id: string)
  {
    exists k :: k in devices && k.id == id
  }

  /** Apart from this volume a restart would find the same devices and list the same volumes. */
  ghost predicate StoresAside(n0: Node, n: Node, id: string)
  {
    && DevicesElsewhere(n0.devices, n.devices, id)
    && EntriesElsewhere(Backed(n0.visible, n0.devices), Backed(n.visible, n.devices), id)
  }

  ghost predicate EntriesElsewhere(a: Entries, b: Entries, id: string)
  {
    forall i :: i != id ==> SameAt(b, a, i)
  }

  /** What is mounted at the target, if anything, is the filesystem on the device of this volume. */
  ghost predicate MountIsOwn(h: Host, id: string, target: string)
  {
    target in h.mounts ==>
      var m := h.mounts[target];
      && m.device.id == id && m.device in h.node.devices
      && m.device in h.filesystems && h.filesystems[m.device] == m.fsType
  }

  /**
   * Apart from this volume and this target the host is the same. A target in use belongs to an existing device, and
   * what is mounted there is the filesystem of this volume.
   */
  ghost predicate HostAside(h0: Host, h: Host, id: string, target: string)
  {
    && h.mounts - {target} == h0.mounts && h.dirs - {target} == h0.dirs
    && (forall k: DeviceKey :: k.id != id
          ==> (k in h.filesystems <==> k in h0.filesystems)
              && (k in h.filesystems ==> h.filesystems[k] == h0.filesystems[k]))
    && h.filesystems.Keys <= h.node.devices.Keys
    && (target in h.mounts || target in h.dirs ==> HasDevice(h.node.devices, id))
    && MountIsOwn(h, id, target)
  }

  /** In the middle of a call. */
  ghost predicate CutAround(gen: string -> string, h0: Host, h: Host, id: string, target: string)
  {
    Inv(gen, h.node) && StoresAside(h0.node, h.node, id) && HostAside(h0, h, id, target)
  }

  ghost predicate Idle(n: Node)
  {
    n.phase.Serving? && n.calls == map[]
  }

  /** Between calls: other volumes are listed as before or, after a restart, as persisted. */
  ghost predicate Around(gen: string -> string, h0: Host, h: Host, id: string, target: string, restarted: bool)
  {
    && CutAround(gen, h0, h, id, target) && Idle(h.node)
    && EntriesElsewhere(if restarted then Backed(h0.node.visible, h0.node.devices) else h0.node.memory,
                        h.node.memory, id)
  }

  /** A volume is listed between calls if and only if it has a device. */
  lemma ListedIffDevice(gen: string -> string, n: Node, id: string)
    requires Inv(gen, n) && Idle(n)
    ensures id in n.memory <==> HasDevice(n.devices, id)
  {
  }

  lemma BackedElsewhere(s: Node, t: Node, id: string)
    requires Elsewhere(s, t, id)
    ensures EntriesElsewhere(Backed(s.visible, s.devices), Backed(t.visible, t.devices), id)
  {
    forall i | i != id ensures SameAt(Backed(t.visible, t.devices), Backed(s.visible, s.devices), i) {
      assert SameAt(t.visible, s.visible, i);
      if i in s.visible {
        assert DeviceKey(s.visible[i].mode, i) in t.devices <==> DeviceKey(s.visible[i].mode, i) in s.devices;
      }
    }
  }

  lemma EntriesElsewhereTransitive(a: Entries, b: Entries, c: Entries, id: string)
    requires EntriesElsewhere(a, b, id) && EntriesElsewhere(b, c, id)
    ensures EntriesElsewhere(a, c, id)
  {
    forall i | i != id ensures SameAt(c, a, i) { assert SameAt(b, a, i) && SameAt(c, b, i); }
  }

  lemma StoresAsideFollows(n0: Node, s: Node, t: Node, id: string)
    requires StoresAside(n0, s, id) && Elsewhere(s, t, id)
    ensures StoresAside(n0, t, id)
  {
    BackedElsewhere(s, t, id);
    EntriesElsewhereTransitive(Backed(n0.visible, n0.devices), Backed(s.visible, s.devices),
                               Backed(t.visible, t.devices), id);
  }

  /** The volume may have changed in any way that keeps its device if the target is in use. */
  lemma NodeMoves(h0: Host, h: Host, n: Node, id: string, target: string)
    requires HostAside(h0, h, id, target) && DevicesElsewhere(h.node.devices, n.devices, id)
    requires h.node.devices.Keys <= n.devices.Keys || (target !in h.mounts && target !in h.dirs)
    ensures HostAside(h0, WithNode(h, n), id, target)
    ensures h.node.devices.Keys <= n.devices.Keys ==> WithNode(h, n) == h.(node := n)
  {
    if h.node.devices.Keys <= n.devices.Keys { NothingLost(h, n); }
  }

  lemma MemoryFollows(base: Entries, s: Node, t: Node, id: string)
    requires EntriesElsewhere(base, s.memory, id) && Elsewhere(s, t, id)
    ensures EntriesElsewhere(base, t.memory, id)
  {
    forall i | i != id ensures SameAt(t.memory, base, i) {
      assert SameAt(t.memory, s.memory, i) && SameAt(s.memory, base, i);
    }
  }

  lemma RestartKeeps(gen: string -> string, h0: Host, h: Host, r: Host, id: string, target: string, how: Restart)
    requires Injective(gen) && CutAround(gen, h0, h, id, target) && Restarted(gen, h, r, how)
    ensures Around(gen, h0, r, id, target, true)
  {
    RunKeepsInv(gen, h.node, RestartSteps(how), r.node);
    RestartFinds(gen, h.node, how, r.node);
  }

  lemma RestartFinds(gen: string -> string, s: Node, how: Restart, t: Node)
    requires Run(gen, s, RestartSteps(how)) == Some(t)
    ensures Idle(t) && t.devices == s.devices && t.mode == how.mode
    ensures t.memory == Backed(s.visible, s.devices) == Backed(t.visible, t.devices)
  {
    var up := [Machine(Recover(how.mode, how.todo))] + CleanupSteps(how.hows);
    var restart := up + [Machine(Serve)];
    var crash := [Machine(Crash(how.cut))];
    RunAppend(gen, s, crash, restart, t);
    assert crash[..0] == [] && Run(gen, s, []) == Some(s);
    var down := Run(gen, s, crash).value;
    assert restart[..|restart| - 1] == up;
    var u := Run(gen, down, up).value;
    CleanupKeepsBackedEntries(gen, down, how.mode, how.todo, how.hows, u);
    CleanupKeepsMode(gen, down, how.mode, how.todo, how.hows, u);
  }

  lemma {:induction false} CleanupKeepsMode(gen: string -> string, s: Node, mode: Mode, todo: seq<string>,
        hows: seq<Outcome>, t: Node)
    requires Run(gen, s, [Machine(Recover(mode, todo))] + CleanupSteps(hows)) == Some(t)
    ensures t.mode == mode
  {
    var first := Machine(Recover(mode, todo));
    var steps := [first] + CleanupSteps(hows);
    if hows == [] {
      assert steps == [first] && steps[..0] == [];
      assert Run(gen, s, []) == Some(s);
    } else {
      var n := |hows| - 1;
      assert steps[..|steps| - 1] == [first] + CleanupSteps(hows[..n]);
      CleanupKeepsMode(gen, s, mode, todo, hows[..n], Run(gen, s, [first] + CleanupSteps(hows[..n])).value);
      assert steps[|steps| - 1] == Machine(Cleanup(hows[n]));
    }
  }

  // ------------------------------------------------------------------ each call, complete or cut off

  /** The request is about the volume with this ID. */
  predicate ReplyFor(reply: Reply, id: string)
  {
    reply.Ok? ==> reply.id == id
  }

  lemma ProvisionKeeps(h0: Host, h: Host, key: DeviceKey, fsType: string, detects: bool, works: bool, t: Host,
        target: string)
    requires HostAside(h0, h, key.id, target) && key in h.node.devices
    requires Provisioned(h, key, fsType, detects, works) == Some(t)
    ensures HostAside(h0, t, key.id, target) && t.node == h.node && t.mounts == h.mounts && t.dirs == h.dirs
    ensures key in t.filesystems && t.filesystems[key] == fsType
  {
  }

  lemma TargetTaken(h0: Host, h: Host, t: Host, id: string, target: string)
    requires HostAside(h0, h, id, target) && HasDevice(h.node.devices, id)
    requires t.node == h.node && t.filesystems == h.filesystems
    requires t.mounts - {target} == h.mounts - {target} && t.dirs - {target} == h.dirs - {target}
    requires MountIsOwn(t, id, target)
    ensures HostAside(h0, t, id, target)
  {
  }

  lemma MountChangesOnlyTarget(h: Host, target: string, m: Mount)
    ensures WithDir(h, target).dirs - {target} == h.dirs - {target}
    ensures WithMount(h, target, m).mounts - {target} == h.mounts - {target}
  {
  }

  lemma MountedKeeps(report: seq<string> -> seq<string>, h0: Host, h: Host, key: DeviceKey, req: Request,
        fate: PublishFate)
    requires HostAside(h0, h, key.id, req.target) && key in h.node.devices
    requires key in h.filesystems && h.filesystems[key] == FsType(req)
    ensures var t := Mounted(report, h, key, req, fate).0;
            HostAside(h0, t, key.id, req.target) && t.node == h.node && t.filesystems == h.filesystems
    ensures HostAside(h0, WithDir(h, req.target), key.id, req.target)
  {
    var m := Mount(key, FsType(req), report(MountFlags(req)));
    MountChangesOnlyTarget(h, req.target, m);
    MountChangesOnlyTarget(WithDir(h, req.target), req.target, m);
    TargetTaken(h0, h, Mounted(report, h, key, req, fate).0, key.id, req.target);
    TargetTaken(h0, h, WithDir(h, req.target), key.id, req.target);
  }

  lemma AttachKeeps(report: seq<string> -> seq<string>, h0: Host, h: Host, reply: Reply, req: Request,
        fate: PublishFate, id: string)
    requires HostAside(h0, h, id, req.target) && ReplyFor(reply, id)
    ensures var t := Attached(report, h, reply, req, fate).0; HostAside(h0, t, id, req.target) && t.node == h.node
  {
    if reply.Ok? && DeviceKey(h.node.mode, reply.id) in h.node.devices {
      var key := DeviceKey(h.node.mode, reply.id);
      var p := Provisioned(h, key, FsType(req), fate.detect, fate.mkfs);
      if p.Some? {
        ProvisionKeeps(h0, h, key, FsType(req), fate.detect, fate.mkfs, p.value, req.target);
        MountedKeeps(report, h0, p.value, key, req, fate);
      }
    }
  }

  lemma CutAttachKeeps(h0: Host, h: Host, reply: Reply, req: Request, fate: PublishFate, id: string, cut: PublishCut)
    requires HostAside(h0, h, id, req.target) && ReplyFor(reply, id)
    ensures var t := CutAttach(h, reply, req, fate, cut); HostAside(h0, t, id, req.target) && t.node == h.node
  {
  }

  /** What a device manager creates is never smaller than requested. */
  predicate LargeEnough(req: Request, fate: PublishFate)
  {
    fate.create.device.Some? ==> req.size <= fate.create.device.value
  }

  lemma CreatedKeeps(gen: string -> string, h0: Host, h: Host, req: Request, fate: PublishFate, restarted: bool)
    requires Injective(gen) && LargeEnough(req, fate) && Around(gen, h0, h, gen(req.volumeID), req.target, restarted)
    ensures var (n, reply) := CreateResult(gen, h.node, req.volumeID, req.size, fate.create);
            && Around(gen, h0, WithNode(h, n), gen(req.volumeID), req.target, restarted)
            && ReplyFor(reply, gen(req.volumeID))
  {
    var id := gen(req.volumeID);
    var (n, reply) := CreateResult(gen, h.node, req.volumeID, req.size, fate.create);
    CreateCompletes(gen, h.node, req.volumeID, req.size, fate.create);
    StoresAsideFollows(h0.node, h.node, n, id);
    NodeMoves(h0, h, n, id, req.target);
    MemoryFollows(if restarted then Backed(h0.node.visible, h0.node.devices) else h0.node.memory, h.node, n, id);
  }

  lemma PublishKeeps(gen: string -> string, report: seq<string> -> seq<string>, h0: Host, h: Host, req: Request,
        fate: PublishFate, restarted: bool)
    requires Injective(gen) && LargeEnough(req, fate) && Around(gen, h0, h, gen(req.volumeID), req.target, restarted)
    ensures Around(gen, h0, Published(gen, report, h, req, fate).0, gen(req.volumeID), req.target, restarted)
  {
    var (n, reply) := CreateResult(gen, h.node, req.volumeID, req.size, fate.create);
    CreatedKeeps(gen, h0, h, req, fate, restarted);
    AttachKeeps(report, h0, WithNode(h, n), reply, req, fate, gen(req.volumeID));
  }

  lemma CutPublishKeeps(gen: string -> string, report: seq<string> -> seq<string>, h0: Host, h: Host, req: Request,
        fate: PublishFate, cut: PublishCut, restarted: bool)
    requires Injective(gen) && LargeEnough(req, fate) && Around(gen, h0, h, gen(req.volumeID), req.target, restarted)
    ensures CutAround(gen, h0, CutPublish(gen, h, req, fate, cut), gen(req.volumeID), req.target)
  {
    var id := gen(req.volumeID);
    if cut.WhileCreating? {
      var n := After(gen, h.node, CreateSteps(gen, h.node, req.volumeID, req.size, fate.create), cut.k);
      CreateCutElsewhere(gen, h.node, req.volumeID, req.size, fate.create, cut.k);
      StoresAsideFollows(h0.node, h.node, n, id);
      NodeMoves(h0, h, n, id, req.target);
    } else {
      var (n, reply) := CreateResult(gen, h.node, req.volumeID, req.size, fate.create);
      CreatedKeeps(gen, h0, h, req, fate, restarted);
      CutAttachKeeps(h0, WithNode(h, n), reply, req, fate, id, cut);
    }
  }

  lemma DetachKeeps(h0: Host, h: Host, id: string, target: string, fate: UnpublishFate)
    requires HostAside(h0, h, id, target)
    ensures var (t, ok) := Detached(h, target, fate);
            HostAside(h0, t, id, target) && t.node == h.node && (ok ==> target !in t.mounts && target !in t.dirs)
    ensures HostAside(h0, WithoutMount(h, target), id, target)
  {
  }

  /** The IDs of ephemeral volumes, which are chosen by the caller, never look like generated ones. */
  ghost predicate NotGenerated(gen: string -> string, volumeID: string)
  {
    forall name :: gen(name) != volumeID
  }

  lemma TargetIsByName(gen: string -> string, n: Node, volumeID: string)
    requires Named(gen, n.memory) && NotGenerated(gen, volumeID)
    ensures Target(gen, n, volumeID) == if gen(volumeID) in n.memory then Some(gen(volumeID)) else None
  {
  }

  lemma SameNodeAround(gen: string -> string, h0: Host, h: Host, t: Host, id: string, target: string, restarted: bool)
    requires Around(gen, h0, h, id, target, restarted) && t.node == h.node && HostAside(h0, t, id, target)
    ensures Around(gen, h0, t, id, target, restarted)
  {
  }

  lemma UnpublishKnownKeeps(gen: string -> string, h0: Host, h: Host, id: string, target: string,
        fate: UnpublishFate, restarted: bool)
    requires Injective(gen) && Around(gen, h0, h, id, target, restarted)
    ensures var (t, ok) := UnpublishedKnown(h, id, target, fate);
            && Around(gen, h0, t, id, target, restarted) && (ok ==> id !in t.node.memory)
            && (fate.inspect && fate.unmount && fate.rmdir && fate.removed ==> ok)
  {
    DetachKeeps(h0, h, id, target, fate);
    var (h1, detached) := Detached(h, target, fate);
    SameNodeAround(gen, h0, h, h1, id, target, restarted);
    if detached { DeletedKeeps(gen, h0, h, h1, id, target, fate, restarted); }
  }

  lemma UnlistedIsUnmounted(gen: string -> string, h0: Host, h: Host, id: string, target: string, restarted: bool)
    requires Around(gen, h0, h, id, target, restarted) && id !in h.node.memory
    ensures target !in h.mounts
  {
    ListedIffDevice(gen, h.node, id);
  }

  lemma UnpublishKeeps(gen: string -> string, h0: Host, h: Host, volumeID: string, target: string,
        fate: UnpublishFate, restarted: bool)
    requires Injective(gen) && NotGenerated(gen, volumeID) && Around(gen, h0, h, gen(volumeID), target, restarted)
    ensures var (t, ok) := Unpublished(gen, h, volumeID, target, fate);
            && Around(gen, h0, t, gen(volumeID), target, restarted)
            && (ok ==> gen(volumeID) !in t.node.memory)
            && (fate.inspect && fate.unmount && fate.rmdir && fate.removed ==> ok)
  {
    var id := gen(volumeID);
    TargetIsByName(gen, h.node, volumeID);
    if id in h.node.memory {
      UnpublishKnownKeeps(gen, h0, h, id, target, fate, restarted);
    } else {
      UnlistedIsUnmounted(gen, h0, h, id, target, restarted);
      assert Unpublished(gen, h, volumeID, target, fate) == (h, true);
    }
  }

  lemma DeletedKeeps(gen: string -> string, h0: Host, h: Host, h1: Host, id: string, target: string,
        fate: UnpublishFate, restarted: bool)
    requires Injective(gen) && Around(gen, h0, h, id, target, restarted)
    requires HostAside(h0, h1, id, target) && h1.node == h.node && target !in h1.mounts && target !in h1.dirs
    ensures var (n, ok) := DeleteResult(h.node, id, fate.removed, fate.entry);
            Around(gen, h0, WithNode(h1, n), id, target, restarted) && (ok ==> id !in n.memory) && (fate.removed ==> ok)
  {
    var (n, ok) := DeleteResult(h.node, id, fate.removed, fate.entry);
    DeleteCompletes(gen, h.node, id, fate.removed, fate.entry);
    StoresAsideFollows(h0.node, h.node, n, id);
    NodeMoves(h0, h1, n, id, target);
    MemoryFollows(if restarted then Backed(h0.node.visible, h0.node.devices) else h0.node.memory, h.node, n, id);
  }

  lemma CutDeleteKeeps(gen: string -> string, h0: Host, h: Host, h1: Host, id: string, target: string,
        fate: UnpublishFate, k: nat)
    requires Injective(gen) && CutAround(gen, h0, h, id, target) && Idle(h.node)
    requires HostAside(h0, h1, id, target) && h1.node == h.node && target !in h1.mounts && target !in h1.dirs
    ensures CutAround(gen, h0, WithNode(h1, After(gen, h.node, DeleteSteps(h.node, id, fate.removed, fate.entry),
            k)), id, target)
  {
    var n := After(gen, h.node, DeleteSteps(h.node, id, fate.removed, fate.entry), k);
    DeleteCutElsewhere(gen, h.node, id, fate.removed, fate.entry, k);
    StoresAsideFollows(h0.node, h.node, n, id);
    NodeMoves(h0, h1, n, id, target);
  }

  lemma SameNodeCutAround(gen: string -> string, h0: Host, h: Host, t: Host, id: string, target: string)
    requires CutAround(gen, h0, h, id, target) && t.node == h.node && HostAside(h0, t, id, target)
    ensures CutAround(gen, h0, t, id, target)
  {
  }

  lemma CutKnownKeeps(gen: string -> string, h0: Host, h: Host, id: string, target: string, fate: UnpublishFate,
        cut: UnpublishCut)
    requires Injective(gen) && CutAround(gen, h0, h, id, target) && Idle(h.node)
    ensures CutAround(gen, h0, CutKnown(gen, h, id, target, fate, cut), id, target)
  {
    DetachKeeps(h0, h, id, target, fate);
    var (h1, detached) := Detached(h, target, fate);
    if cut.WhileDeleting? && detached {
      CutDeleteKeeps(gen, h0, h, h1, id, target, fate, cut.k);
    } else {
      SameNodeCutAround(gen, h0, h, CutKnown(gen, h, id, target, fate, cut), id, target);
    }
  }

  lemma CutUnpublishKeeps(gen: string -> string, h0: Host, h: Host, volumeID: string, target: string,
        fate: UnpublishFate, cut: UnpublishCut, restarted: bool)
    requires Injective(gen) && NotGenerated(gen, volumeID) && Around(gen, h0, h, gen(volumeID), target, restarted)
    ensures CutAround(gen, h0, CutUnpublish(gen, h, volumeID, target, fate, cut), gen(volumeID), target)
  {
    TargetIsByName(gen, h.node, volumeID);
    CutKnownKeeps(gen, h0, h, gen(volumeID), target, fate, cut);
  }

  // ------------------------------------------------------------------------------- whole histories

  datatype Event =
    | Publish(req: Request, fate: PublishFate)
    | Unpublish(ufate: UnpublishFate)
    | PublishDies(req: Request, fate: PublishFate, cut: PublishCut, restart: Restart)
    | UnpublishDies(ufate: UnpublishFate, ucut: UnpublishCut, restart: Restart)

  predicate IsRestart(e: Event)
  {
    e.PublishDies? || e.UnpublishDies?
  }

  /** Publish requests may differ in everything except the volume and the target. */
  predicate About(req: Request, fate: PublishFate, volumeID: string, target: string)
  {
    req.volumeID == volumeID && req.target == target && LargeEnough(req, fate)
  }

  ghost predicate Happens(gen: string -> string, report: seq<string> -> seq<string>, h: Host, e: Event, r: Host,
        volumeID: string, target: string)
  {
    match e
    case Publish(req, fate) => About(req, fate, volumeID, target) && r == Published(gen, report, h, req, fate).0
    case Unpublish(fate) => r == Unpublished(gen, h, volumeID, target, fate).0
    case PublishDies(req, fate, cut, restart) =>
      About(req, fate, volumeID, target) && Restarted(gen, CutPublish(gen, h, req, fate, cut), r, restart)
    case UnpublishDies(fate, cut, restart) =>
      Restarted(gen, CutUnpublish(gen, h, volumeID, target, fate, cut), r, restart)
  }

  ghost predicate History(gen: string -> string, report: seq<string> -> seq<string>, hosts: seq<Host>,
        events: seq<Event>, volumeID: string, target: string)
  {
    && |hosts| == |events| + 1
    && forall i :: 0 <= i < |events| ==> Happens(gen, report, hosts[i], events[i], hosts[i + 1], volumeID, target)
  }

  predicate AnyRestart(events: seq<Event>)
  {
    events != [] && (AnyRestart(events[..|events| - 1]) || IsRestart(events[|events| - 1]))
  }

  /** A node that serves, has no such volume and does not use the target. */
  ghost predicate Clear(gen: string -> string, h: Host, volumeID: string, target: string)
  {
    && Injective(gen) && NotGenerated(gen, volumeID) && Inv(gen, h.node) && Idle(h.node)
    && gen(volumeID) !in h.node.memory && target !in h.mounts && target !in h.dirs
    && h.filesystems.Keys <= h.node.devices.Keys
  }

  lemma ClearIsAround(gen: string -> string, h: Host, volumeID: string, target: string)
    requires Clear(gen, h, volumeID, target)
    ensures Around(gen, h, h, gen(volumeID), target, false)
  {
  }

  lemma CallKeeps(gen: string -> string, report: seq<string> -> seq<string>, h0: Host, h: Host, e: Event, r: Host,
        volumeID: string, target: string, restarted: bool)
    requires Injective(gen) && NotGenerated(gen, volumeID) && Around(gen, h0, h, gen(volumeID), target, restarted)
    requires (e.Publish? || e.Unpublish?) && Happens(gen, report, h, e, r, volumeID, target)
    ensures Around(gen, h0, r, gen(volumeID), target, restarted)
  {
    match e
    case Publish(req, fate) => PublishKeeps(gen, report, h0, h, req, fate, restarted);
    case Unpublish(fate) => UnpublishKeeps(gen, h0, h, volumeID, target, fate, restarted);
  }

  lemma PublishDiesKeeps(gen: string -> string, report: seq<string> -> seq<string>, h0: Host, h: Host, e: Event,
        r: Host, volumeID: string, target: string, restarted: bool)
    requires Injective(gen) && Around(gen, h0, h, gen(volumeID), target, restarted)
    requires e.PublishDies? && Happens(gen, report, h, e, r, volumeID, target)
    ensures Around(gen, h0, r, gen(volumeID), target, true)
  {
    CutPublishKeeps(gen, report, h0, h, e.req, e.fate, e.cut, restarted);
    RestartKeeps(gen, h0, CutPublish(gen, h, e.req, e.fate, e.cut), r, gen(volumeID), target, e.restart);
  }

  lemma UnpublishDiesKeeps(gen: string -> string, report: seq<string> -> seq<string>, h0: Host, h: Host, e: Event,
        r: Host, volumeID: string, target: string, restarted: bool)
    requires Injective(gen) && NotGenerated(gen, volumeID) && Around(gen, h0, h, gen(volumeID), target, restarted)
    requires e.UnpublishDies? && Happens(gen, report, h, e, r, volumeID, target)
    ensures Around(gen, h0, r, gen(volumeID), target, true)
  {
    CutUnpublishKeeps(gen, h0, h, volumeID, target, e.ufate, e.ucut, restarted);
    RestartKeeps(gen, h0, CutUnpublish(gen, h, volumeID, target, e.ufate, e.ucut), r, gen(volumeID), target, e.restart);
  }

  lemma EventKeeps(gen: string -> string, report: seq<string> -> seq<string>, h0: Host, h: Host, e: Event, r: Host,
        volumeID: string, target: string, restarted: bool)
    requires Injective(gen) && NotGenerated(gen, volumeID) && Around(gen, h0, h, gen(volumeID), target, restarted)
    requires Happens(gen, report, h, e, r, volumeID, target)
    ensures Around(gen, h0, r, gen(volumeID), target, restarted || IsRestart(e))
  {
    if e.PublishDies? {
      PublishDiesKeeps(gen, report, h0, h, e, r, volumeID, target, restarted);
    } else if e.UnpublishDies? {
      UnpublishDiesKeeps(gen, report, h0, h, e, r, volumeID, target, restarted);
    } else {
      CallKeeps(gen, report, h0, h, e, r, volumeID, target, restarted);
    }
  }

  lemma {:induction false} HistoryKeeps(gen: string -> string, report: seq<string> -> seq<string>, hosts: seq<Host>,
        events: seq<Event>, volumeID: string, target: string)
    requires History(gen, report, hosts, events, volumeID, target) && Clear(gen, hosts[0], volumeID, target)
    ensures Around(gen, hosts[0], hosts[|events|], gen(volumeID), target, AnyRestart(events))
    decreases |events|
  {
    if events == [] {
      ClearIsAround(gen, hosts[0], volumeID, target);
    } else {
      var n := |events| - 1;
      HistoryKeeps(gen, report, hosts[..n + 1], events[..n], volumeID, target);
      EventKeeps(gen, report, hosts[0], hosts[n], events[n], hosts[n + 1], volumeID, target, AnyRestart(events[..n]));
    }
  }

  /** Devices, filesystems, mounts and target directories are as before, and so is the volume list. */
  ghost predicate Restored(h0: Host, t: Host, restarted: bool)
  {
    && t.node.devices == h0.node.devices && t.filesystems == h0.filesystems
    && t.mounts == h0.mounts && t.dirs == h0.dirs
    && t.node.memory == if restarted then Backed(h0.node.visible, h0.node.devices) else h0.node.memory
  }

  lemma UnlistedIsRestored(gen: string -> string, h0: Host, t: Host, volumeID: string, target: string, restarted: bool)
    requires Clear(gen, h0, volumeID, target) && Around(gen, h0, t, gen(volumeID), target, restarted)
    requires gen(volumeID) !in t.node.memory
    ensures Restored(h0, t, restarted)
  {
    var id := gen(volumeID);
    ListedIffDevice(gen, t.node, id);
    ListedIffDevice(gen, h0.node, id);
    assert t.mounts - {target} == t.mounts && t.dirs - {target} == t.dirs;
    SameElsewhere(h0.node, t.node, id);
    SameFilesystems(h0, t, id, target);
    SameMemory(if restarted then Backed(h0.node.visible, h0.node.devices) else h0.node.memory, t.node.memory, id);
  }

  lemma SameElsewhere(n0: Node, n: Node, id: string)
    requires DevicesElsewhere(n0.devices, n.devices, id) && !HasDevice(n0.devices, id) && !HasDevice(n.devices, id)
    ensures n.devices == n0.devices
  {
  }

  lemma SameFilesystems(h0: Host, t: Host, id: string, target: string)
    requires HostAside(h0, t, id, target) && !HasDevice(h0.node.devices, id) && !HasDevice(t.node.devices, id)
    requires h0.filesystems.Keys <= h0.node.devices.Keys
    ensures t.filesystems == h0.filesystems
  {
  }

  lemma SameMemory(a: Entries, b: Entries, id: string)
    requires EntriesElsewhere(a, b, id) && id !in a && id !in b
    ensures a == b
  {
    forall i ensures SameAt(b, a, i) {}
    forall i ensures i in a <==> i in b { assert SameAt(b, a, i); }
    forall i | i in a ensures a[i] == b[i] { assert SameAt(b, a, i); }
  }

  /**
   * However often the volume was published and unpublished before, and wherever the driver died in those calls, an
   * unpublish call that succeeds restores the node, it does succeed when nothing fails, and repeating it changes
   * nothing.
   */
  lemma UnpublishRestores(gen: string -> string, report: seq<string> -> seq<string>, hosts: seq<Host>,
        events: seq<Event>, volumeID: string, target: string, fate: UnpublishFate, again: UnpublishFate)
    requires History(gen, report, hosts, events, volumeID, target) && Clear(gen, hosts[0], volumeID, target)
    ensures var (t, ok) := Unpublished(gen, hosts[|events|], volumeID, target, fate);
            && (ok ==> Restored(hosts[0], t, AnyRestart(events)))
            && (fate.inspect && fate.unmount && fate.rmdir && fate.removed ==> ok)
            && (ok ==> Unpublished(gen, t, volumeID, target, again) == (t, true))
  {
    var restarted := AnyRestart(events);
    HistoryKeeps(gen, report, hosts, events, volumeID, target);
    UnpublishKeeps(gen, hosts[0], hosts[|events|], volumeID, target, fate, restarted);
    var (t, ok) := Unpublished(gen, hosts[|events|], volumeID, target, fate);
    if ok {
      UnlistedIsRestored(gen, hosts[0], t, volumeID, target, restarted);
      TargetIsByName(gen, t.node, volumeID);
    }
  }

  /**
   * Without a listed volume of that ID or name an unpublish call changes nothing. It fails exactly when it finds
   * something mounted at the target.
   */
  lemma UnknownVolumeStays(gen: string -> string, h: Host, volumeID: string, target: string, fate: UnpublishFate)
    requires Named(gen, h.node.memory) && volumeID !in h.node.memory
    requires forall id :: id in h.node.memory ==> h.node.memory[id].name != volumeID
    requires Injective(gen)
    ensures Unpublished(gen, h, volumeID, target, fate).0 == h
    ensures Unpublished(gen, h, volumeID, target, fate).1 <==> !(fate.inspect && target in h.mounts)
  {
  }

  // ------------------------------------------------------------------------------ what is published

  /** What a successful create replied is listed, and a device in this mode is large enough. */
  lemma ReplyIsBacked(gen: string -> string, s: Node, name: string, asked: nat, fate: CreateFate)
    requires fate.device.Some? ==> asked <= fate.device.value
    ensures var (t, reply) := CreateResult(gen, s, name, asked, fate);
            && t.mode == s.mode && t.phase == s.phase
            && (reply.Ok? ==> reply.id == gen(name) && gen(name) in t.memory && asked <= t.memory[gen(name)].size)
  {
  }

  lemma ListedIsLargeEnough(gen: string -> string, n: Node, k: DeviceKey)
    requires Inv(gen, n) && Idle(n) && k in n.devices && k.id in n.memory
    ensures n.memory[k.id].size <= n.devices[k]
  {
  }

  lemma CreatedIsLargeEnough(gen: string -> string, s: Node, name: string, asked: nat, fate: CreateFate)
    requires Injective(gen) && Inv(gen, s) && Idle(s) && (fate.device.Some? ==> asked <= fate.device.value)
    ensures var (t, reply) := CreateResult(gen, s, name, asked, fate);
            var k := DeviceKey(s.mode, gen(name));
            && t.mode == s.mode && s.devices.Keys <= t.devices.Keys
            && (reply.Ok? ==> reply.id == gen(name) && (k in t.devices ==> asked <= t.devices[k]))
  {
    var (t, reply) := CreateResult(gen, s, name, asked, fate);
    var k := DeviceKey(s.mode, gen(name));
    ReplyIsBacked(gen, s, name, asked, fate);
    CreateCompletes(gen, s, name, asked, fate);
    if reply.Ok? && k in t.devices { ListedIsLargeEnough(gen, t, k); }
  }

  /**
   * A successful publish makes the volume available: its device exists in the mode of the driver, is large enough,
   * has the requested filesystem and, unless the target was mounted already, is what is mounted there, with the
   * requested flags.
   */
  lemma PublishMounts(gen: string -> string, report: seq<string> -> seq<string>, h: Host, req: Request,
        fate: PublishFate)
    requires Injective(gen) && Inv(gen, h.node) && Idle(h.node) && LargeEnough(req, fate)
    requires h.filesystems.Keys <= h.node.devices.Keys
    ensures var (t, ok) := Published(gen, report, h, req, fate);
            var key := DeviceKey(h.node.mode, gen(req.volumeID));
            ok ==> Available(report, h.mounts, t, key, req) && req.size <= t.node.devices[key]
  {
    var (n, reply) := CreateResult(gen, h.node, req.volumeID, req.size, fate.create);
    var (t, ok) := Published(gen, report, h, req, fate);
    if ok {
      CreatedIsLargeEnough(gen, h.node, req.volumeID, req.size, fate.create);
      AttachedIsAvailable(report, WithNode(h, n), reply, req, fate);
    }
  }

  // ------------------------------------------------------------------------------ repeated publishing

  /** The call learns what it needs to know about device and target. */
  predicate Informed(fate: PublishFate)
  {
    fate.detect && fate.target
  }

  /** The device is there and has the requested filesystem, and something is mounted at the target. */
  ghost predicate InPlace(h: Host, id: string, req: Request)
  {
    var key := DeviceKey(h.node.mode, id);
    && key in h.node.devices && key in h.filesystems && h.filesystems[key] == FsType(req)
    && req.target in h.mounts
  }

  /** The target was mounted before the request, or the kernel lists all flags of a mount made for it. */
  ghost predicate Recognized(report: seq<string> -> seq<string>, h: Host, req: Request)
  {
    req.target in h.mounts || Matches(MountFlags(req), report(MountFlags(req)))
  }

  lemma AttachedIsInPlace(report: seq<string> -> seq<string>, h: Host, reply: Reply, req: Request, fate: PublishFate)
    requires Attached(report, h, reply, req, fate).1
    ensures var t := Attached(report, h, reply, req, fate).0;
            && reply.Ok? && InPlace(t, reply.id, req) && t.node == h.node
            && (Compatible(t.mounts[req.target], req) <==> Recognized(report, h, req))
            && (h.filesystems.Keys <= h.node.devices.Keys ==> t.filesystems.Keys <= h.node.devices.Keys)
  {
  }

  lemma InPlaceAnswers(report: seq<string> -> seq<string>, h: Host, reply: Reply, req: Request, fate: PublishFate)
    requires reply.Ok? && InPlace(h, reply.id, req)
    ensures Attached(report, h, reply, req, fate) == (h, Informed(fate) && Compatible(h.mounts[req.target], req))
  {
  }

  /** After a successful create the volume is listed and large enough, so another one finds it. */
  lemma CreatedIsFound(gen: string -> string, s: Node, name: string, asked: nat, fate: CreateFate, again: CreateFate)
    requires (fate.device.Some? ==> asked <= fate.device.value) && CreateResult(gen, s, name, asked, fate).1.Ok?
    ensures var n := CreateResult(gen, s, name, asked, fate).0;
            CreateResult(gen, n, name, asked, again).0 == n && CreateResult(gen, n, name, asked, again).1.Ok?
            && CreateResult(gen, n, name, asked, again).1.id == gen(name)
            && CreateResult(gen, s, name, asked, fate).1.id == gen(name)
  {
  }

  /**
   * Repeating a publish request that succeeded changes nothing, whatever operations would fail. Unless it cannot
   * learn what is there, it succeeds if and only if the target was mounted before the first request already or the
   * kernel lists all flags of the new mount.
   */
  lemma PublishIsIdempotent(gen: string -> string, report: seq<string> -> seq<string>, h: Host, req: Request,
        fate: PublishFate, again: PublishFate)
    requires LargeEnough(req, fate) && h.filesystems.Keys <= h.node.devices.Keys
    ensures var (t, ok) := Published(gen, report, h, req, fate);
            ok ==> Published(gen, report, t, req, again) == (t, Informed(again) && Recognized(report, h, req))
  {
    var (n, reply) := CreateResult(gen, h.node, req.volumeID, req.size, fate.create);
    var (t, ok) := Published(gen, report, h, req, fate);
    if ok {
      AttachedIsInPlace(report, WithNode(h, n), reply, req, fate);
      CreatedIsFound(gen, h.node, req.volumeID, req.size, fate.create, again.create);
      NothingLost(t, n);
      InPlaceAnswers(report, t, CreateResult(gen, n, req.volumeID, req.size, again.create).1, req, again);
    }
  }

  /** A request without special settings and a kind environment. */
  function PlainRequest(volumeID: string, target: string, flags: seq<string>, size: nat): Request
  {
    Request(volumeID, target, "", flags, false, false, size)
  }

  function KindFate(actual: nat): PublishFate
  {
    PublishFate(CreateFate(Done, Some(actual), Done, Done), true, true, true, true, true)
  }

  lemma PlainPublishWorks(gen: string -> string, report: seq<string> -> seq<string>, h: Host, req: Request, actual: nat)
    requires gen(req.volumeID) !in h.node.memory && gen(req.volumeID) !in h.node.temps && req.fsType == ""
    requires DeviceKey(h.node.mode, gen(req.volumeID)) !in h.node.devices && h.filesystems.Keys <= h.node.devices.Keys
    requires req.target !in h.mounts
    ensures Published(gen, report, h, req, KindFate(actual)).1
  {
    var id := gen(req.volumeID);
    var key := DeviceKey(h.node.mode, id);
    var (n, reply) := CreateResult(gen, h.node, req.volumeID, req.size, KindFate(actual).create);
    assert reply == Ok(id, actual) && n.mode == h.node.mode && key in n.devices;
    assert key !in WithNode(h, n).filesystems;
  }

  /**
   * So publishing is not idempotent: on every node that has no such volume yet, a request with a flag that the
   * kernel does not list, like "defaults", succeeds the first time and fails when it is repeated.
   */
  lemma UnlistedFlagFailsTheSecondTime(gen: string -> string, report: seq<string> -> seq<string>, h: Host,
        volumeID: string, target: string, flag: string, size: nat, actual: nat)
    requires gen(volumeID) !in h.node.memory && gen(volumeID) !in h.node.temps && size <= actual
    requires DeviceKey(h.node.mode, gen(volumeID)) !in h.node.devices && h.filesystems.Keys <= h.node.devices.Keys
    requires target !in h.mounts && flag != "bind"
    requires forall j :: 0 <= j < |report([flag])| ==> !SameFlag(flag, report([flag])[j])
    ensures var req := PlainRequest(volumeID, target, [flag], size);
            var (t, ok) := Published(gen, report, h, req, KindFate(actual));
            ok && Published(gen, report, t, req, KindFate(actual)) == (t, false)
  {
    var req := PlainRequest(volumeID, target, [flag], size);
    PlainPublishWorks(gen, report, h, req, actual);
    assert MountFlags(req) == [flag];
    assert !Matches([flag], report([flag])) by { assert [flag][0] == flag; }
    PublishIsIdempotent(gen, report, h, req, KindFate(actual), KindFate(actual));
  }

  /** The only device of a volume is recorded with its mode. */
  lemma DeviceIsRecorded(gen: string -> string, n: Node, id: string, mode: Mode)
    requires Inv(gen, n) && DeviceKey(n.mode, id) in n.devices
    ensures id in n.visible && n.visible[id].mode == n.mode && id in Backed(n.visible, n.devices)
    ensures DeviceKey(mode, id) in n.devices <==> mode == n.mode
  {
  }

  lemma FoundAgain(gen: string -> string, r: Host, req: Request, again: PublishFate, report: seq<string> -> seq<string>)
    requires gen(req.volumeID) in r.node.memory && r.filesystems.Keys <= r.node.devices.Keys && req.target in r.mounts
    requires DeviceKey(r.node.mode, gen(req.volumeID)) in r.node.devices ==> InPlace(r, gen(req.volumeID), req)
    ensures Published(gen, report, r, req, again) ==
            (r, && Informed(again) && r.node.memory[gen(req.volumeID)].size >= req.size
                && DeviceKey(r.node.mode, gen(req.volumeID)) in r.node.devices && Compatible(r.mounts[req.target], req))
  {
    var id := gen(req.volumeID);
    var (n, reply) := CreateResult(gen, r.node, req.volumeID, req.size, again.create);
    NothingLost(r, n);
    if reply.Ok? && DeviceKey(r.node.mode, id) in r.node.devices { InPlaceAnswers(report, r, reply, req, again); }
  }

  /**
   * Across a restart a repeated request changes nothing either. It succeeds if and only if, in addition, the driver
   * runs in the mode in which the volume was created and the persisted size covers the request.
   */
  lemma PublishAfterRestart(gen: string -> string, report: seq<string> -> seq<string>, h: Host, req: Request,
        fate: PublishFate, r: Host, how: Restart, again: PublishFate)
    requires Injective(gen) && Inv(gen, h.node) && Idle(h.node) && h.filesystems.Keys <= h.node.devices.Keys
    requires LargeEnough(req, fate)
    ensures var (t, ok) := Published(gen, report, h, req, fate);
            ok && Restarted(gen, t, r, how) ==>
            && gen(req.volumeID) in t.node.visible
            && Published(gen, report, r, req, again) ==
               (r, && Informed(again) && how.mode == t.node.mode && req.size <= t.node.visible[gen(req.volumeID)].size
                   && Recognized(report, h, req))
  {
    var id := gen(req.volumeID);
    var (n, reply) := CreateResult(gen, h.node, req.volumeID, req.size, fate.create);
    var (t, ok) := Published(gen, report, h, req, fate);
    CreateCompletes(gen, h.node, req.volumeID, req.size, fate.create);
    NothingLost(h, n);
    if ok && Restarted(gen, t, r, how) {
      AttachedIsInPlace(report, WithNode(h, n), reply, req, fate);
      RestartFinds(gen, n, how, r.node);
      DeviceIsRecorded(gen, n, id, how.mode);
      FoundAgain(gen, r, req, again, report);
    }
  }
}
