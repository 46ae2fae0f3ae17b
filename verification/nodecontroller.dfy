/**
 * The node controller as the program it is: a volume list, a state store and a device
 * manager that its calls update one statement at a time. Each call without a competitor
 * is shown to be one run of the volume life cycle, so that everything proved about all
 * runs holds for it, whatever its environment makes fail.
 */
module NodeControllers {
  import opened Outcomes
  import opened VolumeLifecycle
  import opened VolumeRuns
  import opened Recovery

  /** What the environment makes of the operations of one CreateVolume call. */
  datatype CreateFate = CreateFate(persist: Outcome, device: Option<nat>, undo: Outcome, resize: Outcome)

  ghost function Fates(fate: nat -> Outcome, n: nat): (r: seq<Outcome>)
    ensures |r| == n && forall i :: 0 <= i < n ==> r[i] == fate(i)
  {
    seq(n, i requires 0 <= i < n => fate(i))
  }

  /** What the device manager answers: an existing device is refused, otherwise it is up to the environment. */
  ghost function DeviceFate(gen: string -> string, s: Node, name: string, fate: CreateFate): Option<nat>
  {
    if DeviceKey(s.mode, gen(name)) in s.devices then None else fate.device
  }

  /** How a create call that passed its lookups ends: the node and the reply. */
  ghost function MakeResult(gen: string -> string, s: Node, name: string, asked: nat, fate: CreateFate): (Node, Reply)
  {
    var id := gen(name);
    var landed := Landed(s, id, fate.persist);
    var s1 := PutEntry(s, id, Volume(name, asked, s.mode), landed);
    match (landed, DeviceFate(gen, s, name, fate))
    case (Done, None) => (DropEntry(s1, id, fate.undo), Failed)
    case (Done, Some(actual)) =>
      var s2 := s1.(devices := s.devices[DeviceKey(s.mode, id) := actual]);
      var s3 := if actual == asked then s2 else PutEntry(s2, id, Volume(name, actual, s.mode), fate.resize);
      (s3.(memory := s.memory[id := Volume(name, actual, s.mode)]), Ok(id, actual))
    case (_, _) => (s1, Failed)
  }

  ghost function MakeSteps(gen: string -> string, s: Node, name: string, fate: CreateFate): seq<Step>
  {
    var got := DeviceFate(gen, s, name, fate);
    if !Landed(s, gen(name), fate.persist).Done? then [InCreate(0, Persist(fate.persist))]
    else if got.None? then [InCreate(0, Persist(Done)), InCreate(0, MakeDevice(None)), InCreate(0, Undo(fate.undo))]
    else
      [InCreate(0, Persist(Done)), InCreate(0, MakeDevice(got)), InCreate(0, StoreSize(fate.resize)),
       InCreate(0, AddToMemory)]
  }

  lemma CallMoves(s: Node, a: Call, b: Call)
    ensures WithCall(WithCall(s, 0, a), 0, b) == WithCall(s, 0, b)
  {
  }

  lemma MakeRuns(gen: string -> string, s: Node, name: string, asked: nat, fate: CreateFate)
    requires s.phase.Serving? && (fate.device.Some? ==> asked <= fate.device.value)
    ensures var (t, reply) := MakeResult(gen, s, name, asked, fate);
            Run(gen, WithCall(s, 0, Create(name, asked, IdFree)), MakeSteps(gen, s, name, fate)) ==
            Some(WithCall(t, 0, Create(name, asked, Replied(reply))))
  {
    var s0 := WithCall(s, 0, Create(name, asked, IdFree));
    var landed := Landed(s, gen(name), fate.persist);
    var s1 := PutEntry(s, gen(name), Volume(name, asked, s.mode), landed);
    PersistMoves(gen, s, name, asked, landed);
    if !landed.Done? {
      PathIsRun(gen, [s0, WithCall(s1, 0, Create(name, asked, Replied(Failed)))], MakeSteps(gen, s, name, fate));
    } else {
      var t1 := WithCall(s1, 0, Create(name, asked, EntryStored));
      PathIsRun(gen, [s0, t1], [InCreate(0, Persist(Done))]);
      var got := DeviceFate(gen, s, name, fate);
      var end, rest := DeviceRuns(gen, s1, name, asked, got, fate);
      RunConcat(gen, s0, [InCreate(0, Persist(Done))], t1, rest, end);
      assert [InCreate(0, Persist(Done))] + rest == MakeSteps(gen, s, name, fate);
    }
  }

  lemma PersistMoves(gen: string -> string, s: Node, name: string, asked: nat, landed: Outcome)
    requires s.phase.Serving?
    ensures Persisted(gen, WithCall(s, 0, Create(name, asked, IdFree)), 0, landed) ==
            WithCall(PutEntry(s, gen(name), Volume(name, asked, s.mode), landed), 0,
                     Create(name, asked, if landed.Done? then EntryStored else Replied(Failed)))
  {
    CallMoves(s, Create(name, asked, IdFree),
              Create(name, asked, if landed.Done? then EntryStored else Replied(Failed)));
  }

  lemma SizeMoves(gen: string -> string, s: Node, name: string, asked: nat, actual: nat, how: Outcome)
    requires s.phase.Serving? && gen(name) !in s.temps
    ensures DoStoreSize(gen, WithCall(s, 0, Create(name, asked, DeviceMade(actual))), 0, how) ==
            WithCall(if actual == asked then s else PutEntry(s, gen(name), Volume(name, actual, s.mode), how), 0,
                     Create(name, asked, SizeStored(actual)))
  {
    CallMoves(s, Create(name, asked, DeviceMade(actual)), Create(name, asked, SizeStored(actual)));
  }

  lemma DeviceMoves(gen: string -> string, s: Node, name: string, asked: nat, got: Option<nat>)
    requires s.phase.Serving?
    requires got.Some? ==> asked <= got.value && DeviceKey(s.mode, gen(name)) !in s.devices
    ensures DoMakeDevice(gen, WithCall(s, 0, Create(name, asked, EntryStored)), 0, got) == Some(
      if got.None? then WithCall(s, 0, Create(name, asked, RollBack))
      else
        WithCall(s.(devices := s.devices[DeviceKey(s.mode, gen(name)) := got.value]), 0,
                 Create(name, asked, DeviceMade(got.value))))
  {
    CallMoves(s, Create(name, asked, EntryStored),
              Create(name, asked, if got.None? then RollBack else DeviceMade(got.value)));
  }

  /** From the stored entry on: roll back, or device, size and volume list. */
  lemma DeviceRuns(gen: string -> string, s: Node, name: string, asked: nat, got: Option<nat>, fate: CreateFate)
    returns (end: Node, steps: seq<Step>)
    requires s.phase.Serving? && gen(name) !in s.temps
    requires got.Some? ==> asked <= got.value && DeviceKey(s.mode, gen(name)) !in s.devices
    ensures steps == if got.None? then [InCreate(0, MakeDevice(None)), InCreate(0, Undo(fate.undo))]
                     else [InCreate(0, MakeDevice(got)), InCreate(0, StoreSize(fate.resize)), InCreate(0, AddToMemory)]
    ensures Run(gen, WithCall(s, 0, Create(name, asked, EntryStored)), steps) == Some(end)
    ensures got.None? ==> end == WithCall(DropEntry(s, gen(name), fate.undo), 0, Create(name, asked, Replied(Failed)))
    ensures got.Some? ==>
            var s1 := s.(devices := s.devices[DeviceKey(s.mode, gen(name)) := got.value]);
            var s2 := if got.value == asked then s1
                      else PutEntry(s1, gen(name), Volume(name, got.value, s.mode), fate.resize);
            end == WithCall(s2.(memory := s.memory[gen(name) := Volume(name, got.value, s.mode)]), 0,
                            Create(name, asked, Replied(Ok(gen(name), got.value))))
  {
    var s0 := WithCall(s, 0, Create(name, asked, EntryStored));
    DeviceMoves(gen, s, name, asked, got);
    if got.None? {
      CallMoves(s, Create(name, asked, RollBack), Create(name, asked, Replied(Failed)));
      end := WithCall(DropEntry(s, gen(name), fate.undo), 0, Create(name, asked, Replied(Failed)));
      steps := [InCreate(0, MakeDevice(None)), InCreate(0, Undo(fate.undo))];
      PathIsRun(gen, [s0, WithCall(s, 0, Create(name, asked, RollBack)), end], steps);
    } else {
      var s1 := s.(devices := s.devices[DeviceKey(s.mode, gen(name)) := got.value]);
      var t1 := WithCall(s1, 0, Create(name, asked, DeviceMade(got.value)));
      end := ListRuns(gen, s1, name, asked, got.value, fate.resize);
      PathIsRun(gen, [s0, t1], [InCreate(0, MakeDevice(got))]);
      RunConcat(gen, s0, [InCreate(0, MakeDevice(got))], t1,
                [InCreate(0, StoreSize(fate.resize)), InCreate(0, AddToMemory)], end);
      steps := [InCreate(0, MakeDevice(got))] + [InCreate(0, StoreSize(fate.resize)), InCreate(0, AddToMemory)];
    }
  }

  lemma ListRuns(gen: string -> string, s: Node, name: string, asked: nat, actual: nat,
        how: Outcome) returns (end: Node)
    requires s.phase.Serving? && gen(name) !in s.temps
    ensures var t := if actual == asked then s else PutEntry(s, gen(name), Volume(name, actual, s.mode), how);
            end == WithCall(t.(memory := s.memory[gen(name) := Volume(name, actual, s.mode)]), 0,
                            Create(name, asked, Replied(Ok(gen(name), actual))))
    ensures Run(gen, WithCall(s, 0, Create(name, asked, DeviceMade(actual))),
                [InCreate(0, StoreSize(how)), InCreate(0, AddToMemory)]) == Some(end)
  {
    var t := if actual == asked then s else PutEntry(s, gen(name), Volume(name, actual, s.mode), how);
    SizeMoves(gen, s, name, asked, actual, how);
    CallMoves(t, Create(name, asked, SizeStored(actual)), Create(name, asked, Replied(Ok(gen(name), actual))));
    var t1 := WithCall(t, 0, Create(name, asked, SizeStored(actual)));
    end := DoAddToMemory(gen, t1, 0);
    PathIsRun(gen, [WithCall(s, 0, Create(name, asked, DeviceMade(actual))), t1, end],
              [InCreate(0, StoreSize(how)), InCreate(0, AddToMemory)]);
  }

  ghost function LookupSteps(gen: string -> string, s: Node, name: string, asked: nat): seq<Step>
  {
    if gen(name) in s.memory then [BeginCreate(0, name, asked), InCreate(0, LookupName(Some(gen(name))))]
    else [BeginCreate(0, name, asked), InCreate(0, LookupName(None)), InCreate(0, LookupId)]
  }

  lemma LookupOfListedRuns(gen: string -> string, s: Node, name: string, asked: nat)
    requires s.phase.Serving? && s.calls == map[] && gen(name) in s.memory && s.memory[gen(name)].name == name
    ensures Run(gen, s, LookupSteps(gen, s, name, asked)) ==
      Some(WithCall(s, 0, Create(name, asked, Replied(
        if s.memory[gen(name)].size < asked then Failed else Ok(gen(name), s.memory[gen(name)].size)))))
  {
    var id := gen(name);
    var s1 := WithCall(s, 0, Create(name, asked, CreateLocked));
    var s2 := DoLookupName(s1, 0, Some(id)).value;
    CallMoves(s, Create(name, asked, CreateLocked), s2.calls[0]);
    PathIsRun(gen, [s, s1, s2], LookupSteps(gen, s, name, asked));
  }

  lemma LookupOfUnlistedRuns(gen: string -> string, s: Node, name: string, asked: nat)
    requires s.phase.Serving? && s.calls == map[] && gen(name) !in s.memory
    requires forall i :: i in s.memory ==> s.memory[i].name != name
    ensures Run(gen, s, LookupSteps(gen, s, name, asked)) == Some(WithCall(s, 0, Create(name, asked, IdFree)))
  {
    var s1 := WithCall(s, 0, Create(name, asked, CreateLocked));
    var s2 := WithCall(s, 0, Create(name, asked, NameFree));
    CallMoves(s, Create(name, asked, CreateLocked), Create(name, asked, NameFree));
    CallMoves(s, Create(name, asked, NameFree), Create(name, asked, IdFree));
    assert DoLookupName(s1, 0, None) == Some(s2);
    PathIsRun(gen, [s, s1, s2, WithCall(s, 0, Create(name, asked, IdFree))], LookupSteps(gen, s, name, asked));
  }

  /** The lookups of a create call without competitor: they find the volume of that name or neither name nor ID. */
  lemma LookupRuns(gen: string -> string, s: Node, name: string, asked: nat)
    requires Injective(gen) && Named(gen, s.memory) && s.phase.Serving? && s.calls == map[]
    ensures Run(gen, s, LookupSteps(gen, s, name, asked)) ==
      Some(WithCall(s, 0, Create(name, asked,
        if gen(name) !in s.memory then IdFree
        else if s.memory[gen(name)].size < asked then Replied(Failed)
        else Replied(Ok(gen(name), s.memory[gen(name)].size)))))
  {
    if gen(name) in s.memory {
      LookupOfListedRuns(gen, s, name, asked);
    } else {
      LookupOfUnlistedRuns(gen, s, name, asked);
    }
  }

  ghost function CreateSteps(gen: string -> string, s: Node, name: string, asked: nat, fate: CreateFate): seq<Step>
  {
    LookupSteps(gen, s, name, asked) + if gen(name) in s.memory then [] else MakeSteps(gen, s, name, fate)
  }

  /** How a create call ends: with the listed volume of that name, if it is large enough, or with a new one. */
  ghost function CreateResult(gen: string -> string, s: Node, name: string, asked: nat, fate: CreateFate): (Node, Reply)
  {
    if gen(name) !in s.memory then MakeResult(gen, s, name, asked, fate)
    else if s.memory[gen(name)].size < asked then (s, Failed)
    else (s, Ok(gen(name), s.memory[gen(name)].size))
  }

  /** How a delete call ends: the node and the answer. */
  ghost function DeleteResult(s: Node, id: string, removed: bool, how: Outcome): (Node, bool)
  {
    if id !in s.memory then (s, true)
    else if !removed then (s, false)
    else
      var s1 := s.(devices := s.devices - {DeviceKey(s.memory[id].mode, id)});
      (DropEntry(s1, id, how).(memory := s.memory - {id}), true)
  }

  /** The volume is listed, has its device and an entry, and everything else is as it was. */
  ghost predicate Adds(s: Node, t: Node, id: string, v: Volume)
  {
    && t.memory == s.memory[id := v] && t.devices == s.devices[DeviceKey(v.mode, id) := v.size]
    && id in t.visible && t.visible == s.visible[id := t.visible[id]]
  }

  lemma PutTwice(s: Node, id: string, v: Volume, w: Volume, how: Outcome)
    ensures var t := PutEntry(PutEntry(s, id, v, Done), id, w, how);
            && id in t.visible && t.visible == s.visible[id := t.visible[id]]
            && (how.Done? ==> t.visible[id] == w && t.durable == t.visible)
            && t == s.(visible := t.visible, durable := t.durable, temps := t.temps)
  {
    assert s.visible[id := v][id := w] == s.visible[id := w];
    match how
    case Done =>
    case FailedLate =>
    case FailedEarly(_) =>
  }

  lemma MadeIsRecorded(gen: string -> string, s: Node, name: string, asked: nat, fate: CreateFate)
    requires MakeResult(gen, s, name, asked, fate).1.Ok?
    ensures var (t, reply) := MakeResult(gen, s, name, asked, fate);
            var v := Volume(name, reply.size, s.mode);
            && reply.id == gen(name) && Adds(s, t, gen(name), v)
            && (reply.size == asked || fate.resize.Done? ==> t.visible[gen(name)] == v && t.durable == t.visible)
            && t.mode == s.mode && t.phase == s.phase && t.calls == s.calls
  {
    var (t, reply) := MakeResult(gen, s, name, asked, fate);
    PutTwice(s, gen(name), Volume(name, asked, s.mode), Volume(name, reply.size, s.mode), fate.resize);
  }

  lemma FailedMakeLeavesNothing(gen: string -> string, s: Node, name: string, asked: nat, fate: CreateFate)
    requires MakeResult(gen, s, name, asked, fate).1.Failed?
    ensures var t := MakeResult(gen, s, name, asked, fate).0;
            var id := gen(name);
            && t.memory == s.memory && t.devices == s.devices
            && (id in s.temps ==> t == s)
            && (id !in s.temps && fate.persist.Done? && fate.undo.Done? ==> t.visible == t.durable == s.visible - {id})
  {
    var id := gen(name);
    assert s.visible[id := Volume(name, asked, s.mode)] - {id} == s.visible - {id};
  }

  /**
   * What a create call for a new volume leaves behind. If it succeeds, the volume is listed with the size of its
   * device, and its entry says the same and is durable unless storing the real size failed. If it fails, no volume and
   * no device have come up, and there is no entry either if writing and removing it work.
   */
  lemma CreateIsRecorded(gen: string -> string, s: Node, name: string, asked: nat, fate: CreateFate)
    requires gen(name) !in s.memory
    ensures var (t, reply) := CreateResult(gen, s, name, asked, fate);
            var id := gen(name);
            if reply.Ok? then
              var v := Volume(name, reply.size, s.mode);
              && reply.id == id && Adds(s, t, id, v)
              && (reply.size == asked || fate.resize.Done? ==> t.visible[id] == v && t.durable == t.visible)
            else
              && t.memory == s.memory && t.devices == s.devices
              && (id in s.temps ==> t == s)
              && (id !in s.temps && fate.persist.Done? && fate.undo.Done?
                  ==> t.visible == t.durable == s.visible - {id})
  {
    if MakeResult(gen, s, name, asked, fate).1.Ok? {
      MadeIsRecorded(gen, s, name, asked, fate);
    } else {
      FailedMakeLeavesNothing(gen, s, name, asked, fate);
    }
  }

  /** A delete call for a listed volume removes it from the list, its device and its entry, and nothing else. */
  lemma DeleteIsComplete(s: Node, id: string, removed: bool, how: Outcome)
    requires id in s.memory
    ensures var (t, ok) := DeleteResult(s, id, removed, how);
            && (ok <==> removed)
            && if !ok then t == s else
               && t.memory == s.memory - {id} && t.devices == s.devices - {DeviceKey(s.memory[id].mode, id)}
               && (how.Done? ==> t.visible == t.durable == s.visible - {id})
               && t == s.(memory := t.memory, devices := t.devices, visible := t.visible, durable := t.durable)
  {
  }

  /** Deleting what was just created leads back to where it began. */
  lemma DeleteUndoesCreate(gen: string -> string, s: Node, name: string, asked: nat, fate: CreateFate)
    requires gen(name) !in s.memory && CreateResult(gen, s, name, asked, fate).1.Ok?
    ensures var t := CreateResult(gen, s, name, asked, fate).0;
            var rest := s.visible - {gen(name)};
            DeleteResult(t, gen(name), true, Done) == (s.(visible := rest, durable := rest, temps := t.temps), true)
  {
    var (t, reply) := CreateResult(gen, s, name, asked, fate);
    var id := gen(name);
    MadeIsRecorded(gen, s, name, asked, fate);
    DeleteIsComplete(t, id, true, Done);
    assert t.memory - {id} == s.memory && t.visible - {id} == s.visible - {id};
    assert t.devices - {DeviceKey(s.mode, id)} == s.devices;
  }

  ghost function DeleteSteps(s: Node, id: string, removed: bool, how: Outcome): seq<Step>
  {
    [BeginDelete(0, id), InDelete(0, FindVolume)] +
    if id !in s.memory then []
    else if !removed then [InDelete(0, RemoveDevice(false))]
    else [InDelete(0, RemoveDevice(true)), InDelete(0, VolumeLifecycle.RemoveEntry(how)), InDelete(0, Forget)]
  }

  lemma DeleteUnknownRuns(gen: string -> string, s: Node, id: string)
    requires s.phase.Serving? && s.calls == map[] && id !in s.memory
    ensures Run(gen, s, [BeginDelete(0, id), InDelete(0, FindVolume)]) == Some(WithCall(s, 0, Delete(id,
            Finished(true))))
  {
    CallMoves(s, Delete(id, DeleteLocked), Delete(id, Finished(true)));
    PathIsRun(gen, [s, WithCall(s, 0, Delete(id, DeleteLocked)), WithCall(s, 0, Delete(id, Finished(true)))],
              [BeginDelete(0, id), InDelete(0, FindVolume)]);
  }

  lemma DeleteFindRuns(gen: string -> string, s: Node, id: string)
    requires s.phase.Serving? && s.calls == map[] && id in s.memory
    ensures Run(gen, s, [BeginDelete(0, id), InDelete(0, FindVolume)]) == Some(WithCall(s, 0, Delete(id,
            VolumeFound(s.memory[id]))))
  {
    CallMoves(s, Delete(id, DeleteLocked), Delete(id, VolumeFound(s.memory[id])));
    PathIsRun(gen, [s, WithCall(s, 0, Delete(id, DeleteLocked)), WithCall(s, 0, Delete(id, VolumeFound(s.memory[id])))],
              [BeginDelete(0, id), InDelete(0, FindVolume)]);
  }

  lemma RefusalRuns(gen: string -> string, s: Node, id: string)
    requires s.phase.Serving? && id in s.memory
    ensures Run(gen, WithCall(s, 0, Delete(id, VolumeFound(s.memory[id]))), [InDelete(0, RemoveDevice(false))]) ==
            Some(WithCall(s, 0, Delete(id, Finished(false))))
  {
    CallMoves(s, Delete(id, VolumeFound(s.memory[id])), Delete(id, Finished(false)));
    PathIsRun(gen, [WithCall(s, 0, Delete(id, VolumeFound(s.memory[id]))), WithCall(s, 0, Delete(id, Finished(false)))],
              [InDelete(0, RemoveDevice(false))]);
  }

  lemma DeleteRuns(gen: string -> string, s: Node, id: string, removed: bool, how: Outcome)
    requires s.phase.Serving? && s.calls == map[]
    ensures var (t, ok) := DeleteResult(s, id, removed, how);
            Run(gen, s, DeleteSteps(s, id, removed, how)) == Some(WithCall(t, 0, Delete(id, Finished(ok))))
  {
    var find := [BeginDelete(0, id), InDelete(0, FindVolume)];
    if id !in s.memory {
      DeleteUnknownRuns(gen, s, id);
      assert DeleteSteps(s, id, removed, how) == find;
    } else {
      var found := WithCall(s, 0, Delete(id, VolumeFound(s.memory[id])));
      DeleteFindRuns(gen, s, id);
      if !removed {
        RefusalRuns(gen, s, id);
        RunConcat(gen, s, find, found, [InDelete(0, RemoveDevice(false))], WithCall(s, 0, Delete(id, Finished(false))));
      } else {
        RemovalRuns(gen, s, id, how);
        RunConcat(gen, s, find, found,
                  [InDelete(0, RemoveDevice(true)), InDelete(0, VolumeLifecycle.RemoveEntry(how)), InDelete(0, Forget)],
                  WithCall(DeleteResult(s, id, true, how).0, 0, Delete(id, Finished(true))));
      }
    }
  }

  lemma RemovalRuns(gen: string -> string, s: Node, id: string, how: Outcome)
    requires s.phase.Serving? && id in s.memory
    ensures Run(gen, WithCall(s, 0, Delete(id, VolumeFound(s.memory[id]))),
                [InDelete(0, RemoveDevice(true)), InDelete(0, VolumeLifecycle.RemoveEntry(how)), InDelete(0, Forget)])
            == Some(WithCall(DeleteResult(s, id, true, how).0, 0, Delete(id, Finished(true))))
  {
    var s0 := WithCall(s, 0, Delete(id, VolumeFound(s.memory[id])));
    var s1 := s.(devices := s.devices - {DeviceKey(s.memory[id].mode, id)});
    var t1 := WithCall(s1, 0, Delete(id, DeviceGone));
    CallMoves(s, Delete(id, VolumeFound(s.memory[id])), Delete(id, DeviceGone));
    PathIsRun(gen, [s0, t1], [InDelete(0, RemoveDevice(true))]);
    ForgetRuns(gen, s1, id, how);
    RunConcat(gen, s0, [InDelete(0, RemoveDevice(true))], t1,
              [InDelete(0, VolumeLifecycle.RemoveEntry(how)), InDelete(0, Forget)],
              WithCall(DropEntry(s1, id, how).(memory := s.memory - {id}), 0, Delete(id, Finished(true))));
    assert [InDelete(0, RemoveDevice(true))] + [InDelete(0, VolumeLifecycle.RemoveEntry(how)), InDelete(0, Forget)] ==
           [InDelete(0, RemoveDevice(true)), InDelete(0, VolumeLifecycle.RemoveEntry(how)), InDelete(0, Forget)];
  }

  lemma ForgetRuns(gen: string -> string, s: Node, id: string, how: Outcome)
    requires s.phase.Serving?
    ensures Run(gen, WithCall(s, 0, Delete(id, DeviceGone)), [InDelete(0, VolumeLifecycle.RemoveEntry(how)),
            InDelete(0, Forget)]) ==
            Some(WithCall(DropEntry(s, id, how).(memory := s.memory - {id}), 0, Delete(id, Finished(true))))
  {
    var t := DropEntry(s, id, how);
    EntryMoves(s, id, how);
    CallMoves(t, Delete(id, EntryGone), Delete(id, Finished(true)));
    PathIsRun(gen, [WithCall(s, 0, Delete(id, DeviceGone)), WithCall(t, 0, Delete(id, EntryGone)),
                    WithCall(t.(memory := s.memory - {id}), 0, Delete(id, Finished(true)))],
              [InDelete(0, VolumeLifecycle.RemoveEntry(how)), InDelete(0, Forget)]);
  }

  lemma EntryMoves(s: Node, id: string, how: Outcome)
    requires s.phase.Serving?
    ensures DoRemoveEntry(WithCall(s, 0, Delete(id, DeviceGone)), 0, how) == WithCall(DropEntry(s, id, how), 0,
            Delete(id, EntryGone))
  {
    CallMoves(s, Delete(id, DeviceGone), Delete(id, EntryGone));
  }

  class NodeController {
    const gen: string -> string
    const mode: Mode
    var visible: Entries
    var durable: Entries
    var devices: Devices
    var pmemVolumes: Entries
    var temps: set<string>

    /** The node as the life cycle sees it between two calls. */
    ghost function View(): Node
      reads this
    {
      Node(visible, durable, devices, pmemVolumes, Serving, mode, map[], temps)
    }

    ghost predicate Valid()
      reads this
    {
      Injective(gen) && Inv(gen, View())
    }

    /** The node as a restarted driver finds it. */
    static ghost function DownNode(visible: Entries, durable: Entries, devices: Devices, temps: set<string>,
          mode: Mode): Node
    {
      Node(visible, durable, devices, map[], Down, mode, map[], temps)
    }

    /** The controller before it serves: what was read from the stores and what it found backed by a device. */
    constructor Loaded(gen: string -> string, mode: Mode, visible: Entries, durable: Entries, devices: Devices,
          temps: set<string>, found: Entries)
      ensures this.gen == gen && this.mode == mode && this.visible == visible && this.durable == durable
      ensures this.devices == devices && this.temps == temps && this.pmemVolumes == found
    {
      this.gen, this.mode, this.temps := gen, mode, temps;
      this.visible, this.durable, this.devices, this.pmemVolumes := visible, durable, devices, found;
    }

    /**
     * NewNodeControllerServer: `ids` is what the state directory listed, `a` what else can be learned and `fate` what
     * becomes of each removal. With an answer to every question the volume list becomes exactly the entries whose
     * device exists under the recorded mode, and only entries without device are removed, whatever removals fail.
     */
    static method NewNodeControllerServer(gen: string -> string, mode: Mode, visible: Entries, durable: Entries,
        devices: Devices, temps: set<string>, ids: seq<string>, a: Answers, fate: nat -> Outcome)
      returns (cs: NodeController, todo: seq<string>)
      requires Injective(gen) && Inv(gen, DownNode(visible, durable, devices, temps, mode))
      requires forall id :: id in ids <==> id in visible
      ensures fresh(cs) && cs.gen == gen && cs.mode == mode
      ensures ListsStale(todo, visible, devices, mode, a)
      ensures var s := DownNode(visible, durable, devices, temps, mode);
              && cs.View() == Recovered(s, mode, a, todo, Fates(fate, |todo|))
              && (NothingLost(s, mode, a) ==> cs.Valid() && cs.pmemVolumes == Backed(visible, devices))
              && (a.lists && a.unread !! visible.Keys ==> OneRecovery(gen, s, todo, Fates(fate, |todo|), cs.View()))
    {
      var found: Entries;
      found, todo := SortOut(mode, visible, devices, ids, a);
      cs := new NodeController.Loaded(gen, mode, visible, durable, devices, temps, found);
      ghost var s := DownNode(visible, durable, devices, temps, mode);
      ghost var hows := Fates(fate, |todo|);
      cs.CleanUp(todo, fate);
      SweptInPhase(s.(memory := found), Serving, todo, hows);
      if NothingLost(s, mode, a) { NothingLostKeepsInv(gen, s, mode, a, todo, hows); }
      if a.lists && a.unread !! visible.Keys {
        FullAnswers(visible, devices, mode, a, todo);
        FullRecovery(gen, s, a, todo, hows);
      }
    }

    /** The second loop of the recovery: removes the entries that seem to have no device one by one. */
    method CleanUp(todo: seq<string>, fate: nat -> Outcome)
      modifies this`visible, this`durable
      ensures View() == Swept(old(View()), todo, Fates(fate, |todo|))
    {
      ghost var hows := Fates(fate, |todo|);
      for i := 0 to |todo|
        invariant View() == Swept(old(View()), todo[..i], hows[..i])
      {
        RemoveEntry(todo[i], fate(i));
        SweptOneMore(old(View()), todo, hows, i);
      }
      assert hows[..|todo|] == hows && todo[..|todo|] == todo;
    }

    /** The first loop of the recovery: sorts the entries into those with and those without a device. */
    static method SortOut(mode: Mode, visible: Entries, devices: Devices, ids: seq<string>, a: Answers)
      returns (found: Entries, todo: seq<string>)
      requires forall id :: id in ids <==> id in visible
      ensures found == Kept(visible, devices, mode, a)
      ensures ListsStale(todo, visible, devices, mode, a)
    {
      var listed := [];
      if a.lists { listed := ListDevices(devices, mode); }
      found, todo := map[], [];
      for k := 0 to |ids|
        invariant forall id :: id in found <==> id in ids[..k] && IsKept(visible, devices, mode, a, id)
        invariant forall id :: id in found ==> found[id] == visible[id]
        invariant forall id :: id in todo <==> id in ids[..k] && IsStale(visible, devices, mode, a, id)
      {
        var id := ids[k];
        assert ids[..k + 1] == ids[..k] + [id];
        if id in a.unread { continue; }
        var vol := visible[id];
        var isThere: bool;
        if vol.mode != mode {
          // Created in another mode, whose device manager is asked.
          isThere := DeviceKey(vol.mode, id) in devices;
        } else {
          isThere := Listed(listed, id);
        }
        if isThere {
          found := found[id := vol];
        } else {
          todo := todo + [id];
        }
      }
      assert ids[..|ids|] == ids;
    }

    static method ListDevices(devices: Devices, mode: Mode) returns (listed: seq<string>)
      ensures forall id :: id in listed <==> DeviceKey(mode, id) in devices
    {
      var rest := devices.Keys;
      listed := [];
      while rest != {}
        invariant rest <= devices.Keys
        invariant forall id :: id in listed <==> DeviceKey(mode, id) in devices && DeviceKey(mode, id) !in rest
        decreases |rest|
      {
        var k :| k in rest;
        if k.mode == mode { listed := listed + [k.id]; }
        rest := rest - {k};
      }
    }

    static method Listed(listed: seq<string>, id: string) returns (there: bool)
      ensures there <==> id in listed
    {
      for i := 0 to |listed|
        invariant id !in listed[..i]
      {
        if listed[i] == id { return true; }
      }
      return false;
    }

    /** Searches the whole list; the order in which a map is visited is not determined. */
    method GetVolumeByName(name: string) returns (hit: Option<string>)
      ensures hit.Some? ==> hit.value in pmemVolumes && pmemVolumes[hit.value].name == name
      ensures hit.None? ==> forall id :: id in pmemVolumes ==> pmemVolumes[id].name != name
    {
      var rest := pmemVolumes.Keys;
      while rest != {}
        invariant rest <= pmemVolumes.Keys
        invariant forall id :: id in pmemVolumes && id !in rest ==> pmemVolumes[id].name != name
        decreases |rest|
      {
        var id :| id in rest;
        if pmemVolumes[id].name == name {
          return Some(id);
        }
        rest := rest - {id};
      }
      return None;
    }

    /** An entry is written to a temporary file first, which must not exist yet. */
    method StoreEntry(id: string, v: Volume, how: Outcome) returns (ok: bool)
      modifies this`visible, this`durable, this`temps
      ensures View() == PutEntry(old(View()), id, v, Landed(old(View()), id, how))
      ensures ok == Landed(old(View()), id, how).Done?
    {
      if id in temps { return false; }
      match how
      case FailedEarly(litter) =>
        if litter { temps := temps + {id}; }
        return false;
      case FailedLate =>
        visible := visible[id := v];
        return false;
      case Done =>
        visible := visible[id := v];
        durable := visible;
        return true;
    }

    method RemoveEntry(id: string, how: Outcome)
      modifies this`visible, this`durable
      ensures visible == (if how.FailedEarly? then old(visible) else old(visible) - {id})
      ensures durable == (if how.Done? then visible else old(durable))
    {
      if !how.FailedEarly? { visible := visible - {id}; }
      if how.Done? { durable := visible; }
    }

    /** Creation refuses an existing device and is otherwise up to the environment. */
    method CreateDevice(id: string, asked: nat, got: Option<nat>) returns (actual: Option<nat>)
      modifies this`devices
      ensures actual == if DeviceKey(mode, id) in old(devices) then None else got
      ensures devices == if actual.None? then old(devices) else old(devices)[DeviceKey(mode, id) := actual.value]
    {
      if DeviceKey(mode, id) in devices || got.None? {
        return None;
      }
      devices := devices[DeviceKey(mode, id) := got.value];
      return got;
    }

    /** createVolumeInternal: for every environment one run of the life cycle, ending with the reply. */
    method CreateVolumeInternal(name: string, asked: nat, fate: CreateFate) returns (reply: Reply)
      requires Valid()
      requires fate.device.Some? ==> asked <= fate.device.value
      modifies this`visible, this`durable, this`devices, this`pmemVolumes, this`temps
      ensures Valid()
      ensures Run(gen, old(View()), CreateSteps(gen, old(View()), name, asked, fate)) ==
              Some(WithCall(View(), 0, Create(name, asked, Replied(reply))))
      ensures (View(), reply) == CreateResult(gen, old(View()), name, asked, fate)
      ensures reply.Ok? ==> reply.id == gen(name) && asked <= reply.size && reply.id in pmemVolumes
      ensures old(devices).Keys <= devices.Keys
    {
      ghost var s := View();
      LookupRuns(gen, s, name, asked);
      var hit := GetVolumeByName(name);
      if hit.Some? {
        assert hit.value == gen(name);
        var vol := pmemVolumes[hit.value];
        // An existing volume is used when it is large enough.
        return if vol.size < asked then Failed else Ok(hit.value, vol.size);
      }
      if gen(name) in pmemVolumes {
        // Unreachable: this volume would have been found by its name.
        return Failed;
      }
      ghost var looked := WithCall(s, 0, Create(name, asked, IdFree));
      reply := MakeVolume(name, asked, fate);
      MakeRuns(gen, s, name, asked, fate);
      RunConcat(gen, s, LookupSteps(gen, s, name, asked), looked, MakeSteps(gen, s, name, fate),
                WithCall(View(), 0, Create(name, asked, Replied(reply))));
      FinishedCallKeepsInv(gen, s, CreateSteps(gen, s, name, asked, fate), View(), Create(name, asked, Replied(reply)));
    }

    /** The part of createVolumeInternal after the lookups: entry first, then device, volume list last. */
    method MakeVolume(name: string, asked: nat, fate: CreateFate) returns (reply: Reply)
      requires fate.device.Some? ==> asked <= fate.device.value
      modifies this`visible, this`durable, this`devices, this`pmemVolumes, this`temps
      ensures (View(), reply) == MakeResult(gen, old(View()), name, asked, fate)
      ensures reply.Ok? ==> reply.id == gen(name) && asked <= reply.size && reply.id in pmemVolumes
      ensures old(devices).Keys <= devices.Keys
    {
      var id := gen(name);
      var stored := StoreEntry(id, Volume(name, asked, mode), fate.persist);
      if !stored {
        return Failed;
      }
      var actual := CreateDevice(id, asked, fate.device);
      if actual.None? {
        RemoveEntry(id, fate.undo);
        return Failed;
      }
      if actual.value != asked {
        // Failing to store the real size is not an error.
        stored := StoreEntry(id, Volume(name, actual.value, mode), fate.resize);
      }
      pmemVolumes := pmemVolumes[id := Volume(name, actual.value, mode)];
      return Ok(id, actual.value);
    }

    /** DeleteVolume: for every environment one run of the life cycle. */
    method DeleteVolume(id: string, removed: bool, how: Outcome) returns (ok: bool)
      requires Valid()
      modifies this`visible, this`durable, this`devices, this`pmemVolumes, this`temps
      ensures Valid()
      ensures Run(gen, old(View()), DeleteSteps(old(View()), id, removed, how)) ==
              Some(WithCall(View(), 0, Delete(id, Finished(ok))))
      ensures (View(), ok) == DeleteResult(old(View()), id, removed, how)
      ensures ok ==> id !in pmemVolumes && NoDevice(devices, id)
      ensures !ok ==> View() == old(View())
    {
      ghost var s := View();
      DeleteRuns(gen, s, id, removed, how);
      if id !in pmemVolumes {
        return true;
      }
      ok := RemoveVolume(id, removed, how);
      FinishedCallKeepsInv(gen, s, DeleteSteps(s, id, removed, how), View(), Delete(id, Finished(ok)));
    }

    method RemoveVolume(id: string, removed: bool, how: Outcome) returns (ok: bool)
      requires id in pmemVolumes
      modifies this`visible, this`durable, this`devices, this`pmemVolumes, this`temps
      ensures (View(), ok) == DeleteResult(old(View()), id, removed, how)
      ensures ok == removed
      ensures ok ==> id !in pmemVolumes
      ensures !ok ==> View() == old(View())
    {
      if !removed {
        return false;
      }
      devices := devices - {DeviceKey(pmemVolumes[id].mode, id)};
      RemoveEntry(id, how);
      pmemVolumes := pmemVolumes - {id};
      return true;
    }
  }

  /** After a finished call the invariant holds for the node without it. */
  lemma FinishedCallKeepsInv(gen: string -> string, s: Node, steps: seq<Step>, t: Node, call: Call)
    requires Injective(gen) && Inv(gen, s) && Run(gen, s, steps) == Some(WithCall(t, 0, call)) && t.calls == map[]
    requires if call.Create? then call.cpc.Replied? else call.dpc.Finished?
    ensures Inv(gen, t)
  {
    RunKeepsInv(gen, s, steps, WithCall(t, 0, call));
    assert WithCall(t, 0, call).(calls := WithCall(t, 0, call).calls - {0}) == t;
    EndKeepsInv(gen, WithCall(t, 0, call), 0, t);
  }
}
