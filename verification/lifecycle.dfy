/**
 * The volume life cycle of one node as a transition system.
 *
 * Three stores are kept in step: the persisted state entries, the real devices and
 * the in-memory volume list. Any number of CreateVolume and DeleteVolume calls run
 * concurrently, one atomic step at a time; the driver process may be killed and the
 * machine may lose power between any two steps.
 *
 * A persisted entry is *visible* once its file is renamed into place and *durable*
 * once the state directory was synced. A power loss keeps, for each entry
 * separately, either the visible or the durable version.
 */
module VolumeLifecycle {
  import opened Outcomes

  datatype Mode = LVM | Direct | Fake

  /** A volume record as it is kept in memory and persisted under its volume ID. */
  datatype Volume = Volume(name: string, size: nat, mode: Mode)

  datatype DeviceKey = DeviceKey(mode: Mode, id: string)

  type Entries = map<string, Volume>
  type Devices = map<DeviceKey, nat>

  datatype Reply = Ok(id: string, size: nat) | Failed

  /** Where a CreateVolume call is. It owns the lock on its name until it has replied. */
  datatype CreatePc =
    | CreateLocked              // about to search the volume list by name
    | NameFree                  // about to search the volume list by ID
    | IdFree                    // about to persist the entry
    | EntryStored               // about to create the device
    | RollBack                  // device creation failed, entry still to be removed
    | DeviceMade(actual: nat)   // about to store the real size
    | SizeStored(actual: nat)   // about to add the volume to the list
    | Replied(reply: Reply)

  /** Where a DeleteVolume call is. It owns the lock on its volume ID until it is finished. */
  datatype DeletePc =
    | DeleteLocked              // about to search the volume list by ID
    | VolumeFound(vol: Volume)  // about to delete the device
    | DeviceGone                // about to remove the entry
    | EntryGone                 // about to forget the volume
    | Finished(ok: bool)

  datatype Call =
    | Create(name: string, asked: nat, cpc: CreatePc)
    | Delete(id: string, dpc: DeletePc)

  datatype Phase = Down | Recovering(todo: seq<string>) | Serving

  datatype Node = Node(
    visible: Entries,
    durable: Entries,
    devices: Devices,
    memory: Entries,
    phase: Phase,
    mode: Mode,
    calls: map<nat, Call>,
    temps: set<string>)         // IDs whose temporary file was left behind

  datatype CreateStep =
    | LookupName(hit: Option<string>)   // which volume the search by name came across
    | LookupId
    | Persist(how: Outcome)
    | MakeDevice(got: Option<nat>)      // the real size, or None when creation failed
    | Undo(how: Outcome)
    | StoreSize(how: Outcome)
    | AddToMemory

  datatype DeleteStep =
    | FindVolume
    | RemoveDevice(ok: bool)
    | RemoveEntry(how: Outcome)
    | Forget

  datatype MachineStep =
    | Writeback(flushed: Entries)       // the kernel flushes directory changes on its own
    | Crash(cut: set<string>)           // the driver process dies, in the middle of writing these entries
    | PowerLoss(left: Entries, litter: set<string>)
    | Recover(newMode: Mode, todo: seq<string>)
    | Cleanup(how: Outcome)
    | Serve

  datatype Step =
    | BeginCreate(c: nat, name: string, asked: nat)
    | InCreate(c: nat, cs: CreateStep)
    | BeginDelete(c: nat, id: string)
    | InDelete(c: nat, ds: DeleteStep)
    | EndCall(c: nat)
    | Machine(ms: MachineStep)

  // ---------------------------------------------------------------- the steps

  predicate CreateActive(call: Call)
  {
    call.Create? && !call.cpc.Replied?
  }

  predicate DeleteActive(call: Call)
  {
    call.Delete? && !call.dpc.Finished?
  }

  predicate NameLocked(s: Node, name: string)
  {
    exists c :: c in s.calls && CreateActive(s.calls[c]) && s.calls[c].name == name
  }

  predicate IdLocked(s: Node, id: string)
  {
    exists c :: c in s.calls && DeleteActive(s.calls[c]) && s.calls[c].id == id
  }

  /** Entries whose device exists under the recorded mode. */
  function Backed(entries: Entries, devices: Devices): (r: Entries)
    ensures forall id :: id in r <==> id in entries && DeviceKey(entries[id].mode, id) in devices
    ensures forall id :: id in r ==> r[id] == entries[id]
  {
    map id | id in entries && DeviceKey(entries[id].mode, id) in devices :: entries[id]
  }

  predicate IsOrphan(entries: Entries, devices: Devices, id: string)
  {
    id in entries && DeviceKey(entries[id].mode, id) !in devices
  }

  /** `todo` lists exactly the entries without device. */
  predicate ListsOrphans(todo: seq<string>, entries: Entries, devices: Devices)
  {
    && (forall id :: id in todo ==> IsOrphan(entries, devices, id))
    && (forall id :: id in entries && IsOrphan(entries, devices, id) ==> id in todo)
  }

  predicate SameAt(m: Entries, a: Entries, id: string)
  {
    (id in m <==> id in a) && (id in m ==> m[id] == a[id])
  }

  /** Every entry of m comes unchanged from a or from b, and so does every absence. */
  ghost predicate IsMix(m: Entries, a: Entries, b: Entries)
  {
    forall id :: SameAt(m, a, id) || SameAt(m, b, id)
  }

  function PutEntry(s: Node, id: string, v: Volume, how: Outcome): Node
  {
    match how
    case Done => s.(visible := s.visible[id := v], durable := s.visible[id := v])
    case FailedLate => s.(visible := s.visible[id := v])
    case FailedEarly(litter) => if litter then s.(temps := s.temps + {id}) else s
  }

  function DropEntry(s: Node, id: string, how: Outcome): Node
  {
    match how
    case Done => s.(visible := s.visible - {id}, durable := s.visible - {id})
    case FailedLate => s.(visible := s.visible - {id})
    case FailedEarly(_) => s
  }

  /** Writing an entry fails when its temporary file exists: nothing ever removes that. */
  function Landed(s: Node, id: string, how: Outcome): Outcome
  {
    if id in s.temps then FailedEarly(false) else how
  }

  function WithCall(s: Node, c: nat, call: Call): Node
  {
    s.(calls := s.calls[c := call])
  }

  predicate CreateIs(s: Node, c: nat)
  {
    s.phase.Serving? && c in s.calls && s.calls[c].Create?
  }

  predicate DeleteIs(s: Node, c: nat)
  {
    s.phase.Serving? && c in s.calls && s.calls[c].Delete?
  }

  function CreateTo(s: Node, c: nat, pc: CreatePc): Node
    requires CreateIs(s, c)
  {
    s.(calls := s.calls[c := s.calls[c].(cpc := pc)])
  }

  function DeleteTo(s: Node, c: nat, pc: DeletePc): Node
    requires DeleteIs(s, c)
  {
    s.(calls := s.calls[c := s.calls[c].(dpc := pc)])
  }

  function DoLookupName(s: Node, c: nat, hit: Option<string>): Option<Node>
    requires CreateIs(s, c) && s.calls[c].cpc.CreateLocked?
  {
    match hit
    case None =>
      if exists i :: i in s.memory && s.memory[i].name == s.calls[c].name then None
      else Some(CreateTo(s, c, NameFree))
    case Some(i) =>
      if i !in s.memory || s.memory[i].name != s.calls[c].name then None
      else if s.memory[i].size < s.calls[c].asked then Some(CreateTo(s, c, Replied(Failed)))
      else Some(CreateTo(s, c, Replied(Ok(i, s.memory[i].size))))
  }

  function DoLookupId(gen: string -> string, s: Node, c: nat): Node
    requires CreateIs(s, c) && s.calls[c].cpc.NameFree?
  {
    CreateTo(s, c, if gen(s.calls[c].name) in s.memory then Replied(Failed) else IdFree)
  }

  function DoPersist(gen: string -> string, s: Node, c: nat, how: Outcome): Node
    requires CreateIs(s, c) && s.calls[c].cpc.IdFree?
  {
    Persisted(gen, s, c, Landed(s, gen(s.calls[c].name), how))
  }

  function Persisted(gen: string -> string, s: Node, c: nat, landed: Outcome): Node
    requires CreateIs(s, c) && s.calls[c].cpc.IdFree?
  {
    var call := s.calls[c];
    var t := CreateTo(s, c, if landed.Done? then EntryStored else Replied(Failed));
    PutEntry(t, gen(call.name), Volume(call.name, call.asked, s.mode), landed)
  }

  /** Device creation is all-or-nothing, refuses an existing device and never makes one too small. */
  function DoMakeDevice(gen: string -> string, s: Node, c: nat, got: Option<nat>): Option<Node>
    requires CreateIs(s, c) && s.calls[c].cpc.EntryStored?
  {
    var key := DeviceKey(s.mode, gen(s.calls[c].name));
    match got
    case None => Some(CreateTo(s, c, RollBack))
    case Some(actual) =>
      if key in s.devices || actual < s.calls[c].asked then None
      else Some(CreateTo(s, c, DeviceMade(actual)).(devices := s.devices[key := actual]))
  }

  function DoUndo(gen: string -> string, s: Node, c: nat, how: Outcome): Node
    requires CreateIs(s, c) && s.calls[c].cpc.RollBack?
  {
    DropEntry(CreateTo(s, c, Replied(Failed)), gen(s.calls[c].name), how)
  }

  function DoStoreSize(gen: string -> string, s: Node, c: nat, how: Outcome): Node
    requires CreateIs(s, c) && s.calls[c].cpc.DeviceMade?
  {
    var call := s.calls[c];
    Resized(gen, s, c, if call.cpc.actual == call.asked then FailedEarly(false) else Landed(s, gen(call.name), how))
  }

  function Resized(gen: string -> string, s: Node, c: nat, landed: Outcome): Node
    requires CreateIs(s, c) && s.calls[c].cpc.DeviceMade?
  {
    var call := s.calls[c];
    PutEntry(CreateTo(s, c, SizeStored(call.cpc.actual)), gen(call.name),
             Volume(call.name, call.cpc.actual, s.mode), landed)
  }

  function DoAddToMemory(gen: string -> string, s: Node, c: nat): Node
    requires CreateIs(s, c) && s.calls[c].cpc.SizeStored?
  {
    var call := s.calls[c];
    var id := gen(call.name);
    var v := Volume(call.name, call.cpc.actual, s.mode);
    CreateTo(s, c, Replied(Ok(id, call.cpc.actual))).(memory := s.memory[id := v])
  }

  function ApplyCreate(gen: string -> string, s: Node, c: nat, cs: CreateStep): Option<Node>
  {
    if !CreateIs(s, c) then None else
    var pc := s.calls[c].cpc;
    match cs
    case LookupName(hit) => if pc.CreateLocked? then DoLookupName(s, c, hit) else None
    case LookupId => if pc.NameFree? then Some(DoLookupId(gen, s, c)) else None
    case Persist(how) => if pc.IdFree? then Some(DoPersist(gen, s, c, how)) else None
    case MakeDevice(got) => if pc.EntryStored? then DoMakeDevice(gen, s, c, got) else None
    case Undo(how) => if pc.RollBack? then Some(DoUndo(gen, s, c, how)) else None
    case StoreSize(how) => if pc.DeviceMade? then Some(DoStoreSize(gen, s, c, how)) else None
    case AddToMemory => if pc.SizeStored? then Some(DoAddToMemory(gen, s, c)) else None
  }

  function DoFindVolume(s: Node, c: nat): Node
    requires DeleteIs(s, c) && s.calls[c].dpc.DeleteLocked?
  {
    var id := s.calls[c].id;
    DeleteTo(s, c, if id in s.memory then VolumeFound(s.memory[id]) else Finished(true))
  }

  function DoRemoveDevice(s: Node, c: nat, ok: bool): Node
    requires DeleteIs(s, c) && s.calls[c].dpc.VolumeFound?
  {
    if !ok then DeleteTo(s, c, Finished(false))
    else DeleteTo(s, c, DeviceGone).(devices := s.devices - {DeviceKey(s.calls[c].dpc.vol.mode, s.calls[c].id)})
  }

  function DoRemoveEntry(s: Node, c: nat, how: Outcome): Node
    requires DeleteIs(s, c) && s.calls[c].dpc.DeviceGone?
  {
    DropEntry(DeleteTo(s, c, EntryGone), s.calls[c].id, how)
  }

  function DoForget(s: Node, c: nat): Node
    requires DeleteIs(s, c) && s.calls[c].dpc.EntryGone?
  {
    DeleteTo(s, c, Finished(true)).(memory := s.memory - {s.calls[c].id})
  }

  function ApplyDelete(s: Node, c: nat, ds: DeleteStep): Option<Node>
  {
    if !DeleteIs(s, c) then None else
    var pc := s.calls[c].dpc;
    match ds
    case FindVolume => if pc.DeleteLocked? then Some(DoFindVolume(s, c)) else None
    case RemoveDevice(ok) => if pc.VolumeFound? then Some(DoRemoveDevice(s, c, ok)) else None
    case RemoveEntry(how) => if pc.DeviceGone? then Some(DoRemoveEntry(s, c, how)) else None
    case Forget => if pc.EntryGone? then Some(DoForget(s, c)) else None
  }

  /** Some call is about to write this entry, or in the middle of it. */
  ghost predicate Writing(gen: string -> string, s: Node, id: string)
  {
    exists c :: c in s.calls && s.calls[c].Create? && gen(s.calls[c].name) == id
                && (s.calls[c].cpc.IdFree? || (s.calls[c].cpc.DeviceMade? && s.calls[c].cpc.actual != s.calls[c].asked))
  }

  /**
   * A restart reads all entries first and then removes those without device one by one.
   * A power loss may leave or lose temporary files; which ones is not restricted.
   */
  ghost function ApplyMachine(gen: string -> string, s: Node, ms: MachineStep): Option<Node>
  {
    match ms
    case Writeback(flushed) =>
      if !IsMix(flushed, s.visible, s.durable) then None else Some(s.(durable := flushed))
    case Crash(cut) =>
      if exists id :: id in cut && !Writing(gen, s, id) then None
      else Some(s.(memory := map[], calls := map[], phase := Down, temps := s.temps + cut))
    case PowerLoss(left, litter) =>
      if !IsMix(left, s.visible, s.durable) then None
      else Some(s.(visible := left, durable := left, memory := map[], calls := map[], phase := Down, temps := litter))
    case Recover(newMode, todo) =>
      if !s.phase.Down? || !ListsOrphans(todo, s.visible, s.devices) then None
      else Some(s.(mode := newMode, memory := Backed(s.visible, s.devices), phase := Recovering(todo)))
    case Cleanup(how) =>
      if !s.phase.Recovering? || s.phase.todo == [] then None
      else Some(DropEntry(s.(phase := Recovering(s.phase.todo[1..])), s.phase.todo[0], how))
    case Serve =>
      if !s.phase.Recovering? || s.phase.todo != [] then None else Some(s.(phase := Serving))
  }

  /** One atomic step; None when the step is not possible in this state. */
  ghost function Apply(gen: string -> string, s: Node, step: Step): Option<Node>
  {
    match step
    case BeginCreate(c, name, asked) =>
      if !s.phase.Serving? || c in s.calls || NameLocked(s, name) then None
      else Some(WithCall(s, c, Create(name, asked, CreateLocked)))
    case InCreate(c, cs) => ApplyCreate(gen, s, c, cs)
    case BeginDelete(c, id) =>
      if !s.phase.Serving? || c in s.calls || IdLocked(s, id) then None
      else Some(WithCall(s, c, Delete(id, DeleteLocked)))
    case InDelete(c, ds) => ApplyDelete(s, c, ds)
    case EndCall(c) =>
      if c !in s.calls || CreateActive(s.calls[c]) || DeleteActive(s.calls[c]) then None
      else Some(s.(calls := s.calls - {c}))
    case Machine(ms) => ApplyMachine(gen, s, ms)
  }

  /** A whole run; None when some step of it is not possible. */
  ghost function Run(gen: string -> string, s: Node, steps: seq<Step>): Option<Node>
  {
    if steps == [] then Some(s)
    else match Run(gen, s, steps[..|steps| - 1])
      case None => None
      case Some(t) => Apply(gen, t, steps[|steps| - 1])
  }

  // ------------------------------------------------------------ the invariant

  ghost predicate Injective(gen: string -> string)
  {
    forall a, b :: gen(a) == gen(b) ==> a == b
  }

  ghost predicate Named(gen: string -> string, entries: Entries)
  {
    forall id :: id in entries ==> gen(entries[id].name) == id
  }

  /** Every device has an entry with its mode and with no more than its size. */
  ghost predicate Covered(devices: Devices, entries: Entries)
  {
    forall k :: k in devices ==>
      k.id in entries && entries[k.id].mode == k.mode && entries[k.id].size <= devices[k]
  }

  ghost predicate NoDevice(devices: Devices, id: string)
  {
    forall k :: k in devices ==> k.id != id
  }

  /** A create call on this ID that made the device but did not list the volume yet. */
  ghost predicate Making(gen: string -> string, call: Call, id: string)
  {
    call.Create? && gen(call.name) == id && (call.cpc.DeviceMade? || call.cpc.SizeStored?)
  }

  /** A delete call on this ID that removed the device but did not forget the volume yet. */
  ghost predicate Unmaking(call: Call, id: string)
  {
    call.Delete? && call.id == id && (call.dpc.DeviceGone? || call.dpc.EntryGone?)
  }

  /**
   * The call passed its check of the volume list for this ID and did not return yet:
   * a create call found the ID unlisted, a delete call found it listed.
   */
  ghost predicate Engaged(gen: string -> string, call: Call, id: string)
  {
    || (CreateActive(call) && !call.cpc.CreateLocked? && gen(call.name) == id)
    || (DeleteActive(call) && !call.dpc.DeleteLocked? && call.id == id)
  }

  ghost predicate CreateOk(gen: string -> string, s: Node, call: Call)
    requires call.Create?
  {
    var id := gen(call.name);
    match call.cpc
    case CreateLocked => true
    case NameFree => id !in s.memory
    case IdFree => id !in s.memory && NoDevice(s.devices, id)
    case EntryStored =>
      && id !in s.memory && NoDevice(s.devices, id)
      && id in s.visible && s.visible[id] == Volume(call.name, call.asked, s.mode)
      && id in s.durable && s.durable[id] == Volume(call.name, call.asked, s.mode)
    case RollBack => id !in s.memory && NoDevice(s.devices, id)
    case DeviceMade(actual) => id !in s.memory && MadeOk(s, id, call.asked, actual)
    case SizeStored(actual) => id !in s.memory && MadeOk(s, id, call.asked, actual)
    case Replied(Ok(i, size)) => i == id && call.asked <= size
    case Replied(Failed) => true
  }

  ghost predicate MadeOk(s: Node, id: string, asked: nat, actual: nat)
  {
    && DeviceKey(s.mode, id) in s.devices && s.devices[DeviceKey(s.mode, id)] == actual
    && asked <= actual
    && id in s.visible && asked <= s.visible[id].size
    && id in s.durable && asked <= s.durable[id].size
  }

  ghost predicate DeleteOk(s: Node, call: Call)
    requires call.Delete?
  {
    match call.dpc
    case VolumeFound(vol) => call.id in s.memory && s.memory[call.id] == vol
    case DeviceGone => call.id in s.memory && NoDevice(s.devices, call.id)
    case EntryGone => call.id in s.memory && NoDevice(s.devices, call.id)
    case _ => true
  }

  ghost predicate CallOk(gen: string -> string, s: Node, call: Call)
  {
    if call.Create? then CreateOk(gen, s, call) else DeleteOk(s, call)
  }

  ghost predicate CallsOk(gen: string -> string, s: Node)
  {
    forall c :: c in s.calls ==> CallOk(gen, s, s.calls[c])
  }

  /** Both calls would own the same lock. Names and IDs are locked separately. */
  ghost predicate Contend(a: Call, b: Call)
  {
    || (CreateActive(a) && CreateActive(b) && a.name == b.name)
    || (DeleteActive(a) && DeleteActive(b) && a.id == b.id)
  }

  ghost predicate LocksHeld(s: Node)
  {
    forall c, d :: c in s.calls && d in s.calls && c != d ==> !Contend(s.calls[c], s.calls[d])
  }

  ghost predicate DevicesKnown(gen: string -> string, s: Node)
  {
    forall k :: k in s.devices ==>
      || (k.id in s.memory && s.memory[k.id].mode == k.mode && s.memory[k.id].size <= s.devices[k])
      || exists c :: c in s.calls && Making(gen, s.calls[c], k.id)
  }

  ghost predicate MemoryBacked(s: Node)
  {
    forall id :: id in s.memory ==>
      || DeviceKey(s.memory[id].mode, id) in s.devices
      || exists c :: c in s.calls && Unmaking(s.calls[c], id)
  }

  ghost predicate StoresOk(gen: string -> string, s: Node)
  {
    && Named(gen, s.visible) && Named(gen, s.durable) && Named(gen, s.memory)
    && Covered(s.devices, s.visible) && Covered(s.devices, s.durable)
  }

  ghost predicate PhaseOk(gen: string -> string, s: Node)
  {
    && (s.phase.Down? ==> s.memory == map[])
    && (!s.phase.Serving? ==> s.calls == map[])
    && (!s.phase.Down? ==> DevicesKnown(gen, s) && MemoryBacked(s))
    && (s.phase.Recovering? ==> forall id :: id in s.phase.todo ==> NoDevice(s.devices, id))
  }

  ghost predicate Inv(gen: string -> string, s: Node)
  {
    StoresOk(gen, s) && PhaseOk(gen, s) && CallsOk(gen, s) && LocksHeld(s)
  }

  // ---------------------------------------------------- every step keeps it

  /**
   * The volume list, not the locks, keeps calls on one volume apart: a create call is
   * engaged only while the ID is unlisted, a delete call only while it is listed.
   */
  lemma OneEngagedCall(gen: string -> string, s: Node, c: nat, d: nat, id: string)
    requires Injective(gen) && CallsOk(gen, s) && LocksHeld(s)
    requires c in s.calls && Engaged(gen, s.calls[c], id)
    requires d in s.calls && Engaged(gen, s.calls[d], id)
    ensures c == d
  {
  }

  /** Only call c and what is stored under `id` differ between s and t. */
  ghost predicate Away(s: Node, t: Node, c: nat, id: string)
  {
    && t.mode == s.mode && t.phase == s.phase && c in s.calls && c in t.calls
    && t.calls == s.calls[c := t.calls[c]]
    && (forall i :: i != id ==> SameAt(t.visible, s.visible, i) && SameAt(t.memory, s.memory, i))
    && (forall i :: i != id ==> SameAt(t.durable, s.durable, i) || SameAt(t.durable, s.visible, i))
    && (forall k: DeviceKey :: k.id != id ==> (k in t.devices <==> k in s.devices))
    && (forall k: DeviceKey :: k.id != id && k in s.devices ==> t.devices[k] == s.devices[k])
  }

  /** The call moved on, keeping what it was called with and releasing or keeping its lock. */
  ghost predicate SameRequest(a: Call, b: Call)
  {
    && (a.Create? <==> b.Create?)
    && (a.Create? ==> a.name == b.name && a.asked == b.asked && (CreateActive(b) ==> CreateActive(a)))
    && (a.Delete? ==> a.id == b.id && (DeleteActive(b) ==> DeleteActive(a)))
  }

  /** The part of the invariant that speaks about `id` and call c. */
  ghost predicate LocalOk(gen: string -> string, t: Node, c: nat, id: string)
  {
    && c in t.calls && CallOk(gen, t, t.calls[c])
    && (id in t.visible ==> gen(t.visible[id].name) == id)
    && (id in t.durable ==> gen(t.durable[id].name) == id)
    && (id in t.memory ==> gen(t.memory[id].name) == id)
    && (forall k :: k in t.devices && k.id == id ==>
          && id in t.visible && t.visible[id].mode == k.mode && t.visible[id].size <= t.devices[k]
          && id in t.durable && t.durable[id].mode == k.mode && t.durable[id].size <= t.devices[k]
          && (|| (id in t.memory && t.memory[id].mode == k.mode && t.memory[id].size <= t.devices[k])
              || Making(gen, t.calls[c], id)))
    && (id in t.memory ==> DeviceKey(t.memory[id].mode, id) in t.devices || Unmaking(t.calls[c], id))
  }

  lemma OtherCallsKept(gen: string -> string, s: Node, t: Node, c: nat, id: string, d: nat)
    requires Injective(gen) && CallsOk(gen, s) && LocksHeld(s)
    requires Away(s, t, c, id) && Engaged(gen, s.calls[c], id)
    requires d in s.calls && d != c
    ensures t.calls[d] == s.calls[d] && CallOk(gen, t, t.calls[d])
  {
    var call := s.calls[d];
    assert CallOk(gen, s, call);
    if Engaged(gen, call, id) {
      OneEngagedCall(gen, s, c, d, id);
    }
    var i := if call.Create? then gen(call.name) else call.id;
    if i != id {
      assert SameAt(t.visible, s.visible, i) && SameAt(t.memory, s.memory, i);
      assert SameAt(t.durable, s.durable, i) || SameAt(t.durable, s.visible, i);
    }
  }

  /** A step of an engaged call keeps the invariant when it keeps the part about its own ID. */
  lemma EngagedStepKeepsInv(gen: string -> string, s: Node, t: Node, c: nat, id: string)
    requires Injective(gen) && Inv(gen, s) && s.phase.Serving?
    requires Away(s, t, c, id) && Engaged(gen, s.calls[c], id)
    requires SameRequest(s.calls[c], t.calls[c]) && LocalOk(gen, t, c, id)
    ensures Inv(gen, t)
  {
    forall d | d in t.calls ensures CallOk(gen, t, t.calls[d]) {
      if d != c { OtherCallsKept(gen, s, t, c, id, d); }
    }
    LocksKept(s, t, c);
    OtherStoresKept(gen, s, t, c, id);
    OtherDevicesKnown(gen, s, t, c, id);
  }

  lemma OtherStoresKept(gen: string -> string, s: Node, t: Node, c: nat, id: string)
    requires StoresOk(gen, s) && Away(s, t, c, id) && LocalOk(gen, t, c, id)
    ensures StoresOk(gen, t)
  {
    forall i | i in t.visible ensures gen(t.visible[i].name) == i {
      assert i == id || SameAt(t.visible, s.visible, i);
    }
    forall i | i in t.durable ensures gen(t.durable[i].name) == i {
      assert i == id || SameAt(t.durable, s.durable, i) || SameAt(t.durable, s.visible, i);
    }
    forall i | i in t.memory ensures gen(t.memory[i].name) == i {
      assert i == id || SameAt(t.memory, s.memory, i);
    }
    forall k | k in t.devices && k.id != id
      ensures && k.id in t.visible && t.visible[k.id].mode == k.mode && t.visible[k.id].size <= t.devices[k]
              && k.id in t.durable && t.durable[k.id].mode == k.mode && t.durable[k.id].size <= t.devices[k]
    {
      assert k in s.devices && SameAt(t.visible, s.visible, k.id);
      assert SameAt(t.durable, s.durable, k.id) || SameAt(t.durable, s.visible, k.id);
    }
  }

  lemma LocksKept(s: Node, t: Node, c: nat)
    requires LocksHeld(s) && c in s.calls && c in t.calls && t.calls == s.calls[c := t.calls[c]]
    requires SameRequest(s.calls[c], t.calls[c])
    ensures LocksHeld(t)
  {
  }

  lemma OtherDevicesKnown(gen: string -> string, s: Node, t: Node, c: nat, id: string)
    requires DevicesKnown(gen, s) && MemoryBacked(s)
    requires Away(s, t, c, id) && Engaged(gen, s.calls[c], id) && LocalOk(gen, t, c, id)
    ensures DevicesKnown(gen, t) && MemoryBacked(t)
  {
    forall k | k in t.devices
      ensures || (k.id in t.memory && t.memory[k.id].mode == k.mode && t.memory[k.id].size <= t.devices[k])
              || exists d :: d in t.calls && Making(gen, t.calls[d], k.id)
    {
      if k.id != id {
        assert k in s.devices && SameAt(t.memory, s.memory, k.id);
        if d :| d in s.calls && Making(gen, s.calls[d], k.id) {
          assert t.calls[d] == s.calls[d];
        }
      }
    }
    forall i | i in t.memory
      ensures DeviceKey(t.memory[i].mode, i) in t.devices || exists d :: d in t.calls && Unmaking(t.calls[d], i)
    {
      if i != id {
        assert SameAt(t.memory, s.memory, i);
        if d :| d in s.calls && Unmaking(s.calls[d], i) {
          assert t.calls[d] == s.calls[d];
        }
      }
    }
  }

  /** A step that only moves a call which is not engaged. */
  lemma IdleStepKeepsInv(gen: string -> string, s: Node, t: Node, c: nat)
    requires Inv(gen, s) && c in s.calls && c in t.calls && t == s.(calls := s.calls[c := t.calls[c]])
    requires SameRequest(s.calls[c], t.calls[c]) && CallOk(gen, t, t.calls[c])
    requires forall id :: !Making(gen, s.calls[c], id) && !Unmaking(s.calls[c], id)
    ensures Inv(gen, t)
  {
    forall d | d in t.calls ensures CallOk(gen, t, t.calls[d]) {
      if d != c { assert CallOk(gen, s, s.calls[d]); }
    }
    LocksKept(s, t, c);
    if s.phase.Serving? { CallSetKnown(gen, s, t); }
  }

  /** While a create call is engaged and made no device yet, no device of this ID exists. */
  lemma EngagedWithoutDevice(gen: string -> string, s: Node, c: nat)
    requires Injective(gen) && Inv(gen, s) && s.phase.Serving?
    requires c in s.calls && s.calls[c].Create? && s.calls[c].cpc.NameFree?
    ensures NoDevice(s.devices, gen(s.calls[c].name))
  {
    var id := gen(s.calls[c].name);
    assert CallOk(gen, s, s.calls[c]);
    forall k | k in s.devices ensures k.id != id {
      if k.id == id {
        var d :| d in s.calls && Making(gen, s.calls[d], id);
        OneEngagedCall(gen, s, c, d, id);
      }
    }
  }

  /** For an engaged call the invariant says all of the local part. */
  lemma EngagedIsLocal(gen: string -> string, s: Node, c: nat, id: string)
    requires Injective(gen) && Inv(gen, s) && s.phase.Serving?
    requires c in s.calls && Engaged(gen, s.calls[c], id)
    ensures LocalOk(gen, s, c, id)
  {
    assert CallOk(gen, s, s.calls[c]);
    forall k | k in s.devices && k.id == id
      ensures || (id in s.memory && s.memory[id].mode == k.mode && s.memory[id].size <= s.devices[k])
              || Making(gen, s.calls[c], id)
    {
      if d :| d in s.calls && Making(gen, s.calls[d], id) { OneEngagedCall(gen, s, c, d, id); }
    }
    if id in s.memory {
      if d :| d in s.calls && Unmaking(s.calls[d], id) { OneEngagedCall(gen, s, c, d, id); }
    }
  }

  lemma EntryChangeIsAway(s: Node, c: nat, call: Call, id: string, v: Volume, how: Outcome)
    requires c in s.calls
    ensures Away(s, PutEntry(WithCall(s, c, call), id, v, how), c, id)
    ensures Away(s, DropEntry(WithCall(s, c, call), id, how), c, id)
  {
    forall i
      ensures SameAt(s.visible, s.visible, i) && SameAt(s.durable, s.durable, i) && SameAt(s.memory, s.memory, i)
    {}
    forall i | i != id ensures SameAt(s.visible[id := v], s.visible, i) && SameAt(s.visible - {id}, s.visible, i) {}
  }

  lemma DeviceChangeIsAway(s: Node, c: nat, call: Call, k: DeviceKey, size: nat)
    requires c in s.calls
    ensures Away(s, WithCall(s, c, call), c, k.id)
    ensures Away(s, WithCall(s, c, call).(devices := s.devices[k := size]), c, k.id)
    ensures Away(s, WithCall(s, c, call).(devices := s.devices - {k}), c, k.id)
  {
    forall i
      ensures SameAt(s.visible, s.visible, i) && SameAt(s.durable, s.durable, i) && SameAt(s.memory, s.memory, i)
    {}
  }

  lemma MemoryChangeIsAway(s: Node, c: nat, call: Call, id: string, v: Volume)
    requires c in s.calls
    ensures Away(s, WithCall(s, c, call).(memory := s.memory[id := v]), c, id)
    ensures Away(s, WithCall(s, c, call).(memory := s.memory - {id}), c, id)
  {
  }

  /** The local obligations of a step: it stays away from other IDs and keeps its own part. */
  ghost predicate StaysLocal(gen: string -> string, s: Node, t: Node, c: nat, id: string)
  {
    && Away(s, t, c, id) && Engaged(gen, s.calls[c], id)
    && SameRequest(s.calls[c], t.calls[c]) && LocalOk(gen, t, c, id)
  }

  lemma PersistIsLocal(gen: string -> string, s: Node, c: nat, landed: Outcome)
    requires CreateIs(s, c) && s.calls[c].cpc.IdFree? && LocalOk(gen, s, c, gen(s.calls[c].name))
    ensures StaysLocal(gen, s, Persisted(gen, s, c, landed), c, gen(s.calls[c].name))
  {
    var call, t := s.calls[c], Persisted(gen, s, c, landed);
    EntryChangeIsAway(s, c, t.calls[c], gen(call.name), Volume(call.name, call.asked, s.mode), landed);
  }

  lemma MakeDeviceIsLocal(gen: string -> string, s: Node, c: nat, got: Option<nat>, t: Node)
    requires CreateIs(s, c) && s.calls[c].cpc.EntryStored? && LocalOk(gen, s, c, gen(s.calls[c].name))
    requires DoMakeDevice(gen, s, c, got) == Some(t)
    ensures StaysLocal(gen, s, t, c, gen(s.calls[c].name))
  {
    var key := DeviceKey(s.mode, gen(s.calls[c].name));
    DeviceChangeIsAway(s, c, t.calls[c], key, if got.Some? then got.value else 0);
  }

  lemma UndoIsLocal(gen: string -> string, s: Node, c: nat, how: Outcome)
    requires CreateIs(s, c) && s.calls[c].cpc.RollBack? && LocalOk(gen, s, c, gen(s.calls[c].name))
    ensures StaysLocal(gen, s, DoUndo(gen, s, c, how), c, gen(s.calls[c].name))
  {
    var t := DoUndo(gen, s, c, how);
    EntryChangeIsAway(s, c, t.calls[c], gen(s.calls[c].name), Volume("", 0, LVM), how);
  }

  lemma ResizedIsOk(gen: string -> string, s: Node, c: nat, landed: Outcome)
    requires CreateIs(s, c) && s.calls[c].cpc.DeviceMade? && LocalOk(gen, s, c, gen(s.calls[c].name))
    ensures LocalOk(gen, Resized(gen, s, c, landed), c, gen(s.calls[c].name))
  {
    match landed
    case Done =>
    case FailedLate =>
    case FailedEarly(_) =>
  }

  lemma StoreSizeIsLocal(gen: string -> string, s: Node, c: nat, landed: Outcome)
    requires CreateIs(s, c) && s.calls[c].cpc.DeviceMade? && LocalOk(gen, s, c, gen(s.calls[c].name))
    ensures StaysLocal(gen, s, Resized(gen, s, c, landed), c, gen(s.calls[c].name))
  {
    var call, t := s.calls[c], Resized(gen, s, c, landed);
    ResizedIsOk(gen, s, c, landed);
    EntryChangeIsAway(s, c, t.calls[c], gen(call.name), Volume(call.name, call.cpc.actual, s.mode), landed);
  }

  lemma AddToMemoryIsLocal(gen: string -> string, s: Node, c: nat)
    requires CreateIs(s, c) && s.calls[c].cpc.SizeStored? && LocalOk(gen, s, c, gen(s.calls[c].name))
    ensures StaysLocal(gen, s, DoAddToMemory(gen, s, c), c, gen(s.calls[c].name))
  {
    var call, t := s.calls[c], DoAddToMemory(gen, s, c);
    MemoryChangeIsAway(s, c, t.calls[c], gen(call.name), Volume(call.name, call.cpc.actual, s.mode));
  }

  lemma RemoveDeviceIsLocal(gen: string -> string, s: Node, c: nat, ok: bool)
    requires DeleteIs(s, c) && s.calls[c].dpc.VolumeFound? && LocalOk(gen, s, c, s.calls[c].id)
    ensures StaysLocal(gen, s, DoRemoveDevice(s, c, ok), c, s.calls[c].id)
  {
    var call, t := s.calls[c], DoRemoveDevice(s, c, ok);
    DeviceChangeIsAway(s, c, t.calls[c], DeviceKey(call.dpc.vol.mode, call.id), 0);
  }

  lemma RemoveEntryIsLocal(gen: string -> string, s: Node, c: nat, how: Outcome)
    requires DeleteIs(s, c) && s.calls[c].dpc.DeviceGone? && LocalOk(gen, s, c, s.calls[c].id)
    ensures StaysLocal(gen, s, DoRemoveEntry(s, c, how), c, s.calls[c].id)
  {
    var t := DoRemoveEntry(s, c, how);
    EntryChangeIsAway(s, c, t.calls[c], s.calls[c].id, Volume("", 0, LVM), how);
  }

  lemma ForgetIsLocal(gen: string -> string, s: Node, c: nat)
    requires DeleteIs(s, c) && s.calls[c].dpc.EntryGone? && LocalOk(gen, s, c, s.calls[c].id)
    ensures StaysLocal(gen, s, DoForget(s, c), c, s.calls[c].id)
  {
    var t := DoForget(s, c);
    MemoryChangeIsAway(s, c, t.calls[c], s.calls[c].id, Volume("", 0, LVM));
  }

  lemma EngagedCreateStep(gen: string -> string, s: Node, c: nat, cs: CreateStep, t: Node)
    requires ApplyCreate(gen, s, c, cs) == Some(t) && !cs.LookupName? && !cs.LookupId?
    requires LocalOk(gen, s, c, gen(s.calls[c].name))
    ensures StaysLocal(gen, s, t, c, gen(s.calls[c].name))
  {
    match cs
    case Persist(how) => PersistIsLocal(gen, s, c, Landed(s, gen(s.calls[c].name), how));
    case MakeDevice(got) => MakeDeviceIsLocal(gen, s, c, got, t);
    case Undo(how) => UndoIsLocal(gen, s, c, how);
    case StoreSize(how) =>
      var call := s.calls[c];
      StoreSizeIsLocal(gen, s, c,
                       if call.cpc.actual == call.asked then FailedEarly(false) else Landed(s, gen(call.name), how));
    case AddToMemory => AddToMemoryIsLocal(gen, s, c);
  }

  lemma EngagedDeleteStep(gen: string -> string, s: Node, c: nat, ds: DeleteStep, t: Node)
    requires ApplyDelete(s, c, ds) == Some(t) && !ds.FindVolume?
    requires LocalOk(gen, s, c, s.calls[c].id)
    ensures StaysLocal(gen, s, t, c, s.calls[c].id)
  {
    match ds
    case RemoveDevice(ok) => RemoveDeviceIsLocal(gen, s, c, ok);
    case RemoveEntry(how) => RemoveEntryIsLocal(gen, s, c, how);
    case Forget => ForgetIsLocal(gen, s, c);
  }

  lemma LookupNameReply(gen: string -> string, s: Node, c: nat, hit: Option<string>, t: Node)
    requires Injective(gen) && Named(gen, s.memory)
    requires CreateIs(s, c) && s.calls[c].cpc.CreateLocked? && DoLookupName(s, c, hit) == Some(t)
    ensures CallOk(gen, t, t.calls[c])
  {
    var id := gen(s.calls[c].name);
    assert id in s.memory ==> s.memory[id].name == s.calls[c].name;
  }

  lemma LookupNameKeepsInv(gen: string -> string, s: Node, c: nat, hit: Option<string>, t: Node)
    requires Injective(gen) && Inv(gen, s)
    requires CreateIs(s, c) && s.calls[c].cpc.CreateLocked? && DoLookupName(s, c, hit) == Some(t)
    ensures Inv(gen, t)
  {
    LookupNameReply(gen, s, c, hit, t);
    IdleStepKeepsInv(gen, s, t, c);
  }

  lemma LookupIdKeepsInv(gen: string -> string, s: Node, c: nat)
    requires Injective(gen) && Inv(gen, s) && CreateIs(s, c) && s.calls[c].cpc.NameFree?
    ensures Inv(gen, DoLookupId(gen, s, c))
  {
    EngagedWithoutDevice(gen, s, c);
    IdleStepKeepsInv(gen, s, DoLookupId(gen, s, c), c);
  }

  lemma CreateStepKeepsInv(gen: string -> string, s: Node, c: nat, cs: CreateStep, t: Node)
    requires Injective(gen) && Inv(gen, s) && ApplyCreate(gen, s, c, cs) == Some(t)
    ensures Inv(gen, t)
  {
    match cs
    case LookupName(hit) => LookupNameKeepsInv(gen, s, c, hit, t);
    case LookupId => LookupIdKeepsInv(gen, s, c);
    case _ =>
      EngagedIsLocal(gen, s, c, gen(s.calls[c].name));
      EngagedCreateStep(gen, s, c, cs, t);
      EngagedStepKeepsInv(gen, s, t, c, gen(s.calls[c].name));
  }

  lemma DeleteStepKeepsInv(gen: string -> string, s: Node, c: nat, ds: DeleteStep, t: Node)
    requires Injective(gen) && Inv(gen, s) && ApplyDelete(s, c, ds) == Some(t)
    ensures Inv(gen, t)
  {
    match ds
    case FindVolume => IdleStepKeepsInv(gen, s, t, c);
    case _ =>
      EngagedIsLocal(gen, s, c, s.calls[c].id);
      EngagedDeleteStep(gen, s, c, ds, t);
      EngagedStepKeepsInv(gen, s, t, c, s.calls[c].id);
  }

  lemma MixKeepsStores(gen: string -> string, s: Node, m: Entries)
    requires StoresOk(gen, s) && IsMix(m, s.visible, s.durable)
    ensures Named(gen, m) && Covered(s.devices, m)
  {
    forall id | id in m ensures gen(m[id].name) == id {
      assert SameAt(m, s.visible, id) || SameAt(m, s.durable, id);
    }
    forall k | k in s.devices
      ensures k.id in m && m[k.id].mode == k.mode && m[k.id].size <= s.devices[k]
    {
      assert SameAt(m, s.visible, k.id) || SameAt(m, s.durable, k.id);
    }
  }

  lemma WritebackKeepsInv(gen: string -> string, s: Node, flushed: Entries, t: Node)
    requires Inv(gen, s) && ApplyMachine(gen, s, Writeback(flushed)) == Some(t)
    ensures Inv(gen, t)
  {
    MixKeepsStores(gen, s, flushed);
    forall c | c in t.calls ensures CallOk(gen, t, t.calls[c]) {
      assert CallOk(gen, s, s.calls[c]);
      if t.calls[c].Create? {
        var id := gen(t.calls[c].name);
        assert SameAt(flushed, s.visible, id) || SameAt(flushed, s.durable, id);
      }
    }
  }

  lemma RecoverKeepsInv(gen: string -> string, s: Node, newMode: Mode, todo: seq<string>, t: Node)
    requires Inv(gen, s) && ApplyMachine(gen, s, Recover(newMode, todo)) == Some(t)
    ensures Inv(gen, t)
  {
    OrphansHaveNoDevice(s.visible, s.devices, todo);
  }

  lemma OrphansHaveNoDevice(entries: Entries, devices: Devices, todo: seq<string>)
    requires Covered(devices, entries) && ListsOrphans(todo, entries, devices)
    ensures forall id :: id in todo ==> NoDevice(devices, id)
  {
  }

  lemma CleanupKeepsInv(gen: string -> string, s: Node, how: Outcome, t: Node)
    requires Inv(gen, s) && ApplyMachine(gen, s, Cleanup(how)) == Some(t)
    ensures Inv(gen, t)
  {
    assert NoDevice(s.devices, s.phase.todo[0]);
    assert StoresOk(gen, t);
    assert PhaseOk(gen, t);
  }

  lemma MachineStepKeepsInv(gen: string -> string, s: Node, ms: MachineStep, t: Node)
    requires Inv(gen, s) && ApplyMachine(gen, s, ms) == Some(t)
    ensures Inv(gen, t)
  {
    match ms
    case Writeback(flushed) => WritebackKeepsInv(gen, s, flushed, t);
    case PowerLoss(left, litter) => MixKeepsStores(gen, s, left);
    case Crash(cut) =>
    case Recover(newMode, todo) => RecoverKeepsInv(gen, s, newMode, todo, t);
    case Cleanup(how) => CleanupKeepsInv(gen, s, how, t);
    case Serve =>
  }

  lemma BeginKeepsInv(gen: string -> string, s: Node, c: nat, call: Call, t: Node)
    requires Inv(gen, s) && s.phase.Serving? && c !in s.calls && t == WithCall(s, c, call)
    requires if call.Create? then call.cpc.CreateLocked? && !NameLocked(s, call.name)
             else call.dpc.DeleteLocked? && !IdLocked(s, call.id)
    ensures Inv(gen, t)
  {
    forall d | d in t.calls ensures CallOk(gen, t, t.calls[d]) {
      if d != c { assert CallOk(gen, s, s.calls[d]); }
    }
    CallSetKnown(gen, s, t);
  }

  lemma EndKeepsInv(gen: string -> string, s: Node, c: nat, t: Node)
    requires Inv(gen, s) && Apply(gen, s, EndCall(c)) == Some(t)
    ensures Inv(gen, t)
  {
    forall d | d in t.calls ensures CallOk(gen, t, t.calls[d]) {
      assert CallOk(gen, s, s.calls[d]);
    }
    CallSetKnown(gen, s, t);
  }

  lemma CallSetKnown(gen: string -> string, s: Node, t: Node)
    requires t == s.(calls := t.calls) && PhaseOk(gen, s) && !s.phase.Down?
    requires forall d, id :: d in s.calls && (Making(gen, s.calls[d], id) || Unmaking(s.calls[d], id)) ==>
               d in t.calls && t.calls[d] == s.calls[d]
    ensures DevicesKnown(gen, t) && MemoryBacked(t)
  {
  }

  lemma StepKeepsInv(gen: string -> string, s: Node, step: Step, t: Node)
    requires Injective(gen) && Inv(gen, s) && Apply(gen, s, step) == Some(t)
    ensures Inv(gen, t)
  {
    match step
    case BeginCreate(c, name, asked) => BeginKeepsInv(gen, s, c, Create(name, asked, CreateLocked), t);
    case InCreate(c, cs) => CreateStepKeepsInv(gen, s, c, cs, t);
    case BeginDelete(c, id) => BeginKeepsInv(gen, s, c, Delete(id, DeleteLocked), t);
    case InDelete(c, ds) => DeleteStepKeepsInv(gen, s, c, ds, t);
    case EndCall(c) => EndKeepsInv(gen, s, c, t);
    case Machine(ms) => MachineStepKeepsInv(gen, s, ms, t);
  }
}

