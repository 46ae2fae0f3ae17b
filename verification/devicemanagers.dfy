/**
 * The device managers: logical volumes with a cache in front of them, and the fake manager.
 */
module DeviceManagers {
  import opened Outcomes
  import opened Alignment
  import opened Capacity
  import opened Totals

  type Id = string

  datatype Group = Group(size: nat, free: nat)

  /** A cached logical volume: the group that holds it and its size. */
  datatype Device = Device(group: nat, size: nat)

  /** The volume groups, the logical volumes in them by group and name, and the cache of the driver by name alone. */
  datatype Lvm = Lvm(groups: seq<Group>, volumes: map<(nat, Id), nat>, devices: map<Id, Device>)

  /** A late failure is one after lvcreate succeeded and before the cache is updated. */
  datatype Result = Size(size: nat) | Gone | DeviceExists | NotEnoughSpace | LateFailure | CommandFailed

  /** The volumes of one group. */
  function InGroup(volumes: map<(nat, Id), nat>, g: nat): map<(nat, Id), nat>
  {
    map k | k in volumes && k.0 == g :: volumes[k]
  }

  /** Space is neither lost nor made up: what is free and what the volumes occupy is the size of the group. */
  ghost predicate Conserved(s: Lvm)
  {
    && (forall k :: k in s.volumes ==> k.0 < |s.groups|)
    && forall g :: 0 <= g < |s.groups| ==> s.groups[g].free + Total(InGroup(s.volumes, g)) == s.groups[g].size
  }

  /** The cache lists exactly the logical volumes that exist. */
  ghost predicate CacheExact(s: Lvm)
  {
    && (forall id :: id in s.devices ==> (s.devices[id].group, id) in s.volumes)
    && forall k :: k in s.volumes ==> k.1 in s.devices && s.devices[k.1] == Device(k.0, s.volumes[k])
  }

  /** lvcreate works where there is space, the name is free and nothing else goes wrong. */
  predicate Accepts(s: Lvm, id: Id, actual: nat, works: nat -> bool, g: nat)
    requires g < |s.groups|
  {
    s.groups[g].free >= actual && (g, id) !in s.volumes && works(g)
  }

  /** The first group from g on that accepts the volume. */
  function Place(s: Lvm, id: Id, actual: nat, works: nat -> bool, g: nat): (hit: Option<nat>)
    requires g <= |s.groups|
    ensures hit.Some? ==> g <= hit.value < |s.groups| && Accepts(s, id, actual, works, hit.value)
    ensures hit.Some? ==> forall h :: g <= h < hit.value ==> !Accepts(s, id, actual, works, h)
    ensures hit.None? ==> forall h :: g <= h < |s.groups| ==> !Accepts(s, id, actual, works, h)
    decreases |s.groups| - g
  {
    if g == |s.groups| then None
    else if Accepts(s, id, actual, works, g) then Some(g)
    else Place(s, id, actual, works, g + 1)
  }

  function Lvcreate(s: Lvm, g: nat, id: Id, actual: nat): Lvm
    requires g < |s.groups| && s.groups[g].free >= actual
  {
    s.(groups := s.groups[g := s.groups[g].(free := s.groups[g].free - actual)],
       volumes := s.volumes[(g, id) := actual])
  }

  function Lvremove(s: Lvm, g: nat, id: Id): Lvm
    requires g < |s.groups| && (g, id) in s.volumes
  {
    s.(groups := s.groups[g := s.groups[g].(free := s.groups[g].free + s.volumes[(g, id)])],
       volumes := s.volumes - {(g, id)})
  }

  /** Creating a volume: vgs may fail, lvcreate may fail in some of the groups, and more may go wrong afterwards. */
  function Created(s: Lvm, id: Id, size: nat, lists: bool, works: nat -> bool, late: bool): (Lvm, Result)
  {
    if id in s.devices then (s, DeviceExists)
    else if !lists then (s, CommandFailed)
    else
      var actual := LvmActual(size);
      match Place(s, id, actual, works, 0)
      case None => (s, NotEnoughSpace)
      case Some(g) =>
        var t := Lvcreate(s, g, id, actual);
        if late then (t, LateFailure) else (t.(devices := t.devices[id := Device(g, actual)]), Size(actual))
  }

  function Deleted(s: Lvm, id: Id, works: bool): (Lvm, Result)
    requires forall k :: k in s.volumes ==> k.0 < |s.groups|
  {
    if id !in s.devices then (s, Gone)
    else if (s.devices[id].group, id) !in s.volumes then (s.(devices := s.devices - {id}), Gone)
    else if !works then (s, CommandFailed)
    else
      var t := Lvremove(s, s.devices[id].group, id);
      (t.(devices := t.devices - {id}), Gone)
  }

  /** The LVM device manager together with the logical volumes that it works on. */
  class LvmManager {
    var groups: seq<Group>
    var volumes: map<(nat, Id), nat>
    var devices: map<Id, Device>

    function State(): Lvm
      reads this
    {
      Lvm(groups, volumes, devices)
    }

    /** CreateDevice: tries the groups in order until one takes the volume. */
    method CreateDevice(id: Id, size: nat, lists: bool, works: nat -> bool, late: bool) returns (r: Result)
      modifies this
      ensures (State(), r) == Created(old(State()), id, size, lists, works, late)
    {
      if id in devices { return DeviceExists; }
      if !lists { return CommandFailed; }
      var actual := Wrap(size + LVM_ALIGN - 1) / LVM_ALIGN * LVM_ALIGN;
      if actual == 0 { actual := LVM_ALIGN; }
      var g := 0;
      while g < |groups|
        invariant 0 <= g <= |groups| && State() == old(State())
        invariant Place(State(), id, actual, works, 0) == Place(State(), id, actual, works, g)
      {
        if groups[g].free >= actual {
          if (g, id) !in volumes && works(g) {
            groups := groups[g := groups[g].(free := groups[g].free - actual)];
            volumes := volumes[(g, id) := actual];
            if late { return LateFailure; }
            devices := devices[id := Device(g, actual)];
            return Size(actual);
          }
        }
        g := g + 1;
      }
      return NotEnoughSpace;
    }

    /** DeleteDevice: a device that is not known, or whose volume is gone, is no error. */
    method DeleteDevice(id: Id, works: bool) returns (r: Result)
      requires forall k :: k in volumes ==> k.0 < |groups|
      modifies this
      ensures (State(), r) == Deleted(old(State()), id, works)
      ensures r == Gone ==> id !in devices && devices == old(devices) - {id}
      ensures Conserved(old(State())) && CacheExact(old(State())) && r == Gone
              ==> WithoutDevice(old(State()), State(), id)
      ensures r != Gone ==> State() == old(State())
    {
      DeletedIsNotCached(State(), id, works);
      if Conserved(State()) && CacheExact(State()) { DeletedIsGone(State(), id, works); }
      if id !in devices { return Gone; }
      var g := devices[id].group;
      if (g, id) !in volumes {
        devices := devices - {id};
        return Gone;
      }
      if !works { return CommandFailed; }
      groups := groups[g := groups[g].(free := groups[g].free + volumes[(g, id)])];
      volumes := volumes - {(g, id)};
      devices := devices - {id};
      return Gone;
    }
  }

  datatype Op =
    | Create(id: Id, size: nat, lists: bool, works: nat -> bool, late: bool)
    | Delete(id: Id, removes: bool)

  ghost function Perform(s: Lvm, op: Op): (Lvm, Result)
    requires Conserved(s)
  {
    match op
    case Create(id, size, lists, works, late) => Created(s, id, size, lists, works, late)
    case Delete(id, removes) => Deleted(s, id, removes)
  }

  lemma LvcreateConserves(s: Lvm, g: nat, id: Id, actual: nat)
    requires Conserved(s) && g < |s.groups| && s.groups[g].free >= actual && (g, id) !in s.volumes
    ensures Conserved(Lvcreate(s, g, id, actual))
  {
    var t := Lvcreate(s, g, id, actual);
    forall h | 0 <= h < |t.groups| ensures t.groups[h].free + Total(InGroup(t.volumes, h)) == t.groups[h].size {
      if h == g {
        assert InGroup(t.volumes, g) == InGroup(s.volumes, g)[(g, id) := actual];
        TotalWith(InGroup(s.volumes, g), (g, id), actual);
      } else {
        assert InGroup(t.volumes, h) == InGroup(s.volumes, h);
      }
    }
  }

  lemma LvremoveConserves(s: Lvm, g: nat, id: Id)
    requires Conserved(s) && g < |s.groups| && (g, id) in s.volumes
    ensures Conserved(Lvremove(s, g, id))
  {
    var t := Lvremove(s, g, id);
    forall h | 0 <= h < |t.groups| ensures t.groups[h].free + Total(InGroup(t.volumes, h)) == t.groups[h].size {
      if h == g {
        assert InGroup(t.volumes, g) == InGroup(s.volumes, g) - {(g, id)};
        TotalWithout(InGroup(s.volumes, g), (g, id));
      } else {
        assert InGroup(t.volumes, h) == InGroup(s.volumes, h);
      }
    }
  }

  /** Space is conserved by every operation, even by one that fails late. */
  lemma PerformConserves(s: Lvm, op: Op)
    requires Conserved(s)
    ensures Conserved(Perform(s, op).0) && |Perform(s, op).0.groups| == |s.groups|
    ensures forall g :: 0 <= g < |s.groups| ==> Perform(s, op).0.groups[g].size == s.groups[g].size
  {
    match op
    case Create(id, size, lists, works, late) =>
      var actual := LvmActual(size);
      var hit := Place(s, id, actual, works, 0);
      if id !in s.devices && lists && hit.Some? {
        LvcreateConserves(s, hit.value, id, actual);
      }
    case Delete(id, removes) =>
      if id in s.devices && (s.devices[id].group, id) in s.volumes {
        LvremoveConserves(s, s.devices[id].group, id);
      }
  }

  /** Something goes wrong for a new volume after some group has accepted it. */
  predicate FailsLate(s: Lvm, op: Op)
  {
    op.Create? && op.late && op.lists && op.id !in s.devices && Place(s, op.id, LvmActual(op.size), op.works, 0).Some?
  }

  /** With an exact cache, an operation leaves it exact if and only if it does not fail late. */
  lemma CacheStaysExactUnlessLate(s: Lvm, op: Op)
    requires Conserved(s) && CacheExact(s)
    ensures CacheExact(Perform(s, op).0) <==> !FailsLate(s, op)
  {
    var (t, r) := Perform(s, op);
    if op.Create? {
      var actual := LvmActual(op.size);
      var hit := Place(s, op.id, actual, op.works, 0);
      if op.id !in s.devices && op.lists && hit.Some? {
        var k := (hit.value, op.id);
        assert k in t.volumes && t.volumes[k] == actual;
        if !op.late {
          forall j | j in t.volumes ensures j.1 in t.devices && t.devices[j.1] == Device(j.0, t.volumes[j]) {
            if j != k { assert j in s.volumes; }
          }
        }
      }
    } else if op.id in s.devices {
      forall j | j in t.volumes ensures j.1 in t.devices && t.devices[j.1] == Device(j.0, t.volumes[j]) {
        assert j in s.volumes;
      }
    }
  }

  /** With an exact cache, a volume under this name is the one that the cache knows. */
  lemma OnlyTheCachedOne(s: Lvm, id: Id, k: (nat, Id))
    requires CacheExact(s) && k in s.volumes && k.1 == id
    ensures id in s.devices && k == (s.devices[id].group, id) && s.volumes[k] == s.devices[id].size
  {
  }

  /** What is freed in a group when a device goes away. */
  function Freed(s: Lvm, id: Id, g: nat): nat
  {
    if id in s.devices && s.devices[id].group == g then s.devices[id].size else 0
  }

  /** The device is gone, its space is free again and nothing else is different. */
  ghost predicate WithoutDevice(s: Lvm, t: Lvm, id: Id)
  {
    && t.devices == s.devices - {id}
    && (forall k :: k in t.volumes <==> k in s.volumes && k.1 != id)
    && (forall k :: k in t.volumes ==> t.volumes[k] == s.volumes[k])
    && |t.groups| == |s.groups|
    && forall g :: 0 <= g < |s.groups| ==>
         t.groups[g].size == s.groups[g].size && t.groups[g].free == s.groups[g].free + Freed(s, id, g)
  }

  /**
   * Deleting works if and only if there is no such device or lvremove works. Then no group has a volume of that name,
   * its space is free again and all else is as before; otherwise nothing changes.
   */
  lemma DeletedIsGone(s: Lvm, id: Id, works: bool)
    requires Conserved(s) && CacheExact(s)
    ensures var (t, r) := Deleted(s, id, works);
            && (r == Gone <==> id !in s.devices || works)
            && if r == Gone then WithoutDevice(s, t, id) else t == s && r == CommandFailed
  {
    var (t, r) := Deleted(s, id, works);
    if r == Gone {
      forall k ensures k in t.volumes <==> k in s.volumes && k.1 != id {
        if k in s.volumes && k.1 == id { OnlyTheCachedOne(s, id, k); }
      }
      assert id !in s.devices ==> s.devices - {id} == s.devices;
    }
  }

  /** Even with a cache that is not exact, a device that was deleted is not cached any more and all others still are. */
  lemma DeletedIsNotCached(s: Lvm, id: Id, works: bool)
    requires forall k :: k in s.volumes ==> k.0 < |s.groups|
    ensures var (t, r) := Deleted(s, id, works);
            (r == Gone ==> id !in t.devices && t.devices == s.devices - {id}) && (r != Gone ==> t == s)
  {
  }

  /** The device is there with its real size, in one group whose free space shrinks by it, and nothing else changes. */
  ghost predicate WithDevice(s: Lvm, t: Lvm, id: Id, actual: nat)
  {
    && id in t.devices && t.devices[id].size == actual && t.devices == s.devices[id := t.devices[id]]
    && t.volumes == s.volumes[(t.devices[id].group, id) := actual]
    && |t.groups| == |s.groups|
    && forall g :: 0 <= g < |s.groups| ==>
         t.groups[g].size == s.groups[g].size && s.groups[g].free == t.groups[g].free + Freed(t, id, g)
  }

  /**
   * Creating succeeds if and only if there is no such device, the groups can be listed, one of them accepts the volume
   * and nothing fails afterwards. Then the device is there with the rounded size; an early failure changes nothing.
   */
  lemma CreatedIsThere(s: Lvm, id: Id, size: nat, lists: bool, works: nat -> bool, late: bool)
    ensures var (t, r) := Created(s, id, size, lists, works, late);
            && (r.Size? || r.LateFailure? <==>
                && id !in s.devices && lists
                && exists g :: 0 <= g < |s.groups| && Accepts(s, id, LvmActual(size), works, g))
            && (r.Size? ==> !late && r.size == LvmActual(size) && WithDevice(s, t, id, r.size))
            && (r.LateFailure? ==> late)
            && (!r.Size? && !r.LateFailure? ==> t == s)
  {
  }

  lemma LvremoveUndoes(s: Lvm, g: nat, id: Id, actual: nat)
    requires g < |s.groups| && s.groups[g].free >= actual && (g, id) !in s.volumes
    ensures var t := Lvcreate(s, g, id, actual);
            (g, id) in t.volumes && Lvremove(t, g, id).groups == s.groups && Lvremove(t, g, id).volumes == s.volumes
  {
  }

  lemma DeletedAfterLvcreate(s: Lvm, g: nat, id: Id, actual: nat)
    requires Conserved(s) && g < |s.groups| && s.groups[g].free >= actual && (g, id) !in s.volumes && id !in s.devices
    ensures var t := Lvcreate(s, g, id, actual).(devices := s.devices[id := Device(g, actual)]);
            (forall k :: k in t.volumes ==> k.0 < |t.groups|) && Deleted(t, id, true) == (s, Gone)
  {
    var t := Lvcreate(s, g, id, actual).(devices := s.devices[id := Device(g, actual)]);
    LvremoveUndoes(s, g, id, actual);
    assert t.devices - {id} == s.devices;
    var u := Lvremove(t, g, id);
    assert u.groups == s.groups && u.volumes == s.volumes;
  }

  /** Deleting what was just created leads back to where it began. */
  lemma DeleteUndoesCreate(s: Lvm, id: Id, size: nat, lists: bool, works: nat -> bool)
    requires Conserved(s) && CacheExact(s)
    requires Created(s, id, size, lists, works, false).1.Size?
    ensures Conserved(Created(s, id, size, lists, works, false).0)
    ensures Deleted(Created(s, id, size, lists, works, false).0, id, true) == (s, Gone)
  {
    PerformConserves(s, Create(id, size, lists, works, false));
    var actual := LvmActual(size);
    var g := Place(s, id, actual, works, 0).value;
    DeletedAfterLvcreate(s, g, id, actual);
  }

  /** A device that was deleted can be created again with the same size. */
  lemma CreateAfterDelete(s: Lvm, id: Id, size: nat)
    requires Conserved(s) && CacheExact(s) && id in s.devices && s.devices[id].size == LvmActual(size)
    ensures var t := Deleted(s, id, true).0; Created(t, id, size, true, g => true, false).1 == Size(LvmActual(size))
  {
    var t := Deleted(s, id, true).0;
    var g := s.devices[id].group;
    DeletedIsGone(s, id, true);
    CreatedIsThere(t, id, size, true, g => true, false);
    assert Accepts(t, id, LvmActual(size), g => true, g);
  }

  ghost function RunOps(s: Lvm, ops: seq<Op>): (t: Lvm)
    requires Conserved(s)
    ensures Conserved(t)
    decreases |ops|
  {
    if ops == [] then s else
      var before := RunOps(s, ops[..|ops| - 1]);
      PerformConserves(before, ops[|ops| - 1]);
      Perform(before, ops[|ops| - 1]).0
  }

  /** No operation of this run fails between lvcreate and the update of the cache. */
  ghost predicate NeverLate(s: Lvm, ops: seq<Op>)
    requires Conserved(s)
    decreases |ops|
  {
    ops == [] || (NeverLate(s, ops[..|ops| - 1]) && !FailsLate(RunOps(s, ops[..|ops| - 1]), ops[|ops| - 1]))
  }

  /**
   * Along every run free space plus volumes is the size of each group, and in a run without a late failure the
   * cache lists exactly the existing volumes.
   */
  lemma {:induction false} CacheAndSpaceStayExact(s: Lvm, ops: seq<Op>)
    requires Conserved(s) && CacheExact(s) && NeverLate(s, ops)
    ensures Conserved(RunOps(s, ops)) && CacheExact(RunOps(s, ops))
    decreases |ops|
  {
    if ops != [] {
      var init := ops[..|ops| - 1];
      CacheAndSpaceStayExact(s, init);
      CacheStaysExactUnlessLate(RunOps(s, init), ops[|ops| - 1]);
    }
  }

  /** After a late failure in group g only later groups can take the same name. */
  lemma AcceptsAfterLateFailure(s: Lvm, id: Id, actual: nat, works: nat -> bool, g: nat, h: nat)
    requires Place(s, id, actual, works, 0) == Some(g) && h < |s.groups|
    ensures Accepts(Lvcreate(s, g, id, actual), id, actual, works, h) <==> h > g && Accepts(s, id, actual, works, h)
  {
    var t := Lvcreate(s, g, id, actual);
    if h == g {
      assert (g, id) in t.volumes;
    } else {
      assert (h, id) != (g, id);
      assert Accepts(t, id, actual, works, h) <==> Accepts(s, id, actual, works, h);
    }
  }

  /**
   * A late failure is not repaired by trying again: the second attempt succeeds exactly when a later group has
   * room, and then the same name exists twice.
   */
  lemma RetryAfterLateFailure(s: Lvm, id: Id, size: nat, works: nat -> bool, g: nat)
    requires CacheExact(s) && id !in s.devices
    requires Place(s, id, LvmActual(size), works, 0) == Some(g)
    ensures var (t, r) := Created(Created(s, id, size, true, works, true).0, id, size, true, works, false);
            && (r.Size? <==> exists h :: g < h < |s.groups| && Accepts(s, id, LvmActual(size), works, h))
            && (r.Size? <==> exists h :: h != g && (h, id) in t.volumes)
            && (g, id) in t.volumes
  {
    var actual := LvmActual(size);
    var late := Lvcreate(s, g, id, actual);
    var hit := Place(late, id, actual, works, 0);
    forall h | 0 <= h < |s.groups|
      ensures Accepts(late, id, actual, works, h) <==> h > g && Accepts(s, id, actual, works, h)
    {
      AcceptsAfterLateFailure(s, id, actual, works, g, h);
    }
    if hit.Some? {
      assert (hit.value, id) in Lvcreate(late, hit.value, id, actual).volumes;
    }
  }

  const TERABYTE: nat := 1024 * 1024 * 1024 * 1024

  /** The fake manager: devices exist only in memory. */
  class FakeManager {
    const capacity: nat
    var devices: map<Id, nat>

    ghost predicate Valid()
      reads this
    {
      capacity < U64 && Total(devices) <= capacity
    }

    constructor (capacity: nat)
      requires capacity < U64
      ensures Valid() && devices == map[] && this.capacity == capacity
    {
      this.capacity := capacity;
      devices := map[];
    }

    /** newFake: a percentage above 100 is an error. */
    static method NewFake(percentage: nat) returns (dm: FakeManager?)
      ensures dm == null <==> percentage > 100
      ensures dm != null ==> fresh(dm) && dm.Valid()
      ensures dm != null ==> dm.devices == map[] && dm.capacity == percentage * TERABYTE / 100
    {
      if percentage > 100 { return null; }
      dm := new FakeManager(Wrap(percentage * TERABYTE) / 100);
    }

    /** The remaining capacity: subtracting one size after the other, in any order, never goes below zero. */
    method GetCapacity() returns (remaining: nat)
      requires Valid()
      ensures remaining + Total(devices) == capacity
    {
      remaining := capacity;
      var rest := devices;
      while rest != map[]
        invariant remaining + Total(devices) == capacity + Total(rest)
        invariant Total(rest) <= remaining
        decreases |rest|
      {
        var id :| id in rest;
        TotalWithout(rest, id);
        remaining := remaining - rest[id];
        rest := rest - {id};
      }
    }

    method CreateDevice(id: Id, size: nat) returns (r: Result)
      requires Valid()
      modifies this
      ensures Valid()
      ensures r == if id in old(devices) then DeviceExists
                   else if size + Total(old(devices)) > capacity then NotEnoughSpace else Size(size)
      ensures devices == if r.Size? then old(devices)[id := size] else old(devices)
    {
      if id in devices { return DeviceExists; }
      var remaining := GetCapacity();
      if size > remaining { return NotEnoughSpace; }
      TotalWith(devices, id, size);
      devices := devices[id := size];
      return Size(size);
    }

    method DeleteDevice(id: Id) returns (r: Result)
      requires Valid()
      modifies this
      ensures Valid() && r == Gone && devices == old(devices) - {id}
      ensures Total(devices) + (if id in old(devices) then old(devices)[id] else 0) == Total(old(devices))
    {
      if id in devices { TotalWithout(devices, id); } else { assert devices - {id} == devices; }
      devices := devices - {id};
      return Gone;
    }
  }
}

