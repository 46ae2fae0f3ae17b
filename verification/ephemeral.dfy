/**
 * Ephemeral inline volumes: publishing creates, formats and mounts a volume, unpublishing undoes all of it.
 */
module EphemeralVolumes {
  import opened Outcomes
  import opened VolumeLifecycle
  import opened VolumeRuns
  import opened NodeControllers

  datatype Mount = Mount(device: DeviceKey, fsType: string, opts: seq<string>)

  /** A node with the filesystems on its devices, its mount points and the target directories that exist. */
  datatype Host = Host(node: Node, filesystems: map<DeviceKey, string>, mounts: map<string, Mount>, dirs: set<string>)

  datatype Request = Request(volumeID: string, target: string, fsType: string, flags: seq<string>, appDirect: bool,
                             readOnly: bool, size: nat)

  /** What the environment makes of the operations of one call. Any of them may fail. */
  datatype PublishFate = PublishFate(
    create: CreateFate,
    detect: bool,               // looking the device up and detecting its filesystem
    mkfs: bool,
    target: bool,               // finding out what is mounted at the target and preparing it
    mount: bool,
    configure: bool)

  datatype UnpublishFate = UnpublishFate(
    inspect: bool,              // finding out whether the target is mounted
    unmount: bool,
    rmdir: bool,
    removed: bool,
    entry: Outcome)

  // ------------------------------------------------------------------------------- mount flags

  /** The two spellings of the dax option are the same. */
  predicate SameFlag(f: string, g: string)
  {
    (f == "dax=always" && g == "dax") || (f == "dax" && g == "dax=always") || f == g
  }

  /** Every flag is among the options, except for bind, which is never shown. */
  ghost predicate Matches(flags: seq<string>, opts: seq<string>)
  {
    forall i :: 0 <= i < |flags| ==> flags[i] == "bind" || exists j :: 0 <= j < |opts| && SameFlag(flags[i], opts[j])
  }

  method FindMountFlags(flags: seq<string>, opts: seq<string>) returns (all: bool)
    ensures all <==> Matches(flags, opts)
  {
    for i := 0 to |flags|
      invariant Matches(flags[..i], opts)
    {
      if flags[i] == "bind" { continue; }
      var found := false;
      for j := 0 to |opts|
        invariant !found && forall k :: 0 <= k < j ==> !SameFlag(flags[i], opts[k])
      {
        if SameFlag(flags[i], opts[j]) {
          found := true;
          break;
        }
      }
      if !found { return false; }
    }
    return true;
  }

  function MountFlags(req: Request): seq<string>
  {
    req.flags + (if req.appDirect then ["dax"] else []) + if req.readOnly then ["ro"] else []
  }

  // ------------------------------------------------------------------------ publish, unpublish

  function FsType(req: Request): string
  {
    if req.fsType == "" then "ext4" else req.fsType
  }

  /** provisionDevice: formats a device once, and refuses one with another filesystem. */
  function Provisioned(h: Host, key: DeviceKey, fsType: string, detects: bool, works: bool): Option<Host>
  {
    if !detects then None
    else if key in h.filesystems then (if h.filesystems[key] == fsType then Some(h) else None)
    else if (fsType == "ext4" || fsType == "xfs") && works then Some(h.(filesystems := h.filesystems[key := fsType]))
    else None
  }

  ghost predicate Compatible(m: Mount, req: Request)
  {
    (req.fsType == "" || m.fsType == req.fsType) && Matches(MountFlags(req), m.opts)
  }

  function WithDir(h: Host, target: string): Host
  {
    h.(dirs := h.dirs + {target})
  }

  function WithMount(h: Host, target: string, m: Mount): Host
  {
    h.(mounts := h.mounts[target := m])
  }

  /** A filesystem disappears together with its device. */
  function WithNode(h: Host, n: Node): Host
  {
    h.(node := n, filesystems := map k | k in h.filesystems && k in n.devices :: h.filesystems[k])
  }

  /** Mounting a device that has its filesystem. */
  ghost function Mounted(report: seq<string> -> seq<string>, h: Host, key: DeviceKey, req: Request,
        fate: PublishFate): (Host, bool)
  {
    if !fate.target then (h, false)
    else if req.target in h.mounts then (h, Compatible(h.mounts[req.target], req))
    else if !fate.mount then (WithDir(h, req.target), false)
    else (WithMount(WithDir(h, req.target), req.target, Mount(key, FsType(req), report(MountFlags(req)))),
          req.fsType == "xfs" ==> fate.configure)
  }

  /** What follows creation. The device is looked up under the current mode of the driver. */
  ghost function Attached(report: seq<string> -> seq<string>, h: Host, reply: Reply, req: Request,
        fate: PublishFate): (Host, bool)
  {
    if reply.Failed? || DeviceKey(h.node.mode, reply.id) !in h.node.devices then (h, false) else
      var key := DeviceKey(h.node.mode, reply.id);
      match Provisioned(h, key, FsType(req), fate.detect, fate.mkfs)
      case None => (h, false)
      case Some(h1) => Mounted(report, h1, key, req, fate)
  }

  // ------------------------------------------------------------------------------ what is published

  /** The flags of a mount: those of the request, dax for app direct use and ro for a read-only volume. */
  predicate FlagsFor(flags: seq<string>, req: Request)
  {
    && req.flags <= flags
    && (req.appDirect ==> "dax" in flags) && (req.readOnly ==> "ro" in flags)
    && forall f :: f in flags ==> f in req.flags || (req.appDirect && f == "dax") || (req.readOnly && f == "ro")
  }

  lemma MountFlagsAreRight(req: Request)
    ensures FlagsFor(MountFlags(req), req)
  {
    var flags := MountFlags(req);
    if req.appDirect { assert flags[|req.flags|] == "dax"; }
    if req.readOnly { assert flags[|flags| - 1] == "ro"; }
  }

  predicate IsDax(f: string)
  {
    f == "dax" || f == "dax=always"
  }

  predicate HasDax(opts: seq<string>)
  {
    exists j :: 0 <= j < |opts| && IsDax(opts[j])
  }

  /** The flag is among the options, where one spelling of dax is as good as the other. */
  predicate Lists(opts: seq<string>, f: string)
  {
    f in opts || (IsDax(f) && HasDax(opts))
  }

  /** The filesystem is the requested one, if any, and all flags but bind are listed. */
  ghost predicate Suits(m: Mount, req: Request)
  {
    && (req.fsType == "" || m.fsType == req.fsType)
    && (forall f :: f in req.flags ==> f == "bind" || Lists(m.opts, f))
    && (req.appDirect ==> HasDax(m.opts)) && (req.readOnly ==> "ro" in m.opts)
  }

  lemma ListedFlag(f: string, opts: seq<string>)
    ensures (exists j :: 0 <= j < |opts| && SameFlag(f, opts[j])) <==> Lists(opts, f)
  {
    if f in opts {
      var j :| 0 <= j < |opts| && opts[j] == f;
      assert SameFlag(f, opts[j]);
    }
    if IsDax(f) && HasDax(opts) {
      var j :| 0 <= j < |opts| && IsDax(opts[j]);
      assert SameFlag(f, opts[j]);
    }
    if exists j :: 0 <= j < |opts| && SameFlag(f, opts[j]) {
      var j :| 0 <= j < |opts| && SameFlag(f, opts[j]);
      assert f == opts[j] || (IsDax(f) && IsDax(opts[j]));
    }
  }

  lemma MatchesIsLists(flags: seq<string>, opts: seq<string>)
    ensures Matches(flags, opts) <==> forall f :: f in flags ==> f == "bind" || Lists(opts, f)
  {
    forall i | 0 <= i < |flags|
      ensures (exists j :: 0 <= j < |opts| && SameFlag(flags[i], opts[j])) <==> Lists(opts, flags[i])
    {
      ListedFlag(flags[i], opts);
    }
    if forall f :: f in flags ==> f == "bind" || Lists(opts, f) {
      forall i | 0 <= i < |flags| ensures flags[i] == "bind" || Lists(opts, flags[i]) { assert flags[i] in flags; }
    }
  }

  /** Which existing mounts a request accepts. */
  lemma CompatibleExactly(m: Mount, req: Request)
    ensures Compatible(m, req) <==> Suits(m, req)
  {
    MountFlagsAreRight(req);
    MatchesIsLists(MountFlags(req), m.opts);
    assert forall f :: f in req.flags ==> f in MountFlags(req);
    if "dax" in m.opts {
      var j :| 0 <= j < |m.opts| && m.opts[j] == "dax";
      assert IsDax(m.opts[j]);
    }
  }

  /** The device, the filesystem and the flags with which a request mounts. */
  ghost predicate MountedFor(report: seq<string> -> seq<string>, m: Mount, key: DeviceKey, req: Request)
  {
    && m.device == key && m.fsType == (if req.fsType == "" then "ext4" else req.fsType)
    && exists flags :: FlagsFor(flags, req) && m.opts == report(flags)
  }

  /**
   * The device exists and has the requested filesystem. Unless something compatible was mounted at the target before,
   * it is what is mounted there, with the requested flags. Other mounts are as before.
   */
  ghost predicate Available(report: seq<string> -> seq<string>, before: map<string, Mount>, t: Host, key: DeviceKey,
        req: Request)
  {
    && key in t.node.devices && key in t.filesystems
    && t.filesystems[key] == (if req.fsType == "" then "ext4" else req.fsType)
    && req.target in t.mounts
    && if req.target in before then t.mounts == before && Suits(before[req.target], req)
       else t.mounts == before[req.target := t.mounts[req.target]] && req.target in t.dirs
            && MountedFor(report, t.mounts[req.target], key, req)
  }

  lemma AttachedIsAvailable(report: seq<string> -> seq<string>, h: Host, reply: Reply, req: Request, fate: PublishFate)
    requires Attached(report, h, reply, req, fate).1
    ensures var t := Attached(report, h, reply, req, fate).0;
            t.node == h.node && Available(report, h.mounts, t, DeviceKey(h.node.mode, reply.id), req)
  {
    MountFlagsAreRight(req);
    if req.target in h.mounts { CompatibleExactly(h.mounts[req.target], req); }
  }

  /** The device has the requested filesystem already, or none yet and can be given a supported one. */
  predicate CanHaveFilesystem(h: Host, key: DeviceKey, fsType: string, mkfs: bool)
  {
    if key in h.filesystems then h.filesystems[key] == fsType else mkfs && fsType in {"ext4", "xfs"}
  }

  /** Exactly when the part of a publish call that follows creation succeeds. */
  lemma AttachSucceedsIff(report: seq<string> -> seq<string>, h: Host, id: string, size: nat, req: Request,
        fate: PublishFate)
    ensures var key := DeviceKey(h.node.mode, id);
            Attached(report, h, Ok(id, size), req, fate).1 <==>
            && key in h.node.devices && fate.detect && fate.target
            && CanHaveFilesystem(h, key, if req.fsType == "" then "ext4" else req.fsType, fate.mkfs)
            && if req.target in h.mounts then Suits(h.mounts[req.target], req)
               else fate.mount && (req.fsType == "xfs" ==> fate.configure)
  {
    if req.target in h.mounts { CompatibleExactly(h.mounts[req.target], req); }
  }

  /** A target that is mounted by something else is refused and stays as it is. */
  lemma UnsuitableIsRefused(report: seq<string> -> seq<string>, h: Host, reply: Reply, req: Request, fate: PublishFate)
    requires req.target in h.mounts && !Suits(h.mounts[req.target], req)
    ensures var (t, ok) := Attached(report, h, reply, req, fate);
            !ok && t.mounts == h.mounts && t.dirs == h.dirs && t.node == h.node
  {
    CompatibleExactly(h.mounts[req.target], req);
  }

  /** When mounting fails, the target directory is there already and has to be removed by unpublishing. */
  lemma FailedMountLeavesTarget(report: seq<string> -> seq<string>, h: Host, reply: Reply, req: Request,
        fate: PublishFate)
    requires fate.target && !fate.mount && req.target !in h.mounts
    ensures var (t, ok) := Attached(report, h, reply, req, fate);
            !ok && t.mounts == h.mounts && (t.dirs == h.dirs || t.dirs == h.dirs + {req.target})
    ensures var key := DeviceKey(h.node.mode, if reply.Ok? then reply.id else "");
            reply.Ok? && key in h.node.devices && Provisioned(h, key, FsType(req), fate.detect, fate.mkfs).Some?
            ==> req.target in Attached(report, h, reply, req, fate).0.dirs
  {
  }

  // ------------------------------------------------------------------------------ whole calls

  /** How NodePublishVolume ends. */
  ghost function Published(gen: string -> string, report: seq<string> -> seq<string>, h: Host, req: Request,
        fate: PublishFate): (Host, bool)
  {
    var (n, reply) := CreateResult(gen, h.node, req.volumeID, req.size, fate.create);
    Attached(report, WithNode(h, n), reply, req, fate)
  }

  /** The listed volume that an unpublish request is about: its ID is tried first, then its name. */
  ghost function Target(gen: string -> string, n: Node, volumeID: string): Option<string>
  {
    if volumeID in n.memory then Some(volumeID) else if gen(volumeID) in n.memory then Some(gen(volumeID)) else None
  }

  /** The volume that an unpublish request is about is the listed one with that ID or, if there is none, that name. */
  lemma TargetExactly(gen: string -> string, n: Node, volumeID: string, id: string)
    requires Injective(gen) && Named(gen, n.memory)
    ensures Target(gen, n, volumeID) == Some(id) <==>
            id in n.memory && (id == volumeID || (volumeID !in n.memory && n.memory[id].name == volumeID))
  {
  }

  function WithoutMount(h: Host, target: string): Host
  {
    h.(mounts := h.mounts - {target})
  }

  function WithoutDir(h: Host, target: string): Host
  {
    h.(dirs := h.dirs - {target})
  }

  /**
   * Unmounting and removing the target directory, the first part of NodeUnpublishVolume for a known volume. A mount
   * that goes unnoticed is not unmounted, and then its directory cannot be removed.
   */
  function Detached(h: Host, target: string, fate: UnpublishFate): (Host, bool)
  {
    if target in h.mounts && !(fate.inspect && fate.unmount) then (h, false)
    else if target in h.dirs && !fate.rmdir then (WithoutMount(h, target), false)
    else (WithoutDir(WithoutMount(h, target), target), true)
  }

  /** What NodeUnpublishVolume does once it has found the volume. */
  ghost function UnpublishedKnown(h: Host, id: string, target: string, fate: UnpublishFate): (Host, bool)
  {
    var (h1, detached) := Detached(h, target, fate);
    if !detached then (h1, false) else
    var (n, ok) := DeleteResult(h.node, id, fate.removed, fate.entry);
    (WithNode(h1, n), ok)
  }

  /** How NodeUnpublishVolume ends. */
  ghost function Unpublished(gen: string -> string, h: Host, volumeID: string, target: string,
        fate: UnpublishFate): (Host, bool)
  {
    match Target(gen, h.node, volumeID)
    case None => (h, !fate.inspect || target !in h.mounts)
    case Some(id) => UnpublishedKnown(h, id, target, fate)
  }

  class NodeServer {
    const cs: NodeController
    const report: seq<string> -> seq<string>
    var filesystems: map<DeviceKey, string>
    var mounts: map<string, Mount>
    var dirs: set<string>

    constructor (cs: NodeController, report: seq<string> -> seq<string>, filesystems: map<DeviceKey, string>,
          mounts: map<string, Mount>, dirs: set<string>)
      ensures this.cs == cs && this.report == report && this.filesystems == filesystems && this.mounts == mounts
              && this.dirs == dirs
    {
      this.cs, this.report, this.filesystems, this.mounts, this.dirs := cs, report, filesystems, mounts, dirs;
    }

    ghost function View(): Host
      reads this, cs
    {
      Host(cs.View(), filesystems, mounts, dirs)
    }

    ghost predicate Valid()
      reads this, cs
    {
      cs.Valid() && filesystems.Keys <= cs.devices.Keys
    }

    method ProvisionDevice(key: DeviceKey, fsType: string, detects: bool, works: bool) returns (ok: bool)
      modifies this`filesystems
      ensures match Provisioned(old(View()), key, fsType, detects, works)
              case None => !ok && View() == old(View())
              case Some(h) => ok && View() == h
    {
      if !detects { return false; }
      if key in filesystems { return filesystems[key] == fsType; }
      if fsType != "ext4" && fsType != "xfs" { return false; }
      if !works { return false; }
      filesystems := filesystems[key := fsType];
      return true;
    }

    /** The part of NodePublishVolume that mounts; an existing mount must be compatible with the request. */
    method MountTarget(key: DeviceKey, req: Request, fate: PublishFate) returns (ok: bool)
      modifies this`mounts, this`dirs
      ensures (View(), ok) == Mounted(report, old(View()), key, req, fate)
      ensures ok && req.target !in old(mounts) ==>
                req.target in mounts && MountedFor(report, mounts[req.target], key, req)
    {
      var flags := req.flags;
      if req.appDirect { flags := flags + ["dax"]; }
      if req.readOnly { flags := flags + ["ro"]; }
      assert flags == MountFlags(req);
      MountFlagsAreRight(req);
      if !fate.target { return false; }
      if req.target in mounts {
        var same := FindMountFlags(flags, mounts[req.target].opts);
        return (req.fsType == "" || mounts[req.target].fsType == req.fsType) && same;
      }
      dirs := dirs + {req.target};
      if !fate.mount { return false; }
      mounts := mounts[req.target := Mount(key, FsType(req), report(flags))];
      return req.fsType == "xfs" ==> fate.configure;
    }

    /** The volume is created like a persistent one. */
    method CreateVolume(req: Request, fate: PublishFate) returns (reply: Reply)
      requires Valid() && (fate.create.device.Some? ==> req.size <= fate.create.device.value)
      modifies cs
      ensures Valid() && old(cs.devices.Keys) <= cs.devices.Keys
      ensures (cs.View(), reply) == CreateResult(cs.gen, old(cs.View()), req.volumeID, req.size, fate.create)
      ensures reply.Ok? ==> reply.id == cs.gen(req.volumeID)
    {
      reply := cs.CreateVolumeInternal(req.volumeID, req.size, fate.create);
    }

    /** The device that was created or found is formatted and mounted. */
    method Attach(reply: Reply, req: Request, fate: PublishFate) returns (ok: bool)
      modifies this
      ensures (View(), ok) == Attached(report, old(View()), reply, req, fate)
      ensures ok ==> reply.Ok? && Available(report, old(mounts), View(), DeviceKey(cs.mode, reply.id), req)
      ensures old(filesystems.Keys) <= cs.devices.Keys ==> filesystems.Keys <= cs.devices.Keys
    {
      if Attached(report, View(), reply, req, fate).1 { AttachedIsAvailable(report, View(), reply, req, fate); }
      if reply.Failed? { return false; }
      var key := DeviceKey(cs.mode, reply.id);
      if key !in cs.devices { return false; }
      ok := ProvisionDevice(key, FsType(req), fate.detect, fate.mkfs);
      if !ok { return false; }
      ok := MountTarget(key, req, fate);
    }

    /** NodePublishVolume for an ephemeral filesystem volume. */
    method NodePublishVolume(req: Request, fate: PublishFate) returns (ok: bool)
      requires Valid() && (fate.create.device.Some? ==> req.size <= fate.create.device.value)
      modifies this, cs
      ensures Valid()
      ensures (View(), ok) == Published(cs.gen, report, old(View()), req, fate)
      ensures ok ==> Available(report, old(mounts), View(), DeviceKey(cs.mode, cs.gen(req.volumeID)), req)
    {
      var reply := CreateVolume(req, fate);
      NothingLost(old(View()), cs.View());
      ok := Attach(reply, req, fate);
    }

    method FindVolume(volumeID: string) returns (vol: Option<string>)
      requires Valid()
      ensures vol == Target(cs.gen, cs.View(), volumeID)
    {
      if volumeID in cs.pmemVolumes { return Some(volumeID); }
      vol := cs.GetVolumeByName(volumeID);
    }

    method Detach(target: string, fate: UnpublishFate) returns (ok: bool)
      modifies this`mounts, this`dirs
      ensures (View(), ok) == Detached(old(View()), target, fate)
    {
      if fate.inspect && target in mounts {
        if !fate.unmount { return false; }
        mounts := mounts - {target};
      }
      if target in mounts { return false; }
      assert View() == WithoutMount(old(View()), target);
      if target in dirs {
        if !fate.rmdir { return false; }
        dirs := dirs - {target};
      }
      assert View() == WithoutDir(WithoutMount(old(View()), target), target);
      return true;
    }

    method DeleteVolume(id: string, fate: UnpublishFate) returns (ok: bool)
      requires Valid()
      modifies this`filesystems, cs
      ensures Valid() && View() == WithNode(old(View()), cs.View())
      ensures (cs.View(), ok) == DeleteResult(old(cs.View()), id, fate.removed, fate.entry)
    {
      ok := cs.DeleteVolume(id, fate.removed, fate.entry);
      LoseFilesystems();
    }

    /** The filesystems of devices that are gone are gone as well. */
    method LoseFilesystems()
      modifies this`filesystems
      ensures filesystems.Keys <= cs.devices.Keys && View() == WithNode(old(View()), cs.View())
    {
      filesystems := map k | k in filesystems && k in cs.devices :: filesystems[k];
    }

    /** NodeUnpublishVolume. */
    method NodeUnpublishVolume(volumeID: string, target: string, fate: UnpublishFate) returns (ok: bool)
      requires Valid()
      modifies this, cs
      ensures Valid()
      ensures (View(), ok) == Unpublished(cs.gen, old(View()), volumeID, target, fate)
    {
      var vol := FindVolume(volumeID);
      if vol.None? { return !fate.inspect || target !in mounts; }
      ok := Detach(target, fate);
      if !ok { return false; }
      ok := DeleteVolume(vol.value, fate);
    }
  }

  lemma NothingLost(h: Host, n: Node)
    requires h.filesystems.Keys <= n.devices.Keys
    ensures WithNode(h, n) == h.(node := n)
  {
  }
}

