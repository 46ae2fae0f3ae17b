/**
 * The persisted driver state: one JSON file per volume in a directory. An entry is written to a
 * temporary file which is renamed into place, then the directory is synced.
 *
 * Files are written synchronously, so file content is durable when a write returns. Changes of
 * the directory are durable only after a sync; until then the kernel may have written back, for each
 * name separately, any of the versions the directory had since the last sync.
 */
module StateFiles {
  datatype Content<+T> = Torn | Whole(data: T)

  type Dir<T> = map<string, Content<T>>

  const JSON := ".json"
  const TMP := ".tmp"

  function EntryFile(id: string): string
  {
    id + JSON
  }

  function TempFile(id: string): string
  {
    id + JSON + TMP
  }

  predicate HasSuffix(s: string, suffix: string)
  {
    |suffix| <= |s| && s[|s| - |suffix|..] == suffix
  }

  /** Different entries use different files, and a temporary file is never taken for an entry. */
  lemma FileNamesApart(a: string, b: string)
    ensures EntryFile(a) == EntryFile(b) <==> a == b
    ensures TempFile(a) != EntryFile(b)
    ensures HasSuffix(EntryFile(a), JSON) && !HasSuffix(TempFile(a), JSON)
  {
    assert EntryFile(a)[..|EntryFile(a)| - 5] == a && EntryFile(b)[..|EntryFile(b)| - 5] == b;
    assert EntryFile(a)[|EntryFile(a)| - 5..] == JSON;
    assert TempFile(a)[|TempFile(a)| - 1] == 'p' && EntryFile(b)[|EntryFile(b)| - 1] == 'n';
    assert TempFile(a)[|TempFile(a)| - 5..][4] == 'p' && JSON[4] == 'n';
  }

  predicate SameFile<T(==)>(a: Dir<T>, b: Dir<T>, name: string)
  {
    (name in a <==> name in b) && (name in a ==> a[name] == b[name])
  }

  /** The directory has this name in a version of the history. */
  ghost predicate FromHistory<T(!new)>(d: Dir<T>, history: seq<Dir<T>>, name: string)
  {
    exists j :: 0 <= j < |history| && SameFile(d, history[j], name)
  }

  /** A directory that a power loss may leave: each name in one of the versions since the last sync. */
  ghost predicate MayBeLeft<T(!new)>(d: Dir<T>, history: seq<Dir<T>>)
  {
    forall name :: FromHistory(d, history, name)
  }

  /** Against `before`, d has `id` as it was or as wanted, and all other entries as they were. */
  ghost predicate Atomic<T(!new)>(before: seq<Dir<T>>, d: Dir<T>, id: string, wanted: Dir<T>)
  {
    && (forall other :: other != id ==> FromHistory(d, before, EntryFile(other)))
    && (FromHistory(d, before, EntryFile(id)) || SameFile(d, wanted, EntryFile(id)))
  }

  /** Whatever a crash or power loss may leave at this point is atomic. */
  ghost predicate CrashAtomic<T(!new)>(before: seq<Dir<T>>, history: seq<Dir<T>>, id: string, wanted: Dir<T>)
  {
    forall d :: MayBeLeft(d, history) ==> Atomic(before, d, id, wanted)
  }

  ghost predicate AllAtomic<T(!new)>(before: seq<Dir<T>>, history: seq<Dir<T>>, id: string, wanted: Dir<T>)
  {
    forall k :: 0 <= k < |history| ==> Atomic(before, history[k], id, wanted)
  }

  lemma AllAtomicIsCrashAtomic<T(!new)>(before: seq<Dir<T>>, history: seq<Dir<T>>, id: string, wanted: Dir<T>)
    requires AllAtomic(before, history, id, wanted)
    ensures CrashAtomic(before, history, id, wanted)
  {
    forall d | MayBeLeft(d, history) ensures Atomic(before, d, id, wanted) {
      forall other
        ensures FromHistory(d, before, EntryFile(other)) || (other == id && SameFile(d, wanted, EntryFile(id)))
      {
        assert FromHistory(d, history, EntryFile(other));
        var k :| 0 <= k < |history| && SameFile(d, history[k], EntryFile(other));
        assert Atomic(before, history[k], id, wanted);
        if FromHistory(history[k], before, EntryFile(other)) {
          var j :| 0 <= j < |before| && SameFile(history[k], before[j], EntryFile(other));
          assert SameFile(d, before[j], EntryFile(other));
        }
      }
    }
  }

  lemma AllAtomicConcat<T(!new)>(before: seq<Dir<T>>, a: seq<Dir<T>>, b: seq<Dir<T>>, n: nat, id: string,
        wanted: Dir<T>)
    requires AllAtomic(before, a, id, wanted) && AllAtomic(before, b, id, wanted) && n <= |b|
    ensures AllAtomic(before, a + b[..n], id, wanted)
  {
  }

  lemma StartIsAtomic<T(!new)>(before: seq<Dir<T>>, id: string, wanted: Dir<T>)
    ensures AllAtomic(before, before, id, wanted)
  {
  }

  /** A version is atomic when its entries, this one aside, are those of the version the call started with. */
  lemma AtomicFromLast<T(!new)>(before: seq<Dir<T>>, d: Dir<T>, id: string, wanted: Dir<T>)
    requires |before| > 0
    requires forall other :: other != id ==> SameFile(d, before[|before| - 1], EntryFile(other))
    requires SameFile(d, before[|before| - 1], EntryFile(id)) || SameFile(d, wanted, EntryFile(id))
    ensures Atomic(before, d, id, wanted)
  {
  }

  lemma TempIsAtomic<T(!new)>(before: seq<Dir<T>>, id: string, wanted: Dir<T>, c: Content<T>)
    requires |before| > 0
    ensures Atomic(before, before[|before| - 1][TempFile(id) := c], id, wanted)
    ensures Atomic(before, before[|before| - 1] - {TempFile(id)}, id, wanted)
  {
    forall other ensures EntryFile(other) != TempFile(id) { FileNamesApart(id, other); }
    AtomicFromLast(before, before[|before| - 1][TempFile(id) := c], id, wanted);
    AtomicFromLast(before, before[|before| - 1] - {TempFile(id)}, id, wanted);
  }

  lemma EntryIsAtomic<T(!new)>(before: seq<Dir<T>>, id: string, c: Content<T>)
    requires |before| > 0
    ensures Atomic(before, before[|before| - 1][EntryFile(id) := c], id, map[EntryFile(id) := c])
    ensures Atomic(before, before[|before| - 1] - {EntryFile(id)}, id, map[])
  {
    forall other | other != id ensures EntryFile(other) != EntryFile(id) { FileNamesApart(id, other); }
    AtomicFromLast(before, before[|before| - 1][EntryFile(id) := c], id, map[EntryFile(id) := c]);
    AtomicFromLast(before, before[|before| - 1] - {EntryFile(id)}, id, map[]);
  }

  /** Where a call may fail; every operation before that point took effect. */
  datatype Fault = NoFault | OpenFails | EncodeFails | CloseFails | RenameFails | RemoveFails | SyncFails

  /** The directory versions that Create goes through, starting from v. */
  function CreateVersions<T>(v: Dir<T>, id: string, data: T, fault: Fault): seq<Dir<T>>
  {
    var tmp := TempFile(id);
    var blank, written := v[tmp := Torn], v[tmp := Whole(data)];
    if tmp in v || fault.OpenFails? then []
    else if fault.EncodeFails? then [blank, blank - {tmp}]
    else if fault.CloseFails? || fault.RenameFails? then [blank, written]
    else [blank, written, (written - {tmp})[EntryFile(id) := Whole(data)]]
  }

  function DeleteVersions<T>(v: Dir<T>, id: string, fault: Fault): seq<Dir<T>>
  {
    if EntryFile(id) !in v || fault.RemoveFails? then [] else [v - {EntryFile(id)}]
  }

  /**
   * At each point of Create, a crash or power loss leaves every entry as a complete old version or, for this
   * ID only, as the complete new one.
   */
  lemma CreateIsCrashAtomic<T(!new)>(before: seq<Dir<T>>, id: string, data: T, fault: Fault, n: nat)
    requires |before| > 0 && n <= |CreateVersions(before[|before| - 1], id, data, fault)|
    ensures CrashAtomic(before, before + CreateVersions(before[|before| - 1], id, data, fault)[..n], id,
                        map[EntryFile(id) := Whole(data)])
  {
    var v, wanted := before[|before| - 1], map[EntryFile(id) := Whole(data)];
    var versions := CreateVersions(v, id, data, fault);
    StartIsAtomic(before, id, wanted);
    CreateVersionsAtomic(before, id, data, fault);
    AllAtomicConcat(before, before, versions, n, id, wanted);
    AllAtomicIsCrashAtomic(before, before + versions[..n], id, wanted);
  }

  lemma CreateVersionsAtomic<T(!new)>(before: seq<Dir<T>>, id: string, data: T, fault: Fault)
    requires |before| > 0
    ensures AllAtomic(before, CreateVersions(before[|before| - 1], id, data, fault), id,
            map[EntryFile(id) := Whole(data)])
  {
    var v, wanted := before[|before| - 1], map[EntryFile(id) := Whole(data)];
    TempIsAtomic(before, id, wanted, Torn);
    TempIsAtomic(before, id, wanted, Whole(data));
    EntryIsAtomic(before, id, Whole(data));
    if TempFile(id) !in v {
      assert v[TempFile(id) := Torn] - {TempFile(id)} == v - {TempFile(id)} == v;
      assert v[TempFile(id) := Whole(data)] - {TempFile(id)} == v;
    }
  }

  /** The directory after the first n operations of Create. */
  function CreatedSoFar<T>(v: Dir<T>, id: string, data: T, fault: Fault, n: nat): Dir<T>
    requires n <= |CreateVersions(v, id, data, fault)|
  {
    if n == 0 then v else CreateVersions(v, id, data, fault)[n - 1]
  }

  /**
   * Create leaves its temporary file behind exactly when it ends between opening it and renaming it, unless it is
   * the encoding that fails. With such a file there, no later Create of that ID changes anything.
   */
  lemma LeftoverExactly<T>(v: Dir<T>, id: string, data: T, fault: Fault, n: nat, more: T, later: Fault)
    requires n <= |CreateVersions(v, id, data, fault)|
    ensures var d := CreatedSoFar(v, id, data, fault, n);
            && (TempFile(id) in d <==> TempFile(id) in v || n == 1 || (n == 2 && !fault.EncodeFails?))
            && (TempFile(id) in d ==> CreateVersions(d, id, more, later) == [])
  {
    FileNamesApart(id, id);
  }

  lemma DeleteIsCrashAtomic<T(!new)>(before: seq<Dir<T>>, id: string, fault: Fault, n: nat)
    requires |before| > 0 && n <= |DeleteVersions(before[|before| - 1], id, fault)|
    ensures CrashAtomic(before, before + DeleteVersions(before[|before| - 1], id, fault)[..n], id, map[])
  {
    var versions := DeleteVersions(before[|before| - 1], id, fault);
    StartIsAtomic(before, id, map[]);
    DeleteVersionsAtomic(before, id, fault);
    AllAtomicConcat(before, before, versions, n, id, map[]);
    AllAtomicIsCrashAtomic(before, before + versions[..n], id, map[]);
  }

  lemma DeleteVersionsAtomic<T(!new)>(before: seq<Dir<T>>, id: string, fault: Fault)
    requires |before| > 0
    ensures AllAtomic(before, DeleteVersions(before[|before| - 1], id, fault), id, map[])
  {
    EntryIsAtomic(before, id, Torn);
  }

  ghost predicate NoTornEntry<T(!new)>(d: Dir<T>)
  {
    forall id :: EntryFile(id) in d ==> d[EntryFile(id)].Whole?
  }

  /** Where no entry was torn before the call, none is torn in anything that a crash during it leaves. */
  lemma EntriesStayWhole<T(!new)>(before: seq<Dir<T>>, history: seq<Dir<T>>, id: string, wanted: Dir<T>, d: Dir<T>)
    requires forall j :: 0 <= j < |before| ==> NoTornEntry(before[j])
    requires NoTornEntry(wanted) && CrashAtomic(before, history, id, wanted) && MayBeLeft(d, history)
    ensures NoTornEntry(d)
  {
  }

  /** After a sync a power loss has no choice: it leaves the directory as it is. */
  lemma SyncedIsLeft<T(!new)>(d: Dir<T>, v: Dir<T>)
    ensures MayBeLeft(d, [v]) <==> d == v
  {
    forall name ensures FromHistory(d, [v], name) <==> SameFile(d, v, name) {
      assert SameFile(d, [v][0], name) <==> SameFile(d, v, name);
    }
    if MayBeLeft(d, [v]) {
      assert forall name :: name in d ==> FromHistory(d, [v], name);
      assert forall name :: name in v ==> FromHistory(d, [v], name);
    }
  }

  class FileState<T(!new)> {
    /** The directory versions since the last sync, newest last; a power loss picks among them. */
    var history: seq<Dir<T>>

    /** All directory versions so far, in the order in which they came about. */
    ghost var log: seq<Dir<T>>

    ghost predicate Valid()
      reads this
    {
      |history| > 0
    }

    function Visible(): Dir<T>
      requires |history| > 0
      reads this
    {
      history[|history| - 1]
    }

    constructor(d: Dir<T>)
      ensures Valid() && history == [d] && log == [d]
    {
      history, log := [d], [d];
    }

    /** One directory operation: a new version that is not durable yet. */
    method Change(d: Dir<T>)
      requires Valid()
      modifies this
      ensures Valid() && history == old(history) + [d] && log == old(log) + [d]
    {
      history := history + [d];
      log := log + [d];
    }

    method SyncStateDir(fault: Fault) returns (ok: bool)
      requires Valid()
      modifies this`history
      ensures Valid() && ok == !fault.SyncFails? && Visible() == old(Visible())
      ensures history == if ok then [old(Visible())] else old(history)
    {
      ok := !fault.SyncFails?;
      if ok { history := [Visible()]; }
    }

    /** Create: goes through the versions above, and makes the last one durable exactly when it succeeds. */
    method Create(id: string, data: T, fault: Fault) returns (ok: bool)
      requires Valid()
      modifies this
      ensures Valid()
      ensures log == old(log) + CreateVersions(old(Visible()), id, data, fault)
      ensures history == if ok then [Visible()] else old(history) + CreateVersions(old(Visible()), id, data, fault)
      ensures ok ==> Visible() == old(Visible())[EntryFile(id) := Whole(data)]
      ensures ok <==> (fault.NoFault? || fault.RemoveFails?) && TempFile(id) !in old(Visible())
    {
      var tmp := TempFile(id);
      if tmp in Visible() || fault.OpenFails? {
        return false;
      }
      Change(Visible()[tmp := Torn]);
      if fault.EncodeFails? {
        Change(Visible() - {tmp});
        return false;
      }
      assert Visible()[tmp := Whole(data)] == old(Visible())[tmp := Whole(data)];
      Change(Visible()[tmp := Whole(data)]);
      if fault.CloseFails? || fault.RenameFails? {
        return false;
      }
      Change((Visible() - {tmp})[EntryFile(id) := Whole(data)]);
      assert old(Visible())[tmp := Whole(data)] - {tmp} == old(Visible());
      ok := SyncStateDir(fault);
    }

    /** Delete: a missing entry is an error, and so is a directory that cannot be synced. */
    method Delete(id: string, fault: Fault) returns (ok: bool)
      requires Valid()
      modifies this
      ensures Valid()
      ensures log == old(log) + DeleteVersions(old(Visible()), id, fault)
      ensures history == if ok then [Visible()] else old(history) + DeleteVersions(old(Visible()), id, fault)
      ensures ok ==> Visible() == old(Visible()) - {EntryFile(id)}
      ensures ok <==> !fault.RemoveFails? && !fault.SyncFails? && EntryFile(id) in old(Visible())
    {
      if EntryFile(id) !in Visible() || fault.RemoveFails? {
        return false;
      }
      Change(Visible() - {EntryFile(id)});
      ok := SyncStateDir(fault);
    }

    /** GetAll, on the file names that reading the directory gave. */
    static method GetAll(names: seq<string>) returns (ids: seq<string>)
      ensures ids == EntryIds(names)
    {
      ids := [];
      for k := 0 to |names|
        invariant ids == EntryIds(names[..k])
      {
        var name := names[k];
        assert names[..k + 1][..k] == names[..k];
        if HasSuffix(name, JSON) {
          ids := ids + [name[..|name| - |JSON|]];
        }
      }
      assert names[..|names|] == names;
    }
  }

  /** The IDs of the entries among some file names. */
  function EntryIds(names: seq<string>): seq<string>
  {
    if names == [] then []
    else
      var name := names[|names| - 1];
      EntryIds(names[..|names| - 1]) + if HasSuffix(name, JSON) then [name[..|name| - |JSON|]] else []
  }

  /** Exactly the entries are listed, temporary files never. */
  lemma {:induction false} EntryIdsExact(names: seq<string>, id: string)
    ensures id in EntryIds(names) <==> EntryFile(id) in names
  {
    if names != [] {
      var n := |names| - 1;
      EntryIdsExact(names[..n], id);
      EntryOfName(names[n], id);
      assert names == names[..n] + [names[n]];
    }
  }

  /** No entry is listed twice if no file name comes twice. */
  lemma {:induction false} EntryIdsDistinct(names: seq<string>)
    requires forall i, j :: 0 <= i < j < |names| ==> names[i] != names[j]
    ensures forall i, j :: 0 <= i < j < |EntryIds(names)| ==> EntryIds(names)[i] != EntryIds(names)[j]
  {
    if names != [] {
      var n := |names| - 1;
      EntryIdsDistinct(names[..n]);
      if HasSuffix(names[n], JSON) {
        var id := names[n][..|names[n]| - |JSON|];
        EntryOfName(names[n], id);
        EntryIdsExact(names[..n], id);
        assert names[n] !in names[..n];
      }
    }
  }

  lemma EntryOfName(name: string, id: string)
    ensures EntryFile(id) == name <==> HasSuffix(name, JSON) && id == name[..|name| - |JSON|]
  {
  }
}

