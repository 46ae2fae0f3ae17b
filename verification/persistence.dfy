/**
 * Why two versions of the entries are enough for the volume life cycle although a power loss may pick, for each state
 * file separately, any version since the last sync: the kernel may write back directory changes on its own.
 */
module Persistence {
  import opened Outcomes
  import opened VolumeLifecycle
  import opened StateFiles

  function Stripped(name: string): string
    requires HasSuffix(name, JSON)
  {
    name[..|name| - |JSON|]
  }

  /** The complete entries in a state directory, by ID. */
  function EntriesOf(d: Dir<Volume>): (r: Entries)
    ensures forall id :: id in r <==> EntryFile(id) in d && d[EntryFile(id)].Whole?
    ensures forall id :: id in r ==> r[id] == d[EntryFile(id)].data
  {
    var ids := set name | name in d && HasSuffix(name, JSON) :: Stripped(name);
    StrippedNames(d, ids);
    map id | id in ids && d[EntryFile(id)].Whole? :: d[EntryFile(id)].data
  }

  lemma StrippedNames(d: Dir<Volume>, ids: set<string>)
    requires ids == set name | name in d && HasSuffix(name, JSON) :: Stripped(name)
    ensures forall id :: id in ids <==> EntryFile(id) in d
  {
    forall id ensures id in ids <==> EntryFile(id) in d {
      EntryOfName(EntryFile(id), id);
      if id in ids {
        var name :| name in d && HasSuffix(name, JSON) && Stripped(name) == id;
        EntryOfName(name, id);
      }
    }
  }

  /** Each entry, and each absence of one, comes from one of the versions. */
  ghost predicate Picks(vs: seq<Entries>, d: Entries)
  {
    forall id :: PickedFrom(vs, d, id)
  }

  ghost predicate PickedFrom(vs: seq<Entries>, d: Entries, id: string)
  {
    exists k :: 0 <= k < |vs| && SameAt(d, vs[k], id)
  }

  /** What can be durable when the visible entries went through these versions, with write-backs at any time. */
  ghost predicate CanBeDurable(vs: seq<Entries>, d: Entries)
    requires |vs| > 0
  {
    if |vs| == 1 then d == vs[0]
    else exists e :: CanBeDurable(vs[..|vs| - 1], e) && WrittenBack(vs, e, d)
  }

  /** A write-back of the last version while e is durable may lead to d. */
  ghost predicate WrittenBack(vs: seq<Entries>, e: Entries, d: Entries)
    requires |vs| > 0
  {
    IsMix(d, vs[|vs| - 1], e)
  }

  lemma PickOfOne(v: Entries, d: Entries)
    ensures Picks([v], d) <==> d == v
  {
    forall id ensures PickedFrom([v], d, id) <==> SameAt(d, v, id) {
      assert SameAt(d, [v][0], id) <==> SameAt(d, v, id);
    }
    if Picks([v], d) {
      forall id ensures SameAt(d, v, id) { assert PickedFrom([v], d, id); }
      assert forall id :: id in d ==> SameAt(d, v, id);
      assert forall id :: id in v ==> SameAt(d, v, id);
    }
  }

  lemma PickedEarlier(vs: seq<Entries>, d: Entries, id: string)
    requires |vs| > 0 && PickedFrom(vs, d, id)
    ensures SameAt(d, vs[|vs| - 1], id) || PickedFrom(vs[..|vs| - 1], d, id)
  {
  }

  /** What was durable before the last version came about: earlier picks stay, the others are still as at first. */
  ghost function Earlier(vs: seq<Entries>, d: Entries): Entries
    requires |vs| > 0
  {
    map id | id in d.Keys + vs[0].Keys && (if PickedFrom(vs, d, id) then id in d else id in vs[0]) ::
      if PickedFrom(vs, d, id) then d[id] else vs[0][id]
  }

  lemma EarlierPicks(vs: seq<Entries>, d: Entries, id: string)
    requires |vs| > 0
    ensures PickedFrom(vs, Earlier(vs, d), id)
    ensures PickedFrom(vs, d, id) ==> SameAt(d, Earlier(vs, d), id)
  {
  }

  lemma {:induction false} PicksCanBeDurable(vs: seq<Entries>, d: Entries)
    requires |vs| > 0 && Picks(vs, d)
    ensures CanBeDurable(vs, d)
    decreases |vs|
  {
    if |vs| == 1 {
      assert vs == [vs[0]];
      PickOfOne(vs[0], d);
    } else {
      var init := vs[..|vs| - 1];
      var e := Earlier(init, d);
      forall id ensures PickedFrom(init, e, id) && (SameAt(d, vs[|vs| - 1], id) || SameAt(d, e, id)) {
        EarlierPicks(init, d, id);
        assert PickedFrom(vs, d, id);
        PickedEarlier(vs, d, id);
      }
      PicksCanBeDurable(init, e);
      assert WrittenBack(vs, e, d);
    }
  }

  lemma {:induction false} DurableIsPicked(vs: seq<Entries>, d: Entries)
    requires |vs| > 0 && CanBeDurable(vs, d)
    ensures Picks(vs, d)
    decreases |vs|
  {
    if |vs| == 1 {
      assert vs == [vs[0]];
      PickOfOne(vs[0], d);
    } else {
      var init := vs[..|vs| - 1];
      var e :| CanBeDurable(init, e) && WrittenBack(vs, e, d);
      DurableIsPicked(init, e);
      forall id ensures PickedFrom(vs, d, id) {
        if SameAt(d, vs[|vs| - 1], id) {
        } else {
          assert SameAt(d, e, id) && PickedFrom(init, e, id);
          var k :| 0 <= k < |init| && SameAt(e, init[k], id);
          assert SameAt(d, vs[k], id);
        }
      }
    }
  }

  /** A power loss picks any version for each entry if and only if write-backs at some times make that durable. */
  lemma WritebackIsExact(vs: seq<Entries>, d: Entries)
    requires |vs| > 0
    ensures Picks(vs, d) <==> CanBeDurable(vs, d)
  {
    if Picks(vs, d) { PicksCanBeDurable(vs, d); }
    if CanBeDurable(vs, d) { DurableIsPicked(vs, d); }
  }

  function AllEntries(history: seq<Dir<Volume>>): (vs: seq<Entries>)
    ensures |vs| == |history| && forall k :: 0 <= k < |history| ==> vs[k] == EntriesOf(history[k])
  {
    seq(|history|, k requires 0 <= k < |history| => EntriesOf(history[k]))
  }

  /** So whatever the state directory is after a power loss, the life cycle knows it as durable entries. */
  lemma LeftEntriesAreDurable(history: seq<Dir<Volume>>, d: Dir<Volume>)
    requires |history| > 0 && MayBeLeft(d, history)
    ensures CanBeDurable(AllEntries(history), EntriesOf(d))
  {
    var vs := AllEntries(history);
    forall id ensures PickedFrom(vs, EntriesOf(d), id) {
      assert FromHistory(d, history, EntryFile(id));
      var k :| 0 <= k < |history| && SameFile(d, history[k], EntryFile(id));
      assert SameAt(EntriesOf(d), vs[k], id);
    }
    WritebackIsExact(vs, EntriesOf(d));
  }

  /** The IDs whose temporary file is in a state directory. */
  function TempsOf(d: Dir<Volume>): (ids: set<string>)
    ensures forall id :: id in ids <==> TempFile(id) in d
  {
    var ids := set name | name in d && HasSuffix(name, JSON + TMP) :: name[..|name| - |JSON + TMP|];
    StrippedTemps(d, ids);
    ids
  }

  lemma StrippedTemps(d: Dir<Volume>, ids: set<string>)
    requires ids == set name | name in d && HasSuffix(name, JSON + TMP) :: name[..|name| - |JSON + TMP|]
    ensures forall id :: id in ids <==> TempFile(id) in d
  {
    forall id ensures id in ids <==> TempFile(id) in d {
      var name := TempFile(id);
      assert name == id + (JSON + TMP);
      assert name[..|name| - |JSON + TMP|] == id && HasSuffix(name, JSON + TMP);
      if id in ids {
        var other :| other in d && HasSuffix(other, JSON + TMP) && other[..|other| - |JSON + TMP|] == id;
        assert other == id + (JSON + TMP);
      }
    }
  }

  /** What Create does to an entry, as the life cycle sees it. */
  function WriteOutcome(v: Dir<Volume>, id: string, fault: Fault): Outcome
  {
    if TempFile(id) in v || fault.OpenFails? || fault.EncodeFails? then FailedEarly(false)
    else if fault.CloseFails? || fault.RenameFails? then FailedEarly(true)
    else if fault.SyncFails? then FailedLate
    else Done
  }

  function RemoveOutcome(v: Dir<Volume>, id: string, fault: Fault): Outcome
  {
    if EntryFile(id) !in v || fault.RemoveFails? then FailedEarly(false)
    else if fault.SyncFails? then FailedLate
    else Done
  }

  /** The life cycle and the state directory agree on what is visible. */
  predicate Shows(s: Node, v: Dir<Volume>)
  {
    s.visible == EntriesOf(v) && s.temps == TempsOf(v)
  }

  lemma NamesApart(id: string, other: string)
    ensures EntryFile(other) != TempFile(id) && TempFile(other) != EntryFile(id)
    ensures (TempFile(other) == TempFile(id) <==> other == id) && (EntryFile(other) == EntryFile(id) <==> other == id)
  {
    FileNamesApart(id, other);
    FileNamesApart(other, id);
    assert TempFile(other)[..|TempFile(other)| - 9] == other && TempFile(id)[..|TempFile(id)| - 9] == id;
  }

  lemma SameEntries(a: Entries, b: Entries)
    requires forall id :: SameAt(a, b, id)
    ensures a == b
  {
    assert forall id :: id in a ==> SameAt(a, b, id);
    assert forall id :: id in b ==> SameAt(a, b, id);
  }

  lemma TempAside(v: Dir<Volume>, id: string, c: Content<Volume>, other: string)
    ensures SameFile(v[TempFile(id) := c], v, EntryFile(other))
    ensures TempFile(other) in v[TempFile(id) := c] <==> TempFile(other) in v || other == id
  {
    NamesApart(id, other);
  }

  /** Adding a temporary file changes no entry. */
  lemma WithTemp(v: Dir<Volume>, id: string, c: Content<Volume>)
    ensures EntriesOf(v[TempFile(id) := c]) == EntriesOf(v) && TempsOf(v[TempFile(id) := c]) == TempsOf(v) + {id}
  {
    var w := v[TempFile(id) := c];
    forall other
      ensures SameAt(EntriesOf(w), EntriesOf(v), other) && (other in TempsOf(w) <==> other in TempsOf(v) + {id})
    {
      TempAside(v, id, c, other);
    }
    SameEntries(EntriesOf(w), EntriesOf(v));
  }

  lemma EntryAside(v: Dir<Volume>, id: string, c: Content<Volume>, other: string)
    ensures other != id ==> SameFile(v[EntryFile(id) := c], v, EntryFile(other))
    ensures other != id ==> SameFile(v - {EntryFile(id)}, v, EntryFile(other))
    ensures TempFile(other) in v[EntryFile(id) := c] <==> TempFile(other) in v
    ensures TempFile(other) in v - {EntryFile(id)} <==> TempFile(other) in v
  {
    NamesApart(id, other);
  }

  lemma EntryAsideTemps(v: Dir<Volume>, id: string, c: Content<Volume>)
    ensures TempsOf(v[EntryFile(id) := c]) == TempsOf(v) && TempsOf(v - {EntryFile(id)}) == TempsOf(v)
  {
    forall other
      ensures other in TempsOf(v[EntryFile(id) := c]) <==> other in TempsOf(v)
      ensures other in TempsOf(v - {EntryFile(id)}) <==> other in TempsOf(v)
    {
      EntryAside(v, id, c, other);
    }
  }

  lemma WithEntryAt(v: Dir<Volume>, id: string, data: Volume, other: string)
    ensures SameAt(EntriesOf(v[EntryFile(id) := Whole(data)]), EntriesOf(v)[id := data], other)
  {
    EntryAside(v, id, Whole(data), other);
  }

  lemma WithEntry(v: Dir<Volume>, id: string, data: Volume)
    ensures EntriesOf(v[EntryFile(id) := Whole(data)]) == EntriesOf(v)[id := data]
  {
    var a, b := EntriesOf(v[EntryFile(id) := Whole(data)]), EntriesOf(v)[id := data];
    forall other ensures SameAt(a, b, other) {
      WithEntryAt(v, id, data, other);
    }
    SameEntries(a, b);
  }

  lemma WithoutEntryAt(v: Dir<Volume>, id: string, other: string)
    ensures SameAt(EntriesOf(v - {EntryFile(id)}), EntriesOf(v) - {id}, other)
  {
    EntryAside(v, id, Torn, other);
  }

  lemma WithoutEntry(v: Dir<Volume>, id: string)
    ensures EntriesOf(v - {EntryFile(id)}) == EntriesOf(v) - {id}
  {
    var a, b := EntriesOf(v - {EntryFile(id)}), EntriesOf(v) - {id};
    forall other ensures SameAt(a, b, other) {
      WithoutEntryAt(v, id, other);
    }
    SameEntries(a, b);
  }

  /** The directory at the end of Create. */
  function Ended(v: Dir<Volume>, id: string, data: Volume, fault: Fault): Dir<Volume>
  {
    CreatedSoFar(v, id, data, fault, |CreateVersions(v, id, data, fault)|)
  }

  lemma CreateEnds(v: Dir<Volume>, id: string, data: Volume, fault: Fault)
    ensures Ended(v, id, data, fault) ==
            match WriteOutcome(v, id, fault)
            case FailedEarly(litter) => if litter then v[TempFile(id) := Whole(data)] else v
            case _ => v[EntryFile(id) := Whole(data)]
  {
    if TempFile(id) !in v {
      assert v[TempFile(id) := Torn] - {TempFile(id)} == v;
      assert v[TempFile(id) := Whole(data)] - {TempFile(id)} == v;
    }
  }

  /** What an outcome makes of a directory. */
  predicate Wrote(v: Dir<Volume>, w: Dir<Volume>, id: string, data: Volume, how: Outcome)
  {
    if how.FailedEarly? then EntriesOf(w) == EntriesOf(v) && TempsOf(w) == TempsOf(v) + if how.litter then {id} else {}
    else EntriesOf(w) == EntriesOf(v)[id := data] && TempsOf(w) == TempsOf(v)
  }

  lemma CreateWrites(v: Dir<Volume>, id: string, data: Volume, fault: Fault)
    ensures Wrote(v, Ended(v, id, data, fault), id, data, WriteOutcome(v, id, fault))
  {
    CreateEnds(v, id, data, fault);
    var how := WriteOutcome(v, id, fault);
    if how.FailedEarly? {
      if how.litter { WithTemp(v, id, Whole(data)); }
    } else {
      WithEntry(v, id, data);
      EntryAsideTemps(v, id, Whole(data));
    }
  }

  lemma WroteIsPut(s: Node, v: Dir<Volume>, w: Dir<Volume>, id: string, data: Volume, how: Outcome)
    requires Shows(s, v) && Wrote(v, w, id, data, how)
    ensures Shows(PutEntry(s, id, data, how), w) && (how.Done? ==> PutEntry(s, id, data, how).durable == EntriesOf(w))
  {
  }

  lemma OutcomeIsReported(s: Node, v: Dir<Volume>, id: string, fault: Fault)
    requires Shows(s, v)
    ensures Landed(s, id, WriteOutcome(v, id, fault)) == WriteOutcome(v, id, fault)
    ensures WriteOutcome(v, id, fault).Done? <==> (fault.NoFault? || fault.RemoveFails?) && TempFile(id) !in v
  {
  }

  /** Create is PutEntry of the life cycle with the matching outcome, a success exactly when Create reports one. */
  lemma CreateIsPutEntry(s: Node, v: Dir<Volume>, id: string, data: Volume, fault: Fault, how: Outcome)
    requires Shows(s, v) && how == WriteOutcome(v, id, fault)
    ensures Landed(s, id, how) == how && Shows(PutEntry(s, id, data, how), Ended(v, id, data, fault))
    ensures how.Done? ==> PutEntry(s, id, data, how).durable == EntriesOf(Ended(v, id, data, fault))
    ensures how.Done? <==> (fault.NoFault? || fault.RemoveFails?) && TempFile(id) !in v
  {
    OutcomeIsReported(s, v, id, fault);
    CreateWrites(v, id, data, fault);
    WroteIsPut(s, v, Ended(v, id, data, fault), id, data, how);
  }

  lemma CutCreateEnds(v: Dir<Volume>, id: string, data: Volume, fault: Fault, n: nat)
    requires n <= |CreateVersions(v, id, data, fault)| && (n == 1 || (n == 2 && !fault.EncodeFails?))
    ensures CreatedSoFar(v, id, data, fault, n) == v[TempFile(id) := if n == 1 then Torn else Whole(data)]
  {
  }

  /** Cut off between opening and renaming the temporary file, it is a crash of the life cycle while writing. */
  lemma CutCreateIsCrash(s: Node, v: Dir<Volume>, id: string, data: Volume, fault: Fault, n: nat)
    requires Shows(s, v) && n <= |CreateVersions(v, id, data, fault)|
    requires n == 1 || (n == 2 && !fault.EncodeFails?)
    ensures Shows(s.(temps := s.temps + {id}), CreatedSoFar(v, id, data, fault, n))
  {
    CutCreateEnds(v, id, data, fault, n);
    WithTemp(v, id, if n == 1 then Torn else Whole(data));
  }

  /** The directory at the end of Delete. */
  function Removed(v: Dir<Volume>, id: string, fault: Fault): Dir<Volume>
  {
    var versions := DeleteVersions(v, id, fault);
    if versions == [] then v else versions[0]
  }

  lemma DeleteEnds(v: Dir<Volume>, id: string, fault: Fault)
    ensures Removed(v, id, fault)
            == if RemoveOutcome(v, id, fault).FailedEarly? then v else v - {EntryFile(id)}
  {
  }

  /** Delete is DropEntry in the same way. */
  lemma DeleteIsDropEntry(s: Node, v: Dir<Volume>, id: string, fault: Fault, how: Outcome)
    requires Shows(s, v) && how == RemoveOutcome(v, id, fault)
    ensures Shows(DropEntry(s, id, how), Removed(v, id, fault))
    ensures how.Done? ==> DropEntry(s, id, how).durable == EntriesOf(Removed(v, id, fault))
    ensures how.Done? <==> !fault.RemoveFails? && !fault.SyncFails? && EntryFile(id) in v
  {
    DeleteEnds(v, id, fault);
    WithoutEntry(v, id);
    EntryAsideTemps(v, id, Torn);
  }
}
