/**
 * Recovery when some of its questions fail: the source logs every such failure and goes on, which leaves volumes
 * unlisted that exist. This says what the volume list and the entries become and exactly when that does harm.
 */
module Recovery {
  import opened Outcomes
  import opened VolumeLifecycle
  import opened VolumeRuns

  /**
   * Whether listing the devices of the current mode works, and the entries about which nothing is learned: those
   * that cannot be listed, read or parsed or whose device manager gives no answer.
   */
  datatype Answers = Answers(lists: bool, unread: set<string>)

  /** The device of an entry is there and recovery finds it. */
  predicate Sees(devices: Devices, mode: Mode, a: Answers, v: Volume, id: string)
  {
    DeviceKey(v.mode, id) in devices && (v.mode == mode ==> a.lists)
  }

  predicate IsKept(entries: Entries, devices: Devices, mode: Mode, a: Answers, id: string)
  {
    id in entries && id !in a.unread && Sees(devices, mode, a, entries[id], id)
  }

  function Kept(entries: Entries, devices: Devices, mode: Mode, a: Answers): Entries
  {
    map id | id in entries && IsKept(entries, devices, mode, a, id) :: entries[id]
  }

  predicate IsStale(entries: Entries, devices: Devices, mode: Mode, a: Answers, id: string)
  {
    id in entries && id !in a.unread && !Sees(devices, mode, a, entries[id], id)
  }

  /** `todo` lists exactly the entries that recovery takes for stale. */
  ghost predicate ListsStale(todo: seq<string>, entries: Entries, devices: Devices, mode: Mode, a: Answers)
  {
    forall id :: id in todo <==> IsStale(entries, devices, mode, a, id)
  }

  /** An entry whose device exists, but recovery does not list it. */
  predicate IsLost(entries: Entries, devices: Devices, mode: Mode, a: Answers, id: string)
  {
    && id in entries && DeviceKey(entries[id].mode, id) in devices
    && (id in a.unread || (entries[id].mode == mode && !a.lists))
  }

  /** Removing entries one after the other. */
  ghost function Swept(s: Node, todo: seq<string>, hows: seq<Outcome>): Node
    requires |todo| == |hows|
  {
    if todo == [] then s else
      var n := |todo| - 1;
      DropEntry(Swept(s, todo[..n], hows[..n]), todo[n], hows[n])
  }

  /** A node that serves after recovery with these answers. */
  ghost function Recovered(s: Node, mode: Mode, a: Answers, todo: seq<string>, hows: seq<Outcome>): Node
    requires |todo| == |hows|
  {
    Swept(s.(mode := mode, memory := Kept(s.visible, s.devices, mode, a)), todo, hows).(phase := Serving)
  }

  lemma SweptOneMore(s: Node, todo: seq<string>, hows: seq<Outcome>, i: nat)
    requires i < |todo| == |hows|
    ensures Swept(s, todo[..i + 1], hows[..i + 1]) == DropEntry(Swept(s, todo[..i], hows[..i]), todo[i], hows[i])
  {
    assert todo[..i + 1][..i] == todo[..i] && hows[..i + 1][..i] == hows[..i];
  }

  lemma {:induction false} SweptElsewhere(s: Node, todo: seq<string>, hows: seq<Outcome>)
    requires |todo| == |hows|
    ensures var t := Swept(s, todo, hows); t == s.(visible := t.visible, durable := t.durable)
  {
    if todo != [] { SweptElsewhere(s, todo[..|todo| - 1], hows[..|todo| - 1]); }
  }

  lemma {:induction false} SweptInPhase(s: Node, p: Phase, todo: seq<string>, hows: seq<Outcome>)
    requires |todo| == |hows|
    ensures Swept(s.(phase := p), todo, hows) == Swept(s, todo, hows).(phase := p)
  {
    if todo != [] { SweptInPhase(s, p, todo[..|todo| - 1], hows[..|todo| - 1]); }
  }

  /** What removing entries makes of one of them: nobody changes it, and only its own removal takes it away. */
  lemma {:induction false} SweptAt(s: Node, todo: seq<string>, hows: seq<Outcome>, id: string)
    requires |todo| == |hows|
    ensures var t := Swept(s, todo, hows);
            && (SameAt(t.visible, s.visible, id) || (id in todo && id !in t.visible))
            && (SameAt(t.durable, s.visible, id) || SameAt(t.durable, s.durable, id)
                || (id in todo && id !in t.durable))
  {
    if todo != [] { SweptAt(s, todo[..|todo| - 1], hows[..|todo| - 1], id); }
  }

  /** With an answer to every question this is recovery as the life cycle has it. */
  lemma FullAnswers(entries: Entries, devices: Devices, mode: Mode, a: Answers, todo: seq<string>)
    requires a.lists && a.unread !! entries.Keys
    ensures Kept(entries, devices, mode, a) == Backed(entries, devices)
    ensures ListsStale(todo, entries, devices, mode, a) <==> ListsOrphans(todo, entries, devices)
  {
    forall id ensures IsStale(entries, devices, mode, a, id) <==> IsOrphan(entries, devices, id) {}
  }

  /** An entry about which nothing is learned is neither listed nor removed. */
  lemma UnreadEntriesStay(s: Node, mode: Mode, a: Answers, todo: seq<string>, hows: seq<Outcome>, id: string)
    requires |todo| == |hows| && ListsStale(todo, s.visible, s.devices, mode, a) && id in s.visible && id in a.unread
    ensures var t := Recovered(s, mode, a, todo, hows);
            id !in t.memory && id in t.visible && t.visible[id] == s.visible[id]
  {
    var up := s.(mode := mode, memory := Kept(s.visible, s.devices, mode, a));
    SweptElsewhere(up, todo, hows);
    SweptAt(up, todo, hows, id);
  }

  ghost predicate NothingLost(s: Node, mode: Mode, a: Answers)
  {
    forall id :: !IsLost(s.visible, s.devices, mode, a, id)
  }

  /** As long as nothing is lost, failing questions do no harm: the node is as good as after any other recovery. */
  lemma NothingLostKeepsInv(gen: string -> string, s: Node, mode: Mode, a: Answers, todo: seq<string>,
        hows: seq<Outcome>)
    requires Inv(gen, s) && s.phase.Down? && |todo| == |hows|
    requires ListsStale(todo, s.visible, s.devices, mode, a) && NothingLost(s, mode, a)
    ensures Recovered(s, mode, a, todo, hows).memory == Backed(s.visible, s.devices)
    ensures Inv(gen, Recovered(s, mode, a, todo, hows))
  {
    var up := s.(mode := mode, memory := Kept(s.visible, s.devices, mode, a));
    var t := Swept(up, todo, hows);
    SweptElsewhere(up, todo, hows);
    forall id ensures IsKept(s.visible, s.devices, mode, a, id) <==> id in Backed(s.visible, s.devices) {
      assert !IsLost(s.visible, s.devices, mode, a, id);
    }
    forall id {:trigger id in t.visible} {:trigger id in t.durable}
      ensures id in t.visible ==> gen(t.visible[id].name) == id
      ensures id in t.durable ==> gen(t.durable[id].name) == id
    {
      SweptAt(up, todo, hows, id);
    }
    forall k | k in s.devices
      ensures k.id in t.visible && t.visible[k.id].mode == k.mode && t.visible[k.id].size <= s.devices[k]
      ensures k.id in t.durable && t.durable[k.id].mode == k.mode && t.durable[k.id].size <= s.devices[k]
    {
      SweptAt(up, todo, hows, k.id);
      assert !IsLost(s.visible, s.devices, mode, a, k.id);
    }
  }

  ghost function RefusedCreate(name: string): seq<Step>
  {
    SmoothEntry(0, name, 1) + [InCreate(0, MakeDevice(None)), InCreate(0, Undo(Done))]
  }

  /** A create call for a volume that exists but is not listed removes the entry of its device. */
  lemma UnlistedVolumeLeaks(gen: string -> string, s: Node, name: string) returns (t: Node)
    requires s.phase.Serving? && s.calls == map[] && gen(name) !in s.memory && gen(name) !in s.temps
    requires forall i :: i in s.memory ==> s.memory[i].name != name
    ensures Run(gen, s, RefusedCreate(name)) == Some(t) && t.devices == s.devices && gen(name) !in t.visible
  {
    var s1 := SmoothEntryRuns(gen, s, 0, name, 1);
    var s2 := DoMakeDevice(gen, s1, 0, None).value;
    t := DoUndo(gen, s2, 0, Done);
    var rest := [InCreate(0, MakeDevice(None)), InCreate(0, Undo(Done))];
    PathIsRun(gen, [s1, s2, t], rest);
    RunConcat(gen, s, SmoothEntry(0, name, 1), s1, rest, t);
  }

  ghost predicate NeverLeaks(gen: string -> string, u: Node)
  {
    forall steps :: Run(gen, u, steps).Some? ==> Leakless(Run(gen, u, steps).value)
  }

  lemma LostVolumeLeaks(gen: string -> string, s: Node, mode: Mode, a: Answers, todo: seq<string>,
        hows: seq<Outcome>, id: string)
    requires Inv(gen, s) && s.phase.Down? && |todo| == |hows|
    requires IsLost(s.visible, s.devices, mode, a, id) && id !in s.temps
    ensures !NeverLeaks(gen, Recovered(s, mode, a, todo, hows))
  {
    var up := s.(mode := mode, memory := Kept(s.visible, s.devices, mode, a));
    var u := Recovered(s, mode, a, todo, hows);
    var key := DeviceKey(s.visible[id].mode, id);
    SweptElsewhere(up, todo, hows);
    SweptAt(up, todo, hows, id);
    assert key in u.devices;
    if id !in u.visible {
      assert !Leakless(Run(gen, u, []).value);
    } else {
      var name := s.visible[id].name;
      assert gen(name) == id && id !in u.memory;
      var t := UnlistedVolumeLeaks(gen, u, name);
      assert key in t.devices && key.id !in t.visible;
      assert !Leakless(Run(gen, u, RefusedCreate(name)).value);
    }
  }

  /**
   * After recovery no run leaks a device if and only if recovery learned about every entry whose device exists, and
   * could list the devices if one of them is of the current mode.
   */
  lemma SafeIffNothingIsLost(gen: string -> string, s: Node, mode: Mode, a: Answers, todo: seq<string>,
        hows: seq<Outcome>)
    requires Injective(gen) && Inv(gen, s) && s.phase.Down? && |todo| == |hows|
    requires ListsStale(todo, s.visible, s.devices, mode, a)
    requires forall id :: IsLost(s.visible, s.devices, mode, a, id) ==> id !in s.temps
    ensures NeverLeaks(gen, Recovered(s, mode, a, todo, hows)) <==> NothingLost(s, mode, a)
  {
    var u := Recovered(s, mode, a, todo, hows);
    if NothingLost(s, mode, a) {
      NothingLostKeepsInv(gen, s, mode, a, todo, hows);
      forall steps | Run(gen, u, steps).Some? ensures Leakless(Run(gen, u, steps).value) {
        RunKeepsInv(gen, u, steps, Run(gen, u, steps).value);
      }
    } else {
      var id :| IsLost(s.visible, s.devices, mode, a, id);
      LostVolumeLeaks(gen, s, mode, a, todo, hows, id);
    }
  }

  ghost function RecoverSteps(mode: Mode, todo: seq<string>, hows: seq<Outcome>): seq<Step>
  {
    [Machine(Recover(mode, todo))] + CleanupSteps(hows)
  }

  /**
   * A complete recovery with every answer: exactly the backed entries are listed, only entries without device are
   * removed, and the whole is one run of the life cycle.
   */
  ghost predicate OneRecovery(gen: string -> string, s: Node, todo: seq<string>, hows: seq<Outcome>, u: Node)
  {
    && u.memory == Backed(s.visible, s.devices) && u.devices == s.devices && u.temps == s.temps
    && (forall id :: id in u.visible ==> id in s.visible && u.visible[id] == s.visible[id])
    && (forall id :: id in s.visible && id !in u.visible ==> IsOrphan(s.visible, s.devices, id))
    && ((forall i :: 0 <= i < |hows| ==> !hows[i].FailedEarly?) ==> u.visible == Backed(s.visible, s.devices))
    && Run(gen, s, RecoverSteps(s.mode, todo, hows) + [Machine(Serve)]) == Some(u)
  }

  lemma FullCleanup(visible: Entries, devices: Devices, todo: seq<string>, left: Entries, hows: seq<Outcome>)
    requires ListsOrphans(todo, visible, devices) && |hows| == |todo|
    requires forall id :: id in left ==> id in visible && left[id] == visible[id]
    requires forall id :: id in visible && id !in left ==> id in todo
    requires (forall i :: 0 <= i < |hows| ==> !hows[i].FailedEarly?) ==> forall id :: id in todo ==> id !in left
    ensures (forall i :: 0 <= i < |hows| ==> !hows[i].FailedEarly?) ==> left == Backed(visible, devices)
    ensures forall id :: id in visible && id !in left ==> IsOrphan(visible, devices, id)
  {
  }

  lemma CleanupExtends(gen: string -> string, s: Node, mode: Mode, todo: seq<string>, hows: seq<Outcome>, i: nat,
        now: Node, next: Node)
    requires i < |todo| == |hows| && now.phase == Recovering(todo[i..])
    requires Run(gen, s, RecoverSteps(mode, todo, hows[..i])) == Some(now)
    requires next == DropEntry(now, todo[i], hows[i]).(phase := Recovering(todo[i + 1..]))
    ensures Run(gen, s, RecoverSteps(mode, todo, hows[..i + 1])) == Some(next)
  {
    assert todo[i..][1..] == todo[i + 1..] && todo[i..][0] == todo[i];
    PathIsRun(gen, [now, next], [Machine(Cleanup(hows[i]))]);
    RunConcat(gen, s, RecoverSteps(mode, todo, hows[..i]), now, [Machine(Cleanup(hows[i]))], next);
    assert RecoverSteps(mode, todo, hows[..i]) + [Machine(Cleanup(hows[i]))] == RecoverSteps(mode, todo, hows[..i + 1]);
  }

  lemma RecoverBegins(gen: string -> string, s: Node, todo: seq<string>, hows: seq<Outcome>)
    requires s.phase.Down? && ListsOrphans(todo, s.visible, s.devices)
    ensures Run(gen, s, RecoverSteps(s.mode, todo, hows[..0])) ==
            Some(s.(memory := Backed(s.visible, s.devices), phase := Recovering(todo)))
  {
  }

  lemma DropInPhase(s: Node, p: Phase, q: Phase, id: string, how: Outcome)
    ensures DropEntry(s, id, how).(phase := q) == DropEntry(s.(phase := p), id, how).(phase := q)
  {
    match how
    case Done =>
    case FailedLate =>
    case FailedEarly(_) =>
  }

  /** The node in the middle of its cleanup. */
  ghost function Sweeping(s: Node, todo: seq<string>, hows: seq<Outcome>, i: nat): Node
    requires i <= |todo| == |hows|
  {
    Swept(s.(memory := Backed(s.visible, s.devices)), todo[..i], hows[..i]).(phase := Recovering(todo[i..]))
  }

  lemma SweepingNext(s: Node, todo: seq<string>, hows: seq<Outcome>, i: nat)
    requires i < |todo| == |hows|
    ensures Sweeping(s, todo, hows, i + 1)
            == DropEntry(Sweeping(s, todo, hows, i), todo[i], hows[i]).(phase := Recovering(todo[i + 1..]))
  {
    var up := s.(memory := Backed(s.visible, s.devices));
    SweptOneMore(up, todo, hows, i);
    DropInPhase(Swept(up, todo[..i], hows[..i]), Recovering(todo[i..]), Recovering(todo[i + 1..]), todo[i], hows[i]);
  }

  lemma {:induction false} SweptRuns(gen: string -> string, s: Node, todo: seq<string>, hows: seq<Outcome>, i: nat)
    requires s.phase.Down? && ListsOrphans(todo, s.visible, s.devices) && i <= |todo| == |hows|
    ensures Run(gen, s, RecoverSteps(s.mode, todo, hows[..i])) == Some(Sweeping(s, todo, hows, i))
  {
    if i == 0 {
      RecoverBegins(gen, s, todo, hows);
    } else {
      SweptRuns(gen, s, todo, hows, i - 1);
      SweepingNext(s, todo, hows, i - 1);
      CleanupExtends(gen, s, s.mode, todo, hows, i - 1, Sweeping(s, todo, hows, i - 1), Sweeping(s, todo, hows, i));
    }
  }

  lemma FullRecovery(gen: string -> string, s: Node, a: Answers, todo: seq<string>, hows: seq<Outcome>)
    requires s.phase.Down? && ListsOrphans(todo, s.visible, s.devices) && |todo| == |hows|
    requires Kept(s.visible, s.devices, s.mode, a) == Backed(s.visible, s.devices)
    ensures OneRecovery(gen, s, todo, hows, Recovered(s, s.mode, a, todo, hows))
  {
    var up := s.(memory := Backed(s.visible, s.devices));
    var u := Recovered(s, s.mode, a, todo, hows);
    var steps := RecoverSteps(s.mode, todo, hows);
    var now := u.(phase := Recovering([]));
    assert todo[..|todo|] == todo && hows[..|todo|] == hows && todo[|todo|..] == [];
    SweptRuns(gen, s, todo, hows, |todo|);
    SweptElsewhere(up, todo, hows);
    CleanupKeepsBackedEntries(gen, s, s.mode, todo, hows, now);
    FullCleanup(s.visible, s.devices, todo, u.visible, hows);
    PathIsRun(gen, [now, u], [Machine(Serve)]);
    RunConcat(gen, s, steps, now, [Machine(Serve)], u);
  }
}
