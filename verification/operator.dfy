/**
 * The operator: driving the objects of a driver deployment in the API server to what the deployment asks for.
 */
module Operator {
  datatype Kind =
    | ClusterRole | ClusterRoleBinding | CSIDriver | DaemonSet | Role | RoleBinding | Secret | Service
    | ServiceAccount | Deployment | MutatingWebhookConfiguration | ConfigMap | StatefulSet
    | Unmanaged(kind: string)

  type Uid = string
  type Labels = map<string, string>

  datatype Key = Key(kind: Kind, ns: string, name: string)

  /** What the operator sets in an object: some of its fields, and tolerations. */
  datatype Content = Content(fields: map<string, string>, tolerations: seq<string>)

  datatype Object = Object(owners: seq<Uid>, content: Content, labels: Labels)

  type Store = map<Key, Object>

  /** A deployment: its name, its UID and the labels that all of its objects get. */
  datatype Driver = Driver(name: string, uid: Uid, labels: Labels)

  /** One entry of the table of sub-objects, with what its callback sets. */
  datatype Handler = Handler(kind: Kind, suffix: string, immutable: bool, fields: map<string, string>,
                             tolerations: seq<string>)

  predicate IsNamespaced(kind: Kind)
  {
    !kind.ClusterRole? && !kind.ClusterRoleBinding? && !kind.CSIDriver? && !kind.MutatingWebhookConfiguration?
  }

  /** All kinds that this or an earlier release creates; the last two are obsolete. */
  function AllKinds(): seq<Kind>
  {
    [ClusterRole, ClusterRoleBinding, CSIDriver, DaemonSet, Role, RoleBinding, Secret, Service, ServiceAccount,
     Deployment, MutatingWebhookConfiguration, ConfigMap, StatefulSet]
  }

  function Scope(ns: string, kind: Kind): string
  {
    if IsNamespaced(kind) then ns else ""
  }

  // ------------------------------------------------------------------------------- names

  function Hyphened(name: string): (r: string)
    ensures |r| == |name| && forall i :: 0 <= i < |name| ==> r[i] == if name[i] == '.' then '-' else name[i]
  {
    seq(|name|, i requires 0 <= i < |name| => if name[i] == '.' then '-' else name[i])
  }

  /** The CSIDriver object has the name of the deployment, all others the hyphened one with a suffix. */
  function NameOf(d: Driver, h: Handler): string
  {
    if h.kind.CSIDriver? then d.name else Hyphened(d.name) + h.suffix
  }

  function KeyOf(ns: string, d: Driver, h: Handler): Key
  {
    Key(h.kind, Scope(ns, h.kind), NameOf(d, h))
  }

  /** The names are the same, or differ only in dots against hyphens. */
  predicate SameUpToDots(a: string, b: string)
  {
    |a| == |b| && forall i :: 0 <= i < |a| ==> a[i] == b[i] || {a[i], b[i]} == {'.', '-'}
  }

  lemma SameHyphened(a: string, b: string)
    ensures Hyphened(a) == Hyphened(b) <==> SameUpToDots(a, b)
  {
    if Hyphened(a) == Hyphened(b) {
      forall i | 0 <= i < |a| ensures a[i] == b[i] || {a[i], b[i]} == {'.', '-'} {
        assert Hyphened(a)[i] == Hyphened(b)[i];
      }
    }
    if SameUpToDots(a, b) {
      forall i | 0 <= i < |a| ensures Hyphened(a)[i] == Hyphened(b)[i] {
        if a[i] != b[i] { assert a[i] in {'.', '-'} && b[i] in {'.', '-'}; }
      }
    }
  }

  /**
   * Two deployments share the object of a handler exactly when their names are the same up to dots and hyphens, or
   * just the same for the CSIDriver object, and the operators use the same namespace or the kind has none.
   */
  lemma SharedExactly(m: string, a: Driver, n: string, b: Driver, h: Handler)
    ensures KeyOf(m, a, h) == KeyOf(n, b, h) <==>
            && (m == n || h.kind in {ClusterRole, ClusterRoleBinding, CSIDriver, MutatingWebhookConfiguration})
            && if h.kind == CSIDriver then a.name == b.name else SameUpToDots(a.name, b.name)
  {
    SameHyphened(a.name, b.name);
    var (x, y) := (Hyphened(a.name) + h.suffix, Hyphened(b.name) + h.suffix);
    if x == y {
      assert |a.name| == |b.name| && x[..|a.name|] == Hyphened(a.name) && y[..|b.name|] == Hyphened(b.name);
    }
  }

  /** Every kind that the operator manages or once managed is looked at when obsolete objects are removed. */
  lemma EveryManagedKind(kind: Kind)
    ensures kind in AllKinds() <==> !kind.Unmanaged?
  {
    assert AllKinds()[0] == ClusterRole && AllKinds()[1] == ClusterRoleBinding && AllKinds()[2] == CSIDriver;
    assert AllKinds()[3] == DaemonSet && AllKinds()[4] == Role && AllKinds()[5] == RoleBinding;
    assert AllKinds()[6] == Secret && AllKinds()[7] == Service && AllKinds()[8] == ServiceAccount;
    assert AllKinds()[9] == Deployment && AllKinds()[10] == MutatingWebhookConfiguration;
    assert AllKinds()[11] == ConfigMap && AllKinds()[12] == StatefulSet;
  }

  /** What one handler asks for: an object under this name with at least these contents. */
  datatype Wish = Wish(key: Key, immutable: bool, fields: map<string, string>, tolerations: seq<string>)

  function Wishes(ns: string, d: Driver, hs: seq<Handler>): (ws: seq<Wish>)
    ensures |ws| == |hs|
    ensures forall i :: 0 <= i < |hs| ==> ws[i] == Wish(KeyOf(ns, d, hs[i]), hs[i].immutable, hs[i].fields,
            hs[i].tolerations)
  {
    seq(|hs|, i requires 0 <= i < |hs| => Wish(KeyOf(ns, d, hs[i]), hs[i].immutable, hs[i].fields, hs[i].tolerations))
  }

  /** No two entries ask for the same object. */
  ghost predicate Distinct(ws: seq<Wish>)
  {
    forall i, j :: 0 <= i < j < |ws| ==> ws[i].key != ws[j].key
  }

  /** Namespaced objects are in the namespace of the operator. */
  predicate Scoped(ns: string, ws: seq<Wish>)
  {
    forall i :: 0 <= i < |ws| ==> ws[i].key.ns == Scope(ns, ws[i].key.kind)
  }

  /** The objects of a table are distinct if no kind occurs twice with the same suffix, and CSIDriver only once. */
  lemma WishesAreDistinct(ns: string, d: Driver, hs: seq<Handler>)
    requires forall i, j :: 0 <= i < j < |hs| ==>
               hs[i].kind != hs[j].kind || (!hs[i].kind.CSIDriver? && hs[i].suffix != hs[j].suffix)
    ensures Distinct(Wishes(ns, d, hs)) && Scoped(ns, Wishes(ns, d, hs))
  {
    var prefix := Hyphened(d.name);
    forall i, j | 0 <= i < j < |hs| ensures KeyOf(ns, d, hs[i]) != KeyOf(ns, d, hs[j]) {
      assert (prefix + hs[i].suffix)[|prefix|..] == hs[i].suffix && (prefix + hs[j].suffix)[|prefix|..] == hs[j].suffix;
    }
  }

  /** The entries of the table of sub-objects. */
  datatype Sub =
    | NodeDriver | ControllerDriver | TheCSIDriver
    | WebhooksRole | WebhooksRoleBinding | WebhooksClusterRole | WebhooksClusterRoleBinding | WebhooksServiceAccount
    | ProvisionerRole | ProvisionerRoleBinding | ProvisionerClusterRole | ProvisionerClusterRoleBinding
    | ProvisionerServiceAccount | NodeOpenShiftRoleBinding
    | NodeSetupClusterRole | NodeSetupClusterRoleBinding | NodeSetupServiceAccount | NodeSetupDriver

  function KindOf(sub: Sub): Kind
  {
    match sub
    case NodeDriver => DaemonSet
    case ControllerDriver => Deployment
    case TheCSIDriver => CSIDriver
    case WebhooksRole => Role
    case WebhooksRoleBinding => RoleBinding
    case WebhooksClusterRole => ClusterRole
    case WebhooksClusterRoleBinding => ClusterRoleBinding
    case WebhooksServiceAccount => ServiceAccount
    case ProvisionerRole => Role
    case ProvisionerRoleBinding => RoleBinding
    case ProvisionerClusterRole => ClusterRole
    case ProvisionerClusterRoleBinding => ClusterRoleBinding
    case ProvisionerServiceAccount => ServiceAccount
    case NodeOpenShiftRoleBinding => RoleBinding
    case NodeSetupClusterRole => ClusterRole
    case NodeSetupClusterRoleBinding => ClusterRoleBinding
    case NodeSetupServiceAccount => ServiceAccount
    case NodeSetupDriver => DaemonSet
  }

  function SuffixOf(sub: Sub): string
  {
    match sub
    case NodeDriver => "-node"
    case ControllerDriver => "-controller"
    case TheCSIDriver => ""
    case WebhooksRole => "-webhooks-cfg"
    case WebhooksRoleBinding => "-webhooks-role-cfg"
    case WebhooksClusterRole => "-webhooks-runner"
    case WebhooksClusterRoleBinding => "-webhooks-role"
    case WebhooksServiceAccount => "-webhooks"
    case ProvisionerRole => "-external-provisioner-cfg"
    case ProvisionerRoleBinding => "-csi-provisioner-role-cfg"
    case ProvisionerClusterRole => "-external-provisioner-runner"
    case ProvisionerClusterRoleBinding => "-csi-provisioner-role"
    case ProvisionerServiceAccount => "-controller"
    case NodeOpenShiftRoleBinding => "-node-openshift-cfg"
    case NodeSetupClusterRole => "-node-setup-runner"
    case NodeSetupClusterRoleBinding => "-node-setup-role"
    case NodeSetupServiceAccount => "-node-setup"
    case NodeSetupDriver => "-node-setup"
  }

  /** Only the CSIDriver object cannot be patched. */
  function HandlerOf(sub: Sub, sets: Sub -> Content): Handler
  {
    Handler(KindOf(sub), SuffixOf(sub), sub.TheCSIDriver?, sets(sub).fields, sets(sub).tolerations)
  }

  /** The table in some order, with what each callback sets. */
  function Table(subs: seq<Sub>, sets: Sub -> Content): (hs: seq<Handler>)
    ensures |hs| == |subs| && forall i :: 0 <= i < |subs| ==> hs[i] == HandlerOf(subs[i], sets)
  {
    seq(|subs|, i requires 0 <= i < |subs| => HandlerOf(subs[i], sets))
  }

  lemma SubsDiffer(a: Sub, b: Sub)
    requires a != b && KindOf(a) == KindOf(b)
    ensures !a.TheCSIDriver? && SuffixOf(a) != SuffixOf(b)
  {
    if a.NodeSetupServiceAccount? && b.ProvisionerServiceAccount? {
      assert SuffixOf(a)[1] == 'n' && SuffixOf(b)[1] == 'c';
    } else if b.NodeSetupServiceAccount? && a.ProvisionerServiceAccount? {
      assert SuffixOf(a)[1] == 'c' && SuffixOf(b)[1] == 'n';
    } else {
      assert |SuffixOf(a)| != |SuffixOf(b)|;
    }
  }

  /** The handlers of the operator, in whatever order, ask for different objects of known kinds in its scope. */
  lemma TableIsDistinct(ns: string, d: Driver, subs: seq<Sub>, sets: Sub -> Content)
    requires forall i, j :: 0 <= i < j < |subs| ==> subs[i] != subs[j]
    ensures var ws := Wishes(ns, d, Table(subs, sets));
            Distinct(ws) && Scoped(ns, ws) && forall i :: 0 <= i < |ws| ==> ws[i].key.kind in AllKinds()
  {
    var hs := Table(subs, sets);
    forall i, j | 0 <= i < j < |hs|
      ensures hs[i].kind != hs[j].kind || (!hs[i].kind.CSIDriver? && hs[i].suffix != hs[j].suffix)
    {
      if KindOf(subs[i]) == KindOf(subs[j]) { SubsDiffer(subs[i], subs[j]); }
    }
    WishesAreDistinct(ns, d, hs);
    forall i | 0 <= i < |subs| ensures KindOf(subs[i]) in AllKinds() { EveryManagedKind(KindOf(subs[i])); }
  }

  // ------------------------------------------------------------------------------- what is wanted

  /** Copies one map into another. The order in which a map is visited is not determined. */
  method CopyInto(into: Labels, from: Labels) returns (result: Labels)
    ensures result == into + from
  {
    result := into;
    var rest := from.Keys;
    while rest != {}
      invariant rest <= from.Keys && result.Keys == into.Keys + (from.Keys - rest)
      invariant forall k :: k in result ==> result[k] == if k in from && k !in rest then from[k] else into[k]
      decreases |rest|
    {
      var k :| k in rest;
      result, rest := result[k := from[k]], rest - {k};
    }
  }

  /** joinMaps: the second map wins. */
  method JoinMaps(left: Labels, right: Labels) returns (result: Labels)
    ensures result == left + right
  {
    result := CopyInto(map[], left);
    result := CopyInto(result, right);
  }

  function Tolerating(tolerations: seq<string>, effects: seq<string>): seq<string>
  {
    if effects == [] then tolerations
    else
      var some := Tolerating(tolerations, effects[..|effects| - 1]);
      var effect := effects[|effects| - 1];
      if effect in some then some else some + [effect]
  }

  /** setTolerations: each effect is appended unless it is there. */
  method SetTolerations(tolerations: seq<string>, effects: seq<string>) returns (r: seq<string>)
    ensures r == Tolerating(tolerations, effects)
  {
    r := tolerations;
    for i := 0 to |effects|
      invariant r == Tolerating(tolerations, effects[..i])
    {
      assert effects[..i + 1][..i] == effects[..i];
      var found := false;
      for j := 0 to |r|
        invariant found <==> effects[i] in r[..j]
      {
        if r[j] == effects[i] { found := true; }
      }
      assert r[..|r|] == r;
      if !found { r := r + [effects[i]]; }
    }
    assert effects[..|effects|] == effects;
  }

  lemma {:induction false} ToleratesAll(tolerations: seq<string>, effects: seq<string>)
    ensures forall e :: e in effects || e in tolerations ==> e in Tolerating(tolerations, effects)
  {
    if effects != [] {
      ToleratesAll(tolerations, effects[..|effects| - 1]);
      assert effects == effects[..|effects| - 1] + [effects[|effects| - 1]];
    }
  }

  lemma {:induction false} NothingToTolerate(tolerations: seq<string>, effects: seq<string>)
    requires forall e :: e in effects ==> e in tolerations
    ensures Tolerating(tolerations, effects) == tolerations
  {
    if effects != [] { NothingToTolerate(tolerations, effects[..|effects| - 1]); }
  }

  /** Nothing but these effects is added, each of them once, behind what was there. */
  predicate OnlyAdds(before: seq<string>, after: seq<string>, effects: seq<string>)
  {
    before <= after && forall i :: |before| <= i < |after| ==> after[i] in effects && after[i] !in after[..i]
  }

  lemma {:induction false} ToleratesOnly(tolerations: seq<string>, effects: seq<string>)
    ensures OnlyAdds(tolerations, Tolerating(tolerations, effects), effects)
  {
    if effects != [] {
      var init := effects[..|effects| - 1];
      var (some, all) := (Tolerating(tolerations, init), Tolerating(tolerations, effects));
      ToleratesOnly(tolerations, init);
      forall i | |tolerations| <= i < |all| ensures all[i] in effects && all[i] !in all[..i] {
        if i < |some| { assert all[..i] == some[..i] && all[i] in init; } else { assert all[..i] == some; }
      }
    }
  }

  /** The object has every field, toleration and label that the deployment asks for. */
  predicate Carries(d: Driver, w: Wish, o: Object)
  {
    && (forall f :: f in w.fields ==> f in o.content.fields && o.content.fields[f] == w.fields[f])
    && (forall e :: e in w.tolerations ==> e in o.content.tolerations)
    && (forall l :: l in d.labels ==> l in o.labels && o.labels[l] == d.labels[l])
  }

  /** Owners, and all fields, tolerations and labels that the deployment does not ask for, are as they were. */
  ghost predicate KeepsTheRest(d: Driver, w: Wish, was: Object, o: Object)
  {
    && o.owners == was.owners
    && SameBeyond(w.fields, was.content.fields, o.content.fields)
    && SameBeyond(d.labels, was.labels, o.labels)
    && OnlyAdds(was.content.tolerations, o.content.tolerations, w.tolerations)
  }

  ghost predicate SameBeyond(asked: Labels, was: Labels, now: Labels)
  {
    forall f :: f !in asked ==> (f in now <==> f in was) && (f in now ==> now[f] == was[f])
  }

  /** An object with this owner that has what the deployment asks for and nothing else. */
  ghost predicate IsNew(d: Driver, w: Wish, o: Object)
  {
    && o.owners == [d.uid] && o.content.fields == w.fields && o.labels == d.labels
    && OnlyAdds([], o.content.tolerations, w.tolerations)
  }

  /** What a deployment makes of the object of a handler, depending on what the store has there. */
  ghost predicate Deploys(d: Driver, w: Wish, s: Store, o: Object)
  {
    Carries(d, w, o) && if w.key in s then KeepsTheRest(d, w, s[w.key], o) else IsNew(d, w, o)
  }

  /** The object as the deployment wants it, given what is there: everything that nobody asked for stays. */
  function Desired(d: Driver, w: Wish, o: Object): Object
  {
    Object(o.owners,
           Content(o.content.fields + w.fields, Tolerating(o.content.tolerations, w.tolerations)),
           o.labels + d.labels)
  }

  /** A new object is owned by the deployment and otherwise empty. */
  function Template(d: Driver): Object
  {
    Object([d.uid], Content(map[], []), map[])
  }

  function Base(s: Store, k: Key, d: Driver): Object
  {
    if k in s then s[k] else Template(d)
  }

  /** The wanted object has what was asked for, and everything else is as it was. */
  lemma DesiredIsExact(d: Driver, w: Wish, o: Object)
    ensures Carries(d, w, Desired(d, w, o)) && KeepsTheRest(d, w, o, Desired(d, w, o))
  {
    ToleratesAll(o.content.tolerations, w.tolerations);
    ToleratesOnly(o.content.tolerations, w.tolerations);
  }

  /** There is nothing to change if and only if the object has everything that is asked for. */
  lemma NothingToDoIffCarried(d: Driver, w: Wish, o: Object)
    ensures Desired(d, w, o) == o <==> Carries(d, w, o)
  {
    DesiredIsExact(d, w, o);
    if Carries(d, w, o) {
      NothingToTolerate(o.content.tolerations, w.tolerations);
      assert o.content.fields + w.fields == o.content.fields;
      assert o.labels + d.labels == o.labels;
    }
  }

  /** Asking twice changes nothing. */
  lemma DesiredIsIdempotent(d: Driver, w: Wish, o: Object)
    ensures Desired(d, w, Desired(d, w, o)) == Desired(d, w, o)
  {
    DesiredIsExact(d, w, o);
    NothingToDoIffCarried(d, w, Desired(d, w, o));
  }

  lemma DesiredDeploys(d: Driver, w: Wish, s: Store)
    ensures Deploys(d, w, s, Desired(d, w, Base(s, w.key, d)))
  {
    DesiredIsExact(d, w, Base(s, w.key, d));
  }

  // ------------------------------------------------------------------------------- writes

  datatype Write = Put(key: Key, object: Object) | Remove(key: Key)

  /** One write to the API server by the deployment with this UID. */
  datatype Action = Action(uid: Uid, write: Write)

  /** Creating under a free name an object that it owns, or changing or removing one that it owns. */
  predicate Allowed(s: Store, a: Action)
  {
    match a.write
    case Put(k, o) => a.uid in o.owners && (k in s ==> a.uid in s[k].owners && o.owners == s[k].owners)
    case Remove(k) => k in s && a.uid in s[k].owners
  }

  function Perform(s: Store, w: Write): Store
  {
    match w
    case Put(k, o) => s[k := o]
    case Remove(k) => s - {k}
  }

  function PerformAll(s: Store, actions: seq<Action>): Store
  {
    if actions == [] then s else Perform(PerformAll(s, actions[..|actions| - 1]), actions[|actions| - 1].write)
  }

  /** Every action is allowed when it happens. */
  predicate AllAllowed(s: Store, actions: seq<Action>)
  {
    actions == []
    || (AllAllowed(s, actions[..|actions| - 1])
        && Allowed(PerformAll(s, actions[..|actions| - 1]), actions[|actions| - 1]))
  }

  lemma OneMore(s: Store, actions: seq<Action>, a: Action)
    requires AllAllowed(s, actions) && Allowed(PerformAll(s, actions), a)
    ensures AllAllowed(s, actions + [a]) && PerformAll(s, actions + [a]) == Perform(PerformAll(s, actions), a.write)
  {
  }

  /**
   * Whatever any number of deployments do, and wherever a reconcile was cut off, an object that
   * none of them owns is not patched, re-created or removed.
   */
  lemma {:induction false} OthersAreLeftAlone(s: Store, actions: seq<Action>, k: Key)
    requires AllAllowed(s, actions) && k in s
    requires forall i :: 0 <= i < |actions| ==> actions[i].uid !in s[k].owners
    ensures k in PerformAll(s, actions) && PerformAll(s, actions)[k] == s[k]
  {
    if actions != [] { OthersAreLeftAlone(s, actions[..|actions| - 1], k); }
  }

  /** Nobody gives an object away or takes one over: as long as an object stays, so do its owners. */
  lemma {:induction false} OwnersStay(s: Store, actions: seq<Action>, k: Key)
    requires AllAllowed(s, actions) && k in s
    requires forall i :: 0 <= i < |actions| ==> actions[i].write != Remove(k)
    ensures k in PerformAll(s, actions) && PerformAll(s, actions)[k].owners == s[k].owners
  {
    if actions != [] { OwnersStay(s, actions[..|actions| - 1], k); }
  }

  // ------------------------------------------------------------------------------- reconcile

  predicate HasKey(ws: seq<Wish>, k: Key)
  {
    exists i :: 0 <= i < |ws| && ws[i].key == k
  }

  /** An object that the deployment owns although none of its handlers wants it any more. */
  predicate Obsolete(ns: string, d: Driver, s: Store, ws: seq<Wish>, k: Key)
  {
    k in s && d.uid in s[k].owners && k.kind in AllKinds() && k.ns == Scope(ns, k.kind) && !HasKey(ws, k)
  }

  /** An object of some handler exists and belongs to somebody else. */
  predicate Conflict(d: Driver, s: Store, ws: seq<Wish>)
  {
    exists i :: 0 <= i < |ws| && Foreign(s, ws[i].key, d.uid)
  }

  predicate Foreign(s: Store, k: Key, uid: Uid)
  {
    k in s && uid !in s[k].owners
  }

  function Redeployed(d: Driver, s: Store, w: Wish): Store
  {
    s[w.key := Desired(d, w, Base(s, w.key, d))]
  }

  function RedeployedAll(d: Driver, s: Store, ws: seq<Wish>): Store
  {
    if ws == [] then s else Redeployed(d, RedeployedAll(d, s, ws[..|ws| - 1]), ws[|ws| - 1])
  }

  function Purged(ns: string, d: Driver, s: Store, ws: seq<Wish>): Store
  {
    map k | k in s && !Obsolete(ns, d, s, ws, k) :: s[k]
  }

  lemma Replaced(s: Store, k: Key, o: Object)
    ensures (s - {k})[k := o] == s[k := o]
    ensures k in s && s[k] == o ==> s[k := o] == s
  {
  }

  /** The API server, and all writes that the operator ever made to it. */
  class Reconciler {
    const ns: string
    const works: nat -> bool
    var calls: nat
    var store: Store
    ghost const first: Store
    ghost var log: seq<Action>

    ghost predicate Valid()
      reads this
    {
      && AllAllowed(first, log) && store == PerformAll(first, log)
      && forall k :: k in store && !IsNamespaced(k.kind) ==> k.ns == ""
    }

    constructor (ns: string, works: nat -> bool, store: Store)
      requires forall k :: k in store && !IsNamespaced(k.kind) ==> k.ns == ""
      ensures Valid() && this.ns == ns && this.works == works && this.store == store && log == []
    {
      this.ns, this.works, this.calls, this.store := ns, works, 0, store;
      this.first, this.log := store, [];
    }

    /** Any call to the API server may fail. */
    method Call() returns (ok: bool)
      modifies this`calls
      ensures calls == old(calls) + 1 && ok == works(old(calls))
    {
      ok := works(calls);
      calls := calls + 1;
    }

    method Do(a: Action) returns (ok: bool)
      requires Valid() && Allowed(store, a)
      requires a.write.Put? && !IsNamespaced(a.write.key.kind) ==> a.write.key.ns == ""
      modifies this
      ensures Valid() && calls == old(calls) + 1 && ok == works(old(calls))
      ensures ok ==> store == Perform(old(store), a.write) && log == old(log) + [a]
      ensures !ok ==> store == old(store) && log == old(log)
    {
      ok := Call();
      if ok {
        OneMore(first, log, a);
        store := match a.write { case Put(k, o) => store[k := o] case Remove(k) => store - {k} };
        log := log + [a];
      }
    }

    method IsOwnedBy(owners: seq<Uid>, uid: Uid) returns (owned: bool)
      ensures owned <==> uid in owners
    {
      for i := 0 to |owners|
        invariant uid !in owners[..i]
      {
        if owners[i] == uid { return true; }
      }
      return false;
    }

    /** The callbacks and the labels: what an object should be like. */
    method Modify(d: Driver, w: Wish, o: Object) returns (wanted: Object)
      ensures wanted == Desired(d, w, o) && Carries(d, w, wanted) && KeepsTheRest(d, w, o, wanted)
    {
      DesiredIsExact(d, w, o);
      var fields := CopyInto(o.content.fields, w.fields);
      var tolerations := SetTolerations(o.content.tolerations, w.tolerations);
      var labels := CopyInto(o.labels, d.labels);
      wanted := Object(o.owners, Content(fields, tolerations), labels);
    }

    /** Creates or patches an object; an immutable one is removed and created again. */
    method Submit(d: Driver, immutable: bool, k: Key, wanted: Object) returns (ok: bool)
      requires Valid() && d.uid in wanted.owners && (!IsNamespaced(k.kind) ==> k.ns == "")
      requires k in store ==> d.uid in store[k].owners && wanted.owners == store[k].owners
      modifies this
      ensures Valid() && Adds(old(log), log, d.uid)
      ensures ok ==> store == old(store)[k := wanted]
      ensures ok ==> log == old(log) + if k !in old(store) then [Action(d.uid, Put(k, wanted))]
                                       else if old(store)[k] == wanted then []
                                       else if immutable then [Action(d.uid, Remove(k)), Action(d.uid, Put(k, wanted))]
                                       else [Action(d.uid, Put(k, wanted))]
      ensures k in old(store) && old(store)[k] == wanted ==> ok && log == old(log) && store == old(store)
      ensures (forall n :: works(n)) ==> ok
    {
      Replaced(store, k, wanted);
      if k in store {
        if wanted == store[k] { return true; }
        if !immutable {
          ok := Do(Action(d.uid, Put(k, wanted)));
          return;
        }
        ok := Do(Action(d.uid, Remove(k)));
        if !ok { return; }
      }
      ok := Do(Action(d.uid, Put(k, wanted)));
    }

    /** redeploy: leaves an object alone that is as wanted, and fails for one that somebody else owns. */
    method Redeploy(d: Driver, w: Wish) returns (ok: bool)
      requires Valid() && w.key.ns == Scope(ns, w.key.kind)
      modifies this
      ensures Valid() && Adds(old(log), log, d.uid)
      ensures ok ==> !Foreign(old(store), w.key, d.uid) && store == Redeployed(d, old(store), w)
      ensures ok ==> w.key in store && Deploys(d, w, old(store), store[w.key])
      ensures AsWanted(d, old(store), w) || Foreign(old(store), w.key, d.uid) ==> log == old(log) && store == old(store)
      ensures (forall n :: works(n)) && !Foreign(old(store), w.key, d.uid) ==> ok
    {
      var k := w.key;
      ok := Call();
      if !ok { return; }
      var o := Template(d);
      if k in store {
        o := store[k];
        var owned := IsOwnedBy(o.owners, d.uid);
        if !owned { return false; }
      }
      var wanted := Modify(d, w, o);
      NothingToDoIffCarried(d, w, o);
      DesiredDeploys(d, w, store);
      ok := Submit(d, w.immutable, k, wanted);
    }

    /** The objects of one kind that exist, in some order: those in the namespace or, for other kinds, all. */
    method List(kind: Kind) returns (items: seq<Key>)
      requires forall k :: k in store && !IsNamespaced(k.kind) ==> k.ns == ""
      ensures forall k :: k in items <==> k in store && k.kind == kind && k.ns == Scope(ns, kind)
    {
      items := [];
      var rest := store.Keys;
      while rest != {}
        invariant rest <= store.Keys
        invariant forall k :: k in items <==> k in store && k !in rest && k.kind == kind && k.ns == Scope(ns, kind)
        decreases |rest|
      {
        var k :| k in rest;
        if k.kind == kind && (!IsNamespaced(kind) || k.ns == ns) { items := items + [k]; }
        rest := rest - {k};
      }
    }

    /** objectIsObsolete: only kinds and names are compared. */
    method IsObsolete(wanted: seq<Key>, k: Key) returns (obsolete: bool)
      ensures obsolete <==> forall i :: 0 <= i < |wanted| ==> wanted[i].kind != k.kind || wanted[i].name != k.name
    {
      for i := 0 to |wanted|
        invariant forall j :: 0 <= j < i ==> wanted[j].kind != k.kind || wanted[j].name != k.name
      {
        if wanted[i].name == k.name && wanted[i].kind == k.kind { return false; }
      }
      return true;
    }

    method DeleteIfObsolete(d: Driver, ws: seq<Wish>, wanted: seq<Key>, k: Key) returns (ok: bool)
      requires Valid() && Scoped(ns, ws) && wanted == KeysOf(ws) && k.kind in AllKinds() && k.ns == Scope(ns, k.kind)
      modifies this
      ensures Valid() && Adds(old(log), log, d.uid)
      ensures ok ==> store == Cleaned(ns, d, old(store), ws, k)
      ensures !Obsolete(ns, d, old(store), ws, k) ==> ok && log == old(log) && store == old(store)
      ensures (forall n :: works(n)) ==> ok
    {
      // An object that is gone by now needs no removal.
      if k !in store { return true; }
      var owner := IsOwnedBy(store[k].owners, d.uid);
      if !owner { return true; }
      var obsolete := IsObsolete(wanted, k);
      WantedByKey(ns, d, ws, wanted, k);
      if !obsolete { return true; }
      ok := Do(Action(d.uid, Remove(k)));
    }

    method DeleteItems(d: Driver, ws: seq<Wish>, wanted: seq<Key>, items: seq<Key>) returns (ok: bool)
      requires Valid() && Scoped(ns, ws) && wanted == KeysOf(ws)
      requires forall k :: k in items ==> k.kind in AllKinds() && k.ns == Scope(ns, k.kind)
      modifies this
      ensures Valid() && Adds(old(log), log, d.uid)
      ensures ok ==> store == CleanedAll(ns, d, old(store), ws, items)
      ensures (forall k :: k in items ==> !Obsolete(ns, d, old(store), ws, k)) ==>
              ok && log == old(log) && store == old(store)
      ensures (forall n :: works(n)) ==> ok
    {
      for i := 0 to |items|
        invariant Valid() && Adds(old(log), log, d.uid)
        invariant store == CleanedAll(ns, d, old(store), ws, items[..i])
        invariant (forall k :: k in items ==> !Obsolete(ns, d, old(store), ws, k)) ==>
                log == old(log) && store == old(store)
      {
        assert items[..i + 1][..i] == items[..i];
        ok := DeleteIfObsolete(d, ws, wanted, items[i]);
        if !ok { return; }
      }
      assert items[..|items|] == items;
      return true;
    }

    /** One kind, when those before it were done; s is the store at the start. */
    method DeleteObsoleteKind(d: Driver, ws: seq<Wish>, wanted: seq<Key>, i: nat, ghost s: Store) returns (ok: bool)
      requires Valid() && Scoped(ns, ws) && wanted == KeysOf(ws) && i < |AllKinds()|
      requires store == ByKinds(ns, d, s, ws, AllKinds()[..i])
      modifies this
      ensures Valid() && Adds(old(log), log, d.uid)
      ensures ok ==> store == ByKinds(ns, d, s, ws, AllKinds()[..i + 1])
      ensures NothingObsolete(ns, d, s, ws) ==> log == old(log) && store == old(store)
      ensures (forall n :: works(n)) ==> ok
    {
      ok := Call();
      if !ok { return; }
      var items := List(AllKinds()[i]);
      ByOneMoreKind(ns, d, s, ws, AllKinds(), i, store, items);
      ok := DeleteItems(d, ws, wanted, items);
    }

    /** deleteObsoleteObjects: kind by kind. */
    method DeleteObsoleteObjects(d: Driver, ws: seq<Wish>, wanted: seq<Key>) returns (ok: bool)
      requires Valid() && Scoped(ns, ws) && wanted == KeysOf(ws)
      modifies this
      ensures Valid() && Adds(old(log), log, d.uid)
      ensures ok ==> store == Purged(ns, d, old(store), ws)
      ensures NothingObsolete(ns, d, old(store), ws) ==> log == old(log) && store == old(store)
      ensures (forall n :: works(n)) ==> ok
    {
      ByNoKind(ns, d, store, ws);
      for i := 0 to |AllKinds()|
        invariant Valid() && Adds(old(log), log, d.uid)
        invariant store == ByKinds(ns, d, old(store), ws, AllKinds()[..i])
        invariant NothingObsolete(ns, d, old(store), ws) ==> log == old(log) && store == old(store)
      {
        ok := DeleteObsoleteKind(d, ws, wanted, i, old(store));
        if !ok { return; }
      }
      ByAllKinds(ns, d, old(store), ws);
      return true;
    }

    /** One round of the loop over the table of sub-objects, which started with the store s. */
    method RedeployNext(d: Driver, ws: seq<Wish>, i: nat, ghost s: Store) returns (ok: bool)
      requires Valid() && Distinct(ws) && Scoped(ns, ws) && i < |ws| && store == RedeployedAll(d, s, ws[..i])
      modifies this
      ensures Valid() && Adds(old(log), log, d.uid)
      ensures ok ==> !Foreign(s, ws[i].key, d.uid) && store == RedeployedAll(d, s, ws[..i + 1])
      ensures AllAsWanted(d, s, ws) ==> log == old(log) && store == old(store)
      ensures (forall n :: works(n)) && !Foreign(s, ws[i].key, d.uid) ==> ok
    {
      HandlerTurn(d, s, ws, i);
      ok := Redeploy(d, ws[i]);
    }

    /** The loop over the table of sub-objects, which stops at the first failure. */
    method RedeployAll(d: Driver, ws: seq<Wish>) returns (ok: bool, wanted: seq<Key>)
      requires Valid() && Distinct(ws) && Scoped(ns, ws)
      modifies this
      ensures Valid() && Adds(old(log), log, d.uid)
      ensures ok ==> wanted == KeysOf(ws) && store == RedeployedAll(d, old(store), ws) && !Conflict(d, old(store), ws)
      ensures AllAsWanted(d, old(store), ws) ==> log == old(log) && store == old(store)
      ensures (forall n :: works(n)) && !Conflict(d, old(store), ws) ==> ok
    {
      wanted := [];
      for i := 0 to |ws|
        invariant Valid() && Adds(old(log), log, d.uid)
        invariant wanted == KeysOf(ws[..i])
        invariant store == RedeployedAll(d, old(store), ws[..i])
        invariant forall j :: 0 <= j < i ==> !Foreign(old(store), ws[j].key, d.uid)
        invariant AllAsWanted(d, old(store), ws) ==> log == old(log) && store == old(store)
      {
        ok := RedeployNext(d, ws, i, old(store));
        if !ok { return; }
        assert ws[..i + 1][..i] == ws[..i];
        wanted := wanted + [ws[i].key];
      }
      assert ws[..|ws|] == ws;
      return true, wanted;
    }

    /** reconcile for one deployment. */
    method Reconcile(d: Driver, ws: seq<Wish>) returns (ok: bool)
      requires Valid() && Distinct(ws) && Scoped(ns, ws)
      modifies this
      ensures Valid() && Adds(old(log), log, d.uid)
      ensures ok ==> !Conflict(d, old(store), ws) && store == Goal(ns, d, old(store), ws)
      ensures ok ==> AllDeployed(d, old(store), ws, store)
      ensures Converged(ns, d, old(store), ws) ==> log == old(log) && store == old(store)
      ensures (forall n :: works(n)) ==> (ok <==> !Conflict(d, old(store), ws))
    {
      var wanted: seq<Key>;
      ok, wanted := RedeployAll(d, ws);
      if !ok { return; }
      ok := DeleteObsoleteObjects(d, ws, wanted);
      GoalDeploys(ns, d, old(store), ws);
    }

    /** One round of the loop in handleEvent, which started with this store and this log. */
    method HandleNext(d: Driver, ws: seq<Wish>, i: nat, kind: Kind, name: string, ghost s: Store,
        ghost before: seq<Action>) returns (ok: bool)
      requires Valid() && Distinct(ws) && Scoped(ns, ws) && i < |ws|
      requires HandledSoFar(d, s, ws[..i], kind, name, before, store, log)
      modifies this
      ensures Valid() && Adds(before, log, d.uid)
      ensures ok ==> HandledSoFar(d, s, ws[..i + 1], kind, name, before, store, log)
      ensures !ok && Refused(d, s, ws, kind, name) ==> log == before && store == s
      ensures (forall n :: works(n)) ==> ok || Refused(d, s, ws, kind, name)
    {
      assert ws[..i + 1][..i] == ws[..i];
      EventTurn(ns, d, s, ws, i, kind, name);
      if ws[i].key.kind != kind || ws[i].key.name != name { return true; }
      ok := Redeploy(d, ws[i]);
    }

    /**
     * handleEvent: brings the object of the event back to what its handler wants, if there is one. An object that
     * the deployment does not own any more is refused.
     */
    method HandleEvent(d: Driver, ws: seq<Wish>, kind: Kind, name: string) returns (ok: bool)
      requires Valid() && Distinct(ws) && Scoped(ns, ws)
      modifies this
      ensures Valid() && Adds(old(log), log, d.uid)
      ensures ok ==> store == Answered(d, old(store), ws, kind, name) && !Refused(d, old(store), ws, kind, name)
      ensures Refused(d, old(store), ws, kind, name) ==> log == old(log) && store == old(store)
      ensures (forall n :: works(n)) ==> (ok <==> !Refused(d, old(store), ws, kind, name))
    {
      for i := 0 to |ws|
        invariant Valid() && HandledSoFar(d, old(store), ws[..i], kind, name, old(log), store, log)
      {
        ok := HandleNext(d, ws, i, kind, name, old(store), old(log));
        if !ok { return; }
      }
      assert ws[..|ws|] == ws;
      return true;
    }
  }

  /** Where the loop of handleEvent is after some handlers, none of which was refused. */
  ghost predicate HandledSoFar(d: Driver, s: Store, ws: seq<Wish>, kind: Kind, name: string, before: seq<Action>,
      store: Store, log: seq<Action>)
  {
    && store == Handled(d, s, ws, kind, name) && Adds(before, log, d.uid) && !Refused(d, s, ws, kind, name)
    && (NoneAbout(ws, kind, name) ==> log == before && store == s)
  }

  predicate IsAbout(w: Wish, kind: Kind, name: string)
  {
    w.key.kind == kind && w.key.name == name
  }

  predicate NoneAbout(ws: seq<Wish>, kind: Kind, name: string)
  {
    ws == [] || (NoneAbout(ws[..|ws| - 1], kind, name) && !IsAbout(ws[|ws| - 1], kind, name))
  }

  /** The object that the event is about belongs to somebody else. */
  predicate Refused(d: Driver, s: Store, ws: seq<Wish>, kind: Kind, name: string)
  {
    ws != [] && (|| Refused(d, s, ws[..|ws| - 1], kind, name)
                 || (IsAbout(ws[|ws| - 1], kind, name) && Foreign(s, ws[|ws| - 1].key, d.uid)))
  }

  lemma {:induction false} NotAmong(ns: string, ws: seq<Wish>, k: Key)
    requires Scoped(ns, ws) && k.ns == Scope(ns, k.kind) && forall j :: 0 <= j < |ws| ==> ws[j].key != k
    ensures NoneAbout(ws, k.kind, k.name)
  {
    if ws != [] {
      assert ws[|ws| - 1].key != k && ws[|ws| - 1].key.ns == Scope(ns, ws[|ws| - 1].key.kind);
      NotAmong(ns, ws[..|ws| - 1], k);
    }
  }

  /** Within the scope of the operator an event is about at most one object. */
  lemma OnlyOneMatches(ns: string, ws: seq<Wish>, i: nat, kind: Kind, name: string)
    requires Distinct(ws) && Scoped(ns, ws) && i < |ws|
    ensures IsAbout(ws[i], kind, name) ==> NoneAbout(ws[..i], kind, name)
  {
    if IsAbout(ws[i], kind, name) {
      forall j | 0 <= j < i ensures ws[..i][j].key != ws[i].key { assert ws[j].key != ws[i].key; }
      NotAmong(ns, ws[..i], ws[i].key);
    }
  }

  lemma EventTurn(ns: string, d: Driver, s: Store, ws: seq<Wish>, i: nat, kind: Kind, name: string)
    requires Distinct(ws) && Scoped(ns, ws) && i < |ws|
    ensures IsAbout(ws[i], kind, name) ==>
              && NoneAbout(ws[..i], kind, name)
              && (Refused(d, s, ws, kind, name) <==> Foreign(s, ws[i].key, d.uid))
  {
    OnlyOneMatches(ns, ws, i, kind, name);
    if IsAbout(ws[i], kind, name) { RefusedIffForeign(ns, d, s, ws, i); }
  }

  lemma {:induction false} NoneRefused(d: Driver, s: Store, ws: seq<Wish>, kind: Kind, name: string)
    requires NoneAbout(ws, kind, name)
    ensures !Refused(d, s, ws, kind, name)
  {
    if ws != [] { NoneRefused(d, s, ws[..|ws| - 1], kind, name); }
  }

  lemma {:induction false} RefusedIffForeign(ns: string, d: Driver, s: Store, ws: seq<Wish>, i: nat)
    requires Distinct(ws) && Scoped(ns, ws) && i < |ws|
    ensures Refused(d, s, ws, ws[i].key.kind, ws[i].key.name) <==> Foreign(s, ws[i].key, d.uid)
  {
    var n := |ws| - 1;
    if i < n {
      RefusedIffForeign(ns, d, s, ws[..n], i);
      assert ws[i].key != ws[n].key;
    } else {
      OnlyOneMatches(ns, ws, n, ws[n].key.kind, ws[n].key.name);
      NoneRefused(d, s, ws[..n], ws[n].key.kind, ws[n].key.name);
    }
  }

  /** The store after an event when no call to the API server fails. */
  function Answered(d: Driver, s: Store, ws: seq<Wish>, kind: Kind, name: string): Store
  {
    if Refused(d, s, ws, kind, name) then s else Handled(d, s, ws, kind, name)
  }

  /** What a reconcile aims at. */
  function Goal(ns: string, d: Driver, s: Store, ws: seq<Wish>): Store
  {
    Purged(ns, d, RedeployedAll(d, s, ws), ws)
  }

  /** Each handler has its object with all that it asks for, and whatever else was in it. */
  ghost predicate AllDeployed(d: Driver, s: Store, ws: seq<Wish>, t: Store)
  {
    forall i :: 0 <= i < |ws| ==> ws[i].key in t && Deploys(d, ws[i], s, t[ws[i].key])
  }

  lemma {:induction false} RedeployedAt(d: Driver, s: Store, ws: seq<Wish>, i: nat)
    requires Distinct(ws) && i < |ws|
    ensures var t := RedeployedAll(d, s, ws); ws[i].key in t && t[ws[i].key] == Desired(d, ws[i], Base(s, ws[i].key, d))
  {
    var n := |ws| - 1;
    if i < n {
      RedeployedAt(d, s, ws[..n], i);
      assert ws[..n][i].key != ws[n].key;
    } else {
      forall j | 0 <= j < n ensures ws[..n][j].key != ws[n].key { assert ws[j].key != ws[n].key; }
      NotWanted(d, s, ws[..n], ws[n].key);
    }
  }

  lemma GoalDeploys(ns: string, d: Driver, s: Store, ws: seq<Wish>)
    requires Distinct(ws)
    ensures AllDeployed(d, s, ws, Goal(ns, d, s, ws))
  {
    forall i | 0 <= i < |ws|
      ensures ws[i].key in Goal(ns, d, s, ws) && Deploys(d, ws[i], s, Goal(ns, d, s, ws)[ws[i].key])
    {
      RedeployedAt(d, s, ws, i);
      DesiredDeploys(d, ws[i], s);
      assert HasKey(ws, ws[i].key);
    }
  }

  /** Every handler has its object as wanted, and nothing is left over. */
  ghost predicate Converged(ns: string, d: Driver, s: Store, ws: seq<Wish>)
  {
    && AllAsWanted(d, s, ws)
    && NothingObsolete(ns, d, s, ws)
  }

  ghost predicate NothingObsolete(ns: string, d: Driver, s: Store, ws: seq<Wish>)
  {
    forall k :: !Obsolete(ns, d, s, ws, k)
  }

  function Handled(d: Driver, s: Store, ws: seq<Wish>, kind: Kind, name: string): Store
  {
    if ws == [] then s else
      var t := Handled(d, s, ws[..|ws| - 1], kind, name);
      var w := ws[|ws| - 1];
      if IsAbout(w, kind, name) then Redeployed(d, t, w) else t
  }

  ghost predicate AllAsWanted(d: Driver, s: Store, ws: seq<Wish>)
  {
    forall i :: 0 <= i < |ws| ==> AsWanted(d, s, ws[i])
  }

  /** The object of a handler is not touched before its turn. */
  lemma HandlerTurn(d: Driver, s: Store, ws: seq<Wish>, i: nat)
    requires Distinct(ws) && i < |ws|
    ensures var t := RedeployedAll(d, s, ws[..i]);
            && RedeployedAll(d, s, ws[..i + 1]) == Redeployed(d, t, ws[i])
            && (Foreign(t, ws[i].key, d.uid) <==> Foreign(s, ws[i].key, d.uid))
            && (AllAsWanted(d, s, ws) ==> AsWanted(d, t, ws[i]))
  {
    forall j | 0 <= j < i ensures ws[..i][j].key != ws[i].key {
      
    }
    NotWanted(d, s, ws[..i], ws[i].key);
    assert ws[..i + 1][..i] == ws[..i];
  }

  lemma {:induction false} NotWanted(d: Driver, s: Store, ws: seq<Wish>, k: Key)
    requires forall j :: 0 <= j < |ws| ==> ws[j].key != k
    ensures var t := RedeployedAll(d, s, ws); (k in t <==> k in s) && (k in t ==> t[k] == s[k])
  {
    if ws != [] { NotWanted(d, s, ws[..|ws| - 1], k); }
  }

  /** The names of the objects that the handlers ask for, in their order. */
  function KeysOf(ws: seq<Wish>): seq<Key>
  {
    if ws == [] then [] else KeysOf(ws[..|ws| - 1]) + [ws[|ws| - 1].key]
  }

  lemma {:induction false} KeysOfAt(ws: seq<Wish>)
    ensures |KeysOf(ws)| == |ws| && forall i :: 0 <= i < |ws| ==> KeysOf(ws)[i] == ws[i].key
  {
    if ws != [] { KeysOfAt(ws[..|ws| - 1]); }
  }

  function Cleaned(ns: string, d: Driver, s: Store, ws: seq<Wish>, k: Key): Store
  {
    if Obsolete(ns, d, s, ws, k) then s - {k} else s
  }

  function CleanedAll(ns: string, d: Driver, s: Store, ws: seq<Wish>, items: seq<Key>): Store
  {
    if items == [] then s else Cleaned(ns, d, CleanedAll(ns, d, s, ws, items[..|items| - 1]), ws, items[|items| - 1])
  }

  /** The store without the obsolete objects of some kinds. */
  function ByKinds(ns: string, d: Driver, s: Store, ws: seq<Wish>, kinds: seq<Kind>): Store
  {
    map k | k in s && !(k.kind in kinds && Obsolete(ns, d, s, ws, k)) :: s[k]
  }

  lemma {:induction false} CleanedAllAt(ns: string, d: Driver, s: Store, ws: seq<Wish>, items: seq<Key>, k: Key)
    ensures var t := CleanedAll(ns, d, s, ws, items);
            (k in t <==> k in s && !(k in items && Obsolete(ns, d, s, ws, k))) && (k in t ==> t[k] == s[k])
  {
    if items != [] {
      var n := |items| - 1;
      CleanedAllAt(ns, d, s, ws, items[..n], k);
      assert items == items[..n] + [items[n]];
    }
  }

  lemma ByNoKind(ns: string, d: Driver, s: Store, ws: seq<Wish>)
    ensures ByKinds(ns, d, s, ws, AllKinds()[..0]) == s
  {
  }

  lemma ByAllKinds(ns: string, d: Driver, s: Store, ws: seq<Wish>)
    ensures ByKinds(ns, d, s, ws, AllKinds()[..|AllKinds()|]) == Purged(ns, d, s, ws)
  {
  }

  lemma ByOneMoreKind(ns: string, d: Driver, s: Store, ws: seq<Wish>, kinds: seq<Kind>, i: nat, t: Store,
        items: seq<Key>)
    requires i < |kinds| && kinds == AllKinds() && t == ByKinds(ns, d, s, ws, kinds[..i])
    requires forall k :: k in items <==> k in t && k.kind == kinds[i] && k.ns == Scope(ns, kinds[i])
    ensures CleanedAll(ns, d, t, ws, items) == ByKinds(ns, d, s, ws, kinds[..i + 1])
    ensures forall k :: k in items ==> k.kind in AllKinds() && k.ns == Scope(ns, k.kind)
    ensures NothingObsolete(ns, d, s, ws) ==> t == s && forall k :: k in items ==> !Obsolete(ns, d, t, ws, k)
  {
    var u := CleanedAll(ns, d, t, ws, items);
    var v := ByKinds(ns, d, s, ws, kinds[..i + 1]);
    assert kinds[..i + 1] == kinds[..i] + [kinds[i]];
    forall k ensures (k in u <==> k in v) && (k in u ==> u[k] == v[k]) {
      CleanedAllAt(ns, d, t, ws, items, k);
    }
    assert u == v;
  }

  /** Within the scope of a deployment kind and name determine an object. */
  lemma WantedByKey(ns: string, d: Driver, ws: seq<Wish>, wanted: seq<Key>, k: Key)
    requires Scoped(ns, ws) && wanted == KeysOf(ws) && k.ns == Scope(ns, k.kind)
    ensures HasKey(ws, k) <==> exists i :: 0 <= i < |wanted| && wanted[i].kind == k.kind && wanted[i].name == k.name
  {
    KeysOfAt(ws);
    if i :| 0 <= i < |wanted| && wanted[i].kind == k.kind && wanted[i].name == k.name {
      assert ws[i].key == k;
    }
  }

  /** The object of this handler exists, is owned by the deployment and has all that it asks for. */
  predicate AsWanted(d: Driver, s: Store, w: Wish)
  {
    w.key in s && d.uid in s[w.key].owners && Carries(d, w, s[w.key])
  }

  /** More actions, all of them by the deployment with this UID. */
  ghost predicate Adds(before: seq<Action>, after: seq<Action>, uid: Uid)
  {
    before <= after && forall i :: |before| <= i < |after| ==> after[i].uid == uid
  }
}

