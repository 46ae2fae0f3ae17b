/**
 * What a reconcile achieves: convergence from any store, in any order of the handlers, without touching what
 * belongs to somebody else.
 */
module OperatorConvergence {
  import opened Operator

  /** The object of each handler is there as wanted: with all that is asked for and otherwise as it was, or new. */
  lemma GoalHas(ns: string, d: Driver, s: Store, ws: seq<Wish>, i: nat)
    requires Distinct(ws) && i < |ws|
    ensures var t := Goal(ns, d, s, ws);
            && ws[i].key in t && t[ws[i].key] == Desired(d, ws[i], Base(s, ws[i].key, d))
            && Deploys(d, ws[i], s, t[ws[i].key])
  {
    RedeployedAt(d, s, ws, i);
    DesiredDeploys(d, ws[i], s);
    assert HasKey(ws, ws[i].key);
  }

  /** Everything else is there as before, except for what is obsolete. */
  lemma GoalLeaves(ns: string, d: Driver, s: Store, ws: seq<Wish>, k: Key)
    requires !HasKey(ws, k)
    ensures var t := Goal(ns, d, s, ws);
            (k in t <==> k in s && !Obsolete(ns, d, s, ws, k)) && (k in t ==> t[k] == s[k])
  {
    NotWanted(d, s, ws, k);
  }

  /** The deployment owns this object, and it is one that a reconcile looks at. */
  predicate OwnedInScope(ns: string, d: Driver, s: Store, k: Key)
  {
    k in s && d.uid in s[k].owners && k.kind in AllKinds() && k.ns == Scope(ns, k.kind)
  }

  /**
   * From any store without a conflict a reconcile leads to one where the deployment owns, within its scope, exactly
   * the objects of its handlers, each of them as wanted. Nothing is left to do then, and no conflict has come up.
   */
  lemma ReconcileConverges(ns: string, d: Driver, s: Store, ws: seq<Wish>)
    requires Distinct(ws) && Scoped(ns, ws) && !Conflict(d, s, ws)
    requires forall i :: 0 <= i < |ws| ==> ws[i].key.kind in AllKinds()
    ensures var t := Goal(ns, d, s, ws);
            && Converged(ns, d, t, ws) && !Conflict(d, t, ws) && AllDeployed(d, s, ws, t)
            && forall k :: OwnedInScope(ns, d, t, k) <==> HasKey(ws, k)
  {
    var t := Goal(ns, d, s, ws);
    GoalDeploys(ns, d, s, ws);
    forall i | 0 <= i < |ws|
      ensures AsWanted(d, t, ws[i]) && !Foreign(t, ws[i].key, d.uid) && OwnedInScope(ns, d, t, ws[i].key)
    {
      GoalHas(ns, d, s, ws, i);
      assert !Foreign(s, ws[i].key, d.uid);
    }
    forall k ensures !Obsolete(ns, d, t, ws, k) && (OwnedInScope(ns, d, t, k) <==> HasKey(ws, k)) {
      if HasKey(ws, k) {
        var i :| 0 <= i < |ws| && ws[i].key == k;
        assert OwnedInScope(ns, d, t, ws[i].key);
      } else {
        GoalLeaves(ns, d, s, ws, k);
      }
    }
  }

  /** Nothing that somebody else owns, or that nobody owns, is different afterwards. */
  lemma ReconcileLeavesOthersAlone(ns: string, d: Driver, s: Store, ws: seq<Wish>, k: Key)
    requires Distinct(ws) && !Conflict(d, s, ws) && Foreign(s, k, d.uid)
    ensures k in Goal(ns, d, s, ws) && Goal(ns, d, s, ws)[k] == s[k]
  {
    forall i | 0 <= i < |ws| ensures ws[i].key != k { assert !Foreign(s, ws[i].key, d.uid); }
    GoalLeaves(ns, d, s, ws, k);
  }

  lemma Find(ws: seq<Wish>, w: Wish) returns (i: nat)
    requires w in ws
    ensures i < |ws| && ws[i] == w
  {
    i :| 0 <= i < |ws| && ws[i] == w;
  }

  lemma SameKeys(ws: seq<Wish>, vs: seq<Wish>, k: Key)
    requires forall w :: w in ws ==> w in vs
    requires HasKey(ws, k)
    ensures HasKey(vs, k)
  {
    var i :| 0 <= i < |ws| && ws[i].key == k;
    assert ws[i] in ws;
    var j := Find(vs, ws[i]);
  }

  lemma NoConflictEither(d: Driver, s: Store, ws: seq<Wish>, vs: seq<Wish>)
    requires !Conflict(d, s, ws) && forall w :: w in vs ==> w in ws
    ensures !Conflict(d, s, vs)
  {
    forall i | 0 <= i < |vs| ensures !Foreign(s, vs[i].key, d.uid) {
      assert vs[i] in vs;
      var j := Find(ws, vs[i]);
      assert !Foreign(s, ws[j].key, d.uid);
    }
  }

  /** The order in which the handlers are visited makes no difference. */
  lemma OrderDoesNotMatter(ns: string, d: Driver, s: Store, ws: seq<Wish>, vs: seq<Wish>)
    requires Distinct(ws) && Distinct(vs) && forall w :: w in ws <==> w in vs
    ensures Goal(ns, d, s, ws) == Goal(ns, d, s, vs)
  {
    var (t, u) := (Goal(ns, d, s, ws), Goal(ns, d, s, vs));
    forall k ensures (k in t <==> k in u) && (k in t ==> t[k] == u[k]) {
      if HasKey(ws, k) {
        var i :| 0 <= i < |ws| && ws[i].key == k;
        assert ws[i] in ws;
        var j := Find(vs, ws[i]);
        GoalHas(ns, d, s, ws, i);
        GoalHas(ns, d, s, vs, j);
      } else {
        if HasKey(vs, k) { SameKeys(vs, ws, k); }
        GoalLeaves(ns, d, s, ws, k);
        GoalLeaves(ns, d, s, vs, k);
      }
    }
    assert t == u;
  }

  /** So a second reconcile, in whatever order, finds nothing to write. */
  lemma SecondReconcileIsIdle(ns: string, d: Driver, s: Store, ws: seq<Wish>, vs: seq<Wish>)
    requires Distinct(ws) && Distinct(vs) && Scoped(ns, ws) && Scoped(ns, vs) && !Conflict(d, s, ws)
    requires forall i :: 0 <= i < |vs| ==> vs[i].key.kind in AllKinds()
    requires forall w :: w in ws <==> w in vs
    ensures Converged(ns, d, Goal(ns, d, s, ws), vs) && !Conflict(d, Goal(ns, d, s, ws), vs)
  {
    OrderDoesNotMatter(ns, d, s, ws, vs);
    NoConflictEither(d, s, ws, vs);
    ReconcileConverges(ns, d, s, vs);
  }

  /** What the operator makes for one entry of its table: an object of that kind with what its callback sets. */
  ghost predicate HasObjectFor(ns: string, d: Driver, t: Store, sub: Sub, sets: Sub -> Content, k: Key)
  {
    && k in t && k.kind == KindOf(sub) && (k.ns == ns || !IsNamespaced(k.kind)) && d.uid in t[k].owners
    && (forall f :: f in sets(sub).fields ==> f in t[k].content.fields && t[k].content.fields[f] == sets(sub).fields[f])
    && (forall e :: e in sets(sub).tolerations ==> e in t[k].content.tolerations)
    && (forall l :: l in d.labels ==> l in t[k].labels && t[k].labels[l] == d.labels[l])
  }

  /**
   * For the real table, in whatever order: without conflict every entry gets its own object with all that its callback
   * sets, those are exactly the objects that the deployment owns in its scope, and only the CSIDriver object is
   * replaced instead of being patched.
   */
  lemma ReconcileDeploysTable(ns: string, d: Driver, s: Store, subs: seq<Sub>, sets: Sub -> Content)
    requires forall i, j :: 0 <= i < j < |subs| ==> subs[i] != subs[j]
    requires !Conflict(d, s, Wishes(ns, d, Table(subs, sets)))
    ensures var ws := Wishes(ns, d, Table(subs, sets));
            var t := Goal(ns, d, s, ws);
            && Distinct(ws) && |ws| == |subs|
            && (forall i :: 0 <= i < |subs| ==> HasObjectFor(ns, d, t, subs[i], sets, ws[i].key))
            && (forall i :: 0 <= i < |subs| ==> (ws[i].immutable <==> ws[i].key.kind == CSIDriver))
            && forall k :: OwnedInScope(ns, d, t, k) <==> HasKey(ws, k)
  {
    var ws := Wishes(ns, d, Table(subs, sets));
    TableIsDistinct(ns, d, subs, sets);
    ReconcileConverges(ns, d, s, ws);
    var t := Goal(ns, d, s, ws);
    forall i | 0 <= i < |subs|
      ensures HasObjectFor(ns, d, t, subs[i], sets, ws[i].key) && (ws[i].immutable <==> ws[i].key.kind == CSIDriver)
    {
      WishOfSub(ns, d, subs, sets, i);
      assert AsWanted(d, t, ws[i]);
      WantedIsThere(ns, d, t, ws[i], subs[i], sets);
    }
  }

  lemma WishOfSub(ns: string, d: Driver, subs: seq<Sub>, sets: Sub -> Content, i: nat)
    requires i < |subs|
    ensures var w := Wishes(ns, d, Table(subs, sets))[i];
            && w.key.kind == KindOf(subs[i]) && w.key.ns == Scope(ns, w.key.kind)
            && w.fields == sets(subs[i]).fields && w.tolerations == sets(subs[i]).tolerations
            && (w.immutable <==> w.key.kind == CSIDriver)
  {
  }

  lemma WantedIsThere(ns: string, d: Driver, t: Store, w: Wish, sub: Sub, sets: Sub -> Content)
    requires AsWanted(d, t, w) && w.key.kind == KindOf(sub) && w.key.ns == Scope(ns, w.key.kind)
    requires w.fields == sets(sub).fields && w.tolerations == sets(sub).tolerations
    ensures HasObjectFor(ns, d, t, sub, sets, w.key)
  {
  }

  lemma {:induction false} NotHandled(ns: string, d: Driver, s: Store, ws: seq<Wish>, k: Key)
    requires Scoped(ns, ws) && k.ns == Scope(ns, k.kind) && forall i :: 0 <= i < |ws| ==> ws[i].key != k
    ensures Handled(d, s, ws, k.kind, k.name) == s
  {
    if ws != [] {
      var n := |ws| - 1;
      NotHandled(ns, d, s, ws[..n], k);
      assert ws[n].key != k && ws[n].key.ns == Scope(ns, ws[n].key.kind);
    }
  }

  /** An event about the object of a handler makes this handler act, and no other. */
  lemma {:induction false} HandledIs(ns: string, d: Driver, s: Store, ws: seq<Wish>, i: nat)
    requires Distinct(ws) && Scoped(ns, ws) && i < |ws|
    ensures Handled(d, s, ws, ws[i].key.kind, ws[i].key.name) == Redeployed(d, s, ws[i])
  {
    var n := |ws| - 1;
    if i < n {
      HandledIs(ns, d, s, ws[..n], i);
      assert ws[i].key != ws[n].key;
    } else {
      forall j | 0 <= j < n ensures ws[..n][j].key != ws[n].key { assert ws[j].key != ws[n].key; }
      NotHandled(ns, d, s, ws[..n], ws[n].key);
    }
  }

  /**
   * Whatever happened to one object of a deployment that had converged, handling the event makes it converged again
   * if and only if the object was not taken away: one that exists without this owner is refused and stays as it is.
   */
  lemma EventRepairs(ns: string, d: Driver, s: Store, ws: seq<Wish>, i: nat, t: Store)
    requires Distinct(ws) && Scoped(ns, ws) && Converged(ns, d, s, ws) && i < |ws|
    requires t - {ws[i].key} == s - {ws[i].key}
    ensures var u := Answered(d, t, ws, ws[i].key.kind, ws[i].key.name);
            Converged(ns, d, u, ws) <==> !Foreign(t, ws[i].key, d.uid)
    ensures Refused(d, t, ws, ws[i].key.kind, ws[i].key.name) <==> Foreign(t, ws[i].key, d.uid)
  {
    RefusedIffForeign(ns, d, t, ws, i);
    HandledIs(ns, d, t, ws, i);
    if !Foreign(t, ws[i].key, d.uid) {
      RedeployRepairs(ns, d, s, ws, i, t);
    } else {
      assert !AsWanted(d, t, ws[i]);
    }
  }

  lemma RedeployRepairs(ns: string, d: Driver, s: Store, ws: seq<Wish>, i: nat, t: Store)
    requires Distinct(ws) && Scoped(ns, ws) && Converged(ns, d, s, ws) && i < |ws|
    requires t - {ws[i].key} == s - {ws[i].key} && !Foreign(t, ws[i].key, d.uid)
    ensures Converged(ns, d, Redeployed(d, t, ws[i]), ws)
  {
    var k := ws[i].key;
    var u := Redeployed(d, t, ws[i]);
    DesiredIsExact(d, ws[i], Base(t, k, d));
    forall j | 0 <= j < |ws| ensures AsWanted(d, u, ws[j]) {
      if j != i {
        DifferentKeys(ws, i, j);
        assert AsWanted(d, s, ws[j]);
        assert ws[j].key in s - {k} && (s - {k})[ws[j].key] == (t - {k})[ws[j].key];
      }
    }
    forall j ensures !Obsolete(ns, d, u, ws, j) {
      if j == k {
        assert HasKey(ws, k);
      } else {
        assert !Obsolete(ns, d, s, ws, j);
        assert j in s <==> j in s - {k};
        assert j in t <==> j in t - {k};
        if j in s { assert (s - {k})[j] == (t - {k})[j]; }
      }
    }
  }

  lemma DifferentKeys(ws: seq<Wish>, i: nat, j: nat)
    requires Distinct(ws) && i < |ws| && j < |ws| && i != j
    ensures ws[i].key != ws[j].key
  {
  }

  /**
   * Two deployments whose names differ only in dots and hyphens want the same objects. The second one is then
   * refused, unless it owns them already.
   */
  lemma CollidingDeploymentIsRefused(ns: string, s: Store, a: Driver, b: Driver, hs: seq<Handler>, i: nat)
    requires SameUpToDots(a.name, b.name) && i < |hs| && !hs[i].kind.CSIDriver?
    requires Distinct(Wishes(ns, a, hs)) && b.uid !in Base(s, KeyOf(ns, a, hs[i]), a).owners
    ensures KeyOf(ns, a, hs[i]) == KeyOf(ns, b, hs[i])
    ensures Conflict(b, Goal(ns, a, s, Wishes(ns, a, hs)), Wishes(ns, b, hs))
  {
    SharedExactly(ns, a, ns, b, hs[i]);
    GoalHas(ns, a, s, Wishes(ns, a, hs), i);
    assert Foreign(Goal(ns, a, s, Wishes(ns, a, hs)), Wishes(ns, b, hs)[i].key, b.uid);
  }
}

