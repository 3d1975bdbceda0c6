/** Alias cycles over whole runs: when every pass adds at most one alias and no removal of an alias
    fails, the store has no CNAME cycle in any state of any run. */
module RunsAcyclic {
  import opened Domain
  import opened Paths
  import opened Graph
  import opened Validation
  import opened ReconcilePlan
  import opened PassTheorems
  import opened PassLimits
  import opened Stores
  import opened Runs

  ghost predicate OneAliasPerPass(s: System, e: Event) {
    && (e.PlanPass? ==> AtMostOneAlias(Reconcile(e.desired, s.store.Values, e.host, e.live).adds))
    && (e.RemoveFailed? ==> e.gone.record.kind != CNAME)
  }

  /** The alias still to be added closes no cycle with what will be left. */
  ghost predicate PhaseAcyclic(store: Records, phase: Phase) {
    phase.Writing? ==>
      && AtMostOneAlias(phase.adds)
      && forall d :: d in phase.adds && d.record.kind == CNAME ==>
           !HasCycle(LinksOf(store.Values - phase.removes) + {CnameLink(d.record)})
  }

  ghost predicate Acyclic(s: System) {
    !HasCycle(LinksOf(s.store.Values)) && forall h :: PhaseAcyclic(s.store, PhaseOf(s, h))
  }

  lemma FewerLinks(small: Links, big: Links)
    requires small <= big && !HasCycle(big)
    ensures !HasCycle(small)
  {
    if HasCycle(small) {
      CycleMonotone(small, big);
    }
  }

  lemma LinksFrom(small: set<RecordIntent>, big: set<RecordIntent>, extra: Links)
    requires forall x :: x in small && x.record.kind == CNAME ==> x in big || CnameLink(x.record) in extra
    ensures LinksOf(small) <= LinksOf(big) + extra
  {
  }

  lemma RemovalAcyclic(prefix: string, store: Records, phase: Phase, r: RecordIntent, deleted: set<string>)
    requires !HasCycle(LinksOf(store.Values)) && PhaseAcyclic(store, phase) && phase.Writing?
    requires r.record.kind == CNAME ==> forall k :: k in store && store[k] == r ==> k in deleted
    ensures !HasCycle(LinksOf((store - deleted).Values))
    ensures forall f :: PhaseAcyclic(store - deleted, Writing(phase.removes - {r}, phase.adds, f))
  {
    var after := store - deleted;
    LinksFrom(after.Values, store.Values, {});
    FewerLinks(LinksOf(after.Values), LinksOf(store.Values));
    forall d | d in phase.adds && d.record.kind == CNAME
      ensures !HasCycle(LinksOf(after.Values - (phase.removes - {r})) + {CnameLink(d.record)})
    {
      LinksFrom(after.Values - (phase.removes - {r}), store.Values - phase.removes, {});
      FewerLinks(LinksOf(after.Values - (phase.removes - {r})) + {CnameLink(d.record)},
                 LinksOf(store.Values - phase.removes) + {CnameLink(d.record)});
    }
  }

  lemma RegisterAcyclic(store: Records, phase: Phase, d: RecordIntent, key: string)
    requires !HasCycle(LinksOf(store.Values)) && PhaseAcyclic(store, phase) && phase.Writing? && phase.removes == {}
    requires d in phase.adds
    ensures !HasCycle(LinksOf(store[key := d].Values))
    ensures PhaseAcyclic(store[key := d], phase.(adds := phase.adds - {d}))
  {
    var after := store[key := d];
    assert store.Values - {} == store.Values && after.Values - {} == after.Values;
    if d.record.kind == CNAME {
      LinksFrom(after.Values, store.Values, {CnameLink(d.record)});
      FewerLinks(LinksOf(after.Values), LinksOf(store.Values) + {CnameLink(d.record)});
    } else {
      LinksFrom(after.Values, store.Values, {});
      FewerLinks(LinksOf(after.Values), LinksOf(store.Values));
      forall e | e in phase.adds - {d} && e.record.kind == CNAME
        ensures !HasCycle(LinksOf(after.Values) + {CnameLink(e.record)})
      {
        FewerLinks(LinksOf(after.Values) + {CnameLink(e.record)}, LinksOf(store.Values) + {CnameLink(e.record)});
      }
    }
  }

  lemma PlanAcyclic(s: System, h: string, desired: seq<RecordIntent>, live: Liveness)
    requires !HasCycle(LinksOf(s.store.Values)) && AtMostOneAlias(Reconcile(desired, s.store.Values, h, live).adds)
    ensures var p := Reconcile(desired, s.store.Values, h, live); PhaseAcyclic(s.store, Writing(p.removes, p.adds, {}))
  {
    var p := Reconcile(desired, s.store.Values, h, live);
    forall d | d in p.adds && d.record.kind == CNAME
      ensures !HasCycle(LinksOf(s.store.Values - p.removes) + {CnameLink(d.record)})
    {
      SingleAdditionSafe(desired, s.store.Values, h, live, d);
    }
  }

  /** Only the holder's phase can change while the store does. */
  lemma HolderAcyclic(prefix: string, s: System, h: string, t: System)
    requires Invariant(prefix, s) && s.lock == Some(h) && t.phases == s.phases[h := PhaseOf(t, h)]
    requires !HasCycle(LinksOf(t.store.Values)) && PhaseAcyclic(t.store, PhaseOf(t, h))
    ensures Acyclic(t)
  {
    forall x | x != h
      ensures PhaseOf(t, x) == Idle
    {
      assert PhaseOf(s, x) == Idle;
    }
  }

  lemma QuietAcyclic(s: System, t: System)
    requires Acyclic(s) && t.store == s.store
    requires forall x :: !PhaseOf(t, x).Writing? || PhaseOf(t, x) == PhaseOf(s, x)
    ensures Acyclic(t)
  {
    forall x
      ensures PhaseAcyclic(t.store, PhaseOf(t, x))
    {
      assert PhaseAcyclic(s.store, PhaseOf(s, x));
    }
  }

  lemma StepKeepsAcyclic(prefix: string, s: System, e: Event, t: System)
    requires Invariant(prefix, s) && Acyclic(s) && Step(prefix, s, e, t) && OneAliasPerPass(s, e)
    ensures Acyclic(t)
  {
    match e
    case Acquire(h) =>
      QuietAcyclic(s, t);
    case PlanPass(h, desired, live) =>
      PlanAcyclic(s, h, desired, live);
      HolderAcyclic(prefix, s, h, t);
    case RemoveDone(h, r) =>
      assert PhaseAcyclic(s.store, PhaseOf(s, h));
      RemovalAcyclic(prefix, s.store, PhaseOf(s, h), r, Targets(prefix, s.store, r));
      HolderAcyclic(prefix, s, h, t);
    case RemoveFailed(h, r, deleted) =>
      assert PhaseAcyclic(s.store, PhaseOf(s, h));
      RemovalAcyclic(prefix, s.store, PhaseOf(s, h), r, deleted);
      HolderAcyclic(prefix, s, h, t);
    case RegisterDone(h, d, leaf) =>
      assert PhaseAcyclic(s.store, PhaseOf(s, h));
      RegisterAcyclic(s.store, PhaseOf(s, h), d, LeafKey(prefix, d.record.name, leaf));
      HolderAcyclic(prefix, s, h, t);
    case RegisterFailed(h, d) =>
      assert PhaseAcyclic(s.store, PhaseOf(s, h));
      HolderAcyclic(prefix, s, h, t);
    case Release(h) =>
      QuietAcyclic(s, t);
    case Crash(h) =>
      QuietAcyclic(s, t);
    case Expire =>
      QuietAcyclic(s, t);
  }

  /** No state of the run has a CNAME cycle. */
  lemma {:induction false} AcyclicThroughout(prefix: string, states: seq<System>, events: seq<Event>, n: nat)
    requires IsRun(prefix, states, events) && n <= |events|
    requires Invariant(prefix, states[0]) && Acyclic(states[0])
    requires forall i :: 0 <= i < n ==> Harmless(prefix, states[i], events[i]) && HeldWhileInside(states[i], events[i])
    requires forall i :: 0 <= i < n ==> OneAliasPerPass(states[i], events[i])
    ensures Acyclic(states[n])
  {
    if n > 0 {
      AcyclicThroughout(prefix, states, events, n - 1);
      StoreSafeThroughout(prefix, states, events, n - 1);
      StepKeepsAcyclic(prefix, states[n - 1], events[n - 1], states[n]);
    }
  }
}
