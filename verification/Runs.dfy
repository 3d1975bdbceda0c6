/** Any number of hosts reconciling one store under the lock, one etcd write per step, with
    failing writes, crashes and lock expiry: what holds after every step of every run. */
module Runs {
  import opened Domain
  import opened Text
  import opened Paths
  import opened Graph
  import opened Validation
  import opened ReconcilePlan
  import opened PassTheorems
  import opened PassLimits
  import opened Stores

  /** A host is outside, or inside its lock transaction: it has yet to list and plan, or it has its plan
      and still has this much of it to write. `failed` holds the records whose removal was tried and
      reported an error. */
  datatype Phase =
    | Idle
    | Entered
    | Writing(removes: set<RecordIntent>, adds: set<RecordIntent>, failed: set<RecordIntent>)

  datatype System = System(store: Records, lock: Option<string>, phases: map<string, Phase>)

  datatype Event =
    | Acquire(host: string)
    | PlanPass(host: string, desired: seq<RecordIntent>, live: Liveness)
    | RemoveDone(host: string, gone: RecordIntent)
    | RemoveFailed(host: string, gone: RecordIntent, deleted: set<string>)
    | RegisterDone(host: string, added: RecordIntent, leaf: string)
    | RegisterFailed(host: string, added: RecordIntent)
    | Release(host: string)
    | Crash(host: string)
    | Expire

  function PhaseOf(s: System, host: string): Phase {
    if host in s.phases then s.phases[host] else Idle
  }

  function SetPhase(s: System, host: string, phase: Phase): System {
    s.(phases := s.phases[host := phase])
  }

  /** One step. The lock may expire at any time; a host that is inside does not look at it again, and
      when it leaves it deletes the lock, whoever has it by then. */
  ghost predicate Step(prefix: string, s: System, e: Event, t: System) {
    match e
    case Acquire(h) =>
      s.lock == None && PhaseOf(s, h) == Idle && t == SetPhase(s.(lock := Some(h)), h, Entered)
    case PlanPass(h, desired, live) =>
      && PhaseOf(s, h) == Entered
      && CleanList(desired) && (forall d :: d in desired ==> IsValidHostname(d.record.name))
      && var p := Reconcile(desired, s.store.Values, h, live);
         t == SetPhase(s, h, Writing(p.removes, p.adds, {}))
    case RemoveDone(h, r) =>
      && PhaseOf(s, h).Writing? && r in PhaseOf(s, h).removes
      && t == SetPhase(s.(store := s.store - Targets(prefix, s.store, r)), h,
                       PhaseOf(s, h).(removes := PhaseOf(s, h).removes - {r}))
    case RemoveFailed(h, r, deleted) =>
      && PhaseOf(s, h).Writing? && r in PhaseOf(s, h).removes && deleted <= Targets(prefix, s.store, r)
      && t == SetPhase(s.(store := s.store - deleted), h,
                       PhaseOf(s, h).(removes := PhaseOf(s, h).removes - {r}, failed := PhaseOf(s, h).failed + {r}))
    case RegisterDone(h, d, leaf) =>
      && PhaseOf(s, h).Writing? && PhaseOf(s, h).removes == {} && d in PhaseOf(s, h).adds && IsLeaf(leaf)
      && t == SetPhase(s.(store := s.store[LeafKey(prefix, d.record.name, leaf) := d]), h,
                       PhaseOf(s, h).(adds := PhaseOf(s, h).adds - {d}))
    case RegisterFailed(h, d) =>
      && PhaseOf(s, h).Writing? && PhaseOf(s, h).removes == {} && d in PhaseOf(s, h).adds
      && t == SetPhase(s, h, PhaseOf(s, h).(adds := PhaseOf(s, h).adds - {d}))
    case Release(h) =>
      && PhaseOf(s, h) != Idle && (PhaseOf(s, h).Writing? ==> PhaseOf(s, h).removes == {} && PhaseOf(s, h).adds == {})
      && t == SetPhase(s.(lock := None), h, Idle)
    case Crash(h) =>
      t == SetPhase(s, h, Idle)
    case Expire =>
      s.lock.Some? && t == s.(lock := None)
  }

  /** No record whose removal failed is still stored (other than under the key written) and
      conflicts with the record being registered. */
  predicate Harmless(prefix: string, s: System, e: Event) {
    e.RegisterDone? && PhaseOf(s, e.host).Writing? ==>
      forall k ::
        k in s.store && k != LeafKey(prefix, e.added.record.name, e.leaf) && s.store[k] in PhaseOf(s, e.host).failed ==>
        !Conflict(e.added.record, s.store[k].record)
  }

  /** The lock does not expire while its holder is inside. */
  predicate HeldWhileInside(s: System, e: Event) {
    e.Expire? && s.lock.Some? ==> PhaseOf(s, s.lock.value) == Idle
  }

  /** What is still to be added fits among what will be left. */
  ghost predicate PhaseFits(store: Records, phase: Phase) {
    phase.Writing? ==>
      && (forall d, e :: d in phase.adds && e in phase.adds && d != e ==> !Conflict(d.record, e.record))
      && (forall d :: d in phase.adds ==> d.record.Supported() && IsValidHostname(d.record.name))
      && (forall d, k :: d in phase.adds && k in store && Conflict(d.record, store[k].record) ==>
            store[k] in phase.removes + phase.failed)
  }

  ghost predicate Invariant(prefix: string, s: System) {
    && NoConflicts(s.store) && Supports(s.store) && Homed(prefix, s.store)
    && (forall h :: PhaseOf(s, h) != Idle ==> s.lock == Some(h))
    && (forall h :: PhaseFits(s.store, PhaseOf(s, h)))
  }

  lemma PlanFits(s: System, h: string, desired: seq<RecordIntent>, live: Liveness)
    requires CleanList(desired) && forall d :: d in desired ==> IsValidHostname(d.record.name)
    ensures var p := Reconcile(desired, s.store.Values, h, live); PhaseFits(s.store, Writing(p.removes, p.adds, {}))
  {
    var actual := s.store.Values;
    var p := Reconcile(desired, actual, h, live);
    PassSound(desired, actual, h, live);
    var stale := StaleIn(desired, actual, h, live);
    forall d, e | d in p.adds && e in p.adds && d != e
      ensures !Conflict(d.record, e.record)
    {
      if Conflict(d.record, e.record) {
        SameEntry(desired, d, e);
      }
    }
    forall d, k | d in p.adds && k in s.store && Conflict(d.record, s.store[k].record)
      ensures s.store[k] in p.removes
    {
      assert s.store[k] in actual;
      assert Won(d, actual, actual - stale, p.removes);
      assert s.store[k] !in stale ==> s.store[k] in Rivals(d, actual - stale);
    }
    assert forall d :: d in p.adds ==> d in Elems(desired);
  }

  /** Fewer stored records leave fewer obstacles; a removal that succeeded leaves none of its own. */
  lemma RemovalFits(prefix: string, store: Records, phase: Phase, r: RecordIntent, deleted: set<string>)
    requires Homed(prefix, store) && PhaseFits(store, phase) && phase.Writing? && deleted <= Targets(prefix, store, r)
    ensures deleted == Targets(prefix, store, r) ==> PhaseFits(store - deleted, phase.(removes := phase.removes - {r}))
    ensures PhaseFits(store - deleted, phase.(removes := phase.removes - {r}, failed := phase.failed + {r}))
  {
    forall k | k in store && store[k] == r
      ensures k in Targets(prefix, store, r)
    {
      RemovalHitsItself(prefix, store, r, k);
    }
  }

  lemma HarmlessKeeps(prefix: string, s: System, e: Event, t: System)
    requires Invariant(prefix, s) && e.RegisterDone? && Step(prefix, s, e, t) && Harmless(prefix, s, e)
    ensures NoConflicts(t.store)
  {
    var key := LeafKey(prefix, e.added.record.name, e.leaf);
    assert PhaseFits(s.store, PhaseOf(s, e.host));
    PutKeeps(s.store, key, e.added);
  }

  lemma PutKeeps(store: Records, key: string, d: RecordIntent)
    requires NoConflicts(store) && forall k :: k in store && k != key ==> !Conflict(d.record, store[k].record)
    ensures NoConflicts(store[key := d])
  {
    var after := store[key := d];
    forall k, l | k in after && l in after && k != l
      ensures !Conflict(after[k].record, after[l].record)
    {
      assert k != key ==> Conflict(d.record, store[k].record) == Conflict(store[k].record, d.record);
      assert l != key ==> Conflict(d.record, store[l].record) == Conflict(store[l].record, d.record);
    }
  }

  lemma HarmNeeded(prefix: string, s: System, e: Event, t: System)
    requires e.RegisterDone? && Step(prefix, s, e, t) && NoConflicts(t.store)
    ensures Harmless(prefix, s, e)
  {
    var key := LeafKey(prefix, e.added.record.name, e.leaf);
    forall k | k in s.store && k != key
      ensures !Conflict(e.added.record, s.store[k].record)
    {
      assert k in t.store && key in t.store && t.store[k] == s.store[k];
    }
  }

  /** Registering keeps the store free of conflicts exactly when no failed removal left one. */
  lemma RegisterExact(prefix: string, s: System, e: Event, t: System)
    requires Invariant(prefix, s) && e.RegisterDone? && Step(prefix, s, e, t)
    ensures NoConflicts(t.store) <==> Harmless(prefix, s, e)
  {
    if Harmless(prefix, s, e) {
      HarmlessKeeps(prefix, s, e, t);
    }
    if NoConflicts(t.store) {
      HarmNeeded(prefix, s, e, t);
    }
  }

  lemma RegisterFits(prefix: string, s: System, e: Event, t: System)
    requires Invariant(prefix, s) && e.RegisterDone? && Step(prefix, s, e, t)
    ensures PhaseFits(t.store, PhaseOf(t, e.host)) && Homed(prefix, t.store) && Supports(t.store)
  {
    var phase := PhaseOf(s, e.host);
    assert PhaseFits(s.store, phase);
    assert '/' !in e.leaf;
    RegisteredIsHomed(prefix, e.added, e.leaf);
    forall d, k | d in phase.adds - {e.added} && k in t.store && Conflict(d.record, t.store[k].record)
      ensures t.store[k] in phase.removes + phase.failed
    {
      assert t.store[k] != e.added;
    }
  }

  /** A step of the lock holder: everyone else is idle, before and after. */
  lemma HolderStep(prefix: string, s: System, h: string, t: System)
    requires Invariant(prefix, s) && s.lock == Some(h) && t.phases == s.phases[h := PhaseOf(t, h)]
    requires t.lock == s.lock || PhaseOf(t, h) == Idle
    requires NoConflicts(t.store) && Supports(t.store) && Homed(prefix, t.store) && PhaseFits(t.store, PhaseOf(t, h))
    ensures Invariant(prefix, t)
  {
    forall x | x != h
      ensures PhaseOf(t, x) == Idle
    {
      assert PhaseOf(s, x) == Idle;
    }
  }

  /** A step that leaves the store alone and makes nobody else write. */
  lemma QuietStep(prefix: string, s: System, h: string, t: System)
    requires Invariant(prefix, s) && t.store == s.store && t.phases == s.phases[h := Idle]
    requires t.lock == s.lock || forall x :: x != h ==> PhaseOf(s, x) == Idle
    ensures Invariant(prefix, t)
  {
    forall x
      ensures PhaseOf(t, x) == if x == h then Idle else PhaseOf(s, x)
    {
    }
  }

  lemma RemovalKeepsStore(prefix: string, store: Records, deleted: set<string>)
    requires NoConflicts(store) && Supports(store) && Homed(prefix, store)
    ensures NoConflicts(store - deleted) && Supports(store - deleted) && Homed(prefix, store - deleted)
  {
  }

  /** No step breaks the invariant, save a registration in the way of a failed removal and an expiry
      under a host that is inside. */
  lemma StepKeepsInvariant(prefix: string, s: System, e: Event, t: System)
    requires Invariant(prefix, s) && Step(prefix, s, e, t) && Harmless(prefix, s, e) && HeldWhileInside(s, e)
    ensures Invariant(prefix, t)
  {
    match e
    case Acquire(h) =>
      EnterKeeps(prefix, s, h, t);
    case PlanPass(h, desired, live) =>
      PlanFits(s, h, desired, live);
      HolderStep(prefix, s, h, t);
    case RemoveDone(h, r) =>
      assert PhaseFits(s.store, PhaseOf(s, h));
      RemovalFits(prefix, s.store, PhaseOf(s, h), r, Targets(prefix, s.store, r));
      RemovalKeepsStore(prefix, s.store, Targets(prefix, s.store, r));
      HolderStep(prefix, s, h, t);
    case RemoveFailed(h, r, deleted) =>
      assert PhaseFits(s.store, PhaseOf(s, h));
      RemovalFits(prefix, s.store, PhaseOf(s, h), r, deleted);
      RemovalKeepsStore(prefix, s.store, deleted);
      HolderStep(prefix, s, h, t);
    case RegisterDone(h, d, leaf) =>
      RegisterExact(prefix, s, e, t);
      RegisterFits(prefix, s, e, t);
      HolderStep(prefix, s, h, t);
    case RegisterFailed(h, d) =>
      assert PhaseFits(s.store, PhaseOf(s, h));
      HolderStep(prefix, s, h, t);
    case Release(h) =>
      HolderStep(prefix, s, h, t);
    case Crash(h) =>
      QuietStep(prefix, s, h, t);
    case Expire =>
      LapseKeeps(prefix, s, t);
  }

  lemma EnterKeeps(prefix: string, s: System, h: string, t: System)
    requires Invariant(prefix, s) && Step(prefix, s, Acquire(h), t)
    ensures Invariant(prefix, t)
  {
    forall x
      ensures PhaseOf(t, x) == if x == h then Entered else Idle
    {
      assert PhaseOf(s, x) == Idle;
    }
  }

  lemma LapseKeeps(prefix: string, s: System, t: System)
    requires Invariant(prefix, s) && Step(prefix, s, Expire, t) && HeldWhileInside(s, Expire)
    ensures Invariant(prefix, t)
  {
    forall x
      ensures PhaseOf(t, x) == PhaseOf(s, x) == Idle
    {
    }
  }

  /** A run: each state follows from the one before by its event. */
  ghost predicate IsRun(prefix: string, states: seq<System>, events: seq<Event>) {
    && |states| == |events| + 1
    && forall i :: 0 <= i < |events| ==> Step(prefix, states[i], events[i], states[i + 1])
  }

  /** Store safety at every crash point: in every run of any hosts from a conflict-free store, the
      store is conflict-free in every state, as long as no registration meets a record whose
      removal failed earlier in its pass and the lock never expires under a host that is inside. */
  lemma {:induction false} StoreSafeThroughout(prefix: string, states: seq<System>, events: seq<Event>, n: nat)
    requires IsRun(prefix, states, events) && n <= |events|
    requires Invariant(prefix, states[0])
    requires forall i :: 0 <= i < n ==> Harmless(prefix, states[i], events[i]) && HeldWhileInside(states[i], events[i])
    ensures Invariant(prefix, states[n])
  {
    if n > 0 {
      StoreSafeThroughout(prefix, states, events, n - 1);
      StepKeepsInvariant(prefix, states[n - 1], events[n - 1], states[n]);
    }
  }

  /** A step within the rules: no registration in the way of a failed removal, and no expiry. */
  ghost predicate IsTame(prefix: string, s: System, e: Event) {
    Harmless(prefix, s, e) && !e.Expire?
  }

  ghost predicate Leads(prefix: string, states: seq<System>, events: seq<Event>, s: System, t: System) {
    && IsRun(prefix, states, events) && states[0] == s && states[|events|] == t
    && forall i :: 0 <= i < |events| ==> IsTame(prefix, states[i], events[i])
  }

  /** t can be reached from s by tame steps. */
  ghost predicate Reaches(prefix: string, s: System, t: System) {
    exists states, events :: Leads(prefix, states, events, s, t)
  }

  lemma ReachSelf(prefix: string, s: System)
    ensures Reaches(prefix, s, s)
  {
    assert Leads(prefix, [s], [], s, s);
  }

  lemma ReachStep(prefix: string, s: System, t: System, e: Event, u: System)
    requires Reaches(prefix, s, t) && Step(prefix, t, e, u) && IsTame(prefix, t, e)
    ensures Reaches(prefix, s, u)
  {
    var p: seq<System>, f: seq<Event> :| Leads(prefix, p, f, s, t);
    var states, events := p + [u], f + [e];
    forall i | 0 <= i < |events|
      ensures Step(prefix, states[i], events[i], states[i + 1]) && IsTame(prefix, states[i], events[i])
    {
      if i < |f| {
        assert states[i] == p[i] && states[i + 1] == p[i + 1] && events[i] == f[i];
      }
    }
    assert Leads(prefix, states, events, s, u);
  }

  /** Tame steps keep the invariant. */
  lemma ReachKeeps(prefix: string, s: System, t: System)
    requires Invariant(prefix, s) && Reaches(prefix, s, t)
    ensures Invariant(prefix, t)
  {
    var states: seq<System>, events: seq<Event> :| Leads(prefix, states, events, s, t);
    StoreSafeThroughout(prefix, states, events, |events|);
  }
}
