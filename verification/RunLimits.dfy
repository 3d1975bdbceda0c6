/** What happens when a condition of the safety theorem fails: a removal that fails, and a lock that
    expires under a host that is inside. */
module RunLimits {
  import opened Domain
  import opened Text
  import opened Paths
  import opened Graph
  import opened Validation
  import opened ReconcilePlan
  import opened PassTheorems
  import opened PassLimits
  import opened Stores
  import opened Runs

  lemma StaleSwapPlan(c: RecordIntent, d: RecordIntent, host: string)
    requires c.hostname == host && c.record.kind == CNAME && d.record.IsAddress()
    ensures Reconcile([d], {c}, host, None) == Plan({d}, {c})
  {
    var wanted := Keys(Elems([d]));
    assert Elems([d]) == {d};
    assert wanted == {d.Key()};
    assert c.Key() !in wanted;
    var actual := {c};
    var stale := StaleOf(actual, wanted, host, None);
    assert stale == actual;
    var lookup := actual - stale;
    assert lookup == {};
    assert Rivals(d, lookup) == {};
    assert [d][..0] == [];
    assert ConsiderAll([], actual, lookup, Plan({}, stale)) == Plan({}, stale);
    assert Consider(d, actual, lookup, Plan({}, stale)) == Plan({d}, stale);
    assert ConsiderAll([d], actual, lookup, Plan({}, stale)) == Plan({d}, stale);
  }

  lemma SingletonValues(k: string, c: RecordIntent)
    ensures map[k := c].Values == {c}
  {
    assert k in map[k := c];
  }

  lemma DistinctLeaves(prefix: string, name: string)
    ensures LeafKey(prefix, name, "x1") != LeafKey(prefix, name, "x2")
  {
    var base := KeyBaseForFqdn(prefix, name) + "/";
    assert (base + "x1")[|base| + 1] == '1' && (base + "x2")[|base| + 1] == '2';
  }

  lemma TwoKeysConflict(c: RecordIntent, d: RecordIntent, k: string, l: string)
    requires k != l && Conflict(c.record, d.record)
    ensures !NoConflicts(map[k := c][l := d])
  {
    var store := map[k := c][l := d];
    assert k in store && l in store && store[k] == c && store[l] == d;
  }

  /** The condition on removals is needed: whenever the removal of a host's stale alias fails, the same
      pass still registers the address that takes its name, and the name then has both. */
  lemma FailedRemovalBreaks(prefix: string, c: RecordIntent, d: RecordIntent)
    requires IsValidHostname(c.record.name) && c.record.name == d.record.name
    requires c.record.kind == CNAME && d.record.IsAddress()
    ensures exists s: System, t: System, e: Event, u: System ::
              && Invariant(prefix, s) && Reaches(prefix, s, t)
              && Step(prefix, t, e, u) && HeldWhileInside(t, e) && !NoConflicts(u.store)
  {
    var k, l := LeafKey(prefix, c.record.name, "x1"), LeafKey(prefix, c.record.name, "x2");
    DistinctLeaves(prefix, c.record.name);
    var s, t, e, u := FailedSwap(prefix, c, d, k, l);
  }

  lemma FailedSwap(prefix: string, c: RecordIntent, d: RecordIntent, k: string, l: string)
    returns (s: System, t: System, e: Event, u: System)
    requires IsValidHostname(c.record.name) && c.record.name == d.record.name && k != l
    requires c.record.kind == CNAME && d.record.IsAddress()
    requires k == LeafKey(prefix, c.record.name, "x1") && l == LeafKey(prefix, d.record.name, "x2")
    ensures Invariant(prefix, s) && Reaches(prefix, s, t)
    ensures Step(prefix, t, e, u) && HeldWhileInside(t, e) && !NoConflicts(u.store)
  {
    var h := c.hostname;
    var store: Records := map[k := c];
    s := System(store, None, map[]);
    t := System(store, Some(h), map[h := Writing({}, {d}, {c})]);
    e := RegisterDone(h, d, "x2");
    u := System(store[l := d], Some(h), map[h := Writing({}, {}, {c})]);
    QuietAlias(prefix, c, "x1", k, s);
    SingletonValues(k, c);
    FailedSwapReaches(prefix, c, d, store, s, t);
    TwoKeysConflict(c, d, k, l);
    RegistersAnyway(prefix, t, h, d, {c}, "x2", l, u);
  }

  lemma QuietAlias(prefix: string, c: RecordIntent, leaf: string, k: string, s: System)
    requires IsValidHostname(c.record.name) && c.record.kind == CNAME && IsLeaf(leaf)
    requires k == LeafKey(prefix, c.record.name, leaf) && s == System(map[k := c], None, map[])
    ensures Invariant(prefix, s)
  {
    RegisteredIsHomed(prefix, c, leaf);
  }

  lemma RegistersAnyway(prefix: string, t: System, h: string, d: RecordIntent, failed: set<RecordIntent>, leaf: string,
          key: string, u: System)
    requires key == LeafKey(prefix, d.record.name, leaf) && IsLeaf(leaf)
    requires t.phases == map[h := Writing({}, {d}, failed)] && u.phases == map[h := Writing({}, {}, failed)]
    requires u.store == t.store[key := d] && u.lock == t.lock
    ensures Step(prefix, t, RegisterDone(h, d, leaf), u)
  {
    assert {d} - {d} == {};
    assert t.phases[h := Writing({}, {}, failed)] == u.phases;
  }

  lemma FailedSwapReaches(prefix: string, c: RecordIntent, d: RecordIntent, store: Records, s: System, t: System)
    requires store.Values == {c} && c.record.kind == CNAME && d.record.IsAddress() && IsValidHostname(d.record.name)
    requires s == System(store, None, map[])
    requires t == System(store, Some(c.hostname), map[c.hostname := Writing({}, {d}, {c})])
    ensures Reaches(prefix, s, t)
  {
    var h := c.hostname;
    var s1 := System(store, Some(h), map[h := Entered]);
    var s2 := System(store, Some(h), map[h := Writing({c}, {d}, {})]);
    ReachSelf(prefix, s);
    assert map[][h := Entered] == s1.phases;
    ReachStep(prefix, s, s, Acquire(h), s1);
    StaleSwapPlan(c, d, h);
    assert CleanList([d]) && s1.phases[h := Writing({c}, {d}, {})] == s2.phases;
    ReachStep(prefix, s, s1, PlanPass(h, [d], None), s2);
    assert store - {} == store && {c} - {c} == {} && {} + {c} == {c};
    assert s2.phases[h := Writing({}, {d}, {c})] == t.phases;
    ReachStep(prefix, s, s2, RemoveFailed(h, c, {}), t);
  }

  lemma FreshLeaf(prefix: string, name: string, store: Records) returns (leaf: string)
    ensures IsLeaf(leaf) && LeafKey(prefix, name, leaf) !in store
  {
    var n := LongerThanAll(store.Keys);
    leaf := "x" + Ones(n);
    assert |LeafKey(prefix, name, leaf)| > n;
  }

  /** A host that is inside can remove everything it set out to. */
  lemma {:induction false} RemovesAll(prefix: string, s: System, t: System, h: string, removes: set<RecordIntent>,
          adds: set<RecordIntent>, failed: set<RecordIntent>)
    returns (u: System)
    requires Reaches(prefix, s, t) && PhaseOf(t, h) == Writing(removes, adds, failed)
    ensures Reaches(prefix, s, u) && u.lock == t.lock && u.phases == t.phases[h := Writing({}, adds, failed)]
    ensures u.store.Keys <= t.store.Keys && forall k :: k in u.store ==> u.store[k] == t.store[k]
    ensures forall k :: k in t.store && (forall r :: r in removes ==> !Matches(t.store[k], r)) ==> k in u.store
    decreases |removes|
  {
    if r :| r in removes {
      var next := SetPhase(t.(store := t.store - Targets(prefix, t.store, r)), h, Writing(removes - {r}, adds, failed));
      ReachStep(prefix, s, t, RemoveDone(h, r), next);
      u := RemovesAll(prefix, s, next, h, removes - {r}, adds, failed);
      assert u.phases == t.phases[h := Writing({}, adds, failed)];
    } else {
      u := t;
      assert u.phases == t.phases[h := Writing({}, adds, failed)];
    }
  }

  /** It can also get out without adding anything, and frees the lock, whoever has it. */
  lemma {:induction false} GetsOut(prefix: string, s: System, t: System, h: string) returns (u: System)
    requires Reaches(prefix, s, t) && PhaseOf(t, h) != Idle
    ensures Reaches(prefix, s, u) && u.lock == None && u.phases == t.phases[h := Idle]
    ensures u.store.Keys <= t.store.Keys && forall k :: k in u.store ==> u.store[k] == t.store[k]
    decreases if PhaseOf(t, h).Writing? then |PhaseOf(t, h).adds| else 0
  {
    var phase := PhaseOf(t, h);
    if phase == Entered {
      u := SetPhase(t.(lock := None), h, Idle);
      ReachStep(prefix, s, t, Release(h), u);
    } else {
      var v := RemovesAll(prefix, s, t, h, phase.removes, phase.adds, phase.failed);
      if d :| d in phase.adds {
        var w := SetPhase(v, h, Writing({}, phase.adds - {d}, phase.failed));
        ReachStep(prefix, s, v, RegisterFailed(h, d), w);
        u := GetsOut(prefix, s, w, h);
      } else {
        assert PhaseOf(v, h) == Writing({}, {}, phase.failed);
        u := SetPhase(v.(lock := None), h, Idle);
        ReachStep(prefix, s, v, Release(h), u);
      }
      assert u.phases == t.phases[h := Idle];
    }
  }

  /** A forced address of a host that owns nothing stored evicts its rivals and is added. */
  lemma ForcedPlan(d: RecordIntent, actual: set<RecordIntent>)
    requires d.force && d.record.IsAddress() && forall r :: r in actual ==> r.hostname != d.hostname
    ensures Reconcile([d], actual, d.hostname, None) == Plan({d}, Rivals(d, actual))
  {
    assert StaleOf(actual, Keys(Elems([d])), d.hostname, None) == {};
    assert actual - {} == actual && !Present(d, actual);
    assert [d][..0] == [];
    assert Rivals(d, actual - {} - Rivals(d, actual)) == {};
    assert {} + {d} == {d} && {} + Rivals(d, actual) == Rivals(d, actual);
    assert Consider(d, actual, actual, Plan({}, {})) == Plan({d}, Rivals(d, actual));
    assert ConsiderAll([d], actual, actual, Plan({}, {})) == Plan({d}, Rivals(d, actual));
  }

  function Claim(host: string): RecordIntent {
    Intent("c", 0, host, true, Record("a", A, "10.0.0.1"))
  }

  lemma ClaimIsValid(host: string)
    ensures IsValidHostname(Claim(host).record.name) && CleanList([Claim(host)])
  {
    SplitFree("a", '.');
    assert IsLabel("a");
  }

  /** A host that has entered plans its claim. */
  lemma PlansClaim(prefix: string, s: System, t: System, h: string) returns (u: System)
    requires Reaches(prefix, s, t) && PhaseOf(t, h) == Entered
    requires forall r :: r in t.store.Values ==> r.hostname != h
    ensures u == SetPhase(t, h, Writing(Rivals(Claim(h), t.store.Values), {Claim(h)}, {})) && Reaches(prefix, s, u)
  {
    ForcedPlan(Claim(h), t.store.Values);
    ClaimIsValid(h);
    u := SetPhase(t, h, Writing(Rivals(Claim(h), t.store.Values), {Claim(h)}, {}));
    ReachStep(prefix, s, t, PlanPass(h, [Claim(h)], None), u);
  }

  /** And carries its plan out, under a fresh key. */
  lemma StoresClaim(prefix: string, s: System, t: System, d: RecordIntent, removes: set<RecordIntent>)
    returns (u: System, key: string)
    requires Reaches(prefix, s, t) && PhaseOf(t, d.hostname) == Writing(removes, {d}, {})
    ensures Reaches(prefix, s, u) && u.lock == t.lock && u.phases == t.phases[d.hostname := Writing({}, {}, {})]
    ensures key !in t.store && IsAdded(t.store, u.store, key, d, removes)
  {
    var v := RemovesAll(prefix, s, t, d.hostname, removes, {d}, {});
    assert PhaseOf(v, d.hostname) == Writing({}, {d}, {});
    u, key := RegistersFresh(prefix, s, v, d, t.store);
    assert u.phases == t.phases[d.hostname := Writing({}, {}, {})];
    AddedAfter(t.store, v.store, key, d, removes);
  }

  /** The record is stored under the key; nothing else is new, and what the removals do not match stays. */
  ghost predicate IsAdded(before: Records, after: Records, key: string, d: RecordIntent, removes: set<RecordIntent>) {
    && key in after && after[key] == d
    && (forall k :: k in after && k != key ==> k in before && after[k] == before[k])
    && (forall k :: k in before && (forall r :: r in removes ==> !Matches(before[k], r)) ==> k in after)
  }

  lemma AddedAfter(before: Records, left: Records, key: string, d: RecordIntent, removes: set<RecordIntent>)
    requires left.Keys <= before.Keys && forall k :: k in left ==> left[k] == before[k]
    requires forall k :: k in before && (forall r :: r in removes ==> !Matches(before[k], r)) ==> k in left
    ensures IsAdded(before, left[key := d], key, d, removes)
  {
    assert forall k :: k in left ==> k in left.Keys;
  }

  lemma RegistersFresh(prefix: string, s: System, t: System, d: RecordIntent, taken: Records)
    returns (u: System, key: string)
    requires Reaches(prefix, s, t) && PhaseOf(t, d.hostname) == Writing({}, {d}, {})
    ensures key !in taken && Reaches(prefix, s, u)
    ensures u == SetPhase(t.(store := t.store[key := d]), d.hostname, Writing({}, {}, {}))
  {
    var leaf := FreshLeaf(prefix, d.record.name, taken);
    key := LeafKey(prefix, d.record.name, leaf);
    u := SetPhase(t.(store := t.store[key := d]), d.hostname, Writing({}, {}, {}));
    RegistersOnly(prefix, s, t, d, leaf, key, u);
  }

  /** A host that has entered a free lock can be passed by another: both store the same claim. */
  lemma EnteredIsPassed(prefix: string, s: System, t: System, g: string, f: string) returns (u: System)
    requires Reaches(prefix, s, t) && t.lock == None && PhaseOf(t, g) == Entered && PhaseOf(t, f) == Idle && f != g
    requires forall r :: r in t.store.Values ==> r.hostname != g && r.hostname != f
    ensures Reaches(prefix, s, u) && !NoConflicts(u.store)
  {
    var rivals := Rivals(Claim(g), t.store.Values);
    var t1 := PlansClaim(prefix, s, t, g);
    var t2 := SetPhase(t1.(lock := Some(f)), f, Entered);
    ReachStep(prefix, s, t1, Acquire(f), t2);
    var t3 := PlansClaim(prefix, s, t2, f);
    var t4, key := StoresClaim(prefix, s, t3, Claim(f), Rivals(Claim(f), t.store.Values));
    assert PhaseOf(t4, g) == Writing(rivals, {Claim(g)}, {});
    var v, other := StoresClaim(prefix, s, t4, Claim(g), rivals);
    u := v;
    BothStored(t.store, t4.store, u.store, g, f, key, other);
  }

  lemma BothStored(before: Records, between: Records, after: Records, g: string, f: string, key: string, other: string)
    requires f != g && forall r :: r in before.Values ==> r.hostname != g && r.hostname != f
    requires key in between && between[key] == Claim(f) && other !in between
    requires IsAdded(between, after, other, Claim(g), Rivals(Claim(g), before.Values))
    ensures !NoConflicts(after)
  {
    forall r | r in Rivals(Claim(g), before.Values)
      ensures !Matches(between[key], r)
    {
      assert r in before.Values && r.hostname != f;
    }
    assert key in after && other in after && key != other;
    assert after[key] == Claim(f) && after[other] == Claim(g);
  }

  /** Some tame continuation stores a conflict. */
  ghost predicate CanConflict(prefix: string, s: System) {
    exists t :: Reaches(prefix, s, t) && !NoConflicts(t.store)
  }

  /** Exactly when an expiry does harm: some continuation without further expiries, and without
      registrations in the way of failed removals, stores a conflict if and only if the host whose lock
      expired is inside. It does not matter how far it has come: if it has nothing left to write, it
      will still delete the lock of whoever is inside by then. */
  lemma ExpireExact(prefix: string, s: System, t: System)
    requires Invariant(prefix, s) && Step(prefix, s, Expire, t)
    ensures CanConflict(prefix, t) <==> PhaseOf(s, s.lock.value) != Idle
  {
    var h := s.lock.value;
    if PhaseOf(s, h) == Idle {
      LapseKeeps(prefix, s, t);
      forall u | Reaches(prefix, t, u)
        ensures NoConflicts(u.store)
      {
        ReachKeeps(prefix, t, u);
      }
    } else {
      var owners := set r | r in t.store.Values :: r.hostname;
      var g := Fresh(t.phases.Keys + owners + {h});
      var f := Fresh(t.phases.Keys + owners + {h, g});
      var u := ExpiryIsPassed(prefix, t, h, g, f);
    }
  }

  lemma ExpiryIsPassed(prefix: string, t: System, h: string, g: string, f: string) returns (u: System)
    requires t.lock == None && PhaseOf(t, h) != Idle && PhaseOf(t, g) == Idle && PhaseOf(t, f) == Idle
    requires g != h && f != h && f != g
    requires forall r :: r in t.store.Values ==> r.hostname != g && r.hostname != f
    ensures Reaches(prefix, t, u) && !NoConflicts(u.store)
  {
    ReachSelf(prefix, t);
    var t1 := SetPhase(t.(lock := Some(g)), g, Entered);
    ReachStep(prefix, t, t, Acquire(g), t1);
    var t2 := GetsOut(prefix, t, t1, h);
    forall r | r in t2.store.Values
      ensures r in t.store.Values
    {
      var k :| k in t2.store && t2.store[k] == r;
      assert k in t1.store && t1.store[k] == r;
    }
    assert PhaseOf(t2, g) == Entered && PhaseOf(t2, f) == Idle;
    u := EnteredIsPassed(prefix, t, t2, g, f);
  }

  predicate CanRace(d: RecordIntent) {
    && d.record.Supported() && IsValidHostname(d.record.name)
    && (d.record.kind == CNAME ==> d.record.name != d.record.value)
  }

  lemma PlanOnEmpty(d: RecordIntent)
    requires d.record.Supported() && (d.record.kind == CNAME ==> d.record.name != d.record.value)
    ensures Reconcile([d], {}, d.hostname, None) == Plan({d}, {})
  {
    var nobody: set<RecordIntent> := {};
    OnEmptyStore([d], d.hostname);
    assert [d][..0] == [];
    assert Rivals(d, nobody) == nobody && nobody - nobody - nobody == nobody && nobody + {d} == {d};
    if d.record.kind == CNAME {
      AcceptsOnEmpty(d);
    }
    assert Consider(d, nobody, nobody, Plan({}, {})) == Plan({d}, {});
  }

  /** For any two conflicting records of different hosts: the lock expires under the one host while it
      is still listing, the other passes by, and both records are stored. */
  lemma ExpiryBreaks(prefix: string, d: RecordIntent, e: RecordIntent)
    requires CanRace(d) && CanRace(e) && Conflict(d.record, e.record) && d.hostname != e.hostname
    ensures exists s: System, t: System, u: System ::
              && Invariant(prefix, s) && PhaseOf(s, d.hostname) == Entered && Step(prefix, s, Expire, t)
              && Reaches(prefix, t, u) && !NoConflicts(u.store) && {d, e} <= u.store.Values
  {
    var k, l := LeafKey(prefix, d.record.name, "x2"), LeafKey(prefix, e.record.name, "x1");
    DistinctLeaves(prefix, d.record.name);
    var s, t, u := Race(prefix, d, e, k, l);
  }

  lemma Race(prefix: string, d: RecordIntent, e: RecordIntent, k: string, l: string)
    returns (s: System, t: System, u: System)
    requires CanRace(d) && CanRace(e) && Conflict(d.record, e.record) && d.hostname != e.hostname && k != l
    requires k == LeafKey(prefix, d.record.name, "x2") && l == LeafKey(prefix, e.record.name, "x1")
    ensures Invariant(prefix, s) && PhaseOf(s, d.hostname) == Entered && Step(prefix, s, Expire, t)
    ensures Reaches(prefix, t, u) && !NoConflicts(u.store) && {d, e} <= u.store.Values
  {
    s := System(map[], Some(d.hostname), map[d.hostname := Entered]);
    t := s.(lock := None);
    u := RaceReaches(prefix, d, e, t, k, l);
    TwoKeysConflict(e, d, l, k);
    BothIn(u.store, k, d, l, e);
  }

  lemma BothIn(store: Records, k: string, d: RecordIntent, l: string, e: RecordIntent)
    requires k != l && store == map[l := e][k := d]
    ensures {d, e} <= store.Values
  {
    assert store[k] == d && store[l] == e;
  }

  lemma RaceReaches(prefix: string, d: RecordIntent, e: RecordIntent, t: System, k: string, l: string)
    returns (u: System)
    requires CanRace(d) && CanRace(e) && d.record.name == e.record.name && d.hostname != e.hostname
    requires t == System(map[], None, map[d.hostname := Entered])
    requires k == LeafKey(prefix, d.record.name, "x2") && l == LeafKey(prefix, e.record.name, "x1")
    ensures Reaches(prefix, t, u) && u.store == map[l := e][k := d]
  {
    var g, h := d.hostname, e.hostname;
    ReachSelf(prefix, t);
    var t1 := SetPhase(t.(lock := Some(h)), h, Entered);
    ReachStep(prefix, t, t, Acquire(h), t1);
    var t2 := PlansOnEmpty(prefix, t, t1, d);
    var t3 := PlansOnEmpty(prefix, t, t2, e);
    var t4 := SetPhase(t3.(store := map[l := e]), h, Writing({}, {}, {}));
    assert t3.store[l := e] == map[l := e];
    RegistersOnly(prefix, t, t3, e, "x1", l, t4);
    u := SetPhase(t4.(store := t4.store[k := d]), g, Writing({}, {}, {}));
    RegistersOnly(prefix, t, t4, d, "x2", k, u);
  }

  lemma PlansOnEmpty(prefix: string, s: System, t: System, d: RecordIntent) returns (u: System)
    requires Reaches(prefix, s, t) && t.store == map[] && PhaseOf(t, d.hostname) == Entered && CanRace(d)
    ensures u == SetPhase(t, d.hostname, Writing({}, {d}, {})) && Reaches(prefix, s, u)
  {
    PlanOnEmpty(d);
    assert t.store.Values == {};
    assert CleanList([d]);
    u := SetPhase(t, d.hostname, Writing({}, {d}, {}));
    ReachStep(prefix, s, t, PlanPass(d.hostname, [d], None), u);
  }

  lemma RegistersOnly(prefix: string, s: System, t: System, d: RecordIntent, leaf: string, key: string, u: System)
    requires Reaches(prefix, s, t) && PhaseOf(t, d.hostname) == Writing({}, {d}, {})
    requires IsLeaf(leaf) && key == LeafKey(prefix, d.record.name, leaf)
    requires u == SetPhase(t.(store := t.store[key := d]), d.hostname, Writing({}, {}, {}))
    ensures Reaches(prefix, s, u)
  {
    assert {d} - {d} == {};
    ReachStep(prefix, s, t, RegisterDone(d.hostname, d, leaf), u);
  }
}
