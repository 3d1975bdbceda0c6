/** The reach of the registry's removals, on keys and on records, and what it does to a host's own wishes. */
module Overreach {
  import opened Domain
  import opened Text
  import opened Paths
  import opened Registry
  import opened Graph
  import opened Validation
  import opened ReconcilePlan
  import opened PassTheorems
  import opened PassLimits
  import opened Stores
  import opened Convergence
  import opened Sweeps

  function KeyDepth(prefix: string): string -> nat {
    (name: string) => |KeyBaseForFqdn(prefix, name)|
  }

  function KeyReach(prefix: string): Reach {
    (r: RecordIntent, x: RecordIntent) => Hits(prefix, r, x)
  }

  /** A removal hits its own record, and beyond it only records of longer keys. */
  lemma KeyReachIsReach(prefix: string)
    ensures IsReach(KeyReach(prefix), KeyDepth(prefix))
  {
    forall r: RecordIntent, x: RecordIntent | Hits(prefix, r, x) && r.record != x.record
      ensures |KeyBaseForFqdn(prefix, r.record.name)| < |KeyBaseForFqdn(prefix, x.record.name)|
    {
    }
  }

  /** The keys that removing all of rs deletes. */
  function AllTargets(prefix: string, store: Records, rs: set<RecordIntent>): set<string> {
    set k | k in store && exists r :: r in rs && k in Targets(prefix, store, r)
  }

  /** The records under those keys are the ones that are hit. */
  lemma SweptTargets(prefix: string, store: Records, aimed: set<RecordIntent>)
    requires Homed(prefix, store) && aimed <= store.Values
    ensures (set k | k in AllTargets(prefix, store, aimed) :: store[k]) == Swept(KeyReach(prefix), store.Values, aimed)
  {
    forall k, r | k in store && r in aimed
      ensures k in Targets(prefix, store, r) <==> Hits(prefix, r, store[k])
    {
      var l :| l in store && store[l] == r;
      assert HomedAt(prefix, l, r);
      TargetsExactly(prefix, store, r, k);
    }
    forall x | x in Swept(KeyReach(prefix), store.Values, aimed)
      ensures x in set k | k in AllTargets(prefix, store, aimed) :: store[k]
    {
      var r :| r in aimed && Hits(prefix, r, x);
      var k :| k in store && store[k] == x;
      assert k in Targets(prefix, store, r);
    }
  }

  /** What a turn hits, by the keys. */
  ghost function SweptBy(prefix: string, s: set<RecordIntent>, turn: Turn): set<RecordIntent> {
    Swept(KeyReach(prefix), s, Reconcile(turn.order, s, turn.host, turn.live).removes)
  }

  lemma HitsBelow(prefix: string, r: RecordIntent, other: RecordIntent, part: string)
    requires IsValidHostname(r.record.name) && IsLabel(part) && |part| + 1 + |r.record.name| <= 255
    requires other == r.(record := Record(part + "." + r.record.name, r.record.kind, r.record.value))
    ensures Hits(prefix, r, other) && Hits(prefix, r, r) && other.record.name != r.record.name
  {
    BelowIsPrefix(prefix, r.record.name, part);
    var above := KeyBaseForFqdn(prefix, r.record.name);
    assert above + "/" + part == (above + "/") + part;
    assert |other.record.name| > |r.record.name|;
  }

  lemma StaleAbove(r: RecordIntent, other: RecordIntent)
    requires r.record.IsAddress() && other.record.IsAddress() && r.record.name != other.record.name
    requires other.hostname == r.hostname
    ensures Reconcile([other], {r, other}, r.hostname, None) == Plan({}, {r})
    ensures StaleIn([other], {r, other}, r.hostname, None) == {r} && !Present(other, {}) && Rivals(other, {}) == {}
    ensures Reconcile([other], {}, r.hostname, None) == Plan({other}, {})
  {
    var s, nobody: set<RecordIntent> := {r, other}, {};
    assert Elems([other]) == {other} && r.Key() != other.Key();
    assert StaleIn([other], s, r.hostname, None) == {r};
    assert s - {r} == {other};
    assert other.Equal(other) && Present(other, {other});
    assert [other][..0] == [];
    assert ConsiderAll([other], s, {other}, Plan({}, {r})) == Plan({}, {r});
    OnEmptyStore([other], r.hostname);
    assert Rivals(other, nobody) == nobody && nobody - nobody - nobody == nobody && nobody + {other} == {other};
    assert Consider(other, nobody, nobody, Plan({}, {})) == Plan({other}, {});
  }

  lemma AllElseInOrder(r: RecordIntent, other: RecordIntent)
    requires r.record.IsAddress() && other.record.IsAddress() && r.record.name != other.record.name
    ensures CleanList([other]) && Clean({r, other}) && NoCycleInSight([other], {r, other})
    ensures SiblingsAgree([other], {r, other} - {r})
  {
    assert Elems([other]) == {other};
  }

  lemma BothSwept(hits: Reach, r: RecordIntent, other: RecordIntent)
    requires hits(r, r) && hits(r, other)
    ensures AfterSweep(hits, {r, other}, Plan({}, {r})) == {}
  {
    assert r in {r};
    assert Swept(hits, {r, other}, {r}) == {r, other};
  }

  /** A container that drops one of two names for its address loses both: removing the stale record
      deletes the wanted one below it, and the next pass, which would have been quiet had the removal
      hit its aim only, adds it again. */
  lemma OverreachReopens(prefix: string, r: RecordIntent, other: RecordIntent, part: string)
    requires IsValidHostname(r.record.name) && IsLabel(part) && |part| + 1 + |r.record.name| <= 255
    requires other == r.(record := Record(part + "." + r.record.name, r.record.kind, r.record.value))
    requires r.record.IsAddress()
    ensures
      var s, desired := {r, other}, [other];
      var p := Reconcile(desired, s, r.hostname, None);
      && CleanList(desired) && Clean(s) && NoCycleInSight(desired, s)
      && SiblingsAgree(desired, s - StaleIn(desired, s, r.hostname, None))
      && p == Plan({}, {r}) && AfterSweep(KeyReach(prefix), s, p) == {}
      && Reconcile(desired, AfterSweep(KeyReach(prefix), s, p), r.hostname, None) == Plan({other}, {})
  {
    HitsBelow(prefix, r, other, part);
    StaleAbove(r, other);
    AllElseInOrder(r, other);
    BothSwept(KeyReach(prefix), r, other);
  }
}
