/** What removals delete beyond their aim: which stored records a removal hits, and what one pass leaves
    once that is taken into account. */
module Sweeps {
  import opened Domain
  import opened Graph
  import opened Validation
  import opened ReconcilePlan
  import opened PassTheorems
  import opened PassLimits
  import opened Convergence
  import opened ConvergenceBound
  import opened OneHost

  /** Whether removing the first record deletes the second. */
  type Reach = (RecordIntent, RecordIntent) -> bool

  /** A removal hits the record it aims at; whatever else it hits has a longer key. */
  ghost predicate IsReach(hits: Reach, depth: string -> nat) {
    && (forall r :: hits(r, r))
    && (forall r: RecordIntent, x: RecordIntent :: hits(r, x) && r.record != x.record ==>
          depth(r.record.name) < depth(x.record.name))
  }

  function Swept(hits: Reach, s: set<RecordIntent>, removes: set<RecordIntent>): set<RecordIntent> {
    set x | x in s && exists r :: r in removes && hits(r, x)
  }

  /** The store once the pass has been applied, with all its removals hit. */
  ghost function AfterSweep(hits: Reach, s: set<RecordIntent>, p: Plan): set<RecordIntent> {
    (s - Swept(hits, s, p.removes)) + p.adds
  }

  lemma SweepReaches(hits: Reach, depth: string -> nat, s: set<RecordIntent>, removes: set<RecordIntent>)
    requires IsReach(hits, depth) && Clean(s) && removes <= s
    ensures Reaches(depth, removes, Swept(hits, s, removes))
  {
    var swept := Swept(hits, s, removes);
    assert forall r :: r in removes ==> hits(r, r);
    forall x | x in swept && x !in removes
      ensures exists r :: r in removes && depth(r.record.name) < depth(x.record.name)
    {
      var r :| r in removes && hits(r, x);
      if r.record == x.record {
        UniqueKeys(s, r, x);
      }
    }
  }

  /** Such a pass is one of those the convergence theorems speak of. */
  lemma SweepIsEffect(hits: Reach, depth: string -> nat, s: set<RecordIntent>, order: seq<RecordIntent>, host: string,
          live: Liveness)
    requires IsReach(hits, depth) && Clean(s) && CleanList(order)
    ensures
      var p := Reconcile(order, s, host, live);
      PassEffect(depth, s, Turn(host, order, live, Swept(hits, s, p.removes)), AfterSweep(hits, s, p))
  {
    PassSound(order, s, host, live);
    SweepReaches(hits, depth, s, Reconcile(order, s, host, live).removes);
  }

  /** The desired intents that are absent, beat all their rivals and close no cycle on their own. */
  ghost function Accepted(desired: seq<RecordIntent>, lookup: set<RecordIntent>): set<RecordIntent> {
    set d | d in desired && !Present(d, lookup) && Prevails(d, Rivals(d, lookup)) && !ClosesCycleIn(d.record, lookup)
  }

  /** What is stale, and what they beat. */
  ghost function Doomed(desired: seq<RecordIntent>, actual: set<RecordIntent>, host: string, live: Liveness)
    : set<RecordIntent>
  {
    var stale := StaleIn(desired, actual, host, live);
    stale + set d, r | d in Accepted(desired, actual - stale) && r in Rivals(d, actual - stale) :: r
  }

  /** Where the order of the list cannot matter to the cycle rule. */
  ghost predicate OrderIdle(desired: seq<RecordIntent>, actual: set<RecordIntent>, host: string, live: Liveness) {
    NoCycleInSight(desired, actual) || EvictsNoAlias(desired, actual - StaleIn(desired, actual, host, live))
  }

  lemma AcceptedIsAdded(desired: seq<RecordIntent>, actual: set<RecordIntent>, host: string, live: Liveness,
          d: RecordIntent)
    requires OrderIdle(desired, actual, host, live) && d in desired
    ensures
      d in Reconcile(desired, actual, host, live).adds <==>
      d in Accepted(desired, actual - StaleIn(desired, actual, host, live))
  {
    var stale := StaleIn(desired, actual, host, live);
    var lookup := actual - stale;
    if NoCycleInSight(desired, actual) {
      OnlyRivalsRefuse(desired, actual, host, live, d);
      ClosesCycleMonotone(d.record, lookup, actual + Elems(desired));
    } else if d.record.kind == CNAME {
      NewcomersAreAdded(desired, actual, host, live);
    } else {
      PassSound(desired, actual, host, live);
      assert d in Elems(desired);
      var p := Reconcile(desired, actual, host, live);
      assert d in p.adds ==> Won(d, actual, lookup, p.removes);
      assert d !in p.adds ==> Refused(d, actual, lookup, stale, p.removes);
    }
  }

  /** The plan, read off the inputs. */
  lemma PlanExactly(desired: seq<RecordIntent>, actual: set<RecordIntent>, host: string, live: Liveness)
    requires OrderIdle(desired, actual, host, live)
    ensures
      Reconcile(desired, actual, host, live) ==
      Plan(Accepted(desired, actual - StaleIn(desired, actual, host, live)), Doomed(desired, actual, host, live))
  {
    PassSound(desired, actual, host, live);
    var p := Reconcile(desired, actual, host, live);
    var stale := StaleIn(desired, actual, host, live);
    forall d | d in desired
      ensures d in p.adds <==> d in Accepted(desired, actual - stale)
    {
      AcceptedIsAdded(desired, actual, host, live, d);
    }
    assert forall d :: d in p.adds ==> d in Elems(desired);
    assert p.adds == Accepted(desired, actual - stale);
    assert forall d :: d in p.adds ==> Won(d, actual, actual - stale, p.removes);
    assert forall r :: r in p.removes ==> r in stale || Evicted(r, p.adds, actual - stale);
    assert p.removes == Doomed(desired, actual, host, live);
  }

  /** No wanted record is hit. */
  ghost predicate KeepsWanted(desired: seq<RecordIntent>, swept: set<RecordIntent>) {
    forall x :: x in swept ==> x.Key() !in Keys(Elems(desired))
  }

  /** Whoever is turned away still meets a rival that it does not beat and that is not hit. */
  ghost predicate LosersStillLose(desired: seq<RecordIntent>, actual: set<RecordIntent>, lookup: set<RecordIntent>,
          swept: set<RecordIntent>) {
    forall d :: d in desired && d.Key() !in Keys(actual) && !Prevails(d, Rivals(d, lookup)) ==>
      !Prevails(d, Rivals(d, actual - swept))
  }

  /** Out of sight of cycles, who still loses is decided by presence and rivals. */
  lemma LosesByRivals(desired: seq<RecordIntent>, actual: set<RecordIntent>, host: string, live: Liveness,
          swept: set<RecordIntent>, d: RecordIntent)
    requires Clean(actual) && CleanList(desired) && NoCycleInSight(desired, actual) && d in desired && swept <= actual
    ensures
      var adds := Reconcile(desired, actual, host, live).adds;
      (d !in adds && d.Key() !in Keys(actual - swept) ==> StillLoses(d, actual - swept, (actual - swept) + adds)) <==>
      !(if d.Key() in Keys(actual) then d.Key() in Keys(swept)
        else d !in adds && Prevails(d, Rivals(d, actual - swept)))
  {
    PassSound(desired, actual, host, live);
    var adds := Reconcile(desired, actual, host, live).adds;
    var after := (actual - swept) + adds;
    ClosesCycleMonotone(d.record, after - Rivals(d, after), actual + Elems(desired));
    if d.Key() in Keys(actual) {
      if d in adds {
        AddedIsNew(desired, actual, host, live, d);
      }
      assert d in Elems(desired);
      StoredWanted(actual, swept, d);
    }
  }

  /** A wanted record that is stored is absent, and unopposed, exactly when it is hit. */
  lemma StoredWanted(actual: set<RecordIntent>, swept: set<RecordIntent>, d: RecordIntent)
    requires Clean(actual) && swept <= actual && d.Key() in Keys(actual) && d.record.Supported()
    ensures d.Key() in Keys(swept) <==> d.Key() !in Keys(actual - swept)
    ensures d.Key() in Keys(swept) ==> Rivals(d, actual - swept) == {}
  {
    var x :| x in actual && x.Key() == d.Key();
    assert x.record == d.record;
    forall r | r in actual && r != x
      ensures !Conflict(d.record, r.record) && r.Key() != d.Key()
    {
      assert !Conflict(x.record, r.record);
    }
    assert x in swept <==> d.Key() in Keys(swept);
  }

  /** Whether one pass is enough, decided before it: if no alias cycle is in sight, a second pass over
      the same desired intents, in any order, changes nothing if and only if the removals of the first
      hit no wanted record and leave everyone who was turned away a rival it does not beat. */
  lemma OnePassSettles(hits: Reach, desired: seq<RecordIntent>, again: seq<RecordIntent>, actual: set<RecordIntent>,
          host: string, live: Liveness)
    requires CleanList(desired) && Clean(actual) && NoCycleInSight(desired, actual) && Elems(again) == Elems(desired)
    requires forall r :: hits(r, r)
    ensures
      var swept := Swept(hits, actual, Doomed(desired, actual, host, live));
      var after := AfterSweep(hits, actual, Reconcile(desired, actual, host, live));
      Reconcile(again, after, host, live) == Plan({}, {}) <==>
      && KeepsWanted(desired, swept)
      && LosersStillLose(desired, actual, actual - StaleIn(desired, actual, host, live), swept)
  {
    PlanExactly(desired, actual, host, live);
    PassSound(desired, actual, host, live);
    var p := Reconcile(desired, actual, host, live);
    var swept := Swept(hits, actual, p.removes);
    assert p.removes <= swept by {
      assert forall r :: r in p.removes ==> hits(r, r);
    }
    OnePassEnough(desired, again, actual, host, live, swept);
    forall d | d in desired
      ensures
        (d !in p.adds && d.Key() !in Keys(actual - swept) ==>
           StillLoses(d, actual - swept, AfterSweep(hits, actual, p))) <==>
        !(if d.Key() in Keys(actual) then d.Key() in Keys(swept)
          else d !in p.adds && Prevails(d, Rivals(d, actual - swept)))
    {
      LosesByRivals(desired, actual, host, live, swept, d);
    }
    QuietConditions(desired, actual, host, live, swept);
  }

  lemma QuietConditions(desired: seq<RecordIntent>, actual: set<RecordIntent>, host: string, live: Liveness,
          swept: set<RecordIntent>)
    requires NoCycleInSight(desired, actual) && swept <= actual
    ensures
      var p := Reconcile(desired, actual, host, live);
      (forall d :: d in desired ==>
         !(if d.Key() in Keys(actual) then d.Key() in Keys(swept)
           else d !in p.adds && Prevails(d, Rivals(d, actual - swept)))) <==>
      && KeepsWanted(desired, swept)
      && LosersStillLose(desired, actual, actual - StaleIn(desired, actual, host, live), swept)
  {
    var p := Reconcile(desired, actual, host, live);
    var lookup := actual - StaleIn(desired, actual, host, live);
    forall d | d in desired && d.Key() !in Keys(actual)
      ensures d in p.adds <==> Prevails(d, Rivals(d, lookup))
    {
      OnlyRivalsRefuse(desired, actual, host, live, d);
      assert forall r :: r in lookup && r.Equal(d) ==> r.Key() == d.Key();
    }
    assert forall x :: x in swept ==> x.Key() in Keys(swept) && x.Key() in Keys(actual);
    assert forall d :: d in desired ==> d.Key() in Keys(Elems(desired)) by {
      assert forall d :: d in desired ==> d in Elems(desired);
    }
    assert KeepsWanted(desired, swept) <==> forall d :: d in desired ==> d.Key() !in Keys(swept);
  }

  /** When a batch keeps the store acyclic, decided before it: if the pass need evict no alias, exactly
      when the aliases that are not hit form no cycle together with the absent desired aliases that
      beat their rivals and close none on their own. Nothing is asked of the store beforehand. */
  lemma BatchAcyclicExactly(hits: Reach, desired: seq<RecordIntent>, actual: set<RecordIntent>, host: string,
          live: Liveness)
    requires EvictsNoAlias(desired, actual - StaleIn(desired, actual, host, live))
    ensures
      var swept := Swept(hits, actual, Doomed(desired, actual, host, live));
      !HasCycle(LinksOf(AfterSweep(hits, actual, Reconcile(desired, actual, host, live)))) <==>
      !HasCycle(LinksOf(actual - swept) +
                LinksOf(Newcomers(desired, actual - StaleIn(desired, actual, host, live))))
  {
    PlanExactly(desired, actual, host, live);
    NewcomersAreAdded(desired, actual, host, live);
    var p := Reconcile(desired, actual, host, live);
    LinksOfUnion(actual - Swept(hits, actual, p.removes), p.adds);
    SameLinks(Record("", CNAME, ""), p.adds, Newcomers(desired, actual - StaleIn(desired, actual, host, live)));
  }

  /** No stored record that is not wanted hits a wanted one. */
  predicate Clear(hits: Reach, s: set<RecordIntent>, desired: set<RecordIntent>) {
    forall r, x :: r in s && x in s + desired && r.Key() !in Keys(desired) && x.Key() in Keys(desired) ==> !hits(r, x)
  }

  /** Every turn hits what its removals reach. */
  ghost predicate IsSwept(hits: Reach, stores: seq<set<RecordIntent>>, turns: seq<Turn>) {
    |stores| == |turns| + 1 &&
    forall i :: 0 <= i < |turns| ==> turns[i].deleted == Swept(hits, stores[i], PlanOf(stores[i], turns[i]).removes)
  }

  lemma {:induction false} ClearStays(hits: Reach, depth: string -> nat, desired: set<RecordIntent>,
          stores: seq<set<RecordIntent>>, turns: seq<Turn>, n: nat)
    requires IsSolo(depth, desired, stores, turns) && n <= |turns| && Clear(hits, stores[0], desired)
    ensures Clear(hits, stores[n], desired) && Clean(stores[n])
  {
    if n > 0 {
      ClearStays(hits, depth, desired, stores, turns, n - 1);
      var s, turn := stores[n - 1], turns[n - 1];
      SoloStep(depth, s, turn, stores[n]);
      PassSound(turn.order, s, turn.host, turn.live);
      assert PlanOf(s, turn).adds <= desired;
      assert forall d :: d in desired ==> d.Key() in Keys(desired);
    }
  }

  /** The bound by differences, with a condition on the start: no stored record that is not wanted lies
      in the way of a wanted one. */
  lemma FixpointWhenClear(hits: Reach, depth: string -> nat, desired: set<RecordIntent>, stores: seq<set<RecordIntent>>,
          turns: seq<Turn>)
    requires IsSolo(depth, desired, stores, turns) && IsSwept(hits, stores, turns) && Clear(hits, stores[0], desired)
    requires |turns| > |Delta(stores[0], desired)|
    ensures exists i :: 0 <= i < |turns| && PlanOf(stores[i], turns[i]) == Plan({}, {})
  {
    forall i | 0 <= i < |turns|
      ensures Lost(turns[i].order, turns[i].deleted) == {}
    {
      ClearStays(hits, depth, desired, stores, turns, i);
      ClearLosesNothing(hits, depth, desired, stores[i], turns[i], stores[i + 1]);
    }
    FixpointWithoutLoss(depth, desired, stores, turns);
  }

  lemma ClearHitsNothing(hits: Reach, desired: set<RecordIntent>, s: set<RecordIntent>, removes: set<RecordIntent>)
    requires Clear(hits, s, desired) && removes <= s && Keys(removes) !! Keys(desired)
    ensures forall x :: x in Swept(hits, s, removes) ==> x.Key() !in Keys(desired)
  {
    forall x | x in Swept(hits, s, removes)
      ensures x.Key() !in Keys(desired)
    {
      var r :| r in removes && hits(r, x);
      assert r in s && r.Key() in Keys(removes);
    }
  }

  lemma ClearLosesNothing(hits: Reach, depth: string -> nat, desired: set<RecordIntent>, s: set<RecordIntent>,
          turn: Turn, t: set<RecordIntent>)
    requires Clean(s) && PassEffect(depth, s, turn, t) && Elems(turn.order) == desired && Clear(hits, s, desired)
    requires turn.deleted == Swept(hits, s, PlanOf(s, turn).removes)
    ensures Lost(turn.order, turn.deleted) == {}
  {
    PlanKeys(turn.order, s, turn.host, turn.live);
    PassSound(turn.order, s, turn.host, turn.live);
    ClearHitsNothing(hits, desired, s, PlanOf(s, turn).removes);
  }
}
