/** One host repeating its pass over fixed wishes, its removals reaching beyond their aim: when the
    passes stop changing the store. */
module OneHost {
  import opened Domain
  import opened ReconcilePlan
  import opened PassTheorems
  import opened Convergence
  import opened ConvergenceBound

  /** Passes of one host, each with the order, the liveness and the deletions it happened to have. */
  ghost predicate IsSolo(depth: string -> nat, desired: set<RecordIntent>, stores: seq<set<RecordIntent>>,
          turns: seq<Turn>) {
    && |stores| == |turns| + 1 && Clean(stores[0])
    && (forall i :: 0 <= i < |turns| ==> Elems(turns[i].order) == desired && turns[i].host == turns[0].host)
    && (forall i :: 0 <= i < |turns| ==> PassEffect(depth, stores[i], turns[i], stores[i + 1]))
  }

  ghost function PlanOf(s: set<RecordIntent>, turn: Turn): Plan {
    Reconcile(turn.order, s, turn.host, turn.live)
  }

  /** The keys stored and not wanted, and the keys wanted and not stored. */
  function Surplus(s: set<RecordIntent>, desired: set<RecordIntent>): set<IntentKey> {
    Keys(s) - Keys(desired)
  }

  function Missing(s: set<RecordIntent>, desired: set<RecordIntent>): set<IntentKey> {
    Keys(desired) - Keys(s)
  }

  /** How many more passes can change the store. */
  function Budget(s: set<RecordIntent>, desired: set<RecordIntent>): nat {
    KeyBudget(Keys(s), Keys(desired))
  }

  function KeyBudget(stored: set<IntentKey>, wanted: set<IntentKey>): nat {
    Times(|stored - wanted|, |wanted| + 1) + |wanted - stored|
  }

  lemma SoloStep(depth: string -> nat, s: set<RecordIntent>, turn: Turn, t: set<RecordIntent>)
    requires Clean(s) && PassEffect(depth, s, turn, t)
    ensures Clean(t)
    ensures
      var p := PlanOf(s, turn);
      && Keys(t) == (Keys(s) - Keys(turn.deleted)) + Keys(p.adds)
      && Keys(p.adds) <= Missing(s, Elems(turn.order)) && Keys(p.removes) <= Surplus(s, Elems(turn.order))
      && Keys(p.removes) <= Keys(turn.deleted)
      && (p.removes == {} ==> turn.deleted == {})
  {
    PassKeepsClean(turn.order, s, turn.host, turn.live);
    var p := PlanOf(s, turn);
    assert t <= Apply(s, p);
    PlanKeys(turn.order, s, turn.host, turn.live);
    PlanCounts(turn.order, s, turn.host, turn.live, turn.deleted);
  }

  lemma RemovalSpends(s: set<IntentKey>, t: set<IntentKey>, wanted: set<IntentKey>)
    requires t - wanted < s - wanted
    ensures KeyBudget(t, wanted) < KeyBudget(s, wanted)
  {
    StrictSubsetSmaller(t - wanted, s - wanted);
    SubsetSmaller(wanted - t, wanted);
    Carry(|s - wanted|, |t - wanted|, |wanted - s|, |wanted - t|, |wanted| + 1);
  }

  lemma AdditionSpends(s: set<IntentKey>, t: set<IntentKey>, wanted: set<IntentKey>)
    requires t - wanted == s - wanted && wanted - t < wanted - s
    ensures KeyBudget(t, wanted) < KeyBudget(s, wanted)
  {
    StrictSubsetSmaller(wanted - t, wanted - s);
  }

  /** On keys: a pass that removes something or adds something. */
  lemma KeysSpend(s: set<IntentKey>, t: set<IntentKey>, wanted: set<IntentKey>, gone: set<IntentKey>,
          aimed: set<IntentKey>, adds: set<IntentKey>)
    requires t == (s - gone) + adds && adds <= wanted - s && aimed <= gone && aimed <= s - wanted
    requires aimed != {} || (gone == {} && adds != {})
    ensures KeyBudget(t, wanted) < KeyBudget(s, wanted)
  {
    if k :| k in aimed {
      assert k in s - wanted && k !in t - wanted;
      RemovalSpends(s, t, wanted);
    } else {
      var k :| k in adds;
      assert k in wanted - s && k !in wanted - t;
      AdditionSpends(s, t, wanted);
    }
  }

  lemma SomeKey(s: set<RecordIntent>)
    ensures Keys(s) == {} <==> s == {}
  {
    if x :| x in s {
      assert x.Key() in Keys(s);
    }
  }

  /** Every pass that plans anything spends some of the budget. */
  lemma PassSpends(depth: string -> nat, s: set<RecordIntent>, turn: Turn, t: set<RecordIntent>)
    requires Clean(s) && PassEffect(depth, s, turn, t) && PlanOf(s, turn) != Plan({}, {})
    ensures Budget(t, Elems(turn.order)) < Budget(s, Elems(turn.order))
  {
    var p := PlanOf(s, turn);
    SoloStep(depth, s, turn, t);
    SomeKey(p.removes);
    SomeKey(p.adds);
    SomeKey(turn.deleted);
    KeysSpend(Keys(s), Keys(t), Keys(Elems(turn.order)), Keys(turn.deleted), Keys(p.removes), Keys(p.adds));
  }

  lemma TurnOfSolo(depth: string -> nat, desired: set<RecordIntent>, stores: seq<set<RecordIntent>>, turns: seq<Turn>,
          i: nat)
    requires IsSolo(depth, desired, stores, turns) && i < |turns|
    ensures PassEffect(depth, stores[i], turns[i], stores[i + 1]) && Elems(turns[i].order) == desired
  {
  }

  lemma {:induction false} CleanOn(stores: seq<set<RecordIntent>>, n: nat)
    requires n < |stores| && Clean(stores[0])
    requires forall i: nat :: i < n && Clean(stores[i]) ==> Clean(stores[i + 1])
    ensures Clean(stores[n])
  {
    if n > 0 {
      CleanOn(stores, n - 1);
      assert Clean(stores[n - 1]) ==> Clean(stores[n - 1 + 1]);
    }
  }

  lemma SoloClean(depth: string -> nat, desired: set<RecordIntent>, stores: seq<set<RecordIntent>>, turns: seq<Turn>,
          n: nat)
    requires IsSolo(depth, desired, stores, turns) && n <= |turns|
    ensures Clean(stores[n])
  {
    forall i: nat | i < n && Clean(stores[i])
      ensures Clean(stores[i + 1])
    {
      TurnOfSolo(depth, desired, stores, turns, i);
      SoloStep(depth, stores[i], turns[i], stores[i + 1]);
    }
    CleanOn(stores, n);
  }

  /** A height that every step lowers bounds the number of steps. */
  lemma {:induction false} Sinks(heights: seq<nat>, n: nat)
    requires n < |heights| && forall i: nat :: i < n ==> heights[i + 1] < heights[i]
    ensures heights[n] + n <= heights[0]
  {
    if n > 0 {
      Sinks(heights, n - 1);
      assert heights[n - 1 + 1] < heights[n - 1];
    }
  }

  /** Repeating one host's pass meets a pass that plans nothing, within a number of passes fixed by the
      start, whatever order and liveness each pass has and whatever its removals delete beyond aim. */
  lemma FixpointReached(depth: string -> nat, desired: set<RecordIntent>, stores: seq<set<RecordIntent>>,
          turns: seq<Turn>)
    requires IsSolo(depth, desired, stores, turns) && |turns| > Budget(stores[0], desired)
    ensures exists i :: 0 <= i < |turns| && PlanOf(stores[i], turns[i]) == Plan({}, {})
  {
    if forall i :: 0 <= i < |turns| ==> PlanOf(stores[i], turns[i]) != Plan({}, {}) {
      var heights := seq(|stores|, i requires 0 <= i < |stores| => Budget(stores[i], desired));
      forall i: nat | i < |turns|
        ensures heights[i + 1] < heights[i]
      {
        SoloClean(depth, desired, stores, turns, i);
        TurnOfSolo(depth, desired, stores, turns, i);
        PassSpends(depth, stores[i], turns[i], stores[i + 1]);
      }
      Sinks(heights, |turns|);
    }
  }

  /** No removal deletes a wanted record. */
  predicate LosesNothing(turns: seq<Turn>) {
    forall i :: 0 <= i < |turns| ==> Lost(turns[i].order, turns[i].deleted) == {}
  }

  lemma MoreClosedThanOpened(adds: set<RecordIntent>, deleted: set<RecordIntent>, lost: set<RecordIntent>)
    requires lost == {} && (adds != {} || deleted != {})
    ensures |adds| + |deleted - lost| > |lost|
  {
    assert deleted - lost == deleted;
  }

  lemma PassUsesUpDelta(depth: string -> nat, s: set<RecordIntent>, turn: Turn, t: set<RecordIntent>)
    requires Clean(s) && PassEffect(depth, s, turn, t) && Lost(turn.order, turn.deleted) == {}
    requires PlanOf(s, turn) != Plan({}, {})
    ensures |Delta(t, Elems(turn.order))| < |Delta(s, Elems(turn.order))|
  {
    var p := PlanOf(s, turn);
    assert p.adds != {} || p.removes != {};
    assert p.removes <= turn.deleted;
    MoreClosedThanOpened(p.adds, turn.deleted, Lost(turn.order, turn.deleted));
    PassProgress(turn.order, s, turn.host, turn.live, turn.deleted);
    assert t == (s - turn.deleted) + p.adds;
  }

  /** Without such losses the bound is the number of keys in which the store and the wishes differ. */
  lemma FixpointWithoutLoss(depth: string -> nat, desired: set<RecordIntent>, stores: seq<set<RecordIntent>>,
          turns: seq<Turn>)
    requires IsSolo(depth, desired, stores, turns) && LosesNothing(turns)
    requires |turns| > |Delta(stores[0], desired)|
    ensures exists i :: 0 <= i < |turns| && PlanOf(stores[i], turns[i]) == Plan({}, {})
  {
    if forall i :: 0 <= i < |turns| ==> PlanOf(stores[i], turns[i]) != Plan({}, {}) {
      var heights := seq(|stores|, i requires 0 <= i < |stores| => |Delta(stores[i], desired)|);
      forall i: nat | i < |turns|
        ensures heights[i + 1] < heights[i]
      {
        SoloClean(depth, desired, stores, turns, i);
        TurnOfSolo(depth, desired, stores, turns, i);
        PassUsesUpDelta(depth, stores[i], turns[i], stores[i + 1]);
      }
      Sinks(heights, |turns|);
    }
  }
}
