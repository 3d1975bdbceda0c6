/** Why the validation inside a pass can refuse a record for an alias cycle only. */
module Discharge {
  import opened Domain
  import opened Validation
  import opened ReconcilePlan
  import opened PassTheorems
  import opened Reconciliation

  lemma NoRivalNoClash(d: RecordIntent, xs: seq<RecordIntent>, s: set<RecordIntent>)
    requires Elems(xs) == s && Rivals(d, s) == {}
    ensures !Clashes(d.record, xs)
  {
    forall i | 0 <= i < |xs|
      ensures !Conflict(d.record, xs[i].record)
    {
      assert xs[i] in s && xs[i] !in Rivals(d, s);
    }
  }

  lemma KeysOfUnion(s: set<RecordIntent>, t: set<RecordIntent>)
    ensures Keys(s + t) == Keys(s) + Keys(t)
  {
  }

  /** Eviction discharges the other rules: on a clean listing, once the rivals of d in the lookup are
      evicted along with what has been removed so far, no rule but the cycle rule can refuse d, and
      that rule decides whether d is admissible in the store that remains. */
  lemma OnlyCyclesRefuse(d: RecordIntent, actual: seq<RecordIntent>, stale: set<RecordIntent>,
          removed: set<RecordIntent>)
    requires CleanList(actual) && stale <= removed <= Elems(actual)
    ensures
      var evicted := Rivals(d, Elems(actual) - stale);
      var simulated := Without(actual, Keys(removed) + Keys(evicted));
      && !Clashes(d.record, simulated)
      && (ClosesCycle(d.record, simulated) <==> !Admissible(d, Elems(actual) - removed - evicted))
  {
    var evicted := Rivals(d, Elems(actual) - stale);
    KeysOfUnion(removed, evicted);
    WithoutIsMinus(actual, removed + evicted);
    Discharged(d, Elems(actual), stale, removed);
    assert Elems(actual) - (removed + evicted) == Elems(actual) - removed - evicted;
    NoRivalNoClash(d, Without(actual, Keys(removed) + Keys(evicted)), Elems(actual) - removed - evicted);
    ValidationIsAdmissible(d, Without(actual, Keys(removed) + Keys(evicted)));
  }
}
