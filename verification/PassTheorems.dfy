/** What one pass guarantees on a clean store with a conflict-free desired list. */
module PassTheorems {
  import opened Domain
  import opened Graph
  import opened Validation
  import opened ReconcilePlan

  lemma LoopsMonotone(small: Links, big: Links, start: string)
    requires small <= big && Loops(small, start)
    ensures Loops(big, start)
  {
    var p :| IsTrail(small, p) && p[0] == start && !Distinct(p);
    forall i | 0 <= i < |p| - 1
      ensures Hop(big, p, i)
    {
      assert Hop(small, p, i);
    }
    assert IsTrail(big, p);
  }

  lemma LinksMonotone(small: set<RecordIntent>, big: set<RecordIntent>)
    requires small <= big
    ensures LinksOf(small) <= LinksOf(big)
  {
  }

  lemma ClosesCycleMonotone(r: Record, small: set<RecordIntent>, big: set<RecordIntent>)
    requires small <= big && !ClosesCycleIn(r, big)
    ensures !ClosesCycleIn(r, small)
  {
    LinksMonotone(small, big);
    if ClosesCycleIn(r, small) {
      LoopsMonotone(LinksOf(small) + {CnameLink(r)}, LinksOf(big) + {CnameLink(r)}, r.name);
    }
  }

  /** Why an added intent was added. */
  ghost predicate Won(d: RecordIntent, actual: set<RecordIntent>, lookup: set<RecordIntent>,
          removes: set<RecordIntent>) {
    && !Present(d, lookup)
    && Prevails(d, Rivals(d, lookup))
    && Rivals(d, lookup) <= removes
    && !ClosesCycleIn(d.record, actual - removes)
  }

  /** Why a desired intent was not added; `removes` bounds the removals made before its turn. */
  ghost predicate Refused(d: RecordIntent, actual: set<RecordIntent>, lookup: set<RecordIntent>,
          stale: set<RecordIntent>, removes: set<RecordIntent>) {
    || Present(d, lookup)
    || !Prevails(d, Rivals(d, lookup))
    || exists g :: stale <= g <= removes && ClosesCycleIn(d.record, actual - g - Rivals(d, lookup))
  }

  ghost predicate Evicted(r: RecordIntent, adds: set<RecordIntent>, lookup: set<RecordIntent>) {
    exists d :: d in adds && r in Rivals(d, lookup)
  }

  /** The state of a pass after the desired intents ds. Rules 1 to 3 of the validation refuse
      nobody: whoever reaches it has evicted all its rivals. */
  ghost predicate PlanSound(ds: set<RecordIntent>, actual: set<RecordIntent>, stale: set<RecordIntent>, p: Plan) {
    && p.adds <= ds
    && stale <= p.removes <= actual
    && (forall d :: d in p.adds ==> Won(d, actual, actual - stale, p.removes))
    && (forall r :: r in p.removes ==> r in stale || Evicted(r, p.adds, actual - stale))
    && (forall d :: d in ds && d !in p.adds ==> Refused(d, actual, actual - stale, stale, p.removes))
  }

  lemma {:induction false} PlanInvariant(ds: seq<RecordIntent>, actual: set<RecordIntent>, stale: set<RecordIntent>)
    requires stale <= actual
    ensures PlanSound(Elems(ds), actual, stale, ConsiderAll(ds, actual, actual - stale, Plan({}, stale)))
  {
    if ds != [] {
      var init, d := ds[..|ds| - 1], ds[|ds| - 1];
      PlanInvariant(init, actual, stale);
      assert Elems(ds) == Elems(init) + {d} by {
        assert ds == init + [d];
      }
      PlanStep(Elems(init), d, actual, stale, ConsiderAll(init, actual, actual - stale, Plan({}, stale)));
    }
  }

  lemma PlanStep(ds: set<RecordIntent>, d: RecordIntent, actual: set<RecordIntent>, stale: set<RecordIntent>, q: Plan)
    requires PlanSound(ds, actual, stale, q)
    ensures PlanSound(ds + {d}, actual, stale, Consider(d, actual, actual - stale, q))
  {
    var lookup := actual - stale;
    var p := Consider(d, actual, lookup, q);
    Discharged(d, actual, stale, q.removes);
    RemovesGrow(ds, actual, lookup, stale, q, p);
    if p != q {
      assert actual - p.removes == actual - q.removes - Rivals(d, lookup);
      forall r | r in p.removes
        ensures r in stale || Evicted(r, p.adds, lookup)
      {
        if r in q.removes && r !in stale {
          var e :| e in q.adds && r in Rivals(e, lookup);
          assert e in p.adds;
        }
      }
    }
  }

  /** With its rivals evicted and the stale records gone, nothing left conflicts with d. */
  lemma Discharged(d: RecordIntent, actual: set<RecordIntent>, stale: set<RecordIntent>, g: set<RecordIntent>)
    requires stale <= g
    ensures Rivals(d, actual - g - Rivals(d, actual - stale)) == {}
  {
  }

  lemma RemovesGrow(init: set<RecordIntent>, actual: set<RecordIntent>, lookup: set<RecordIntent>,
          stale: set<RecordIntent>, q: Plan, p: Plan)
    requires q.removes <= p.removes
    requires forall d :: d in q.adds ==> Won(d, actual, lookup, q.removes)
    requires forall d :: d in init && d !in q.adds ==> Refused(d, actual, lookup, stale, q.removes)
    ensures forall d :: d in q.adds ==> Won(d, actual, lookup, p.removes)
    ensures forall d :: d in init && d !in q.adds ==> Refused(d, actual, lookup, stale, p.removes)
  {
    forall d | d in q.adds
      ensures Won(d, actual, lookup, p.removes)
    {
      ClosesCycleMonotone(d.record, actual - p.removes, actual - q.removes);
    }
    forall d | d in init && d !in q.adds
      ensures Refused(d, actual, lookup, stale, p.removes)
    {
      if g :| stale <= g <= q.removes && ClosesCycleIn(d.record, actual - g - Rivals(d, lookup)) {
        assert stale <= g <= p.removes;
      }
    }
  }

  ghost function StaleIn(desired: seq<RecordIntent>, actual: set<RecordIntent>, host: string, live: Liveness)
    : (stale: set<RecordIntent>)
  {
    StaleOf(actual, Keys(Elems(desired)), host, live)
  }

  lemma PassSound(desired: seq<RecordIntent>, actual: set<RecordIntent>, host: string, live: Liveness)
    ensures PlanSound(Elems(desired), actual, StaleIn(desired, actual, host, live),
                      Reconcile(desired, actual, host, live))
  {
    PlanInvariant(desired, actual, StaleIn(desired, actual, host, live));
  }

  /** Two entries of a conflict-free list that conflict are one entry. */
  lemma SameEntry(desired: seq<RecordIntent>, d: RecordIntent, e: RecordIntent)
    requires ConflictFree(desired) && d in desired && e in desired && Conflict(d.record, e.record)
    ensures d == e
  {
    var i :| 0 <= i < |desired| && desired[i] == d;
    var j :| 0 <= j < |desired| && desired[j] == e;
    ConflictFreePair(desired, i, j);
  }

  predicate IsSibling(d: RecordIntent, c: RecordIntent) {
    d.record.IsAddress() && d.record.name == c.record.name
  }

  /** In a clean store an address meets nobody but the alias of its name. */
  lemma AliasStandsAlone(c: RecordIntent, d: RecordIntent, actual: set<RecordIntent>, lookup: set<RecordIntent>)
    requires Clean(actual) && c in lookup && lookup <= actual && c.record.kind == CNAME && IsSibling(d, c)
    ensures Rivals(d, actual) == Rivals(d, lookup) == {c}
    ensures d.Key() !in Keys(actual) && !Present(d, lookup)
  {
    forall r | r in actual && r != c
      ensures !Conflict(d.record, r.record) && r.record != d.record
    {
      assert !Conflict(c.record, r.record);
    }
  }

  /** Whatever is not wanted here and is this host's own, or of a host that is known to be gone, is removed. */
  lemma StaleIsRemoved(desired: seq<RecordIntent>, actual: set<RecordIntent>, host: string, live: Liveness,
          r: RecordIntent)
    requires r in actual && r.Key() !in Keys(Elems(desired))
    requires r.hostname == host || (live.Some? && r.hostname !in live.value)
    ensures r in Reconcile(desired, actual, host, live).removes
  {
    PassSound(desired, actual, host, live);
    assert r in StaleIn(desired, actual, host, live);
  }

  /** A record is removed only when it is nobody's wish here and its owner is this host or gone,
      or when an added record of its name beats it by force or by age. */
  lemma RemovalJustified(desired: seq<RecordIntent>, actual: set<RecordIntent>, host: string, live: Liveness,
          r: RecordIntent)
    requires CleanList(desired) && r in Reconcile(desired, actual, host, live).removes
    ensures r in actual && r.Key() !in Keys(Elems(desired))
    ensures
      || r.hostname == host
      || (live.Some? && r.hostname !in live.value)
      || exists d :: d in Reconcile(desired, actual, host, live).adds
           && Conflict(d.record, r.record) && (d.force || d.created < r.created)
  {
    PassSound(desired, actual, host, live);
    var p := Reconcile(desired, actual, host, live);
    var stale := StaleIn(desired, actual, host, live);
    if r !in stale {
      var d :| d in p.adds && r in Rivals(d, actual - stale);
      assert Won(d, actual, actual - stale, p.removes);
      assert Conflict(d.record, r.record) && (d.force || d.created < r.created);
      assert !r.Equal(d);
      if r.Key() in Keys(Elems(desired)) {
        var e :| e in Elems(desired) && e.Key() == r.Key();
        SameEntry(desired, d, e);
      }
    }
  }

  /** What becomes of each desired record when the removals delete what they aim at and perhaps more:
      it is stored already and stays; or it was stored and is deleted beyond aim; or it is added; or a
      stored record of its name stands that it does not beat; or it would close a cycle. */
  lemma DesiredOutcome(desired: seq<RecordIntent>, actual: set<RecordIntent>, host: string, live: Liveness,
          deleted: set<RecordIntent>, d: RecordIntent)
    requires CleanList(desired) && d in desired
    requires Reconcile(desired, actual, host, live).removes <= deleted <= actual
    ensures
      var p := Reconcile(desired, actual, host, live);
      || (d.Key() in Keys(actual - deleted) && d !in p.adds)
      || (d.Key() in Keys(deleted - p.removes) && d !in p.adds)
      || (d in p.adds && d.Key() !in Keys(actual))
      || (exists r :: r in actual && Conflict(d.record, r.record) && !d.force && r.created <= d.created
            && r !in StaleIn(desired, actual, host, live))
      || ClosesCycleIn(d.record, actual - Rivals(d, actual))
  {
    PassSound(desired, actual, host, live);
    var p := Reconcile(desired, actual, host, live);
    var stale := StaleIn(desired, actual, host, live);
    var lookup := actual - stale;
    if d in p.adds {
      AddedIsNew(desired, actual, host, live, d);
    } else if r :| r in lookup && r.Equal(d) {
      assert r.Key() == d.Key() && d in Elems(desired);
      assert r.Key() in Keys(Elems(desired));
      if r in p.removes {
        RemovalJustified(desired, actual, host, live, r);
      }
      assert r in actual - deleted || r in deleted - p.removes;
    } else if Prevails(d, Rivals(d, lookup)) {
      var g :| stale <= g <= p.removes && ClosesCycleIn(d.record, actual - g - Rivals(d, lookup));
      if !ClosesCycleIn(d.record, actual - Rivals(d, actual)) {
        ClosesCycleMonotone(d.record, actual - g - Rivals(d, lookup), actual - Rivals(d, actual));
      }
    }
  }

  /** A pass keeps the store clean. */
  lemma PassKeepsClean(desired: seq<RecordIntent>, actual: set<RecordIntent>, host: string, live: Liveness)
    requires CleanList(desired) && Clean(actual)
    ensures Clean(Apply(actual, Reconcile(desired, actual, host, live)))
  {
    PassSound(desired, actual, host, live);
    var p := Reconcile(desired, actual, host, live);
    var lookup := actual - StaleIn(desired, actual, host, live);
    var after := Apply(actual, p);
    forall d, x | d in p.adds && x in after && d != x
      ensures !Conflict(d.record, x.record) && !Conflict(x.record, d.record)
    {
      assert Won(d, actual, lookup, p.removes);
      if x in p.adds {
        if Conflict(d.record, x.record) {
          SameEntry(desired, d, x);
        }
      } else {
        assert x in lookup && x !in Rivals(d, lookup);
      }
    }
  }

  /** The keys on which the store and the desired list differ. */
  function Delta(actual: set<RecordIntent>, desired: set<RecordIntent>): set<IntentKey> {
    (Keys(actual) - Keys(desired)) + (Keys(desired) - Keys(actual))
  }

  lemma {:induction false} KeysCount(s: set<RecordIntent>)
    requires Clean(s)
    ensures |Keys(s)| == |s|
  {
    if x :| x in s {
      KeysCount(s - {x});
      forall y | y in s && y.Key() == x.Key()
        ensures y == x
      {
        UniqueKeys(s, x, y);
      }
      assert Keys(s) == Keys(s - {x}) + {x.Key()};
    }
  }

  lemma KeysMinus(s: set<RecordIntent>, t: set<RecordIntent>)
    requires Clean(s) && t <= s
    ensures Keys(s - t) == Keys(s) - Keys(t)
  {
    forall x | x in s - t
      ensures x.Key() !in Keys(t)
    {
      if y :| y in t && y.Key() == x.Key() {
        UniqueKeys(s, x, y);
      }
    }
  }

  lemma DifferenceStep<T>(a: set<T>, d: set<T>, add: set<T>, remove: set<T>, lost: set<T>, b: set<T>)
    requires remove <= a - d && lost <= a * d && add <= d - a && b == (a - (remove + lost)) + add
    ensures a - d == (b - d) + remove && (b - d) !! remove
    ensures (d - a) + lost == (d - b) + add && (d - a) !! lost && (d - b) !! add
  {
  }

  lemma SymmetricDifferenceStep<T>(a: set<T>, d: set<T>, add: set<T>, remove: set<T>, lost: set<T>)
    requires remove <= a - d && lost <= a * d && add <= d - a
    ensures
      var b := (a - (remove + lost)) + add;
      |(b - d) + (d - b)| + |add| + |remove| == |(a - d) + (d - a)| + |lost|
  {
    var b := (a - (remove + lost)) + add;
    DifferenceStep(a, d, add, remove, lost, b);
    DisjointSum(a - d, d - a);
    DisjointSum(b - d, d - b);
    DisjointSum(b - d, remove);
    DisjointSum(d - a, lost);
    DisjointSum(d - b, add);
  }

  lemma DisjointSum<T>(a: set<T>, b: set<T>)
    requires a !! b
    ensures |a + b| == |a| + |b|
  {
  }

  lemma AddedIsNew(desired: seq<RecordIntent>, actual: set<RecordIntent>, host: string, live: Liveness, d: RecordIntent)
    requires d in Reconcile(desired, actual, host, live).adds
    ensures d in desired && d.Key() !in Keys(actual)
  {
    PassSound(desired, actual, host, live);
    var stale := StaleIn(desired, actual, host, live);
    assert Won(d, actual, actual - stale, Reconcile(desired, actual, host, live).removes);
    if d.Key() in Keys(actual) {
      var r :| r in actual && r.Key() == d.Key();
      assert d.Key() in Keys(Elems(desired));
      assert r in actual - stale && r.Equal(d);
    }
  }

  lemma PlanKeys(desired: seq<RecordIntent>, actual: set<RecordIntent>, host: string, live: Liveness)
    requires CleanList(desired)
    ensures
      var p := Reconcile(desired, actual, host, live);
      && Keys(p.removes) <= Keys(actual) - Keys(Elems(desired))
      && Keys(p.adds) <= Keys(Elems(desired)) - Keys(actual)
  {
    var p := Reconcile(desired, actual, host, live);
    forall r | r in p.removes
      ensures r.Key() !in Keys(Elems(desired)) && r.Key() in Keys(actual)
    {
      RemovalJustified(desired, actual, host, live, r);
    }
    forall d | d in p.adds
      ensures d.Key() in Keys(Elems(desired)) && d.Key() !in Keys(actual)
    {
      AddedIsNew(desired, actual, host, live, d);
      assert d in Elems(desired);
    }
  }

  /** The deleted records that are wanted: never aimed at, but perhaps hit. */
  function Lost(desired: seq<RecordIntent>, deleted: set<RecordIntent>): set<RecordIntent> {
    set x | x in deleted && x.Key() in Keys(Elems(desired))
  }

  lemma PlanCounts(desired: seq<RecordIntent>, actual: set<RecordIntent>, host: string, live: Liveness,
          deleted: set<RecordIntent>)
    requires CleanList(desired) && Clean(actual)
    requires Reconcile(desired, actual, host, live).removes <= deleted <= actual
    ensures
      var p := Reconcile(desired, actual, host, live);
      && |Keys(p.adds)| == |p.adds|
      && Keys((actual - deleted) + p.adds) == (Keys(actual) - Keys(deleted)) + Keys(p.adds)
  {
    PassSound(desired, actual, host, live);
    var p := Reconcile(desired, actual, host, live);
    ConflictFreeWellFormed(desired);
    KeysCount(p.adds);
    KeysMinus(actual, deleted);
    KeysPlus(actual - deleted, p.adds);
  }

  lemma LostCounts(desired: seq<RecordIntent>, actual: set<RecordIntent>, deleted: set<RecordIntent>)
    requires Clean(actual) && deleted <= actual
    ensures
      var lost := Lost(desired, deleted);
      && |Keys(lost)| == |lost| && |Keys(deleted - lost)| == |deleted - lost|
      && Keys(lost) <= Keys(actual) * Keys(Elems(desired))
      && Keys(deleted - lost) <= Keys(actual) - Keys(Elems(desired))
      && Keys(deleted) == Keys(deleted - lost) + Keys(lost)
  {
    var lost := Lost(desired, deleted);
    LostKeys(desired, actual, deleted, lost);
    PartsCount(actual, deleted, lost);
  }

  lemma PartsCount(actual: set<RecordIntent>, deleted: set<RecordIntent>, lost: set<RecordIntent>)
    requires Clean(actual) && lost <= deleted <= actual
    ensures |Keys(lost)| == |lost| && |Keys(deleted - lost)| == |deleted - lost|
    ensures Keys(deleted) == Keys(deleted - lost) + Keys(lost)
  {
    PartCount(actual, lost);
    PartCount(actual, deleted - lost);
    KeysPlus(deleted - lost, lost);
    assert (deleted - lost) + lost == deleted;
  }

  lemma PartCount(s: set<RecordIntent>, part: set<RecordIntent>)
    requires Clean(s) && part <= s
    ensures |Keys(part)| == |part|
  {
    KeysCount(part);
  }

  lemma LostKeys(desired: seq<RecordIntent>, actual: set<RecordIntent>, deleted: set<RecordIntent>,
          lost: set<RecordIntent>)
    requires deleted <= actual && lost == Lost(desired, deleted)
    ensures Keys(lost) <= Keys(actual) * Keys(Elems(desired))
    ensures Keys(deleted - lost) <= Keys(actual) - Keys(Elems(desired))
  {
  }

  lemma KeysPlus(s: set<RecordIntent>, t: set<RecordIntent>)
    ensures Keys(s + t) == Keys(s) + Keys(t)
  {
  }

  /** Conservation: every addition and every deletion of an unwanted record closes one difference, and
      every wanted record deleted beyond aim opens one; whatever is aimed at is unwanted. */
  lemma PassProgress(desired: seq<RecordIntent>, actual: set<RecordIntent>, host: string, live: Liveness,
          deleted: set<RecordIntent>)
    requires CleanList(desired) && Clean(actual)
    requires Reconcile(desired, actual, host, live).removes <= deleted <= actual
    ensures
      var p := Reconcile(desired, actual, host, live);
      var lost := Lost(desired, deleted);
      && p.removes <= deleted - lost
      && |Delta((actual - deleted) + p.adds, Elems(desired))| + |p.adds| + |deleted - lost| ==
         |Delta(actual, Elems(desired))| + |lost|
  {
    var p := Reconcile(desired, actual, host, live);
    var lost := Lost(desired, deleted);
    PlanKeys(desired, actual, host, live);
    PlanCounts(desired, actual, host, live, deleted);
    LostCounts(desired, actual, deleted);
    assert forall r :: r in p.removes ==> r.Key() in Keys(p.removes);
    SymmetricDifferenceStep(Keys(actual), Keys(Elems(desired)), Keys(p.adds), Keys(deleted - lost), Keys(lost));
  }

  /** One desired intent would change a store that has no stale record. */
  ghost predicate Moves(d: RecordIntent, store: set<RecordIntent>) {
    !Present(d, store) && Prevails(d, Rivals(d, store)) && Admissible(d, store - Rivals(d, store))
  }

  /** A pass changes nothing exactly when no stored record is stale and no desired intent moves:
      a condition in which the order of the desired list does not appear. */
  lemma {:induction false} QuietPass(ds: seq<RecordIntent>, actual: set<RecordIntent>)
    ensures ConsiderAll(ds, actual, actual, Plan({}, {})) == Plan({}, {}) <==> forall d :: d in ds ==> !Moves(d, actual)
  {
    if ds != [] {
      var init, d := ds[..|ds| - 1], ds[|ds| - 1];
      assert ds == init + [d];
      QuietPass(init, actual);
      assert actual - {} == actual;
      var q := ConsiderAll(init, actual, actual, Plan({}, {}));
      if q == Plan({}, {}) {
        assert Consider(d, actual, actual, q) == q <==> !Moves(d, actual);
      } else {
        PlanInvariant(init, actual, {});
        assert actual - {} == actual;
        NonEmptyAdds(init, actual);
      }
    }
  }

  lemma NonEmptyAdds(init: seq<RecordIntent>, actual: set<RecordIntent>)
    requires ConsiderAll(init, actual, actual, Plan({}, {})) != Plan({}, {})
    ensures ConsiderAll(init, actual, actual, Plan({}, {})).adds != {}
  {
    assert actual - {} == actual;
    PlanInvariant(init, actual, {});
    var q := ConsiderAll(init, actual, actual, Plan({}, {}));
    if r :| r in q.removes {
      assert Evicted(r, q.adds, actual);
    }
  }

  lemma QuietReconcile(desired: seq<RecordIntent>, actual: set<RecordIntent>, host: string, live: Liveness)
    ensures Reconcile(desired, actual, host, live) == Plan({}, {}) <==>
            StaleIn(desired, actual, host, live) == {} && forall d :: d in desired ==> !Moves(d, actual)
  {
    var stale := StaleIn(desired, actual, host, live);
    PassSound(desired, actual, host, live);
    if stale == {} {
      assert actual - stale == actual;
      QuietPass(desired, actual);
    }
  }

  /** One quiet pass settles the matter: every later pass over any order of the same desired
      intents is quiet too. */
  lemma QuietIsFinal(desired: seq<RecordIntent>, again: seq<RecordIntent>, actual: set<RecordIntent>, host: string,
          live: Liveness)
    requires Elems(desired) == Elems(again)
    requires Reconcile(desired, actual, host, live) == Plan({}, {})
    ensures Reconcile(again, actual, host, live) == Plan({}, {})
  {
    QuietReconcile(desired, actual, host, live);
    QuietReconcile(again, actual, host, live);
    assert forall d :: d in again ==> d in Elems(desired);
  }
}
