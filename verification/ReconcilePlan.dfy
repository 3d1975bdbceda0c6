/** What one reconciliation pass decides, said on sets of intents: a desired intent is set against
    all its rivals at once, whatever kinds they have. */
module ReconcilePlan {
  import opened Domain
  import opened Graph
  import opened Validation

  /** The live hosts, or None when cross-host garbage collection is off. */
  type Liveness = Option<set<string>>

  predicate Clean(store: set<RecordIntent>) {
    WellFormed(store) && AllSupported(store)
  }

  predicate CleanList(xs: seq<RecordIntent>) {
    ConflictFree(xs) && AllSupported(Elems(xs))
  }

  /** Undesired, and either this host's own or orphaned by a host known to be gone. */
  predicate IsStale(r: RecordIntent, wanted: set<IntentKey>, host: string, live: Liveness) {
    r.Key() !in wanted && (r.hostname == host || (live.Some? && r.hostname !in live.value))
  }

  function StaleOf(actual: set<RecordIntent>, wanted: set<IntentKey>, host: string, live: Liveness): set<RecordIntent> {
    set r | r in actual && IsStale(r, wanted, host, live)
  }

  /** The stored records that cannot stay if d is stored. */
  function Rivals(d: RecordIntent, lookup: set<RecordIntent>): set<RecordIntent> {
    set r | r in lookup && Conflict(d.record, r.record)
  }

  predicate Present(d: RecordIntent, lookup: set<RecordIntent>) {
    exists r :: r in lookup && r.Equal(d)
  }

  /** By force or by age. The force of the record that is stored does not protect it. */
  predicate Beats(d: RecordIntent, e: RecordIntent) {
    d.force || d.created < e.created
  }

  /** Eviction by force or by age: a forced intent always wins, even over a forced one. */
  predicate Prevails(d: RecordIntent, rivals: set<RecordIntent>) {
    d.force || forall r :: r in rivals ==> d.created < r.created
  }

  ghost predicate ClosesCycleIn(r: Record, store: set<RecordIntent>) {
    r.kind == CNAME && Loops(LinksOf(store) + {CnameLink(r)}, r.name)
  }

  /** What ValidateRecord accepts, on a well-formed store. */
  ghost predicate Admissible(d: RecordIntent, store: set<RecordIntent>) {
    Rivals(d, store) == {} && !ClosesCycleIn(d.record, store)
  }

  datatype Plan = Plan(adds: set<RecordIntent>, removes: set<RecordIntent>)

  /** One desired intent. The lookup is never updated; the removals so far are. */
  ghost function Consider(d: RecordIntent, actual: set<RecordIntent>, lookup: set<RecordIntent>, plan: Plan): Plan {
    var rivals := Rivals(d, lookup);
    if Present(d, lookup) || !Prevails(d, rivals) || !Admissible(d, actual - plan.removes - rivals) then plan
    else Plan(plan.adds + {d}, plan.removes + rivals)
  }

  ghost function ConsiderAll(ds: seq<RecordIntent>, actual: set<RecordIntent>, lookup: set<RecordIntent>,
          start: Plan): Plan {
    if ds == [] then start
    else Consider(ds[|ds| - 1], actual, lookup, ConsiderAll(ds[..|ds| - 1], actual, lookup, start))
  }

  /** The whole pass. */
  ghost function Reconcile(desired: seq<RecordIntent>, actual: set<RecordIntent>, host: string, live: Liveness): Plan {
    var stale := StaleOf(actual, Keys(Elems(desired)), host, live);
    ConsiderAll(desired, actual, actual - stale, Plan({}, stale))
  }

  /** The store once the pass has been applied. */
  ghost function Apply(actual: set<RecordIntent>, plan: Plan): set<RecordIntent> {
    (actual - plan.removes) + plan.adds
  }

  lemma UniqueKeys(store: set<RecordIntent>, x: RecordIntent, y: RecordIntent)
    requires Clean(store) && x in store && y in store && x.record == y.record
    ensures x == y
  {
    assert Conflict(x.record, y.record);
  }

  lemma PairsAfter(m: map<string, string>, k: string, v: string)
    requires k !in m
    ensures Pairs(m[k := v]) == Pairs(m) + {(k, v)}
  {
    var m' := m[k := v];
    forall e | e in Pairs(m) + {(k, v)}
      ensures e in Pairs(m')
    {
      if e == (k, v) {
        assert k in m' && e == (k, m'[k]);
      } else {
        var j :| j in m && e == (j, m[j]);
        assert j in m' && e == (j, m'[j]);
      }
    }
  }

  lemma LinksOneMore(store: set<RecordIntent>, x: RecordIntent)
    ensures LinksOf(store + {x}) ==
            if x.record.kind == CNAME then LinksOf(store) + {CnameLink(x.record)} else LinksOf(store)
  {
  }

  lemma {:induction false} NoAliasNoForward(xs: seq<RecordIntent>, r: Record)
    requires r.kind == CNAME && forall i :: 0 <= i < |xs| ==> !Conflict(r, xs[i].record)
    ensures r.name !in Forward(xs)
  {
    if xs != [] {
      var init := xs[..|xs| - 1];
      forall i | 0 <= i < |init|
        ensures !Conflict(r, init[i].record)
      {
        assert init[i] == xs[i];
      }
      NoAliasNoForward(init, r);
      assert !Conflict(r, xs[|xs| - 1].record);
    }
  }

  /** On a clean listing the successor map of the cycle walk is exactly the alias graph. */
  lemma {:induction false} ForwardIsLinks(xs: seq<RecordIntent>)
    requires ConflictFree(xs)
    ensures Pairs(Forward(xs)) == LinksOf(Elems(xs))
  {
    if xs != [] {
      var init, last := xs[..|xs| - 1], xs[|xs| - 1];
      assert Elems(xs) == Elems(init) + {last} by {
        assert xs == init + [last];
      }
      ForwardIsLinks(init);
      LinksOneMore(Elems(init), last);
      var r := last.record;
      if r.kind == CNAME {
        forall i | 0 <= i < |init|
          ensures !Conflict(r, init[i].record)
        {
          assert !Conflict(xs[i].record, xs[|xs| - 1].record);
        }
        NoAliasNoForward(init, r);
        PairsAfter(Forward(init), r.name, r.value);
      }
    }
  }

  /** On a clean listing ValidateRecord's verdict is admissibility in the store it lists. */
  lemma ValidationIsAdmissible(d: RecordIntent, xs: seq<RecordIntent>)
    requires CleanList(xs)
    ensures !Clashes(d.record, xs) && !ClosesCycle(d.record, xs) <==> Admissible(d, Elems(xs))
  {
    var r := d.record;
    assert Clashes(r, xs) <==> Rivals(d, Elems(xs)) != {} by {
      if Clashes(r, xs) {
        var i :| 0 <= i < |xs| && Conflict(r, xs[i].record);
        assert xs[i] in Rivals(d, Elems(xs));
      }
      if x :| x in Rivals(d, Elems(xs)) {
        var i :| 0 <= i < |xs| && xs[i] == x;
      }
    }
    if !Clashes(r, xs) && r.kind == CNAME {
      ForwardIsLinks(xs);
      NoAliasNoForward(xs, r);
      PairsAfter(Forward(xs), r.name, r.value);
    }
  }

  /** The cycle rule is exact: on a clean, acyclic listing a CNAME that passes the other rules is
      refused for a cycle if and only if storing it would close one. */
  lemma CycleCheckExact(d: RecordIntent, xs: seq<RecordIntent>)
    requires CleanList(xs) && !HasCycle(LinksOf(Elems(xs)))
    requires d.record.kind == CNAME && !Clashes(d.record, xs)
    ensures ClosesCycle(d.record, xs) <==> HasCycle(LinksOf(Elems(xs) + {d}))
  {
    ValidationIsAdmissible(d, xs);
    assert Rivals(d, Elems(xs)) == {} by {
      forall x | x in Elems(xs)
        ensures !Conflict(d.record, x.record)
      {
        var i :| 0 <= i < |xs| && xs[i] == x;
      }
    }
    assert LinksOf(Elems(xs) + {d}) == LinksOf(Elems(xs)) + {CnameLink(d.record)};
    NewEdgeExact(LinksOf(Elems(xs)), d.record.name, d.record.value);
  }
}
