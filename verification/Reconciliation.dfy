/** The diff of the desired records against the stored ones, as the source computes it: an index,
    a branch per kind, evictions, a simulated store and a validation for each desired record. */
module Reconciliation {
  import opened Domain
  import opened Graph
  import opened Validation
  import opened NestedRecordMaps
  import opened ReconcilePlan
  import opened PassTheorems

  type ByKey = map<IntentKey, RecordIntent>

  /** The map holds, under its key, one intent of s for every key s has. */
  ghost predicate KeyedBy(m: ByKey, s: set<RecordIntent>) {
    m.Keys == Keys(s) && forall k :: k in m ==> m[k] in s && m[k].Key() == k
  }

  lemma KeyedValues(m: ByKey, s: set<RecordIntent>)
    requires KeyedBy(m, s) && Clean(s)
    ensures m.Values == s
  {
    forall x | x in s
      ensures x in m.Values
    {
      assert x.Key() in m;
      UniqueKeys(s, x, m[x.Key()]);
    }
  }

  lemma KeyedAdd(m: ByKey, s: set<RecordIntent>, x: RecordIntent)
    requires KeyedBy(m, s)
    ensures KeyedBy(m[x.Key() := x], s + {x})
  {
  }

  lemma KeyedMerge(m: ByKey, s: set<RecordIntent>, n: ByKey, t: set<RecordIntent>)
    requires KeyedBy(m, s) && KeyedBy(n, t)
    ensures KeyedBy(m + n, s + t)
  {
    assert (m + n).Keys == Keys(s + t);
  }

  /** Every entry sits under its own key. */
  ghost predicate Keyed(m: ByKey) {
    forall k :: k in m ==> m[k].Key() == k
  }

  lemma KeyedByValues(m: ByKey)
    requires Keyed(m)
    ensures KeyedBy(m, m.Values)
  {
    assert forall k :: k in m ==> m[k] in m.Values;
  }

  lemma KeyedPart(m: ByKey, part: set<RecordIntent>, s: set<RecordIntent>)
    requires KeyedBy(m, part) && part <= s
    ensures Keyed(m) && m.Values <= s
    ensures Clean(s) ==> m.Values == part
  {
    if Clean(s) {
      KeyedValues(m, part);
    }
  }

  /** The intents under their keys; of several with one key the last stays. */
  method EvictAll(rs: seq<RecordIntent>, ghost s: set<RecordIntent>) returns (evictions: ByKey)
    requires Elems(rs) <= s
    ensures Keyed(evictions) && evictions.Values <= s
    ensures evictions.Keys == Keys(Elems(rs))
    ensures Clean(s) ==> evictions.Values == Elems(rs)
  {
    evictions := map[];
    for i := 0 to |rs|
      invariant KeyedBy(evictions, Elems(rs[..i]))
    {
      KeyedAdd(evictions, Elems(rs[..i]), rs[i]);
      assert Elems(rs[..i + 1]) == Elems(rs[..i]) + {rs[i]};
      evictions := evictions[rs[i].Key() := rs[i]];
    }
    assert rs[..|rs|] == rs;
    KeyedPart(evictions, Elems(rs), s);
  }

  lemma EvictOne(r: RecordIntent, s: set<RecordIntent>)
    requires r in s
    ensures var m: ByKey := map[r.Key() := r]; Keyed(m) && m.Values == {r} <= s
  {
    var m: ByKey := map[r.Key() := r];
    assert r.Key() in m && m[r.Key()] == r;
  }

  lemma UnsupportedDecides(d: RecordIntent, s: set<RecordIntent>)
    requires d.record.kind.Other?
    ensures Judges(d, s, true, {}) && (Clean(s) ==> Decides(d, s, true, {}))
  {
    assert Rivals(d, s) == {} && Keys(Rivals(d, s)) == {};
  }

  /** The listing without the entries whose key is to be removed. */
  function Without(xs: seq<RecordIntent>, keys: set<IntentKey>): (rest: seq<RecordIntent>)
    ensures forall x :: x in rest <==> x in xs && x.Key() !in keys
    ensures ConflictFree(xs) ==> ConflictFree(rest)
  {
    if xs == [] then []
    else
      var init, last := xs[..|xs| - 1], xs[|xs| - 1];
      assert xs == init + [last];
      var before := Without(init, keys);
      assert forall x :: x in before ==> x in init;
      assert ConflictFree(xs) ==> forall i :: 0 <= i < |init| ==> !Conflict(init[i].record, last.record) by {
        if ConflictFree(xs) {
          forall i | 0 <= i < |init|
            ensures !Conflict(init[i].record, last.record)
          {
            assert !Conflict(xs[i].record, xs[|xs| - 1].record);
          }
        }
      }
      assert forall i :: 0 <= i < |before| ==> before[i] in init;
      if last.Key() in keys then before else before + [last]
  }

  lemma WithoutOneMore(xs: seq<RecordIntent>, i: nat, keys: set<IntentKey>)
    requires i < |xs|
    ensures Without(xs[..i + 1], keys) ==
            if xs[i].Key() in keys then Without(xs[..i], keys) else Without(xs[..i], keys) + [xs[i]]
  {
    var more := xs[..i + 1];
    assert more != [] && more[|more| - 1] == xs[i] && more[..|more| - 1] == xs[..i];
  }

  method Simulate(actual: seq<RecordIntent>, gone: ByKey, evictions: ByKey) returns (simulated: seq<RecordIntent>)
    ensures simulated == Without(actual, gone.Keys + evictions.Keys)
  {
    simulated := [];
    ghost var keys := gone.Keys + evictions.Keys;
    for i := 0 to |actual|
      invariant simulated == Without(actual[..i], keys)
    {
      WithoutOneMore(actual, i, keys);
      var key := actual[i].Key();
      if key !in gone && key !in evictions {
        simulated := simulated + [actual[i]];
      }
    }
    assert actual[..|actual|] == actual;
  }

  /** The intents an index holds are those of s, each under its own record. */
  ghost predicate IndexedBy(flat: map<Record, RecordIntent>, s: set<RecordIntent>) {
    && (forall r :: r in flat ==> flat[r] in s && flat[r].record == r)
    && (forall x :: x in s ==> x.record in flat)
  }

  lemma IndexedValues(flat: map<Record, RecordIntent>, s: set<RecordIntent>)
    requires IndexedBy(flat, s) && Clean(s)
    ensures flat.Values == s
    ensures forall x :: x in s ==> flat[x.record] == x
  {
    forall x | x in s
      ensures x in flat.Values && flat[x.record] == x
    {
      UniqueKeys(s, x, flat[x.record]);
    }
  }

  /** Step 1: stale records go to the removal map, all others into the lookup. */
  method SplitActual(actual: seq<RecordIntent>, wanted: set<IntentKey>, hostname: string, live: Liveness)
    returns (toRemove: ByKey, lookup: NestedRecordMap)
    ensures fresh(lookup) && fresh(lookup.names) && lookup.Valid()
    ensures KeyedBy(toRemove, StaleOf(Elems(actual), wanted, hostname, live))
    ensures forall r :: r in actual && r.Key() !in wanted ==>
              (r.Key() in toRemove <==> r.hostname == hostname || (live.Some? && r.hostname !in live.value))
    ensures IndexedBy(lookup.flat, Elems(actual) - StaleOf(Elems(actual), wanted, hostname, live))
  {
    toRemove := map[];
    lookup := new NestedRecordMap();
    for i := 0 to |actual|
      invariant fresh(lookup) && fresh(lookup.names) && lookup.Valid()
      invariant KeyedBy(toRemove, StaleOf(Elems(actual[..i]), wanted, hostname, live))
      invariant IndexedBy(lookup.flat, Elems(actual[..i]) - StaleOf(Elems(actual[..i]), wanted, hostname, live))
    {
      var ri := actual[i];
      ghost var sofar := Elems(actual[..i]);
      assert Elems(actual[..i + 1]) == sofar + {ri};
      if ri.Key() !in wanted {
        if ri.hostname == hostname {
          KeyedAdd(toRemove, StaleOf(sofar, wanted, hostname, live), ri);
          assert StaleOf(sofar + {ri}, wanted, hostname, live) == StaleOf(sofar, wanted, hostname, live) + {ri};
          toRemove := toRemove[ri.Key() := ri];
          continue;
        } else if live.Some? {
          if ri.hostname !in live.value {
            KeyedAdd(toRemove, StaleOf(sofar, wanted, hostname, live), ri);
            assert StaleOf(sofar + {ri}, wanted, hostname, live) == StaleOf(sofar, wanted, hostname, live) + {ri};
            toRemove := toRemove[ri.Key() := ri];
            continue;
          }
        }
      }
      assert StaleOf(sofar + {ri}, wanted, hostname, live) == StaleOf(sofar, wanted, hostname, live);
      lookup.Put(ri);
    }
    assert actual[..|actual|] == actual;
  }

  ghost function WithKind(s: set<RecordIntent>, name: string, kind: RecordKind): set<RecordIntent> {
    set x | x in s && x.record.name == name && x.record.kind == kind
  }

  lemma AtNameKindIsWithKind(flat: map<Record, RecordIntent>, s: set<RecordIntent>, name: string, kind: RecordKind)
    requires IndexedBy(flat, s) && Clean(s)
    ensures AtNameKind(flat, name, kind) == WithKind(s, name, kind)
  {
    IndexedValues(flat, s);
    forall x | x in WithKind(s, name, kind)
      ensures x in AtNameKind(flat, name, kind)
    {
      assert x.record in flat && flat[x.record] == x;
    }
  }

  /** In a clean store a name has one CNAME, or addresses: so one branch of the switch sees all
      rivals of an address. */
  lemma AddressRivals(d: RecordIntent, s: set<RecordIntent>)
    requires Clean(s) && d.record.IsAddress()
    ensures forall c :: c in WithKind(s, d.record.name, CNAME) ==> Rivals(d, s) == {c} && !c.Equal(d)
    ensures forall r :: r in s && r.record == d.record ==> Rivals(d, s) == {r}
    ensures WithKind(s, d.record.name, CNAME) == {} && (forall r :: r in s ==> r.record != d.record) ==>
              Rivals(d, s) == {}
  {
    forall x | x in Rivals(d, s)
      ensures x.record == d.record || x in WithKind(s, d.record.name, CNAME)
    {
    }
  }

  lemma CnameRivals(d: RecordIntent, s: set<RecordIntent>)
    requires Clean(s) && d.record.kind == CNAME
    ensures
      var addresses := WithKind(s, d.record.name, A) + WithKind(s, d.record.name, AAAA);
      && (addresses != {} ==> Rivals(d, s) == addresses && forall r :: r in addresses ==> !r.Equal(d))
      && (addresses == {} ==> Rivals(d, s) == WithKind(s, d.record.name, CNAME))
      && (addresses == {} ==> forall c, x :: c in Rivals(d, s) && x in Rivals(d, s) ==> c == x)
  {
    var addresses := WithKind(s, d.record.name, A) + WithKind(s, d.record.name, AAAA);
    forall x | x in Rivals(d, s)
      ensures x in addresses || x in WithKind(s, d.record.name, CNAME)
    {
    }
  }

  /** The verdict on one desired intent, and what its admission evicts. */
  ghost predicate Decides(d: RecordIntent, s: set<RecordIntent>, proceed: bool, evicted: set<RecordIntent>) {
    && (proceed <==> !Present(d, s) && Prevails(d, Rivals(d, s)))
    && (proceed ==> evicted == Rivals(d, s))
  }

  lemma SoleRival(d: RecordIntent, s: set<RecordIntent>, c: RecordIntent)
    requires d.record.Supported() && Rivals(d, s) == {c}
    ensures Present(d, s) <==> c.Equal(d)
    ensures Prevails(d, Rivals(d, s)) <==> d.force || d.created < c.created
  {
    assert c in Rivals(d, s);
    assert forall r :: r in s && r.Equal(d) ==> r in Rivals(d, s);
  }

  lemma NoneEqual(d: RecordIntent, s: set<RecordIntent>)
    requires d.record.Supported() && forall r :: r in Rivals(d, s) ==> !r.Equal(d)
    ensures !Present(d, s)
  {
    assert forall r :: r in s && r.Equal(d) ==> r in Rivals(d, s);
  }

  /** What the lookups of an address show of its rivals. */
  lemma AddressVerdict(d: RecordIntent, flat: map<Record, RecordIntent>, s: set<RecordIntent>,
          cnames: seq<RecordIntent>, same: Option<RecordIntent>)
    requires IndexedBy(flat, s) && Clean(s) && d.record.IsAddress()
    requires Elems(cnames) == AtNameKind(flat, d.record.name, CNAME)
    requires same == if d.record in flat then Some(flat[d.record]) else None
    ensures cnames != [] ==>
              Rivals(d, s) == Elems(cnames) && !Present(d, s)
              && (Prevails(d, Rivals(d, s)) <==> d.force || d.created < cnames[0].created)
    ensures cnames == [] && same.Some? ==>
              Rivals(d, s) == {same.value} && (Present(d, s) <==> same.value.Equal(d))
              && (Prevails(d, Rivals(d, s)) <==> d.force || d.created < same.value.created)
    ensures cnames == [] && same.None? ==> Rivals(d, s) == {} && !Present(d, s)
  {
    AtNameKindIsWithKind(flat, s, d.record.name, CNAME);
    AddressRivals(d, s);
    IndexedValues(flat, s);
    if cnames != [] {
      assert cnames[0] in Elems(cnames);
      SoleRival(d, s, cnames[0]);
      OnlyElement(cnames, d, s);
    } else if same.Some? {
      SoleRival(d, s, same.value);
    } else {
      NoneEqual(d, s);
    }
  }

  lemma OnlyElement(cnames: seq<RecordIntent>, d: RecordIntent, s: set<RecordIntent>)
    requires cnames != [] && forall c :: c in Elems(cnames) ==> Rivals(d, s) == {c}
    ensures Elems(cnames) == Rivals(d, s)
  {
    assert cnames[0] in Elems(cnames);
    forall c | c in Elems(cnames)
      ensures c == cnames[0]
    {
      assert c in {cnames[0]};
    }
  }

  /** Two stored rivals of d are in each other's way: the listing has a conflict at the name of d. */
  ghost predicate Clashing(d: RecordIntent, s: set<RecordIntent>) {
    exists x, y :: x in Rivals(d, s) && y in Rivals(d, s) && x.Key() != y.Key() && Conflict(x.record, y.record)
  }

  /** d is stored, or meets a rival that it does not beat. */
  ghost predicate Outdone(d: RecordIntent, s: set<RecordIntent>) {
    Present(d, s) || exists r :: r in Rivals(d, s) && !Beats(d, r)
  }

  /** d has no rival, or beats one. */
  ghost predicate Earned(d: RecordIntent, s: set<RecordIntent>) {
    Rivals(d, s) == {} || exists r :: r in Rivals(d, s) && Beats(d, r)
  }

  /** The verdict on one desired intent in any listing. */
  ghost predicate Judges(d: RecordIntent, s: set<RecordIntent>, proceed: bool, evicted: set<IntentKey>) {
    && (!proceed ==> Outdone(d, s))
    && (proceed ==> Earned(d, s) && (Clashing(d, s) || Keys(Rivals(d, s)) <= evicted))
  }

  /** Whoever finds all the rivals of some kinds has found all, unless the listing has a conflict. */
  lemma AllFound(d: RecordIntent, flat: map<Record, RecordIntent>, s: set<RecordIntent>, found: set<RecordIntent>)
    requires IndexedBy(flat, s) && d.record.Supported() && found != {} && found <= Rivals(d, s)
    requires forall r :: r in Rivals(d, s) ==> flat[r.record] in found || exists x :: x in found && Opposed(x, r)
    ensures Clashing(d, s) || Keys(Rivals(d, s)) <= Keys(found)
  {
    forall r | r in Rivals(d, s) && r.Key() !in Keys(found)
      ensures Clashing(d, s)
    {
      if flat[r.record] in found {
        var y := flat[r.record];
        assert y in Rivals(d, s) && y.Key() != r.Key() && Conflict(y.record, r.record);
      } else {
        var x :| x in found && Opposed(x, r);
        assert x in Rivals(d, s) && x.Key() != r.Key();
      }
    }
  }

  predicate Opposed(x: RecordIntent, r: RecordIntent) {
    x.record != r.record && Conflict(x.record, r.record)
  }

  /** The verdict on found rivals of one kind. */
  lemma FoundJudged(d: RecordIntent, s: set<RecordIntent>, found: set<RecordIntent>, older: bool, one: RecordIntent)
    requires one in found && found <= Rivals(d, s) && (Clashing(d, s) || Keys(Rivals(d, s)) <= Keys(found))
    requires older ==> Beats(d, one)
    requires !older ==> one.Equal(d) || exists r :: r in found && !Beats(d, r)
    ensures Judges(d, s, older, if older then Keys(found) else {})
  {
  }

  lemma AddressJudged(d: RecordIntent, flat: map<Record, RecordIntent>, s: set<RecordIntent>, cnames: seq<RecordIntent>,
          same: Option<RecordIntent>)
    requires IndexedBy(flat, s) && d.record.IsAddress()
    requires Elems(cnames) == AtNameKind(flat, d.record.name, CNAME)
    requires same == if d.record in flat then Some(flat[d.record]) else None
    ensures cnames != [] ==>
              var older := Beats(d, cnames[0]);
              Judges(d, s, older, if older then Keys(Elems(cnames)) else {})
    ensures cnames == [] && same.Some? ==>
              var older := !same.value.Equal(d) && Beats(d, same.value);
              Judges(d, s, older, if older then Keys({same.value}) else {})
    ensures cnames == [] && same.None? ==> Judges(d, s, true, {})
  {
    FoundAreRivals(d, flat, s);
    forall r | r in Rivals(d, s)
      ensures r.record in flat && flat[r.record].record == r.record
      ensures r.record.kind == CNAME ==> flat[r.record] in Elems(cnames)
    {
    }
    if cnames != [] {
      assert cnames[0] in Elems(cnames);
      AllFound(d, flat, s, Elems(cnames));
      FoundJudged(d, s, Elems(cnames), Beats(d, cnames[0]), cnames[0]);
    } else if same.Some? {
      AllFound(d, flat, s, {same.value});
      FoundJudged(d, s, {same.value}, !same.value.Equal(d) && Beats(d, same.value), same.value);
    } else {
      assert Rivals(d, s) == {} && Keys(Rivals(d, s)) == {};
    }
  }

  lemma CnameFound(d: RecordIntent, flat: map<Record, RecordIntent>, s: set<RecordIntent>, addresses: set<RecordIntent>,
          cnames: set<RecordIntent>)
    requires IndexedBy(flat, s) && d.record.kind == CNAME
    requires addresses == AtNameKind(flat, d.record.name, A) + AtNameKind(flat, d.record.name, AAAA)
    requires cnames == AtNameKind(flat, d.record.name, CNAME)
    ensures addresses + cnames <= Rivals(d, s)
    ensures addresses != {} ==> Clashing(d, s) || Keys(Rivals(d, s)) <= Keys(addresses)
    ensures addresses == {} && cnames != {} ==> Clashing(d, s) || Keys(Rivals(d, s)) <= Keys(cnames)
    ensures addresses == {} && cnames == {} ==> Rivals(d, s) == {}
  {
    FoundAreRivals(d, flat, s);
    forall r | r in Rivals(d, s)
      ensures flat[r.record] in if r.record.kind == CNAME then cnames else addresses
    {
      assert r.record in flat && flat[r.record].record == r.record;
      assert flat[r.record] in AtNameKind(flat, d.record.name, r.record.kind);
    }
    if x :| x in addresses {
      assert forall r :: r in Rivals(d, s) && r.record.kind == CNAME ==> Opposed(x, r);
      AllFound(d, flat, s, addresses);
    } else if cnames != {} {
      AllFound(d, flat, s, cnames);
    }
  }

  lemma CnameJudged(d: RecordIntent, flat: map<Record, RecordIntent>, s: set<RecordIntent>,
          addresses: seq<RecordIntent>, cnames: seq<RecordIntent>)
    requires IndexedBy(flat, s) && d.record.kind == CNAME
    requires Elems(addresses) == AtNameKind(flat, d.record.name, A) + AtNameKind(flat, d.record.name, AAAA)
    requires Elems(cnames) == AtNameKind(flat, d.record.name, CNAME)
    ensures addresses != [] ==>
              var older := Prevails(d, Elems(addresses));
              Judges(d, s, older, if older then Keys(Elems(addresses)) else {})
    ensures addresses == [] && cnames != [] ==>
              var older := !cnames[0].Equal(d) && Beats(d, cnames[0]);
              Judges(d, s, older, if older then Keys(Elems(cnames)) else {})
    ensures addresses == [] && cnames == [] ==> Judges(d, s, true, {})
  {
    CnameFound(d, flat, s, Elems(addresses), Elems(cnames));
    if addresses != [] {
      assert addresses[0] in Elems(addresses);
      FoundJudged(d, s, Elems(addresses), Prevails(d, Elems(addresses)), addresses[0]);
    } else if cnames != [] {
      assert cnames[0] in Elems(cnames);
      FoundJudged(d, s, Elems(cnames), !cnames[0].Equal(d) && Beats(d, cnames[0]), cnames[0]);
    } else {
      assert Keys(Rivals(d, s)) == {};
    }
  }

  /** Whatever the lookups of an intent find is in its way, even in a listing that has conflicts. */
  lemma FoundAreRivals(d: RecordIntent, flat: map<Record, RecordIntent>, s: set<RecordIntent>)
    requires IndexedBy(flat, s) && d.record.Supported()
    ensures AtNameKind(flat, d.record.name, CNAME) <= Rivals(d, s)
    ensures d.record.kind == CNAME ==>
              AtNameKind(flat, d.record.name, A) + AtNameKind(flat, d.record.name, AAAA) <= Rivals(d, s)
    ensures d.record.IsAddress() && d.record in flat ==> flat[d.record] in Rivals(d, s)
    ensures Clean(s) ==> Clean(Rivals(d, s))
  {
  }

  /** Step 2 for an A or AAAA record: it meets the CNAME of its name, or the same address. */
  method AddressEvictions(d: RecordIntent, lookup: NestedRecordMap, ghost s: set<RecordIntent>)
    returns (proceed: bool, evictions: ByKey)
    requires lookup.Valid() && IndexedBy(lookup.flat, s) && d.record.IsAddress()
    ensures Keyed(evictions) && evictions.Values <= Rivals(d, s)
    ensures Judges(d, s, proceed, evictions.Keys)
    ensures Clean(s) ==> Decides(d, s, proceed, evictions.Values)
  {
    proceed, evictions := false, map[];
    FoundAreRivals(d, lookup.flat, s);
    var cnames, found := lookup.PeekNameKindRecords(d.record.name, CNAME);
    var same := lookup.PeekNameKindRecord(d.record);
    AddressJudged(d, lookup.flat, s, cnames, same);
    if Clean(s) {
      AddressVerdict(d, lookup.flat, s, cnames, same);
    }
    if found {
      var existing := cnames[0];
      if d.force || d.created < existing.created {
        evictions := EvictAll(cnames, Rivals(d, s));
        proceed := true;
      }
    } else if same.Some? {
      var r := same.value;
      if r.Equal(d) {
        return;
      } else if d.force || d.created < r.created {
        evictions := map[r.Key() := r];
        EvictOne(r, Rivals(d, s));
        proceed := true;
      }
    } else {
      proceed := true;
    }
  }

  method OlderThanAll(d: RecordIntent, rs: seq<RecordIntent>) returns (older: bool)
    ensures older <==> forall r :: r in Elems(rs) ==> d.created < r.created
  {
    older := true;
    for i := 0 to |rs|
      invariant older && forall j :: 0 <= j < i ==> d.created < rs[j].created
    {
      if !(d.created < rs[i].created) {
        assert rs[i] in Elems(rs);
        older := false;
        break;
      }
    }
  }

  /** What the lookups of a CNAME show of its rivals. */
  lemma CnameVerdict(d: RecordIntent, flat: map<Record, RecordIntent>, s: set<RecordIntent>,
          addresses: seq<RecordIntent>, cnames: seq<RecordIntent>)
    requires IndexedBy(flat, s) && Clean(s) && d.record.kind == CNAME
    requires Elems(addresses) == AtNameKind(flat, d.record.name, A) + AtNameKind(flat, d.record.name, AAAA)
    requires Elems(cnames) == AtNameKind(flat, d.record.name, CNAME)
    ensures addresses != [] ==> Rivals(d, s) == Elems(addresses) && !Present(d, s)
    ensures addresses == [] && cnames != [] ==>
              Rivals(d, s) == Elems(cnames) && (Present(d, s) <==> cnames[0].Equal(d))
              && (Prevails(d, Rivals(d, s)) <==> d.force || d.created < cnames[0].created)
    ensures addresses == [] && cnames == [] ==> Rivals(d, s) == {} && !Present(d, s)
  {
    AtNameKindIsWithKind(flat, s, d.record.name, A);
    AtNameKindIsWithKind(flat, s, d.record.name, AAAA);
    AtNameKindIsWithKind(flat, s, d.record.name, CNAME);
    CnameRivals(d, s);
    if addresses != [] {
      assert addresses[0] in Elems(addresses);
      NoneEqual(d, s);
    } else if cnames != [] {
      assert cnames[0] in Elems(cnames);
      assert Rivals(d, s) == {cnames[0]};
      SoleRival(d, s, cnames[0]);
    } else {
      NoneEqual(d, s);
    }
  }

  /** Step 2 for a CNAME: it meets the addresses of its name, or another CNAME. */
  method CnameEvictions(d: RecordIntent, lookup: NestedRecordMap, ghost s: set<RecordIntent>)
    returns (proceed: bool, evictions: ByKey)
    requires lookup.Valid() && IndexedBy(lookup.flat, s) && d.record.kind == CNAME
    ensures Keyed(evictions) && evictions.Values <= Rivals(d, s)
    ensures Judges(d, s, proceed, evictions.Keys)
    ensures Clean(s) ==> Decides(d, s, proceed, evictions.Values)
  {
    proceed, evictions := false, map[];
    FoundAreRivals(d, lookup.flat, s);
    var allAddr, hasAddr := lookup.AddrRecords(d.record.name);
    var cnames, found := lookup.PeekNameKindRecords(d.record.name, CNAME);
    CnameJudged(d, lookup.flat, s, allAddr, cnames);
    if Clean(s) {
      CnameVerdict(d, lookup.flat, s, allAddr, cnames);
    }
    if hasAddr {
      var olderThanAll := OlderThanAll(d, allAddr);
      if d.force || olderThanAll {
        evictions := EvictAll(allAddr, Rivals(d, s));
        proceed := true;
      }
    } else if found {
      var existing := cnames[0];
      if existing.Equal(d) {
        return;
      }
      if d.force || d.created < existing.created {
        evictions := EvictAll(cnames, Rivals(d, s));
        proceed := true;
      }
    } else {
      proceed := true;
    }
  }

  /** Step 2, by kind; an unsupported kind evicts nothing. */
  method Evictions(d: RecordIntent, lookup: NestedRecordMap, ghost s: set<RecordIntent>)
    returns (proceed: bool, evictions: ByKey)
    requires lookup.Valid() && IndexedBy(lookup.flat, s)
    ensures Keyed(evictions) && evictions.Values <= Rivals(d, s)
    ensures Judges(d, s, proceed, evictions.Keys)
    ensures Clean(s) ==> Decides(d, s, proceed, evictions.Values)
  {
    match d.record.kind
    case A =>
      proceed, evictions := AddressEvictions(d, lookup, s);
    case AAAA =>
      proceed, evictions := AddressEvictions(d, lookup, s);
    case CNAME =>
      proceed, evictions := CnameEvictions(d, lookup, s);
    case Other(_) =>
      proceed, evictions := true, map[];
      UnsupportedDecides(d, s);
  }

  lemma WithoutIsMinus(actual: seq<RecordIntent>, gone: set<RecordIntent>)
    requires CleanList(actual) && gone <= Elems(actual)
    ensures Elems(Without(actual, Keys(gone))) == Elems(actual) - gone
    ensures CleanList(Without(actual, Keys(gone)))
  {
    ConflictFreeWellFormed(actual);
    forall x | x in Elems(actual) && x.Key() in Keys(gone)
      ensures x in gone
    {
      var y :| y in gone && y.Key() == x.Key();
      UniqueKeys(Elems(actual), x, y);
    }
  }

  /** No stored record that outlives the removals conflicts with d. */
  ghost predicate Unopposed(d: RecordIntent, actual: set<RecordIntent>, gone: set<IntentKey>) {
    forall r :: r in actual && Conflict(d.record, r.record) ==> r.Key() in gone
  }

  /** Why an intent is not added, in any listing: it is stored, or meets a rival it does not beat, or the
      listing has a conflict at its name, or it closes a cycle with the aliases of the listing. */
  ghost predicate Excused(d: RecordIntent, s: set<RecordIntent>, actual: set<RecordIntent>) {
    Outdone(d, s) || Clashing(d, s) || ClosesCycleIn(d.record, actual)
  }

  lemma {:induction false} ForwardFromAliases(xs: seq<RecordIntent>)
    ensures Pairs(Forward(xs)) <= LinksOf(Elems(xs))
  {
    if xs != [] {
      var init, last := xs[..|xs| - 1], xs[|xs| - 1];
      ForwardFromAliases(init);
      assert xs == init + [last];
      LinksMonotone(Elems(init), Elems(xs));
      forall k | k in Forward(xs)
        ensures (k, Forward(xs)[k]) in LinksOf(Elems(xs))
      {
        if k in Forward(init) {
          assert (k, Forward(init)[k]) in Pairs(Forward(init));
        } else {
          assert last in Elems(xs) && CnameLink(last.record) == (k, last.record.value);
        }
      }
    }
  }

  lemma CycleFromList(d: RecordIntent, xs: seq<RecordIntent>, all: set<RecordIntent>)
    requires ClosesCycle(d.record, xs) && Elems(xs) <= all
    ensures ClosesCycleIn(d.record, all)
  {
    ForwardFromAliases(xs);
    LinksMonotone(Elems(xs), all);
    var m := Forward(xs)[d.record.name := d.record.value];
    forall k | k in m
      ensures (k, m[k]) in LinksOf(all) + {CnameLink(d.record)}
    {
      if k != d.record.name {
        assert (k, Forward(xs)[k]) in Pairs(Forward(xs));
      }
    }
    LoopsMonotone(Pairs(m), LinksOf(all) + {CnameLink(d.record)}, d.record.name);
  }

  lemma RefusalExcused(d: RecordIntent, s: set<RecordIntent>, actual: seq<RecordIntent>, gone: set<IntentKey>,
          simulated: seq<RecordIntent>)
    requires simulated == Without(actual, gone) && (Clashing(d, s) || Keys(Rivals(d, s)) <= gone)
    requires forall x :: x in Elems(actual) && x !in s ==> x.Key() in gone
    requires Clashes(d.record, simulated) || ClosesCycle(d.record, simulated)
    ensures Excused(d, s, Elems(actual))
  {
    if Clashes(d.record, simulated) {
      var i :| 0 <= i < |simulated| && Conflict(d.record, simulated[i].record);
      assert simulated[i] in simulated;
      assert simulated[i] in Rivals(d, s);
      assert simulated[i].Key() in Keys(Rivals(d, s));
    } else {
      CycleFromList(d, simulated, Elems(actual));
    }
  }

  /** Steps 2 and 3 for one desired intent. */
  method ConsiderOne(d: RecordIntent, actual: seq<RecordIntent>, toRemove: ByKey, lookup: NestedRecordMap,
          ghost s: set<RecordIntent>, ghost plan: Plan)
    returns (accepted: bool, evictions: ByKey)
    requires lookup.Valid() && IndexedBy(lookup.flat, s) && s <= Elems(actual)
    requires KeyedBy(toRemove, plan.removes) && plan.removes <= Elems(actual)
    requires forall x :: x in Elems(actual) && x !in s ==> x.Key() in toRemove
    ensures Keyed(evictions) && evictions.Values <= Rivals(d, s)
    ensures accepted ==> Earned(d, s)
    ensures !accepted ==> Excused(d, s, Elems(actual))
    ensures accepted ==> Unopposed(d, Elems(actual), Keys(plan.removes + evictions.Values))
    ensures CleanList(actual) ==>
              Consider(d, Elems(actual), s, plan) ==
              if accepted then Plan(plan.adds + {d}, plan.removes + evictions.Values) else plan
  {
    var proceed;
    proceed, evictions := Evictions(d, lookup, s);
    if !proceed {
      accepted := false;
      if CleanList(actual) {
        SubsetClean(actual, s);
      }
      return;
    }
    var simulated := Simulate(actual, toRemove, evictions);
    var err := ValidateRecord(d, simulated);
    accepted := err == None;
    if !accepted {
      RefusalExcused(d, s, actual, toRemove.Keys + evictions.Keys, simulated);
    }
    KeyedByValues(evictions);
    SimulationAgrees(d, actual, plan.removes, evictions.Values, simulated);
    if CleanList(actual) {
      SubsetClean(actual, s);
    }
  }

  lemma SubsetClean(actual: seq<RecordIntent>, s: set<RecordIntent>)
    requires CleanList(actual) && s <= Elems(actual)
    ensures Clean(s)
  {
    ConflictFreeWellFormed(actual);
  }

  lemma MemberClashes(d: Record, xs: seq<RecordIntent>, r: RecordIntent)
    requires Conflict(d, r.record)
    ensures r in xs ==> Clashes(d, xs)
  {
  }

  lemma SimulationAgrees(d: RecordIntent, actual: seq<RecordIntent>, removed: set<RecordIntent>,
          evicted: set<RecordIntent>, simulated: seq<RecordIntent>)
    requires removed <= Elems(actual) && evicted <= Elems(actual)
    requires simulated == Without(actual, Keys(removed) + Keys(evicted))
    ensures !Clashes(d.record, simulated) ==> Unopposed(d, Elems(actual), Keys(removed + evicted))
    ensures CleanList(actual) ==>
              (!Clashes(d.record, simulated) && !ClosesCycle(d.record, simulated) <==>
               Admissible(d, Elems(actual) - removed - evicted))
  {
    assert Keys(removed + evicted) == Keys(removed) + Keys(evicted);
    if !Clashes(d.record, simulated) {
      forall r | r in Elems(actual) && Conflict(d.record, r.record)
        ensures r.Key() in Keys(removed + evicted)
      {
        MemberClashes(d.record, simulated, r);
      }
    }
    if CleanList(actual) {
      WithoutIsMinus(actual, removed + evicted);
      assert Elems(actual) - (removed + evicted) == Elems(actual) - removed - evicted;
      ValidationIsAdmissible(d, simulated);
    }
  }

  /** The values of a map whose keys are read off its values, each once. */
  method ToSlice<K>(m: map<K, RecordIntent>, key: RecordIntent -> K) returns (values: seq<RecordIntent>)
    requires forall k :: k in m ==> key(m[k]) == k
    ensures Elems(values) == m.Values
    ensures forall i, j :: 0 <= i < j < |values| ==> key(values[i]) != key(values[j])
  {
    values := [];
    var rest := m.Keys;
    while rest != {}
      invariant rest <= m.Keys
      invariant forall x :: x in values ==> key(x) in m && m[key(x)] == x && key(x) !in rest
      invariant forall k :: k in m && k !in rest ==> m[k] in values
      invariant forall i, j :: 0 <= i < j < |values| ==> key(values[i]) != key(values[j])
      decreases |rest|
    {
      var k :| k in rest;
      rest := rest - {k};
      values := values + [m[k]];
    }
  }

  /** Each of these is stale, or in the way of an accepted intent. */
  ghost predicate Warranted(removes: set<RecordIntent>, stale: set<RecordIntent>, adds: set<RecordIntent>) {
    forall r :: r in removes && r !in stale ==> exists d :: d in adds && Conflict(d.record, r.record)
  }

  lemma WarrantedAdd(removes: set<RecordIntent>, stale: set<RecordIntent>, adds: set<RecordIntent>, d: RecordIntent,
          evicted: set<RecordIntent>)
    requires Warranted(removes, stale, adds) && forall r :: r in evicted ==> Conflict(d.record, r.record)
    ensures Warranted(removes + evicted, stale, adds + {d})
  {
    forall r | r in removes + evicted && r !in stale
      ensures exists x :: x in adds + {d} && Conflict(x.record, r.record)
    {
      if r in evicted {
        assert d in adds + {d};
      } else {
        var x :| x in adds && Conflict(x.record, r.record);
        assert x in adds + {d};
      }
    }
  }

  /** The additions map holds the accepted intents under their records. */
  ghost predicate AddsKept(toAdd: map<Record, RecordIntent>, adds: set<RecordIntent>, desired: seq<RecordIntent>,
          i: nat)
    requires i <= |desired|
  {
    && (forall r :: r in toAdd ==> toAdd[r] in adds && toAdd[r].record == r)
    && (forall d :: d in adds ==> d in desired[..i] && d.record in toAdd)
    && (CleanList(desired) ==> toAdd.Values == adds)
  }

  lemma DistinctRecords(xs: seq<RecordIntent>, j: nat, i: nat)
    requires CleanList(xs) && j < i < |xs|
    ensures xs[j].record != xs[i].record
  {
    assert xs[i] in Elems(xs);
    assert !Conflict(xs[j].record, xs[i].record);
  }

  lemma AddKept(toAdd: map<Record, RecordIntent>, adds: set<RecordIntent>, desired: seq<RecordIntent>, i: nat)
    requires i < |desired| && AddsKept(toAdd, adds, desired, i)
    ensures AddsKept(toAdd[desired[i].record := desired[i]], adds + {desired[i]}, desired, i + 1)
  {
    var d := desired[i];
    assert desired[..i + 1] == desired[..i] + [d];
    if CleanList(desired) {
      forall j | 0 <= j < i
        ensures desired[j].record != d.record
      {
        DistinctRecords(desired, j, i);
      }
      assert toAdd[d.record := d].Values == adds + {d} by {
        forall x | x in adds + {d}
          ensures x in toAdd[d.record := d].Values
        {
          if x != d {
            var r :| r in toAdd && toAdd[r] == x;
            assert toAdd[d.record := d][r] == x;
          } else {
            assert d.record in toAdd[d.record := d];
          }
        }
      }
    }
  }

  /** Each addition beats a rival if it has any, and whoever is not added has an excuse. */
  ghost predicate Accounted(toAdd: map<Record, RecordIntent>, adds: set<RecordIntent>, desired: seq<RecordIntent>,
          s: set<RecordIntent>, actual: set<RecordIntent>) {
    && (forall d :: d in adds ==> Earned(d, s))
    && (forall d :: d in desired ==> d.record in toAdd || Excused(d, s, actual))
  }

  lemma AccountedAdd(toAdd: map<Record, RecordIntent>, adds: set<RecordIntent>, desired: seq<RecordIntent>, i: nat,
          s: set<RecordIntent>, actual: set<RecordIntent>)
    requires i < |desired| && Accounted(toAdd, adds, desired[..i], s, actual) && Earned(desired[i], s)
    ensures Accounted(toAdd[desired[i].record := desired[i]], adds + {desired[i]}, desired[..i + 1], s, actual)
  {
    assert desired[..i + 1] == desired[..i] + [desired[i]];
  }

  lemma AccountedSkip(toAdd: map<Record, RecordIntent>, adds: set<RecordIntent>, desired: seq<RecordIntent>, i: nat,
          s: set<RecordIntent>, actual: set<RecordIntent>)
    requires i < |desired| && Accounted(toAdd, adds, desired[..i], s, actual) && Excused(desired[i], s, actual)
    ensures Accounted(toAdd, adds, desired[..i + 1], s, actual)
  {
    assert desired[..i + 1] == desired[..i] + [desired[i]];
  }

  /** What holds between two desired intents of a pass. */
  ghost predicate Progress(toAdd: map<Record, RecordIntent>, toRemove: ByKey, plan: Plan, desired: seq<RecordIntent>,
          i: nat, actual: seq<RecordIntent>, stale: set<RecordIntent>)
    requires i <= |desired|
  {
    && KeyedBy(toRemove, plan.removes) && stale <= plan.removes <= Elems(actual)
    && AddsKept(toAdd, plan.adds, desired, i)
    && (forall d :: d in plan.adds ==> Unopposed(d, Elems(actual), Keys(plan.removes)))
    && Warranted(plan.removes, stale, plan.adds)
    && Accounted(toAdd, plan.adds, desired[..i], Elems(actual) - stale, Elems(actual))
    && (CleanList(actual) ==> plan == ConsiderAll(desired[..i], Elems(actual), Elems(actual) - stale, Plan({}, stale)))
  }

  lemma StillUnopposed(adds: set<RecordIntent>, d: RecordIntent, actual: set<RecordIntent>, removes: set<RecordIntent>,
          evicted: set<RecordIntent>)
    requires forall x :: x in adds ==> Unopposed(x, actual, Keys(removes))
    requires Unopposed(d, actual, Keys(removes + evicted))
    ensures forall x :: x in adds + {d} ==> Unopposed(x, actual, Keys(removes + evicted))
  {
    assert Keys(removes) <= Keys(removes + evicted);
  }

  lemma ProgressAccepted(toAdd: map<Record, RecordIntent>, toRemove: ByKey, plan: Plan, desired: seq<RecordIntent>,
          i: nat, actual: seq<RecordIntent>, stale: set<RecordIntent>, evictions: ByKey, evicted: set<RecordIntent>)
    requires i < |desired| && Progress(toAdd, toRemove, plan, desired, i, actual, stale)
    requires KeyedBy(evictions, evicted) && evicted <= Rivals(desired[i], Elems(actual))
    requires Unopposed(desired[i], Elems(actual), Keys(plan.removes + evicted))
    requires Earned(desired[i], Elems(actual) - stale)
    requires CleanList(actual) ==>
               Consider(desired[i], Elems(actual), Elems(actual) - stale, plan) ==
               Plan(plan.adds + {desired[i]}, plan.removes + evicted)
    ensures Progress(toAdd[desired[i].record := desired[i]], toRemove + evictions,
                     Plan(plan.adds + {desired[i]}, plan.removes + evicted), desired, i + 1, actual, stale)
  {
    AddKept(toAdd, plan.adds, desired, i);
    KeyedMerge(toRemove, plan.removes, evictions, evicted);
    StillUnopposed(plan.adds, desired[i], Elems(actual), plan.removes, evicted);
    WarrantedAdd(plan.removes, stale, plan.adds, desired[i], evicted);
    AccountedAdd(toAdd, plan.adds, desired, i, Elems(actual) - stale, Elems(actual));
    if CleanList(actual) {
      OneMoreConsidered(desired, i, Elems(actual), Elems(actual) - stale, Plan({}, stale));
    }
  }

  lemma OneMoreConsidered(ds: seq<RecordIntent>, i: nat, actual: set<RecordIntent>, lookup: set<RecordIntent>,
          start: Plan)
    requires i < |ds|
    ensures ConsiderAll(ds[..i + 1], actual, lookup, start) ==
            Consider(ds[i], actual, lookup, ConsiderAll(ds[..i], actual, lookup, start))
  {
    assert ds[..i + 1][..i] == ds[..i];
  }

  lemma ProgressRefused(toAdd: map<Record, RecordIntent>, toRemove: ByKey, plan: Plan, desired: seq<RecordIntent>,
          i: nat, actual: seq<RecordIntent>, stale: set<RecordIntent>)
    requires i < |desired| && Progress(toAdd, toRemove, plan, desired, i, actual, stale)
    requires Excused(desired[i], Elems(actual) - stale, Elems(actual))
    requires CleanList(actual) ==> Consider(desired[i], Elems(actual), Elems(actual) - stale, plan) == plan
    ensures Progress(toAdd, toRemove, plan, desired, i + 1, actual, stale)
  {
    assert desired[..i + 1] == desired[..i] + [desired[i]];
    AccountedSkip(toAdd, plan.adds, desired, i, Elems(actual) - stale, Elems(actual));
    if CleanList(actual) {
      OneMoreConsidered(desired, i, Elems(actual), Elems(actual) - stale, Plan({}, stale));
    }
  }

  /** Steps 2 and 3 for every desired intent. */
  method ConsiderDesired(desired: seq<RecordIntent>, actual: seq<RecordIntent>, stale: ByKey, lookup: NestedRecordMap,
          ghost staleSet: set<RecordIntent>)
    returns (toAdd: map<Record, RecordIntent>, toRemove: ByKey)
    requires lookup.Valid() && IndexedBy(lookup.flat, Elems(actual) - staleSet)
    requires KeyedBy(stale, staleSet) && staleSet <= Elems(actual)
    ensures exists plan :: Progress(toAdd, toRemove, plan, desired, |desired|, actual, staleSet)
  {
    toAdd, toRemove := map[], stale;
    ghost var plan := Plan({}, staleSet);
    for i := 0 to |desired|
      invariant lookup.Valid() && IndexedBy(lookup.flat, Elems(actual) - staleSet)
      invariant Progress(toAdd, toRemove, plan, desired, i, actual, staleSet)
    {
      var d := desired[i];
      var accepted, evictions := ConsiderOne(d, actual, toRemove, lookup, Elems(actual) - staleSet, plan);
      if accepted {
        KeyedByValues(evictions);
        ProgressAccepted(toAdd, toRemove, plan, desired, i, actual, staleSet, evictions, evictions.Values);
        toAdd := toAdd[d.record := d];
        toRemove := toRemove + evictions;
        plan := Plan(plan.adds + {d}, plan.removes + evictions.Values);
      } else {
        ProgressRefused(toAdd, toRemove, plan, desired, i, actual, staleSet);
      }
    }
  }

  method DesiredKeys(desired: seq<RecordIntent>) returns (desiredSet: set<IntentKey>)
    ensures desiredSet == Keys(Elems(desired))
  {
    desiredSet := {};
    for i := 0 to |desired|
      invariant desiredSet == Keys(Elems(desired[..i]))
    {
      assert Elems(desired[..i + 1]) == Elems(desired[..i]) + {desired[i]};
      desiredSet := desiredSet + {desired[i].Key()};
    }
    assert desired[..|desired|] == desired;
  }

  /** Compares the desired records with the stored ones: what to add and what to remove. */
  method ReconcileAndValidate(desired: seq<RecordIntent>, actual: seq<RecordIntent>, hostname: string, live: Liveness)
    returns (toAdd: seq<RecordIntent>, toRemove: seq<RecordIntent>)
    ensures Elems(toAdd) <= Elems(desired) && Elems(toRemove) <= Elems(actual)
    ensures forall i, j :: 0 <= i < j < |toAdd| ==> toAdd[i].record != toAdd[j].record
    ensures forall i, j :: 0 <= i < j < |toRemove| ==> toRemove[i].Key() != toRemove[j].Key()
    ensures Keys(StaleOf(Elems(actual), Keys(Elems(desired)), hostname, live)) <= Keys(Elems(toRemove))
    ensures forall d :: d in toAdd ==> Unopposed(d, Elems(actual), Keys(Elems(toRemove)))
    ensures
      var stale := StaleOf(Elems(actual), Keys(Elems(desired)), hostname, live);
      && Warranted(Elems(toRemove), stale, Elems(toAdd))
      && (forall d :: d in toAdd ==> Earned(d, Elems(actual) - stale))
      && (forall d :: d in desired && (forall x :: x in toAdd ==> x.record != d.record) ==>
            Excused(d, Elems(actual) - stale, Elems(actual)))
    ensures forall r :: r in actual && (r.hostname == hostname || (live.Some? && r.hostname !in live.value)) ==>
              r.Key() in Keys(Elems(desired)) || r.Key() in Keys(Elems(toRemove))
    ensures CleanList(desired) && CleanList(actual) ==>
              Plan(Elems(toAdd), Elems(toRemove)) == Reconcile(desired, Elems(actual), hostname, live)
    ensures CleanList(desired) && CleanList(actual) ==> IsPassOver(desired, actual, hostname, live, toAdd, toRemove)
  {
    var desiredSet := DesiredKeys(desired);
    var staleMap, lookup := SplitActual(actual, desiredSet, hostname, live);
    ghost var stale := StaleOf(Elems(actual), desiredSet, hostname, live);
    var toAddMap, toRemoveMap := ConsiderDesired(desired, actual, staleMap, lookup, stale);
    ghost var plan :| Progress(toAddMap, toRemoveMap, plan, desired, |desired|, actual, stale);
    toAdd := ToSlice(toAddMap, (x: RecordIntent) => x.record);
    toRemove := ToSlice(toRemoveMap, (x: RecordIntent) => x.Key());
    PassDone(toAddMap, toRemoveMap, plan, desired, actual, stale, toAdd, toRemove);
    OrphansGo(desired, actual, hostname, live, toRemove);
    if CleanList(desired) && CleanList(actual) {
      PassByFields(desired, actual, hostname, live, toAdd, toRemove);
    }
  }

  lemma OrphansGo(desired: seq<RecordIntent>, actual: seq<RecordIntent>, hostname: string, live: Liveness,
          toRemove: seq<RecordIntent>)
    requires Keys(StaleOf(Elems(actual), Keys(Elems(desired)), hostname, live)) <= Keys(Elems(toRemove))
    ensures forall r :: r in actual && (r.hostname == hostname || (live.Some? && r.hostname !in live.value)) ==>
              r.Key() in Keys(Elems(desired)) || r.Key() in Keys(Elems(toRemove))
  {
    forall r | r in actual && (r.hostname == hostname || (live.Some? && r.hostname !in live.value))
      ensures r.Key() in Keys(Elems(desired)) || r.Key() in Keys(Elems(toRemove))
    {
      assert r in Elems(actual);
      assert r.Key() in Keys(Elems(desired)) || r in StaleOf(Elems(actual), Keys(Elems(desired)), hostname, live);
    }
  }

  /** What a pass over conflict-free lists comes to, by host, force and age. Of what is stored and not
      wanted it removes what is this host's own, what is a host's that is gone, and what an addition in its
      way outdoes, and it removes nothing else; what is wanted is stored, or added, or meets a stored record
      of another claim that it does not outdo, or is an alias that would close a cycle. */
  ghost predicate IsPassOver(desired: seq<RecordIntent>, actual: seq<RecordIntent>, hostname: string, live: Liveness,
          toAdd: seq<RecordIntent>, toRemove: seq<RecordIntent>) {
    && (forall r :: r in toRemove <==>
          && r in actual && r.Key() !in Keys(Elems(desired))
          && (r.hostname == hostname || (live.Some? && r.hostname !in live.value) || OutdoneBySome(r, toAdd)))
    && (forall d :: d in toAdd ==> d in desired && d.Key() !in Keys(Elems(actual)))
    && (forall d :: d in desired ==>
          || d in toAdd
          || d.Key() in Keys(Elems(actual))
          || (exists r :: r in actual && Conflict(d.record, r.record) && !d.force && r.created <= d.created
                && !(r.Key() !in Keys(Elems(desired))
                     && (r.hostname == hostname || (live.Some? && r.hostname !in live.value))))
          || ClosesCycleIn(d.record, Elems(actual) - Rivals(d, Elems(actual))))
  }

  ghost predicate OutdoneBySome(r: RecordIntent, toAdd: seq<RecordIntent>) {
    exists d :: d in toAdd && Conflict(d.record, r.record) && (d.force || d.created < r.created)
  }

  lemma PassByFields(desired: seq<RecordIntent>, actual: seq<RecordIntent>, hostname: string, live: Liveness,
          toAdd: seq<RecordIntent>, toRemove: seq<RecordIntent>)
    requires CleanList(desired) && CleanList(actual)
    requires Plan(Elems(toAdd), Elems(toRemove)) == Reconcile(desired, Elems(actual), hostname, live)
    ensures IsPassOver(desired, actual, hostname, live, toAdd, toRemove)
  {
    var all := Elems(actual);
    PassSound(desired, all, hostname, live);
    forall r | r in toRemove
      ensures r in actual && r.Key() !in Keys(Elems(desired))
      ensures r.hostname == hostname || (live.Some? && r.hostname !in live.value) || OutdoneBySome(r, toAdd)
    {
      RemovalIsReason(desired, all, hostname, live, toAdd, toRemove, r);
    }
    forall r | r in actual && r.Key() !in Keys(Elems(desired))
        && (r.hostname == hostname || (live.Some? && r.hostname !in live.value) || OutdoneBySome(r, toAdd))
      ensures r in toRemove
    {
      ReasonIsRemoval(desired, all, hostname, live, toAdd, toRemove, r);
    }
    forall d | d in toAdd
      ensures d in desired && d.Key() !in Keys(all)
    {
      assert d in Elems(toAdd);
      AddedIsNew(desired, all, hostname, live, d);
    }
    forall d | d in desired && d !in toAdd && d.Key() !in Keys(all)
      ensures
        || (exists r :: r in actual && Conflict(d.record, r.record) && !d.force && r.created <= d.created
              && !(r.Key() !in Keys(Elems(desired))
                   && (r.hostname == hostname || (live.Some? && r.hostname !in live.value))))
        || ClosesCycleIn(d.record, all - Rivals(d, all))
    {
      assert d !in Elems(toAdd);
      AbsentForAReason(desired, all, hostname, live, d);
    }
  }

  lemma RemovalIsReason(desired: seq<RecordIntent>, all: set<RecordIntent>, hostname: string, live: Liveness,
          toAdd: seq<RecordIntent>, toRemove: seq<RecordIntent>, r: RecordIntent)
    requires CleanList(desired) && r in toRemove
    requires Plan(Elems(toAdd), Elems(toRemove)) == Reconcile(desired, all, hostname, live)
    ensures r in all && r.Key() !in Keys(Elems(desired))
    ensures r.hostname == hostname || (live.Some? && r.hostname !in live.value) || OutdoneBySome(r, toAdd)
  {
    assert r in Elems(toRemove);
    RemovalJustified(desired, all, hostname, live, r);
    if !(r.hostname == hostname || (live.Some? && r.hostname !in live.value)) {
      var d :| d in Elems(toAdd) && Conflict(d.record, r.record) && (d.force || d.created < r.created);
      assert d in toAdd;
    }
  }

  lemma ReasonIsRemoval(desired: seq<RecordIntent>, all: set<RecordIntent>, hostname: string, live: Liveness,
          toAdd: seq<RecordIntent>, toRemove: seq<RecordIntent>, r: RecordIntent)
    requires CleanList(desired) && r in all && r.Key() !in Keys(Elems(desired))
    requires Plan(Elems(toAdd), Elems(toRemove)) == Reconcile(desired, all, hostname, live)
    requires r.hostname == hostname || (live.Some? && r.hostname !in live.value) || OutdoneBySome(r, toAdd)
    ensures r in toRemove
  {
    if r.hostname == hostname || (live.Some? && r.hostname !in live.value) {
      StaleIsRemoved(desired, all, hostname, live, r);
      assert r in Elems(toRemove);
    } else {
      PassSound(desired, all, hostname, live);
      var stale := StaleIn(desired, all, hostname, live);
      var d :| d in toAdd && Conflict(d.record, r.record) && (d.force || d.created < r.created);
      assert d in Elems(toAdd) && Won(d, all, all - stale, Elems(toRemove));
      assert r in Rivals(d, all - stale);
      assert r in Elems(toRemove);
    }
  }

  lemma AbsentForAReason(desired: seq<RecordIntent>, all: set<RecordIntent>, hostname: string, live: Liveness,
          d: RecordIntent)
    requires CleanList(desired) && d in desired && d !in Reconcile(desired, all, hostname, live).adds
    requires d.Key() !in Keys(all)
    ensures
      || (exists r :: r in all && Conflict(d.record, r.record) && !d.force && r.created <= d.created
            && !(r.Key() !in Keys(Elems(desired))
                 && (r.hostname == hostname || (live.Some? && r.hostname !in live.value))))
      || ClosesCycleIn(d.record, all - Rivals(d, all))
  {
    var p := Reconcile(desired, all, hostname, live);
    PassSound(desired, all, hostname, live);
    DesiredOutcome(desired, all, hostname, live, p.removes, d);
    assert all - p.removes <= all;
    assert p.removes - p.removes == {} && Keys(p.removes - p.removes) == {};
    assert forall x :: x in all - p.removes ==> x.Key() in Keys(all);
  }

  lemma PassDone(toAddMap: map<Record, RecordIntent>, toRemoveMap: ByKey, plan: Plan, desired: seq<RecordIntent>,
          actual: seq<RecordIntent>, stale: set<RecordIntent>, toAdd: seq<RecordIntent>, toRemove: seq<RecordIntent>)
    requires Progress(toAddMap, toRemoveMap, plan, desired, |desired|, actual, stale)
    requires Elems(toAdd) == toAddMap.Values && Elems(toRemove) == toRemoveMap.Values
    ensures Elems(toAdd) <= plan.adds <= Elems(desired) && Elems(toRemove) <= plan.removes <= Elems(actual)
    ensures Keys(stale) <= Keys(Elems(toRemove))
    ensures forall d :: d in toAdd ==> Unopposed(d, Elems(actual), Keys(Elems(toRemove)))
    ensures Warranted(Elems(toRemove), stale, Elems(toAdd))
    ensures forall d :: d in toAdd ==> Earned(d, Elems(actual) - stale)
    ensures forall d :: d in desired && (forall x :: x in toAdd ==> x.record != d.record) ==>
              Excused(d, Elems(actual) - stale, Elems(actual))
    ensures CleanList(desired) && CleanList(actual) ==>
              Plan(Elems(toAdd), Elems(toRemove)) ==
              ConsiderAll(desired, Elems(actual), Elems(actual) - stale, Plan({}, stale))
  {
    RemovedAsKeyed(toRemoveMap, plan.removes, toRemove);
    assert desired[..|desired|] == desired;
    forall d | d in toAdd
      ensures d in plan.adds
    {
      assert d in toAddMap.Values;
    }
    WarrantedKept(toAddMap, plan, stale, Elems(toRemove));
    assert forall k :: k in toAddMap ==> toAddMap[k] in Elems(toAdd) && toAddMap[k].record == k;
    forall d | d in desired && forall x :: x in toAdd ==> x.record != d.record
      ensures Excused(d, Elems(actual) - stale, Elems(actual))
    {
      assert d.record !in toAddMap;
    }
    if CleanList(actual) {
      SubsetClean(actual, plan.removes);
      KeyedValues(toRemoveMap, plan.removes);
    }
  }

  /** An accepted intent that a later one replaced leaves its record in the map. */
  lemma WarrantedKept(toAdd: map<Record, RecordIntent>, plan: Plan, stale: set<RecordIntent>,
          removes: set<RecordIntent>)
    requires Warranted(plan.removes, stale, plan.adds) && removes <= plan.removes
    requires (forall r :: r in toAdd ==> toAdd[r].record == r) && forall d :: d in plan.adds ==> d.record in toAdd
    ensures Warranted(removes, stale, toAdd.Values)
  {
    forall r | r in removes && r !in stale
      ensures exists x :: x in toAdd.Values && Conflict(x.record, r.record)
    {
      var d :| d in plan.adds && Conflict(d.record, r.record);
      assert toAdd[d.record] in toAdd.Values;
    }
  }

  lemma RemovedAsKeyed(m: ByKey, removes: set<RecordIntent>, toRemove: seq<RecordIntent>)
    requires KeyedBy(m, removes) && Elems(toRemove) == m.Values
    ensures Elems(toRemove) <= removes && Keys(Elems(toRemove)) == Keys(removes)
  {
    forall k | k in Keys(removes)
      ensures k in Keys(Elems(toRemove))
    {
      assert m[k] in Elems(toRemove);
    }
  }
}
