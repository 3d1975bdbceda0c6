/** A pass whose evictions open the way for aliases: what it leaves depends on the order of the list. */
module OrderLimits {
  import opened Domain
  import opened Graph
  import opened Validation
  import opened ReconcilePlan
  import opened PassTheorems
  import opened PassLimits

  lemma ConsiderLast(ds: seq<RecordIntent>, d: RecordIntent, actual: set<RecordIntent>, start: Plan)
    ensures ConsiderAll(ds + [d], actual, actual, start) ==
            Consider(d, actual, actual, ConsiderAll(ds, actual, actual, start))
  {
    assert (ds + [d])[..|ds|] == ds;
  }

  lemma NothingStale(ds: seq<RecordIntent>, c: RecordIntent, host: string)
    requires c.hostname != host
    ensures Reconcile(ds, {c}, host, None) == ConsiderAll(ds, {c}, {c}, Plan({}, {}))
  {
    assert StaleIn(ds, {c}, host, None) == {};
    assert {c} - StaleIn(ds, {c}, host, None) == {c};
  }

  /** An alias of an older container, under the name of the one stored by another host. */
  predicate IsEviction(c: RecordIntent, e: RecordIntent) {
    && e.record.kind == CNAME && c.record.kind == CNAME && e.record.name == c.record.name
    && e.record.name != e.record.value && e.created < c.created && e.hostname != c.hostname
  }

  /** An alias that leads straight back through the stored one. */
  predicate IsReturn(c: RecordIntent, d: RecordIntent) {
    && d.record.kind == CNAME && c.record.kind == CNAME && d.record.name != c.record.name
    && d.record.value == c.record.name && c.record.value == d.record.name
  }

  /** An alias of another name. */
  predicate IsOther(c: RecordIntent, d: RecordIntent) {
    d.record.kind == CNAME && d.record.name != d.record.value && d.record.name != c.record.name
  }

  /** An alias that evicts the stored one. */
  lemma EvictsFirst(e: RecordIntent, c: RecordIntent, adds: set<RecordIntent>)
    requires IsEviction(c, e)
    ensures Consider(e, {c}, {c}, Plan(adds, {})) == Plan(adds + {e}, {c})
  {
    var nobody: set<RecordIntent> := {};
    assert Rivals(e, {c}) == {c} && !Present(e, {c});
    assert {c} - nobody - {c} == nobody;
    AcceptsOnEmpty(e);
  }

  /** Once the stored alias is gone, an alias of another name meets nothing. */
  lemma JoinsAfter(d: RecordIntent, c: RecordIntent, adds: set<RecordIntent>)
    requires IsOther(c, d)
    ensures Consider(d, {c}, {c}, Plan(adds, {c})) == Plan(adds + {d}, {c})
  {
    var nobody: set<RecordIntent> := {};
    assert Rivals(d, {c}) == nobody && !Present(d, {c});
    assert {c} - {c} - nobody == nobody;
    AcceptsOnEmpty(d);
  }

  /** While it is there, an alias that leads back through it is refused. */
  lemma RefusedBefore(d: RecordIntent, c: RecordIntent)
    requires IsReturn(c, d)
    ensures Consider(d, {c}, {c}, Plan({}, {})) == Plan({}, {})
  {
    var nobody: set<RecordIntent> := {};
    assert Rivals(d, {c}) == nobody;
    assert {c} - nobody - nobody == {c};
    var links := LinksOf({c}) + {CnameLink(d.record)};
    var p := [d.record.name, c.record.name, d.record.name];
    assert CnameLink(c.record) in LinksOf({c});
    assert Hop(links, p, 0) && Hop(links, p, 1);
    assert IsTrail(links, p) && p[0] == p[2] && !Distinct(p);
    assert ClosesCycleIn(d.record, {c});
  }

  lemma TwoLinksAcyclic(a: string, b: string, x: string)
    requires a != b && b != x && a != x
    ensures !HasCycle({(b, x), (x, a)})
  {
    var none: Links := {};
    assert !HasCycle(none) by {
      forall p: seq<string> | |p| >= 2
        ensures !IsCycle(none, p)
      {
        assert !Hop(none, p, 0);
      }
    }
    var one, two := map[x := a], map[x := a, b := x];
    PairsAfter(map[], x, a);
    assert Pairs(map[]) == none && one == map[][x := a];
    assert Hop(Pairs(one), [x, a], 0);
    DeadEndNoLoop(one, [x, a]);
    NewEdgeExact(none, x, a);
    PairsAfter(one, b, x);
    assert two == one[b := x];
    assert Hop(Pairs(two), [b, x, a], 0) && Hop(Pairs(two), [b, x, a], 1);
    DeadEndNoLoop(two, [b, x, a]);
    NewEdgeExact(Pairs(one), b, x);
    assert Pairs(two) == {(b, x), (x, a)};
  }

  lemma CycleOfThree(d: RecordIntent, e: RecordIntent, f: RecordIntent)
    requires d.record.kind == CNAME && e.record.kind == CNAME && f.record.kind == CNAME
    requires d.record.value == e.record.name && e.record.value == f.record.name && f.record.value == d.record.name
    ensures HasCycle(LinksOf({e, d, f}))
  {
    var links := LinksOf({e, d, f});
    var p := [d.record.name, e.record.name, f.record.name, d.record.name];
    assert CnameLink(d.record) in links && CnameLink(e.record) in links && CnameLink(f.record) in links;
    assert Hop(links, p, 0) && Hop(links, p, 1) && Hop(links, p, 2);
    assert IsCycle(links, p);
  }

  /** One more intent at the end of the list, given what the list before it came to. */
  lemma OneMore(ds: seq<RecordIntent>, d: RecordIntent, c: RecordIntent, before: Plan, after: Plan)
    requires ConsiderAll(ds, {c}, {c}, Plan({}, {})) == before && Consider(d, {c}, {c}, before) == after
    ensures ConsiderAll(ds + [d], {c}, {c}, Plan({}, {})) == after
  {
    ConsiderLast(ds, d, {c}, Plan({}, {}));
  }

  lemma EvictsAtOnce(c: RecordIntent, e: RecordIntent)
    requires IsEviction(c, e)
    ensures ConsiderAll([e], {c}, {c}, Plan({}, {})) == Plan({e}, {c})
  {
    EvictsFirst(e, c, {});
    assert [] + [e] == [e] && {} + {e} == {e};
    OneMore([], e, c, Plan({}, {}), Plan({e}, {c}));
  }

  lemma RefusedAtOnce(c: RecordIntent, d: RecordIntent)
    requires IsReturn(c, d)
    ensures ConsiderAll([d], {c}, {c}, Plan({}, {})) == Plan({}, {})
  {
    RefusedBefore(d, c);
    assert [] + [d] == [d];
    OneMore([], d, c, Plan({}, {}), Plan({}, {}));
  }

  lemma EvictsSecond(c: RecordIntent, d: RecordIntent, e: RecordIntent)
    requires IsEviction(c, e) && ConsiderAll([d], {c}, {c}, Plan({}, {})) == Plan({}, {})
    ensures ConsiderAll([d, e], {c}, {c}, Plan({}, {})) == Plan({e}, {c})
  {
    EvictsFirst(e, c, {});
    assert [d] + [e] == [d, e] && {} + {e} == {e};
    OneMore([d], e, c, Plan({}, {}), Plan({e}, {c}));
  }

  lemma JoinsSecond(c: RecordIntent, e: RecordIntent, d: RecordIntent)
    requires IsOther(c, d) && ConsiderAll([e], {c}, {c}, Plan({}, {})) == Plan({e}, {c})
    ensures ConsiderAll([e, d], {c}, {c}, Plan({}, {})) == Plan({e, d}, {c})
  {
    JoinsAfter(d, c, {e});
    assert [e] + [d] == [e, d] && {e} + {d} == {e, d};
    OneMore([e], d, c, Plan({e}, {c}), Plan({e, d}, {c}));
  }

  lemma JoinsThird(c: RecordIntent, d: RecordIntent, e: RecordIntent, f: RecordIntent, adds: set<RecordIntent>)
    requires IsOther(c, f) && ConsiderAll([d, e], {c}, {c}, Plan({}, {})) == Plan(adds, {c})
    ensures ConsiderAll([d, e, f], {c}, {c}, Plan({}, {})) == Plan(adds + {f}, {c})
  {
    JoinsAfter(f, c, adds);
    assert [d, e] + [f] == [d, e, f];
    OneMore([d, e], f, c, Plan(adds, {c}), Plan(adds + {f}, {c}));
  }

  lemma SceneParts(c: RecordIntent, d: RecordIntent, e: RecordIntent, f: RecordIntent)
    requires IsScene(c, d, e, f)
    ensures IsEviction(c, e) && IsReturn(c, d) && IsOther(c, d) && IsOther(c, f)
  {
  }

  lemma EvictionFirst(c: RecordIntent, d: RecordIntent, e: RecordIntent, f: RecordIntent)
    requires IsScene(c, d, e, f)
    ensures Reconcile([e, d, f], {c}, "h", None) == Plan({e, d, f}, {c})
  {
    NothingStale([e, d, f], c, "h");
    SceneParts(c, d, e, f);
    EvictsAtOnce(c, e);
    JoinsSecond(c, e, d);
    JoinsThird(c, e, d, f, {e, d});
    assert {e, d} + {f} == {e, d, f};
  }

  lemma EvictionLater(c: RecordIntent, d: RecordIntent, e: RecordIntent, f: RecordIntent)
    requires IsScene(c, d, e, f)
    ensures Reconcile([d, e, f], {c}, "h", None) == Plan({e, f}, {c})
  {
    NothingStale([d, e, f], c, "h");
    SceneParts(c, d, e, f);
    RefusedAtOnce(c, d);
    EvictsSecond(c, d, e);
    JoinsThird(c, d, e, f, {e});
    assert {e} + {f} == {e, f};
  }

  /** A stored alias b to a of another host; this host wants a to b, b to x and x to a. */
  predicate IsScene(c: RecordIntent, d: RecordIntent, e: RecordIntent, f: RecordIntent) {
    && c.record == Record("b", CNAME, "a") && c.hostname != "h"
    && d.record == Record("a", CNAME, "b") && e.record == Record("b", CNAME, "x") && f.record == Record("x", CNAME, "a")
    && e.created < c.created && d.hostname == e.hostname == f.hostname == "h"
  }

  lemma OneLinkAcyclic(c: RecordIntent)
    requires c.record == Record("b", CNAME, "a")
    ensures !HasCycle(LinksOf({c}))
  {
    TwoLinksAcyclic("x", "b", "a");
    assert LinksOf({c}) == {("b", "a")};
    if HasCycle(LinksOf({c})) {
      CycleMonotone(LinksOf({c}), {("b", "a"), ("a", "x")});
    }
  }

  lemma SceneLists(c: RecordIntent, d: RecordIntent, e: RecordIntent, f: RecordIntent)
    requires IsScene(c, d, e, f)
    ensures CleanList([e, d, f]) && CleanList([d, e, f]) && Elems([e, d, f]) == Elems([d, e, f]) && Clean({c})
  {
    assert Elems([e, d, f]) == {e, d, f} == Elems([d, e, f]);
  }

  lemma SceneOutcome(c: RecordIntent, d: RecordIntent, e: RecordIntent, f: RecordIntent)
    requires IsScene(c, d, e, f)
    ensures HasCycle(LinksOf(Apply({c}, Reconcile([e, d, f], {c}, "h", None))))
    ensures !HasCycle(LinksOf(Apply({c}, Reconcile([d, e, f], {c}, "h", None))))
  {
    EvictionFirst(c, d, e, f);
    EvictionLater(c, d, e, f);
    CycleOfThree(d, e, f);
    assert Apply({c}, Plan({e, d, f}, {c})) == {e, d, f};
    assert Apply({c}, Plan({e, f}, {c})) == {e, f};
    assert LinksOf({e, f}) == {("b", "x"), ("x", "a")};
    TwoLinksAcyclic("a", "b", "x");
  }

  /** No condition on the set of desired intents alone decides whether a pass that evicts an alias leaves
      a cycle: one order of the same list closes one, another does not. */
  lemma AcyclicityDependsOnOrder()
    ensures exists desired: seq<RecordIntent>, again: seq<RecordIntent>, actual: set<RecordIntent> ::
              && CleanList(desired) && CleanList(again) && Elems(desired) == Elems(again)
              && Clean(actual) && !HasCycle(LinksOf(actual))
              && HasCycle(LinksOf(Apply(actual, Reconcile(desired, actual, "h", None))))
              && !HasCycle(LinksOf(Apply(actual, Reconcile(again, actual, "h", None))))
  {
    var c := Intent("c", 9, "other", false, Record("b", CNAME, "a"));
    var d := Intent("d", 1, "h", false, Record("a", CNAME, "b"));
    var e := Intent("e", 1, "h", false, Record("b", CNAME, "x"));
    var f := Intent("f", 1, "h", false, Record("x", CNAME, "a"));
    assert IsScene(c, d, e, f);
    SceneLists(c, d, e, f);
    SceneOutcome(c, d, e, f);
    OneLinkAcyclic(c);
  }
}
