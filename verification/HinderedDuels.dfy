/** A duel that ends: the cycle rule refuses one of the two for good. */
module HinderedDuels {
  import opened Domain
  import opened Graph
  import opened Validation
  import opened ReconcilePlan
  import opened PassTheorems
  import opened Stores
  import opened Registry
  import opened Convergence
  import opened ConvergenceBound
  import opened OneHost
  import opened Sweeps
  import opened Overreach
  import opened Duels

  /** A forced address d of one host, and of another host an older alias e under its name, and a forced alias
      f that leads from the target of e back. */
  predicate IsTrio(d: RecordIntent, e: RecordIntent, f: RecordIntent) {
    && d.record.IsAddress() && e.record.kind == CNAME && f.record.kind == CNAME
    && d.record.name == e.record.name == f.record.value && f.record.name == e.record.value
    && e.record.name != f.record.name
    && d.hostname != e.hostname && f.hostname == e.hostname
    && d.force && f.force && e.created < d.created
  }

  function TrioWishes(d: RecordIntent, e: RecordIntent, f: RecordIntent): Wishes {
    map[d.hostname := {d}, e.hostname := {e, f}]
  }

  /** e closes a cycle with the record of f. */
  lemma LeadsBack(d: RecordIntent, e: RecordIntent, f: RecordIntent, s: set<RecordIntent>, r: RecordIntent)
    requires IsTrio(d, e, f) && r in s && r.record == f.record
    ensures ClosesCycleIn(e.record, s)
  {
    var links := LinksOf(s) + {CnameLink(e.record)};
    var p := [e.record.name, f.record.name, e.record.name];
    assert CnameLink(r.record) in LinksOf(s);
    assert Hop(links, p, 0) && Hop(links, p, 1);
    assert IsTrail(links, p) && p[0] == p[2] && !Distinct(p);
  }

  /** f closes none where no alias has the name of e. */
  lemma NoWayBack(d: RecordIntent, e: RecordIntent, f: RecordIntent, s: set<RecordIntent>)
    requires IsTrio(d, e, f) && Rivals(f, s) == {}
    requires forall x :: x in s && x.record.kind == CNAME ==> x.record.name != e.record.name
    ensures !ClosesCycleIn(f.record, s)
  {
    var links := LinksOf(s) + {CnameLink(f.record)};
    assert forall x :: x in s && x.record.kind == CNAME ==> x.record.name != f.record.name by {
      assert forall x :: x in s && x.record.kind == CNAME && x.record.name == f.record.name ==> x in Rivals(f, s);
    }
    forall p | IsTrail(links, p) && p[0] == f.record.name
      ensures Distinct(p)
    {
      if |p| > 1 {
        assert Hop(links, p, 0);
        assert p[1] == e.record.name;
        assert |p| > 2 ==> Hop(links, p, 1);
      }
    }
  }

  lemma TrioDuels(d: RecordIntent, e: RecordIntent, f: RecordIntent)
    requires IsTrio(d, e, f)
    ensures var wishes := TrioWishes(d, e, f); Settled(wishes) && Duel(wishes, d, e) && !Unhindered(wishes, d, e)
  {
    var wishes := TrioWishes(d, e, f);
    assert f in Sides(wishes, d, e) - Rivals(e, Sides(wishes, d, e));
    LeadsBack(d, e, f, Sides(wishes, d, e) - Rivals(e, Sides(wishes, d, e)), f);
  }

  /** How far the three are from where they stay. */
  function Stage(d: RecordIntent, f: RecordIntent, s: set<RecordIntent>): nat {
    (if Present(f, s) then 0 else 2) + if Present(d, s) then 0 else 1
  }

  /** What a pass does that deletes only what somebody wants. */
  lemma SparingPass(depth: string -> nat, wishes: Wishes, s: set<RecordIntent>, turn: Turn, t: set<RecordIntent>)
    requires Settled(wishes) && Clean(s) && IsPass(depth, wishes, s, turn, t) && SparesOthers(wishes, turn)
    ensures
      var p := PlanOf(s, turn);
      && p.adds <= wishes[turn.host] && p.adds !! s && p.removes <= turn.deleted <= s
      && t == (s - turn.deleted) + p.adds && (p.removes == {} ==> turn.deleted == {})
      && (forall r :: r in p.removes ==> Wished(wishes, r) && exists x :: x in p.adds && r in Rivals(x, s))
      && (forall x :: x in p.adds ==> Won(x, s, s, p.removes))
      && (forall x :: x in wishes[turn.host] && x !in p.adds ==> Refused(x, s, s, {}, p.removes))
  {
    PassFacts(depth, wishes, s, turn, t);
    PassSound(turn.order, s, turn.host, turn.live);
    var stale := StaleIn(turn.order, s, turn.host, turn.live);
    assert stale == {} && s - stale == s;
  }

  /** A pass of the first host that changes the store adds d and leaves f alone. */
  lemma FirstHostMoves(depth: string -> nat, d: RecordIntent, e: RecordIntent, f: RecordIntent, s: set<RecordIntent>,
          turn: Turn, t: set<RecordIntent>)
    requires IsTrio(d, e, f) && Clean(s) && IsPass(depth, TrioWishes(d, e, f), s, turn, t) && t != s
    requires SparesOthers(TrioWishes(d, e, f), turn) && f !in turn.deleted && turn.host == d.hostname
    ensures Stage(d, f, t) < Stage(d, f, s)
  {
    TrioDuels(d, e, f);
    SparingPass(depth, TrioWishes(d, e, f), s, turn, t);
    var p := PlanOf(s, turn);
    assert p.adds == {d};
    assert d.Equal(d) && d in t && Won(d, s, s, p.removes);
    if Present(f, s) {
      StaysPresent(d, e, f, s, turn.deleted, t);
    }
  }

  lemma StaysPresent(d: RecordIntent, e: RecordIntent, f: RecordIntent, s: set<RecordIntent>,
          deleted: set<RecordIntent>, t: set<RecordIntent>)
    requires IsTrio(d, e, f) && s - deleted <= t && f !in deleted && Present(f, s)
    requires forall r :: r in deleted ==> Wished(TrioWishes(d, e, f), r)
    ensures Present(f, t)
  {
    var r :| r in s && r.Equal(f);
    assert r in deleted ==> r == f;
    assert r in t;
  }

  /** A pass of the second host that changes the store adds f, and with f stored there is none. */
  lemma SecondHostMoves(depth: string -> nat, d: RecordIntent, e: RecordIntent, f: RecordIntent, s: set<RecordIntent>,
          turn: Turn, t: set<RecordIntent>)
    requires IsTrio(d, e, f) && Clean(s) && IsPass(depth, TrioWishes(d, e, f), s, turn, t) && t != s
    requires SparesOthers(TrioWishes(d, e, f), turn) && turn.host == e.hostname
    ensures Stage(d, f, t) < Stage(d, f, s)
  {
    TrioDuels(d, e, f);
    SparingPass(depth, TrioWishes(d, e, f), s, turn, t);
    var p := PlanOf(s, turn);
    if Present(f, s) {
      KeptOut(d, e, f, s, p);
    } else if f !in p.adds {
      Admitted(d, e, f, s, p);
    } else {
      assert f.Equal(f) && f in t;
    }
  }

  lemma KeptOut(d: RecordIntent, e: RecordIntent, f: RecordIntent, s: set<RecordIntent>, p: Plan)
    requires IsTrio(d, e, f) && Present(f, s) && p.adds <= {e, f} && p.adds !! s
    requires forall r :: r in p.removes ==> exists x :: x in p.adds && r in Rivals(x, s)
    requires forall x :: x in p.adds ==> Won(x, s, s, p.removes)
    ensures p == Plan({}, {})
  {
    var r :| r in s && r.Equal(f);
    assert p.adds <= {e};
    assert r !in p.removes;
    if e in p.adds {
      LeadsBack(d, e, f, s - p.removes, r);
    }
    assert p.adds == {};
  }

  /** f is refused only where an alias of the name of e is stored. */
  lemma RefusedBeside(d: RecordIntent, e: RecordIntent, f: RecordIntent, s: set<RecordIntent>,
          removes: set<RecordIntent>)
    returns (x: RecordIntent)
    requires IsTrio(d, e, f) && !Present(f, s) && Refused(f, s, s, {}, removes)
    ensures x in s && x.record.kind == CNAME && x.record.name == e.record.name
  {
    var g :| g <= removes && ClosesCycleIn(f.record, s - g - Rivals(f, s));
    if forall y :: y in s && y.record.kind == CNAME ==> y.record.name != e.record.name {
      assert Rivals(f, s - g - Rivals(f, s)) == {};
      NoWayBack(d, e, f, s - g - Rivals(f, s));
    }
    x :| x in s && x.record.kind == CNAME && x.record.name == e.record.name;
  }

  /** Then e is not added either. */
  lemma Admitted(d: RecordIntent, e: RecordIntent, f: RecordIntent, s: set<RecordIntent>, p: Plan)
    requires IsTrio(d, e, f) && !Present(f, s) && f !in p.adds && p.adds <= {e, f} && p.adds !! s
    requires forall r :: r in p.removes ==>
               Wished(TrioWishes(d, e, f), r) && exists x :: x in p.adds && r in Rivals(x, s)
    requires forall x :: x in p.adds ==> Won(x, s, s, p.removes)
    requires Refused(f, s, s, {}, p.removes)
    ensures p == Plan({}, {})
  {
    var x := RefusedBeside(d, e, f, s, p.removes);
    assert x in Rivals(e, s);
    assert e in p.adds ==> Won(e, s, s, p.removes);
    assert p.adds == {};
  }

  /** A number that every changing pass lowers. */
  function Height(wishes: Wishes, d: RecordIntent, f: RecordIntent, s: set<RecordIntent>): nat {
    4 * |Unwished(wishes, s)| + Stage(d, f, s)
  }

  lemma StageFalls(hits: Reach, depth: string -> nat, d: RecordIntent, e: RecordIntent, f: RecordIntent,
          s: set<RecordIntent>, turn: Turn, t: set<RecordIntent>)
    requires IsTrio(d, e, f) && Clean(s) && IsPass(depth, TrioWishes(d, e, f), s, turn, t) && t != s
    requires turn.deleted == Swept(hits, s, PlanOf(s, turn).removes) && !hits(d, f) && !hits(e, f)
    requires SparesOthers(TrioWishes(d, e, f), turn)
    ensures Stage(d, f, t) < Stage(d, f, s)
  {
    if turn.host == d.hostname {
      FirstHostRemoves(depth, d, e, f, s, turn, t);
      NotSwept(hits, d, e, f, s, PlanOf(s, turn).removes);
      FirstHostMoves(depth, d, e, f, s, turn, t);
    } else {
      SecondHostMoves(depth, d, e, f, s, turn, t);
    }
  }

  lemma FirstHostRemoves(depth: string -> nat, d: RecordIntent, e: RecordIntent, f: RecordIntent, s: set<RecordIntent>,
          turn: Turn, t: set<RecordIntent>)
    requires IsTrio(d, e, f) && Clean(s) && IsPass(depth, TrioWishes(d, e, f), s, turn, t)
    requires SparesOthers(TrioWishes(d, e, f), turn) && turn.host == d.hostname
    ensures PlanOf(s, turn).removes <= {d, e}
  {
    TrioDuels(d, e, f);
    SparingPass(depth, TrioWishes(d, e, f), s, turn, t);
    RemovesWithin(d, e, f, s, PlanOf(s, turn));
  }

  lemma HeightFalls(hits: Reach, depth: string -> nat, d: RecordIntent, e: RecordIntent, f: RecordIntent,
          s: set<RecordIntent>, turn: Turn, t: set<RecordIntent>)
    requires IsTrio(d, e, f) && Clean(s) && IsPass(depth, TrioWishes(d, e, f), s, turn, t) && t != s
    requires turn.deleted == Swept(hits, s, PlanOf(s, turn).removes) && !hits(d, f) && !hits(e, f)
    ensures Height(TrioWishes(d, e, f), d, f, t) < Height(TrioWishes(d, e, f), d, f, s)
  {
    var wishes := TrioWishes(d, e, f);
    TrioDuels(d, e, f);
    if SparesOthers(wishes, turn) {
      StageFalls(hits, depth, d, e, f, s, turn, t);
      NoMoreUnwished(depth, wishes, s, turn, t);
    } else {
      UnwishedDescends(depth, wishes, Frame({}, 0, 0), s, turn, t);
    }
  }

  lemma NoMoreUnwished(depth: string -> nat, wishes: Wishes, s: set<RecordIntent>, turn: Turn, t: set<RecordIntent>)
    requires Settled(wishes) && Clean(s) && IsPass(depth, wishes, s, turn, t)
    ensures Clean(t) && |Unwished(wishes, t)| <= |Unwished(wishes, s)|
  {
    PassKeepsSetting(depth, wishes, Frame({}, 0, 0), s, turn, t);
    SubsetSmaller(Unwished(wishes, t), Unwished(wishes, s));
  }

  lemma RemovesWithin(d: RecordIntent, e: RecordIntent, f: RecordIntent, s: set<RecordIntent>, p: Plan)
    requires IsTrio(d, e, f) && p.adds <= {d}
    requires forall r :: r in p.removes ==>
               Wished(TrioWishes(d, e, f), r) && exists x :: x in p.adds && r in Rivals(x, s)
    ensures p.removes <= {d, e}
  {
    forall r | r in p.removes
      ensures r in {d, e}
    {
      assert Conflict(d.record, r.record) && r != f;
    }
  }

  lemma NotSwept(hits: Reach, d: RecordIntent, e: RecordIntent, f: RecordIntent, s: set<RecordIntent>,
          removes: set<RecordIntent>)
    requires !hits(d, f) && !hits(e, f) && removes <= {d, e}
    ensures f !in Swept(hits, s, removes)
  {
  }

  lemma {:induction false} TrioChanges(hits: Reach, depth: string -> nat, d: RecordIntent, e: RecordIntent,
          f: RecordIntent, states: seq<set<RecordIntent>>, turns: seq<Turn>, n: nat)
    requires IsTrio(d, e, f) && !hits(d, f) && !hits(e, f) && n <= |turns|
    requires IsCodeRun(hits, depth, TrioWishes(d, e, f), states, turns) && Clean(states[0])
    ensures Clean(states[n])
    ensures Changes(states, n) + Height(TrioWishes(d, e, f), d, f, states[n]) <=
            Height(TrioWishes(d, e, f), d, f, states[0])
  {
    if n > 0 {
      TrioChanges(hits, depth, d, e, f, states, turns, n - 1);
      assert IsPass(depth, TrioWishes(d, e, f), states[n - 1], turns[n - 1], states[n]);
      TrioDuels(d, e, f);
      NoMoreUnwished(depth, TrioWishes(d, e, f), states[n - 1], turns[n - 1], states[n]);
      if states[n] != states[n - 1] {
        HeightFalls(hits, depth, d, e, f, states[n - 1], turns[n - 1], states[n]);
      }
    }
  }

  /** A duel that the cycle rule hinders can end: here two hosts duel, and all the same the changing passes
      are bounded from every clean store. So the exception made in the exact condition is needed. */
  lemma HinderedDuelSettles(hits: Reach, depth: string -> nat, d: RecordIntent, e: RecordIntent, f: RecordIntent)
    requires IsTrio(d, e, f) && !hits(d, f) && !hits(e, f)
    ensures
      var wishes := TrioWishes(d, e, f);
      Settled(wishes) && Duel(wishes, d, e) && !Unhindered(wishes, d, e) && AlwaysSettles(hits, depth, wishes)
  {
    TrioDuels(d, e, f);
    var wishes := TrioWishes(d, e, f);
    forall start | Clean(start)
      ensures exists bound: nat :: BoundsCodeChanges(hits, depth, wishes, start, bound)
    {
      forall states, turns | IsCodeRun(hits, depth, wishes, states, turns) && states[0] == start
        ensures Changes(states, |turns|) <= Height(wishes, d, f, start)
      {
        TrioChanges(hits, depth, d, e, f, states, turns, |turns|);
      }
      assert BoundsCodeChanges(hits, depth, wishes, start, Height(wishes, d, f, start));
    }
  }

  /** The removals of the registry are such. */
  lemma HinderedDuelSettlesByKeys(prefix: string, d: RecordIntent, e: RecordIntent, f: RecordIntent)
    requires IsTrio(d, e, f)
    ensures
      var wishes := TrioWishes(d, e, f);
      Duel(wishes, d, e) && !Unhindered(wishes, d, e) && AlwaysSettles(KeyReach(prefix), KeyDepth(prefix), wishes)
  {
    HinderedDuelSettles(KeyReach(prefix), KeyDepth(prefix), d, e, f);
  }
}
