/** What the lapse of a lock lease does: which lapses let two clients inside with one key, and what else
    frees the keys of a client that has stopped. */
module LockLimits {
  import opened Domain
  import opened Text
  import opened Locks

  /** No lease keeps two keys, and the lease of a key still to be taken keeps none. */
  ghost predicate Tidy(s: System) {
    && (forall k, l :: k in s.locks && l in s.locks && s.locks[k] == s.locks[l] ==> k == l)
    && (forall c, k :: c in s.clients && k in s.locks && s.clients[c].Acquiring? && s.clients[c].lease.Some? ==>
          s.locks[k] != s.clients[c].lease.value)
  }

  lemma TidyUnless(s: System, c: string, t: System)
    requires Tidy(s) && t.clients == s.clients[c := At(t, c)]
    requires forall k :: k in t.locks ==> k in s.locks && t.locks[k] == s.locks[k]
    requires At(t, c).Acquiring? && At(t, c).lease.Some? ==>
               forall k :: k in s.locks ==> s.locks[k] != At(t, c).lease.value
    ensures Tidy(t)
  {
  }

  lemma TidyCreate(s: System, c: string, t: System)
    requires Invariant(s) && Tidy(s) && t.clients == s.clients[c := At(t, c)] && !At(t, c).Acquiring?
    requires Wanted(At(s, c)).Some? && At(s, c).lease.Some?
    requires t.locks == s.locks[Wanted(At(s, c)).value := At(s, c).lease.value]
    ensures Tidy(t)
  {
    var p := At(s, c).lease.value;
    assert p in Leases(At(s, c));
    forall d | d in s.clients && d != c && s.clients[d].Acquiring? && s.clients[d].lease.Some?
      ensures s.clients[d].lease.value != p
    {
      assert s.clients[d].lease.value in Leases(s.clients[d]);
    }
  }

  lemma StepKeepsTidy(s: System, e: Event, t: System)
    requires Invariant(s) && Tidy(s) && Step(s, e, t)
    ensures Tidy(t)
  {
    match e
    case Start(c, plan) => TidyUnless(s, c, t);
    case Grant(c) => TidyUnless(s, c, t);
    case Acquire(c) => TidyCreate(s, c, t);
    case KeepAlive(c, ok) => TidyUnless(s, c, t);
    case GiveUp(c, applied) =>
      if applied {
        TidyCreate(s, c, t);
      } else {
        TidyUnless(s, c, t);
      }
    case RevokeUnused(c, ok) => TidyUnless(s, c, t);
    case Leave(c) => TidyUnless(s, c, t);
    case Delete(c, ok) => TidyUnless(s, c, t);
    case Revoke(c, ok) => TidyUnless(s, c, t);
    case Crash(c) => TidyUnless(s, c, t);
    case Lapse(l) =>
  }

  lemma {:induction false} TidyThroughout(states: seq<System>, events: seq<Event>, n: nat)
    requires IsRun(states, events) && n <= |events|
    requires forall i :: 0 <= i < n ==> NoLapse(states[i], events[i])
    ensures Invariant(states[n]) && Tidy(states[n])
  {
    InvariantThroughout(states, events, n);
    if n > 0 {
      TidyThroughout(states, events, n - 1);
      StepKeepsTidy(states[n - 1], events[n - 1], states[n]);
    }
  }

  /** No client has the lease, and none will be given it. */
  ghost predicate Ownerless(s: System, l: nat) {
    l < s.next && forall c :: c in s.clients ==> l !in Leases(s.clients[c])
  }

  predicate IsUnder(s: System, k: string, l: nat) {
    k in s.locks && s.locks[k] == l
  }

  lemma LeasesAfter(s: System, e: Event, t: System, c: string)
    requires Step(s, e, t) && c in t.clients
    ensures s.next <= t.next && forall l :: l in Leases(t.clients[c]) ==> l in Leases(At(s, c)) || l == s.next < t.next
  {
    var x := At(s, c);
    if e.Acquire? && e.c == c {
      assert Elems(x.held + [x.lease.value]) == Elems(x.held) + {x.lease.value};
    }
    if e.Revoke? && e.c == c && x.held != [] {
      assert forall l :: l in x.held[..|x.held| - 1] ==> l in x.held;
    }
  }

  lemma OwnerlessKept(s: System, e: Event, t: System, l: nat)
    requires Step(s, e, t) && Ownerless(s, l)
    ensures Ownerless(t, l)
  {
    forall c | c in t.clients
      ensures l !in Leases(t.clients[c])
    {
      LeasesAfter(s, e, t, c);
    }
    if c :| c in t.clients {
      LeasesAfter(s, e, t, c);
    }
  }

  /** Only its lapse takes a key from an ownerless lease, and nothing puts one under it. */
  lemma UnderKept(s: System, e: Event, t: System, k: string, l: nat)
    requires Invariant(s) && Step(s, e, t) && Ownerless(s, l)
    ensures IsUnder(t, k, l) <==> IsUnder(s, k, l) && e != Lapse(l)
  {
    if e.Delete? {
      var x := At(s, e.c);
      assert Owns(s, x, |x.held| - 1) && x.held[|x.held| - 1] in Leases(x);
    } else if e.Acquire? || e.GiveUp? || e.RevokeUnused? {
      assert At(s, e.c).lease.Some? ==> At(s, e.c).lease.value in Leases(At(s, e.c));
    } else if e.Revoke? {
      var x := At(s, e.c);
      assert x.held[|x.held| - 1] in Leases(x);
    }
  }

  predicate HasAt(client: Client, k: string, j: nat) {
    client != Done && j < Owned(client) && j < |client.plan| && client.plan[j] == k
  }

  /** The client has the key and has not begun to give it back. */
  ghost predicate Has(client: Client, k: string) {
    exists j: nat :: HasAt(client, k, j)
  }

  /** A client that loses a key other than by deleting it leaves the key to its lease. */
  lemma LeftToItsLease(s: System, e: Event, t: System, c: string, i: nat)
    requires Invariant(s) && Step(s, e, t) && c in s.clients && i < Owned(s.clients[c]) && !e.Delete?
    requires i < |s.clients[c].held| <= |s.clients[c].plan| && !Has(At(t, c), s.clients[c].plan[i])
    ensures IsUnder(t, s.clients[c].plan[i], s.clients[c].held[i]) <==>
            IsUnder(s, s.clients[c].plan[i], s.clients[c].held[i])
    ensures Ownerless(t, s.clients[c].held[i])
  {
    var x := s.clients[c];
    var k, l := x.plan[i], x.held[i];
    assert HasAt(x, k, i) && Shaped(x) && l in Leases(x);
    assert At(t, c) != x;
    LosesHow(s, e, t, c, i);
    forall d | d in t.clients
      ensures l !in Leases(t.clients[d])
    {
      LeasesAfter(s, e, t, d);
      assert d in s.clients && d != c ==> Leases(s.clients[d]) !! Leases(x);
    }
    LeasesAfter(s, e, t, c);
  }

  /** Nobody but the client itself makes it lose a key. */
  lemma LosesHow(s: System, e: Event, t: System, c: string, i: nat)
    requires Invariant(s) && Step(s, e, t) && c in s.clients && i < Owned(s.clients[c]) && !e.Delete?
    requires i < |s.clients[c].held| <= |s.clients[c].plan| && !Has(At(t, c), s.clients[c].plan[i])
    ensures s.clients[c].held[i] !in Leases(At(t, c))
    ensures IsUnder(t, s.clients[c].plan[i], s.clients[c].held[i]) <==>
            IsUnder(s, s.clients[c].plan[i], s.clients[c].held[i])
  {
    var x, y := s.clients[c], At(t, c);
    var k := x.plan[i];
    assert Shaped(x) && HasAt(x, k, i);
    if e == KeepAlive(c, false) {
      FailsToKeep(s, t, c, i);
    } else {
      assert y == Done || HasAt(y, k, i);
    }
  }

  lemma FailsToKeep(s: System, t: System, c: string, i: nat)
    requires Invariant(s) && Step(s, KeepAlive(c, false), t) && c in s.clients && i < Owned(s.clients[c])
    requires i < |s.clients[c].held| <= |s.clients[c].plan| && !Has(At(t, c), s.clients[c].plan[i])
    ensures s.clients[c].held[i] !in Leases(At(t, c))
  {
    var x, y := s.clients[c], At(t, c);
    assert Shaped(x) && HasAt(y, x.plan[|x.held| - 1], 0);
    assert x.held[i] != x.held[|x.held| - 1];
  }

  ghost predicate LeavesAlone(s: System, e: Event, t: System, k: string, l: nat) {
    Ownerless(s, l) ==> Ownerless(t, l) && (IsUnder(t, k, l) <==> IsUnder(s, k, l) && e != Lapse(l))
  }

  lemma StepLeavesAlone(states: seq<System>, events: seq<Event>, i: nat, k: string, l: nat)
    requires IsRun(states, events) && i < |events|
    requires forall j :: 0 <= j < i ==> NoLapse(states[j], events[j])
    ensures LeavesAlone(states[i], events[i], states[i + 1], k, l)
  {
    InvariantThroughout(states, events, i);
    if Ownerless(states[i], l) {
      OwnerlessKept(states[i], events[i], states[i + 1], l);
      UnderKept(states[i], events[i], states[i + 1], k, l);
    }
  }

  lemma {:induction false} UnderUntilLapse(states: seq<System>, events: seq<Event>, n: nat, m: nat, k: string, l: nat)
    requires n <= m <= |events| && |states| == |events| + 1 && Ownerless(states[n], l)
    requires forall i :: n <= i < m ==> LeavesAlone(states[i], events[i], states[i + 1], k, l)
    ensures Ownerless(states[m], l)
    ensures IsUnder(states[m], k, l) <==> IsUnder(states[n], k, l) && Lapse(l) !in events[n..m]
  {
    if m > n {
      UnderUntilLapse(states, events, n, m - 1, k, l);
      assert LeavesAlone(states[m - 1], events[m - 1], states[m], k, l);
      OneMoreEvent(events, n, m, l);
    }
  }

  lemma OneMoreEvent(events: seq<Event>, n: nat, m: nat, l: nat)
    requires n < m <= |events|
    ensures Lapse(l) in events[n..m] <==> Lapse(l) in events[n..m - 1] || events[m - 1] == Lapse(l)
  {
    assert events[n..m] == events[n..m - 1] + [events[m - 1]];
  }

  /** Nobody relies on a key that an ownerless lease keeps. */
  lemma ReliedByNobody(s: System, k: string, l: nat, d: string, j: nat)
    requires Invariant(s) && Ownerless(s, l) && IsUnder(s, k, l) && d in s.clients && j < Relied(s, s.clients[d])
    ensures j < |s.clients[d].plan| && s.clients[d].plan[j] != k
  {
    var x := s.clients[d];
    assert Owns(s, x, j) && x.held[j] in Leases(x);
  }

  predicate ReliesAt(s: System, d: string, k: string, j: nat) {
    d in s.clients && j < Relied(s, s.clients[d]) && j < |s.clients[d].plan| && s.clients[d].plan[j] == k
  }

  /** Some client relies on having the key. */
  ghost predicate IsReliedOn(s: System, k: string) {
    exists d, j: nat :: ReliesAt(s, d, k, j)
  }

  /** A client that loses a key other than by deleting it, by an error while it takes the next, by giving
      up on it, by the failure of its keep-alive or by crashing, leaves the key locked exactly until the
      lease of that key lapses, and until then no client relies on having it. */
  lemma LockedUntilLapse(states: seq<System>, events: seq<Event>, n: nat, m: nat, c: string, i: nat)
    requires IsRun(states, events) && n < m <= |events|
    requires forall j :: 0 <= j < m ==> NoLapse(states[j], events[j])
    requires c in states[n].clients && i < Owned(states[n].clients[c]) && !events[n].Delete?
    requires i < |states[n].clients[c].plan| ==> !Has(At(states[n + 1], c), states[n].clients[c].plan[i])
    ensures i < |At(states[n], c).held| <= |At(states[n], c).plan|
    ensures
      var k, l := At(states[n], c).plan[i], At(states[n], c).held[i];
      && (i < Relied(states[n], At(states[n], c)) ==> IsUnder(states[n], k, l))
      && (IsUnder(states[m], k, l) <==> IsUnder(states[n], k, l) && Lapse(l) !in events[n + 1..m])
      && (IsUnder(states[m], k, l) ==> !IsReliedOn(states[m], k))
  {
    InvariantThroughout(states, events, n);
    InvariantThroughout(states, events, m);
    var x := states[n].clients[c];
    assert Shaped(x) && (i < Relied(states[n], x) ==> Owns(states[n], x, i));
    LeftToItsLease(states[n], events[n], states[n + 1], c, i);
    forall j: nat | n + 1 <= j < m
      ensures LeavesAlone(states[j], events[j], states[j + 1], x.plan[i], x.held[i])
    {
      StepLeavesAlone(states, events, j, x.plan[i], x.held[i]);
    }
    UnderUntilLapse(states, events, n + 1, m, x.plan[i], x.held[i]);
    if IsUnder(states[m], x.plan[i], x.held[i]) && IsReliedOn(states[m], x.plan[i]) {
      var d, j :| ReliesAt(states[m], d, x.plan[i], j);
      ReliedByNobody(states[m], x.plan[i], x.held[i], d, j);
    }
  }

  /** t can be reached from s by steps in which no lease lapses that keeps a key some client relies on,
      and of the others only some of the given ones do. */
  ghost predicate Reaches(s: System, t: System, lapsing: set<nat>) {
    exists states, events :: Leads(states, events, s, t, lapsing)
  }

  ghost predicate IsCareful(s: System, e: Event, t: System, lapsing: set<nat>) {
    Step(s, e, t) && NoLapse(s, e) && (e.Lapse? ==> e.lease in lapsing)
  }

  ghost predicate Leads(states: seq<System>, events: seq<Event>, s: System, t: System, lapsing: set<nat>) {
    && |states| == |events| + 1 && states[0] == s && states[|events|] == t
    && forall i :: 0 <= i < |events| ==> IsCareful(states[i], events[i], states[i + 1], lapsing)
  }

  lemma ReachSelf(s: System, lapsing: set<nat>)
    ensures Reaches(s, s, lapsing)
  {
    assert Leads([s], [], s, s, lapsing);
  }

  lemma ReachStep(s: System, t: System, e: Event, u: System, lapsing: set<nat>)
    requires Reaches(s, t, lapsing) && IsCareful(t, e, u, lapsing)
    ensures Reaches(s, u, lapsing)
  {
    var p: seq<System>, f: seq<Event> :| Leads(p, f, s, t, lapsing);
    var states, events := p + [u], f + [e];
    forall i | 0 <= i < |events|
      ensures IsCareful(states[i], events[i], states[i + 1], lapsing)
    {
      if i < |f| {
        assert states[i] == p[i] && states[i + 1] == p[i + 1] && events[i] == f[i];
      }
    }
    assert Leads(states, events, s, u, lapsing);
  }

  lemma {:induction false} CarefulKeeps(states: seq<System>, events: seq<Event>, lapsing: set<nat>, n: nat)
    requires |states| == |events| + 1 && n <= |events| && Invariant(states[0])
    requires forall i :: 0 <= i < |events| ==> IsCareful(states[i], events[i], states[i + 1], lapsing)
    ensures Invariant(states[n])
  {
    if n > 0 {
      CarefulKeeps(states, events, lapsing, n - 1);
      assert IsCareful(states[n - 1], events[n - 1], states[n], lapsing);
      StepKeepsInvariant(states[n - 1], events[n - 1], states[n]);
    }
  }

  lemma ReachKeeps(s: System, t: System, lapsing: set<nat>)
    requires Invariant(s) && Reaches(s, t, lapsing)
    ensures Invariant(t)
  {
    var states: seq<System>, events: seq<Event> :| Leads(states, events, s, t, lapsing);
    CarefulKeeps(states, events, lapsing, |events|);
  }

  /** A client that is not busy and finds a key free gets inside with a new lease. */
  function Entered(s: System, c: string, k: string): System {
    System(s.locks[k := s.next], s.alive + {s.next}, s.next + 1, s.clients[c := Inside([k], [s.next])])
  }

  lemma Begins(s: System, t: System, c: string, k: string, lapsing: set<nat>) returns (u: System)
    requires Reaches(s, t, lapsing) && At(t, c) == Done
    ensures u == System(t.locks, t.alive + {t.next}, t.next + 1, t.clients[c := Acquiring([k], [], Some(t.next))])
    ensures Reaches(s, u, lapsing)
  {
    var t1 := Set(t, c, Acquiring([k], [], None));
    ReachStep(s, t, Start(c, [k]), t1, lapsing);
    u := System(t.locks, t.alive + {t.next}, t.next + 1, t.clients[c := Acquiring([k], [], Some(t.next))]);
    assert u.clients == t1.clients[c := Acquiring([k], [], Some(t.next))];
    ReachStep(s, t1, Grant(c), u, lapsing);
  }

  lemma Enters(s: System, t: System, c: string, k: string, lapsing: set<nat>)
    requires Reaches(s, t, lapsing) && At(t, c) == Done && k !in t.locks
    ensures Reaches(s, Entered(t, c, k), lapsing)
  {
    var l := t.next;
    var t2 := Begins(s, t, c, k, lapsing);
    var t3 := Set(t2.(locks := t2.locks[k := l]), c, Starting([k], [l]));
    assert [] + [l] == [l];
    ReachStep(s, t2, Acquire(c), t3, lapsing);
    var t4 := Set(t3, c, Inside([k], [l]));
    ReachStep(s, t3, KeepAlive(c, true), t4, lapsing);
    assert t4 == Entered(t, c, k);
  }

  /** A releasing client gets down to key number i without having deleted anything. */
  lemma {:induction false} ReleasesDownTo(s: System, t: System, c: string, plan: seq<string>, held: seq<nat>, i: nat,
          lapsing: set<nat>)
    returns (u: System)
    requires Reaches(s, t, lapsing) && i < |held| <= |plan| && At(t, c) == Releasing(plan, held, false)
    ensures u == Set(t, c, Releasing(plan, held[..i + 1], false)) && Reaches(s, u, lapsing)
    decreases |held|
  {
    if |held| == i + 1 {
      assert held[..i + 1] == held;
      u := t;
      assert u == Set(t, c, Releasing(plan, held, false));
    } else {
      var t1 := Set(t, c, Releasing(plan, held, true));
      var t2 := Set(t1, c, Releasing(plan, held[..|held| - 1], false));
      ReachStep(s, t, Delete(c, false), t1, lapsing);
      ReachStep(s, t1, Revoke(c, false), t2, lapsing);
      u := ReleasesDownTo(s, t2, c, plan, held[..|held| - 1], i, lapsing);
      assert held[..|held| - 1][..i + 1] == held[..i + 1];
    }
  }

  lemma ReleasesKey(s: System, t: System, c: string, plan: seq<string>, held: seq<nat>, i: nat, lapsing: set<nat>)
    returns (u: System)
    requires Reaches(s, t, lapsing) && i < |held| <= |plan| && At(t, c) == Releasing(plan, held, false)
    ensures u == Set(t.(locks := t.locks - {plan[i]}), c, Releasing(plan, held[..i + 1], true))
    ensures Reaches(s, u, lapsing)
  {
    var t2 := ReleasesDownTo(s, t, c, plan, held, i, lapsing);
    u := Set(t2.(locks := t2.locks - {plan[i]}), c, Releasing(plan, held[..i + 1], true));
    ReachStep(s, t2, Delete(c, true), u, lapsing);
    assert u == Set(t.(locks := t.locks - {plan[i]}), c, Releasing(plan, held[..i + 1], true));
  }

  /** A client inside that thinks it has key number i deletes it, whoever has it by now. */
  lemma DeletesAnyway(s: System, t: System, c: string, plan: seq<string>, held: seq<nat>, i: nat, lapsing: set<nat>)
    returns (u: System)
    requires Reaches(s, t, lapsing) && i < |held| <= |plan| && At(t, c) == Inside(plan, held)
    ensures u == Set(t.(locks := t.locks - {plan[i]}), c, Releasing(plan, held[..i + 1], true))
    ensures Reaches(s, u, lapsing)
  {
    var t1 := Set(t, c, Releasing(plan, held, false));
    ReachStep(s, t, Leave(c), t1, lapsing);
    u := ReleasesKey(s, t1, c, plan, held, i, lapsing);
    assert u == Set(t.(locks := t.locks - {plan[i]}), c, Releasing(plan, held[..i + 1], true));
  }

  function Lapsed(s: System, l: nat): System {
    s.(locks := Unattached(s.locks, l), alive := s.alive - {l})
  }

  /** The state in which b and c are both inside with the key a had. */
  function Intruded(s: System, a: string, i: nat, b: string, c: string): System
    requires At(s, a).Inside? && i < |At(s, a).plan| == |At(s, a).held|
  {
    var x := At(s, a);
    var k := x.plan[i];
    System(Unattached(s.locks, x.held[i])[k := s.next + 1], s.alive - {x.held[i]} + {s.next} + {s.next + 1}, s.next + 2,
           s.clients[b := Inside([k], [s.next])]
                    [a := Releasing(x.plan, x.held[..i + 1], true)]
                    [c := Inside([k], [s.next + 1])])
  }

  /** In every reachable state one client's lapse is enough to hurt two others: whatever client is inside,
      with whatever keys, once the lease of one of its keys has lapsed another client can take the key; the
      first then releases by deleting it, and a third gets in beside the second, with no other lapse. */
  lemma LapseAdmitsTwo(states: seq<System>, events: seq<Event>, a: string, i: nat, b: string, c: string)
    requires IsRun(states, events) && forall j :: 0 <= j < |events| ==> NoLapse(states[j], events[j])
    requires At(states[|events|], a).Inside? && i < |At(states[|events|], a).plan| && a != b && b != c && a != c
    requires At(states[|events|], b) == Done && At(states[|events|], c) == Done
    ensures
      var s := states[|events|];
      var k := At(s, a).plan[i];
      && |At(s, a).held| == |At(s, a).plan|
      && var t := Intruded(s, a, i, b, c);
         && Step(s, Lapse(At(s, a).held[i]), Lapsed(s, At(s, a).held[i]))
         && Reaches(Lapsed(s, At(s, a).held[i]), t, {})
         && At(t, b) == Inside([k], [s.next]) && At(t, c) == Inside([k], [s.next + 1])
         && {s.next, s.next + 1} <= t.alive
  {
    InvariantThroughout(states, events, |events|);
    Intrudes(states[|events|], a, i, b, c);
  }

  lemma Intrudes(s: System, a: string, i: nat, b: string, c: string)
    requires Invariant(s) && At(s, a).Inside? && i < |At(s, a).plan| && a != b && b != c && a != c
    requires At(s, b) == Done && At(s, c) == Done
    ensures |At(s, a).held| == |At(s, a).plan|
    ensures Reaches(Lapsed(s, At(s, a).held[i]), Intruded(s, a, i, b, c), {})
  {
    var x := At(s, a);
    assert Shaped(x) && Owns(s, x, i);
    var k := x.plan[i];
    var t0 := Lapsed(s, x.held[i]);
    ReachSelf(t0, {});
    Enters(t0, t0, b, k, {});
    var t1 := Entered(t0, b, k);
    var t2 := DeletesAnyway(t0, t1, a, x.plan, x.held, i, {});
    assert t2.locks == t0.locks;
    Enters(t0, t2, c, k, {});
    assert Entered(t2, c, k) == Intruded(s, a, i, b, c);
  }

  /** Two clients are inside with the key. */
  predicate Share(s: System, k: string, c: string, d: string) {
    && c != d && At(s, c).Inside? && At(s, d).Inside?
    && k in At(s, c).plan && k in At(s, d).plan
  }

  /** Two clients can come to be inside with one key though no further lease lapses that keeps a key some
      client relies on. */
  ghost predicate CanShare(s: System) {
    exists t, lapsing, k, c, d :: Reaches(s, t, lapsing) && Share(t, k, c, d)
  }

  lemma NeverShared(s: System, k: string, c: string, d: string)
    requires Invariant(s)
    ensures !Share(s, k, c, d)
  {
    if Share(s, k, c, d) {
      var i :| 0 <= i < |At(s, c).plan| && At(s, c).plan[i] == k;
      var j :| 0 <= j < |At(s, d).plan| && At(s, d).plan[j] == k;
      assert Shaped(At(s, c)) && Shaped(At(s, d));
      AnotherOwnsOther(s, c, i, d, j);
    }
  }

  function Others(s: System, a: string): set<string> {
    set d | d in s.clients && d != a && s.clients[d] != Done
  }

  /** Every client but one crashes. */
  lemma {:induction false} CrashOthers(s: System, t: System, a: string, lapsing: set<nat>) returns (u: System)
    requires Reaches(s, t, lapsing)
    ensures Reaches(s, u, lapsing) && u.locks == t.locks && u.alive == t.alive && u.next == t.next
    ensures At(u, a) == At(t, a) && forall d :: d != a ==> At(u, d) == Done
    decreases Others(t, a)
  {
    if d :| d in Others(t, a) {
      var t1 := Set(t, d, Done);
      assert Others(t1, a) == Others(t, a) - {d};
      ReachStep(s, t, Crash(d), t1, lapsing);
      u := CrashOthers(s, t1, a, lapsing);
    } else {
      u := t;
      assert forall d :: d != a && At(u, d) != Done ==> d in Others(u, a);
    }
  }

  ghost predicate KeepsOwned(client: Client, kept: set<nat>) {
    forall i :: 0 <= i < Owned(client) ==> i < |client.held| && client.held[i] in kept
  }

  /** When nobody else is left, every lease lapses that keeps a key but none that counts. */
  lemma {:induction false} LapseOthers(s: System, t: System, a: string, kept: set<nat>, lapsing: set<nat>)
    returns (u: System)
    requires Reaches(s, t, lapsing) && t.locks.Values <= kept + lapsing && forall d :: d != a ==> At(t, d) == Done
    requires KeepsOwned(At(t, a), kept)
    ensures Reaches(s, u, lapsing) && u.clients == t.clients && u.next == t.next
    ensures forall k :: k in u.locks ==> k in t.locks && u.locks[k] == t.locks[k] && u.locks[k] in kept
    ensures forall p :: p in t.alive && p !in t.locks.Values ==> p in u.alive
    decreases |t.locks|
  {
    if k :| k in t.locks && t.locks[k] !in kept {
      var l := t.locks[k];
      var t1 := Lapsed(t, l);
      assert l in t.locks.Values && k !in t1.locks && t1.locks.Keys < t.locks.Keys;
      SmallerMap(t1.locks, t.locks);
      assert NoLapse(t, Lapse(l)) by {
        assert forall c :: c in t.clients ==> t.clients[c] == At(t, c);
      }
      ReachStep(s, t, Lapse(l), t1, lapsing);
      assert forall d :: At(t1, d) == At(t, d);
      u := LapseOthers(s, t1, a, kept, lapsing);
    } else {
      u := t;
    }
  }

  lemma SmallerMap(m: map<string, nat>, n: map<string, nat>)
    requires m.Keys < n.Keys
    ensures |m| < |n|
  {
    assert n.Keys == m.Keys + (n.Keys - m.Keys);
    assert n.Keys - m.Keys != {};
  }

  /** On its way inside, with a lease that is alive if it has one to create a key with. */
  ghost predicate OnItsWay(s: System, x: Client) {
    && !Doomed(s, x) && (x.Acquiring? || x.Starting?) && StrictlySorted(x.plan)
    && (if x.Acquiring? then |x.held| < |x.plan| else 0 < |x.held| <= |x.plan|)
  }

  function StepsLeft(x: Client): int {
    match x
    case Acquiring(plan, held, lease) => 3 * (|plan| - |held|) + if lease.Some? then 0 else 1
    case Starting(plan, held) => 3 * (|plan| - |held|) + 2
    case _ => 0
  }

  /** Of these keys only the first n are locked. */
  ghost predicate LockedUpTo(s: System, plan: seq<string>, n: nat)
    requires n <= |plan|
  {
    forall i :: n <= i < |plan| ==> plan[i] !in s.locks
  }

  /** The next move of such a client, with every call going through. */
  lemma NextMove(s: System, t: System, a: string, lapsing: set<nat>) returns (u: System)
    requires Reaches(s, t, lapsing) && OnItsWay(t, At(t, a)) && LockedUpTo(t, At(t, a).plan, |At(t, a).held|)
    ensures Reaches(s, u, lapsing) && u.clients == t.clients[a := At(u, a)] && At(u, a) != Done
    ensures At(u, a).plan == At(t, a).plan && u.locks.Keys <= t.locks.Keys + Elems(At(t, a).plan[|At(t, a).held|..])
    ensures At(u, a).Inside? || (OnItsWay(u, At(u, a)) && StepsLeft(At(u, a)) < StepsLeft(At(t, a))
                                 && |At(t, a).held| <= |At(u, a).held|
                                 && LockedUpTo(u, At(u, a).plan, |At(u, a).held|))
  {
    var x := At(t, a);
    var n := |x.held|;
    if x.Starting? {
      u := Set(t, a, if n == |x.plan| then Inside(x.plan, x.held) else Acquiring(x.plan, x.held, None));
      ReachStep(s, t, KeepAlive(a, true), u, lapsing);
    } else if x.lease == None {
      u := Set(t.(alive := t.alive + {t.next}, next := t.next + 1), a, x.(lease := Some(t.next)));
      ReachStep(s, t, Grant(a), u, lapsing);
    } else {
      var k, l := x.plan[n], x.lease.value;
      u := Set(t.(locks := t.locks[k := l]), a, Starting(x.plan, x.held + [l]));
      assert Wanted(x) == Some(k) && x.plan[n] !in t.locks;
      ReachStep(s, t, Acquire(a), u, lapsing);
      assert k in x.plan[n..];
      forall i | n + 1 <= i < |x.plan|
        ensures x.plan[i] !in u.locks
      {
        assert Below(k, x.plan[i]);
        BelowIrreflexive(k);
      }
    }
  }

  lemma {:induction false} GetsInside(s: System, t: System, a: string, lapsing: set<nat>) returns (u: System)
    requires Reaches(s, t, lapsing) && OnItsWay(t, At(t, a)) && LockedUpTo(t, At(t, a).plan, |At(t, a).held|)
    ensures Reaches(s, u, lapsing) && u.clients == t.clients[a := At(u, a)]
    ensures At(u, a).Inside? && At(u, a).plan == At(t, a).plan
    ensures u.locks.Keys <= t.locks.Keys + Elems(At(t, a).plan[|At(t, a).held|..])
    decreases StepsLeft(At(t, a))
  {
    var v := NextMove(s, t, a, lapsing);
    u := v;
    if !At(v, a).Inside? {
      u := GetsInside(s, v, a, lapsing);
    }
  }

  /** What the lapse of the lease of key number i of a client leaves. */
  lemma KeyFreed(s: System, a: string, i: nat)
    requires Invariant(s) && a in s.clients && i < Relied(s, s.clients[a])
    ensures
      var x := s.clients[a];
      && Shaped(x) && i < |x.held| <= |x.plan| && x.plan[i] !in Lapsed(s, x.held[i]).locks
      && !Doomed(Lapsed(s, x.held[i]), x)
  {
    var x := s.clients[a];
    assert Shaped(x) && Owns(s, x, i);
    assert x.held[i] in x.held;
  }

  lemma IndexInside(plan: seq<string>, n: nat, i: nat)
    requires StrictlySorted(plan) && i < n <= |plan|
    ensures plan[i] !in Elems(plan[n..])
  {
    forall j | n <= j < |plan|
      ensures plan[j] != plan[i]
    {
      assert Below(plan[i], plan[j]);
      BelowIrreflexive(plan[i]);
    }
    assert forall y :: y in plan[n..] ==> exists j :: n <= j < |plan| && plan[j] == y;
  }

  /** The leases of its own keys keep no key a client has yet to take. */
  lemma OwnKeysOnly(s: System, x: Client, t: System)
    requires Tidy(s) && Shaped(x) && x != Done && forall i :: 0 <= i < |x.held| ==> Owns(s, x, i)
    requires forall k :: k in t.locks ==> k in s.locks && t.locks[k] == s.locks[k] && t.locks[k] in Elems(x.held)
    ensures LockedUpTo(t, x.plan, |x.held|)
  {
    forall j | |x.held| <= j < |x.plan|
      ensures x.plan[j] !in t.locks
    {
      if x.plan[j] in t.locks {
        var m :| 0 <= m < |x.held| && x.held[m] == s.locks[x.plan[j]];
        assert Owns(s, x, m) && Below(x.plan[m], x.plan[j]);
        BelowIrreflexive(x.plan[m]);
      }
    }
  }

  /** A client on its way inside gets there, everyone else being out of its way, and finds another there. */
  lemma HarmOnItsWay(s: System, a: string, i: nat, b: string)
    requires Invariant(s) && Tidy(s) && a in s.clients && i < Relied(s, s.clients[a]) && a != b
    requires s.clients[a].Acquiring? || s.clients[a].Starting?
    ensures CanShare(Lapsed(s, s.clients[a].held[i]))
  {
    var x := s.clients[a];
    KeyFreed(s, a, i);
    var t, k := Lapsed(s, x.held[i]), x.plan[i];
    var lapsing := t.locks.Values;
    ReachSelf(t, lapsing);
    var t1 := CrashOthers(t, t, a, lapsing);
    var t2 := LapseOthers(t, t1, a, Elems(x.held), lapsing);
    assert forall d :: At(t2, d) == At(t1, d);
    assert forall j :: 0 <= j < |x.held| ==> Owns(s, x, j);
    OwnKeysOnly(s, x, t2);
    assert !Doomed(t2, x);
    var u := GetsInside(t, t2, a, lapsing);
    IndexInside(x.plan, |x.held|, i);
    assert k !in u.locks && At(u, b) == At(t2, b) == Done;
    Enters(t, u, b, k, lapsing);
    assert Share(Entered(u, b, k), k, a, b);
  }

  /** A client inside shares its key with the next. */
  lemma HarmInside(s: System, a: string, i: nat, b: string)
    requires Invariant(s) && a in s.clients && i < Relied(s, s.clients[a]) && a != b && At(s, b) == Done
    requires s.clients[a].Inside?
    ensures CanShare(Lapsed(s, s.clients[a].held[i]))
  {
    KeyFreed(s, a, i);
    var t, k := Lapsed(s, s.clients[a].held[i]), s.clients[a].plan[i];
    ReachSelf(t, {});
    Enters(t, t, b, k, {});
    assert Share(Entered(t, b, k), k, a, b);
  }

  /** A client that is giving its keys back deletes key number i. */
  lemma DeletesSoon(s: System, t: System, a: string, i: nat, lapsing: set<nat>) returns (u: System)
    requires Reaches(s, t, lapsing) && Shaped(At(t, a)) && i < Owned(At(t, a))
    requires At(t, a).Releasing? || At(t, a).Abandoning?
    ensures Reaches(s, u, lapsing) && u.locks == t.locks - {At(t, a).plan[i]} && u.clients == t.clients[a := At(u, a)]
  {
    var x := At(t, a);
    if x.Abandoning? {
      u := Set(t.(locks := t.locks - {x.plan[i]}), a, Abandoning(x.plan, x.held, true));
      ReachStep(s, t, Delete(a, true), u, lapsing);
    } else if !x.deleted {
      u := ReleasesKey(s, t, a, x.plan, x.held, i, lapsing);
    } else {
      var n := |x.held| - 1;
      var t1 := Set(t, a, Releasing(x.plan, x.held[..n], false));
      ReachStep(s, t, Revoke(a, false), t1, lapsing);
      u := ReleasesKey(s, t1, a, x.plan, x.held[..n], i, lapsing);
    }
  }

  /** A client that is giving its keys back deletes the next client's, and a third gets in. */
  lemma HarmGivingBack(s: System, a: string, i: nat, b: string, c: string)
    requires Invariant(s) && a in s.clients && i < Relied(s, s.clients[a]) && a != b && a != c && b != c
    requires At(s, b) == Done && At(s, c) == Done && (s.clients[a].Releasing? || s.clients[a].Abandoning?)
    ensures CanShare(Lapsed(s, s.clients[a].held[i]))
  {
    KeyFreed(s, a, i);
    var t, k := Lapsed(s, s.clients[a].held[i]), s.clients[a].plan[i];
    ReachSelf(t, {});
    Enters(t, t, b, k, {});
    var t1 := Entered(t, b, k);
    assert At(t1, a) == s.clients[a];
    var t2 := DeletesSoon(t, t1, a, i, {});
    assert At(t2, b) == Inside([k], [t.next]) && At(t2, c) == Done && k !in t2.locks;
    Enters(t, t2, c, k, {});
    assert Share(Entered(t2, c, k), k, b, c);
  }

  lemma HarmDone(s: System, a: string, i: nat)
    requires Invariant(s) && Tidy(s) && a in s.clients && i < Relied(s, s.clients[a])
    ensures CanShare(Lapsed(s, s.clients[a].held[i]))
  {
    var b := Fresh(s.clients.Keys);
    var c := Fresh(s.clients.Keys + {b});
    match s.clients[a]
    case Acquiring(_, _, _) => HarmOnItsWay(s, a, i, b);
    case Starting(_, _) => HarmOnItsWay(s, a, i, b);
    case Inside(_, _) => HarmInside(s, a, i, b);
    case Releasing(_, _, _) => HarmGivingBack(s, a, i, b, c);
    case Abandoning(_, _, _) => HarmGivingBack(s, a, i, b, c);
  }

  /** Exactly when the lapse of a lease does harm, in every state reached without such a lapse: two clients
      can come to be inside with one key though no further such lease lapses, if and only if the lease keeps
      a key of a client that is inside, or on its way there (and not doomed by the loss of the lease for its
      next key), or that has yet to delete that key. */
  lemma LapseExact(states: seq<System>, events: seq<Event>, l: nat, t: System)
    requires IsRun(states, events) && forall j :: 0 <= j < |events| ==> NoLapse(states[j], events[j])
    requires Step(states[|events|], Lapse(l), t)
    ensures CanShare(t) <==> !NoLapse(states[|events|], Lapse(l))
  {
    var s := states[|events|];
    TidyThroughout(states, events, |events|);
    assert t == Lapsed(s, l);
    if NoLapse(s, Lapse(l)) {
      LapseKeeps(s, l, t);
      if CanShare(t) {
        var u, lapsing, k, c, d :| Reaches(t, u, lapsing) && Share(u, k, c, d);
        ReachKeeps(t, u, lapsing);
        NeverShared(u, k, c, d);
      }
    } else {
      var a, i :| a in s.clients && 0 <= i < Relied(s, s.clients[a]) && s.clients[a].held[i] == l;
      HarmDone(s, a, i);
    }
  }
}
