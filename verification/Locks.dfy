/** The distributed lock: any number of clients taking any lists of keys, one etcd call per step. */
module Locks {
  import opened Domain

  /** The order of sort.Strings. */
  predicate Below(a: string, b: string) {
    b != "" && (a == "" || a[0] < b[0] || (a[0] == b[0] && Below(a[1..], b[1..])))
  }

  /** The texts agree up to n, and there the first ends or has the smaller character. */
  predicate DiffersAt(a: string, b: string, n: nat) {
    n <= |a| && n < |b| && a[..n] == b[..n] && (n == |a| || a[n] < b[n])
  }

  /** In the order of a dictionary over all characters. */
  ghost predicate IsBefore(a: string, b: string) {
    exists n: nat :: DiffersAt(a, b, n)
  }

  lemma {:induction false} BelowExactly(a: string, b: string)
    ensures Below(a, b) <==> IsBefore(a, b)
  {
    if a != "" && b != "" && a[0] == b[0] {
      BelowExactly(a[1..], b[1..]);
      if n: nat :| DiffersAt(a[1..], b[1..], n) {
        assert a[..n + 1] == [a[0]] + a[1..][..n] && b[..n + 1] == [b[0]] + b[1..][..n];
        assert DiffersAt(a, b, n + 1);
      }
      if n: nat :| DiffersAt(a, b, n) {
        assert n > 0 && a[1..][..n - 1] == a[..n][1..] && b[1..][..n - 1] == b[..n][1..];
        assert DiffersAt(a[1..], b[1..], n - 1);
      }
    } else if a == "" || b == "" || a[0] < b[0] {
      assert b != "" ==> DiffersAt(a, b, 0);
    } else {
      assert forall n: nat :: DiffersAt(a, b, n) ==> n > 0 && a[..n][0] == b[..n][0];
    }
  }

  lemma {:induction false} BelowTransitive(a: string, b: string, c: string)
    requires Below(a, b) && Below(b, c)
    ensures Below(a, c)
  {
    if a != "" && a[0] == b[0] && b[0] == c[0] {
      BelowTransitive(a[1..], b[1..], c[1..]);
    }
  }

  lemma {:induction false} BelowIrreflexive(a: string)
    ensures !Below(a, a)
  {
    if a != "" {
      BelowIrreflexive(a[1..]);
    }
  }

  lemma {:induction false} BelowTotal(a: string, b: string)
    ensures a == b || Below(a, b) || Below(b, a)
  {
    if a != "" && b != "" && a[0] == b[0] {
      BelowTotal(a[1..], b[1..]);
      assert a == [a[0]] + a[1..] && b == [b[0]] + b[1..];
    }
  }

  predicate StrictlySorted(keys: seq<string>) {
    forall i, j :: 0 <= i < j < |keys| ==> Below(keys[i], keys[j])
  }

  predicate IsLeast(k: string, keys: set<string>) {
    k in keys && forall l :: l in keys ==> l == k || Below(k, l)
  }

  /** The least key of a set, as sorting would put it first. */
  lemma {:induction false} Least(keys: set<string>) returns (k: string)
    requires keys != {}
    ensures IsLeast(k, keys)
  {
    var x :| x in keys;
    var rest := keys - {x};
    k := x;
    if rest != {} {
      var m := Least(rest);
      BelowTotal(x, m);
      k := if Below(x, m) then x else m;
      forall l | l in keys
        ensures l == k || Below(k, l)
      {
        assert l == x || l in rest;
        if l in rest && l != m && k == x {
          BelowTransitive(x, m, l);
        }
      }
    } else {
      assert forall l :: l in keys ==> l == x || l in rest;
    }
  }

  lemma LeastExists(keys: set<string>)
    requires keys != {}
    ensures exists k :: k in keys && IsLeast(k, keys)
  {
    var k := Least(keys);
  }

  /** Half sorted: what is sorted precedes what is left. */
  ghost predicate HalfSorted(sorted: seq<string>, rest: set<string>, all: set<string>) {
    && StrictlySorted(sorted)
    && rest <= all && Elems(sorted) == all - rest
    && forall x, l :: x in Elems(sorted) && l in rest ==> Below(x, l)
  }

  lemma SortOneMore(sorted: seq<string>, rest: set<string>, all: set<string>, k: string)
    requires HalfSorted(sorted, rest, all) && IsLeast(k, rest)
    ensures HalfSorted(sorted + [k], rest - {k}, all)
  {
    var more := sorted + [k];
    assert Elems(more) == Elems(sorted) + {k};
    forall i, j | 0 <= i < j < |more|
      ensures Below(more[i], more[j])
    {
      if j == |sorted| {
        assert sorted[i] in Elems(sorted);
      }
    }
  }

  method Unique(keys: seq<string>) returns (uniq: set<string>)
    ensures uniq == Elems(keys)
  {
    uniq := {};
    for i := 0 to |keys|
      invariant uniq == Elems(keys[..i])
    {
      assert keys[..i + 1] == keys[..i] + [keys[i]];
      uniq := uniq + {keys[i]};
    }
    assert keys[..|keys|] == keys;
  }

  /** Unique sorted keys: the order in which a client takes its locks. */
  method UniqueSortedKeys(keys: seq<string>) returns (sorted: seq<string>)
    ensures StrictlySorted(sorted) && Elems(sorted) == Elems(keys)
    ensures forall i, j :: 0 <= i < j < |sorted| ==> IsBefore(sorted[i], sorted[j])
  {
    var uniq := Unique(keys);
    sorted := [];
    var rest := uniq;
    while rest != {}
      invariant HalfSorted(sorted, rest, uniq)
      decreases |rest|
    {
      LeastExists(rest);
      var k :| k in rest && IsLeast(k, rest);
      SortOneMore(sorted, rest, uniq, k);
      sorted, rest := sorted + [k], rest - {k};
    }
    forall i, j | 0 <= i < j < |sorted|
      ensures IsBefore(sorted[i], sorted[j])
    {
      assert Below(sorted[i], sorted[j]);
      BelowExactly(sorted[i], sorted[j]);
    }
  }

  /** Where a client is in its transaction. `lease` is the lease granted for the key it is trying;
      `held` lists the leases of the keys it has, in the order of its plan. A client is Starting while
      the last of these has no keep-alive yet, and Abandoning when that keep-alive failed: of its keys it
      then knows the last alone. */
  datatype Client =
    | Acquiring(plan: seq<string>, held: seq<nat>, lease: Option<nat>)
    | Starting(plan: seq<string>, held: seq<nat>)
    | Abandoning(plan: seq<string>, held: seq<nat>, deleted: bool)
    | Inside(plan: seq<string>, held: seq<nat>)
    | Releasing(plan: seq<string>, held: seq<nat>, deleted: bool)
    | Done

  /** etcd: the lock keys with the lease each is attached to, the leases alive, the next lease. */
  datatype System = System(locks: map<string, nat>, alive: set<nat>, next: nat, clients: map<string, Client>)

  datatype Event =
    | Start(c: string, plan: seq<string>)
    | Grant(c: string)
    | Acquire(c: string)
    | KeepAlive(c: string, ok: bool)
    | GiveUp(c: string, applied: bool)
    | RevokeUnused(c: string, ok: bool)
    | Leave(c: string)
    | Delete(c: string, ok: bool)
    | Revoke(c: string, ok: bool)
    | Crash(c: string)
    | Lapse(lease: nat)

  function At(s: System, c: string): Client {
    if c in s.clients then s.clients[c] else Done
  }

  function Set(s: System, c: string, client: Client): System {
    s.(clients := s.clients[c := client])
  }

  /** The key a client is trying to get. */
  function Wanted(client: Client): Option<string> {
    if client.Acquiring? && |client.held| < |client.plan| then Some(client.plan[|client.held|]) else None
  }

  function Unattached(locks: map<string, nat>, lease: nat): map<string, nat> {
    map k | k in locks && locks[k] != lease :: locks[k]
  }

  /** One etcd call, or one move of a client; every call may fail. Taking the next key of the plan
      needs no step: a client with all its keys is inside. Release deletes the last key without
      looking at its value, then revokes its lease; so does the clean-up after a failed keep-alive,
      for that one key, and the client then leaves whatever it held before to its leases. A client that
      gives up on an error does so too, and its last create may have been applied all the same. */
  predicate Step(s: System, e: Event, t: System) {
    match e
    case Start(c, plan) =>
      At(s, c) == Done && StrictlySorted(plan) && plan != [] && t == Set(s, c, Acquiring(plan, [], None))
    case Grant(c) =>
      && At(s, c).Acquiring? && At(s, c).lease == None
      && t == Set(s.(alive := s.alive + {s.next}, next := s.next + 1), c, At(s, c).(lease := Some(s.next)))
    case Acquire(c) =>
      var x := At(s, c);
      && Wanted(x).Some? && x.lease.Some? && x.lease.value in s.alive && Wanted(x).value !in s.locks
      && var held := x.held + [x.lease.value];
         t == Set(s.(locks := s.locks[Wanted(x).value := x.lease.value]), c, Starting(x.plan, held))
    case KeepAlive(c, ok) =>
      var x := At(s, c);
      && x.Starting? && x.held != [] && |x.held| <= |x.plan|
      && var n := |x.held| - 1;
         t == Set(s, c, if !ok then Abandoning([x.plan[n]], [x.held[n]], false)
                        else if |x.held| == |x.plan| then Inside(x.plan, x.held)
                        else Acquiring(x.plan, x.held, None))
    case GiveUp(c, applied) =>
      var x := At(s, c);
      && x.Acquiring?
      && (applied ==> Wanted(x).Some? && x.lease.Some? && x.lease.value in s.alive && Wanted(x).value !in s.locks)
      && t == Set(if applied then s.(locks := s.locks[Wanted(x).value := x.lease.value]) else s, c, Done)
    case RevokeUnused(c, ok) =>
      && At(s, c).Acquiring? && At(s, c).lease.Some?
      && var l := At(s, c).lease.value;
         t == Set(if ok then s.(locks := Unattached(s.locks, l), alive := s.alive - {l}) else s, c, Done)
    case Leave(c) =>
      At(s, c).Inside? && t == Set(s, c, Releasing(At(s, c).plan, At(s, c).held, false))
    case Delete(c, ok) =>
      var x := At(s, c);
      && (x.Releasing? || x.Abandoning?) && !x.deleted && x.held != [] && |x.held| <= |x.plan|
      && t == Set(if ok then s.(locks := s.locks - {x.plan[|x.held| - 1]}) else s, c, x.(deleted := true))
    case Revoke(c, ok) =>
      var x := At(s, c);
      && (x.Releasing? || x.Abandoning?) && x.deleted && x.held != []
      && var l := x.held[|x.held| - 1];
         t == Set(if ok then s.(locks := Unattached(s.locks, l), alive := s.alive - {l}) else s, c,
                  if |x.held| == 1 then Done else Releasing(x.plan, x.held[..|x.held| - 1], false))
    case Crash(c) =>
      t == Set(s, c, Done)
    case Lapse(l) =>
      t == s.(locks := Unattached(s.locks, l), alive := s.alive - {l})
  }

  /** The keys a client has: those it took and has not begun to give back. */
  function Owned(client: Client): nat {
    match client
    case Acquiring(_, held, _) => |held|
    case Starting(_, held) => |held|
    case Abandoning(_, held, deleted) => if deleted && held != [] then |held| - 1 else |held|
    case Inside(_, held) => |held|
    case Releasing(_, held, deleted) => if deleted && held != [] then |held| - 1 else |held|
    case Done => 0
  }

  function Leases(client: Client): set<nat> {
    match client
    case Acquiring(_, held, lease) => Elems(held) + if lease.Some? then {lease.value} else {}
    case Starting(_, held) => Elems(held)
    case Abandoning(_, held, _) => Elems(held)
    case Inside(_, held) => Elems(held)
    case Releasing(_, held, _) => Elems(held)
    case Done => {}
  }

  /** The lease of the key it is trying has lapsed, so the create can only fail and the client give up. */
  predicate Doomed(s: System, client: Client) {
    client.Acquiring? && client.lease.Some? && client.lease.value !in s.alive
  }

  /** The keys a client relies on: those it has, unless it can never get inside with them nor will ever
      give them back. */
  function Relied(s: System, client: Client): nat {
    if Doomed(s, client) then 0 else Owned(client)
  }

  /** No lease lapses that keeps a key some client relies on. */
  predicate NoLapse(s: System, e: Event) {
    e.Lapse? ==> forall c, i :: c in s.clients && 0 <= i < Relied(s, s.clients[c]) ==> s.clients[c].held[i] != e.lease
  }

  predicate Shaped(client: Client) {
    client != Done ==>
      && StrictlySorted(client.plan) && |client.held| <= |client.plan|
      && NoDuplicates(client.held)
      && (client.Acquiring? ==> |client.held| < |client.plan|)
      && (client.Acquiring? && client.lease.Some? ==> client.lease.value !in client.held)
      && (client.Starting? ==> client.held != [])
      && (client.Abandoning? ==> |client.held| == 1)
      && (client.Inside? ==> |client.held| == |client.plan|)
  }

  ghost predicate Invariant(s: System) {
    && (forall c :: c in s.clients ==> Shaped(s.clients[c]))
    && (forall c, l :: c in s.clients && l in Leases(s.clients[c]) ==> l < s.next)
    && (forall c, d :: c in s.clients && d in s.clients && c != d ==> Leases(s.clients[c]) !! Leases(s.clients[d]))
    && (forall c, i :: c in s.clients && 0 <= i < Relied(s, s.clients[c]) ==> Owns(s, s.clients[c], i))
    && (forall k :: k in s.locks ==> s.locks[k] < s.next)
  }

  /** The lock key number i of the client's plan is attached to the client's lease. */
  predicate Owns(s: System, client: Client, i: nat)
  {
    client != Done && i < |client.held| && i < |client.plan| &&
    client.plan[i] in s.locks && s.locks[client.plan[i]] == client.held[i]
  }

  /** A client's own step: the others keep their leases, and lose no lock. */
  ghost predicate OthersKeep(s: System, c: string, t: System) {
    && t.clients == s.clients[c := At(t, c)]
    && s.next <= t.next && t.alive <= s.alive + {s.next}
    && (forall k :: k in t.locks ==> t.locks[k] < t.next)
    && (forall d, i :: d in s.clients && d != c && 0 <= i < Relied(s, s.clients[d]) && Owns(s, s.clients[d], i) ==>
          Owns(t, s.clients[d], i))
  }

  lemma ReliedKept(s: System, c: string, t: System, d: string)
    requires Invariant(s) && OthersKeep(s, c, t) && d in s.clients && d != c
    ensures Relied(t, s.clients[d]) <= Relied(s, s.clients[d])
  {
    var x := s.clients[d];
    assert x.Acquiring? && x.lease.Some? ==> x.lease.value in Leases(x);
  }

  lemma ClientStep(s: System, c: string, t: System)
    requires Invariant(s) && OthersKeep(s, c, t)
    requires Shaped(At(t, c)) && forall i :: 0 <= i < Relied(t, At(t, c)) ==> Owns(t, At(t, c), i)
    requires forall l :: l in Leases(At(t, c)) ==> (l in Leases(At(s, c)) || l == s.next) && l < t.next
    ensures Invariant(t)
  {
    forall d, i | d in t.clients && 0 <= i < Relied(t, t.clients[d])
      ensures Owns(t, t.clients[d], i)
    {
      if d != c {
        ReliedKept(s, c, t, d);
        assert Owns(s, s.clients[d], i);
      }
    }
    forall a, b | a in t.clients && b in t.clients && a != b
      ensures Leases(t.clients[a]) !! Leases(t.clients[b])
    {
      assert a != c ==> t.clients[a] == s.clients[a];
      assert b != c ==> t.clients[b] == s.clients[b];
      forall l | l in Leases(t.clients[a])
        ensures l !in Leases(t.clients[b])
      {
        if a == c {
          assert l in Leases(At(s, c)) || l == s.next;
        } else if b == c {
          assert l < s.next;
        }
      }
    }
  }

  /** Giving back or taking a key nobody else owns leaves the others their locks. */
  lemma AnotherOwnsOther(s: System, c: string, i: nat, d: string, j: nat)
    requires Invariant(s) && c in s.clients && d in s.clients && c != d
    requires i < Relied(s, s.clients[c]) && j < Relied(s, s.clients[d])
    ensures s.clients[c].plan[i] != s.clients[d].plan[j]
  {
    assert Owns(s, s.clients[c], i) && Owns(s, s.clients[d], j);
    assert s.clients[c].held[i] in Leases(s.clients[c]);
    assert s.clients[d].held[j] in Leases(s.clients[d]);
  }

  lemma AcquireKeeps(s: System, c: string, t: System)
    requires Invariant(s) && Step(s, Acquire(c), t)
    ensures Invariant(t)
  {
    var x, y := At(s, c), At(t, c);
    var l := x.lease.value;
    assert l in Leases(x);
    forall i | 0 <= i < Owned(y)
      ensures Owns(t, y, i)
    {
      if i < |x.held| {
        assert Owns(s, x, i);
      }
    }
    assert Leases(y) == Leases(x) by {
      assert Elems(x.held + [l]) == Elems(x.held) + {l};
    }
    assert forall m :: m in Leases(y) ==> m < s.next;
    ClientStep(s, c, t);
  }

  lemma KeepAliveKeeps(s: System, c: string, ok: bool, t: System)
    requires Invariant(s) && Step(s, KeepAlive(c, ok), t)
    ensures Invariant(t)
  {
    var x, y := At(s, c), At(t, c);
    assert c in s.clients && Owned(x) == Relied(s, x);
    forall i | 0 <= i < Owned(y)
      ensures Owns(t, y, i)
    {
      assert Owns(s, x, if ok then i else |x.held| - 1);
    }
    assert forall l :: l in y.held ==> l in x.held;
    assert forall l :: l in Leases(x) ==> l < s.next;
    ClientStep(s, c, t);
  }

  lemma RevokeUnusedKeeps(s: System, c: string, ok: bool, t: System)
    requires Invariant(s) && Step(s, RevokeUnused(c, ok), t)
    ensures Invariant(t)
  {
    var l := At(s, c).lease.value;
    assert l in Leases(At(s, c));
    forall d, j | d in s.clients && d != c && 0 <= j < Relied(s, s.clients[d])
      ensures Owns(t, s.clients[d], j)
    {
      assert Owns(s, s.clients[d], j) && s.clients[d].held[j] in Leases(s.clients[d]);
    }
    ClientStep(s, c, t);
  }

  lemma GiveUpKeeps(s: System, c: string, applied: bool, t: System)
    requires Invariant(s) && Step(s, GiveUp(c, applied), t)
    ensures Invariant(t)
  {
    var x := At(s, c);
    assert x.lease.Some? ==> x.lease.value in Leases(x);
    ClientStep(s, c, t);
  }

  lemma DeleteKeeps(s: System, c: string, ok: bool, t: System)
    requires Invariant(s) && Step(s, Delete(c, ok), t)
    ensures Invariant(t)
  {
    var x := At(s, c);
    var n := |x.held| - 1;
    forall d, j | d in s.clients && d != c && 0 <= j < Relied(s, s.clients[d])
      ensures Owns(t, s.clients[d], j)
    {
      AnotherOwnsOther(s, c, n, d, j);
      assert Owns(s, s.clients[d], j);
    }
    forall i | 0 <= i < n
      ensures Owns(t, At(t, c), i)
    {
      assert Owns(s, x, i);
      assert Below(x.plan[i], x.plan[n]);
      BelowIrreflexive(x.plan[n]);
    }
    assert Leases(At(t, c)) == Leases(x);
    assert forall m :: m in Leases(x) ==> m < s.next;
    ClientStep(s, c, t);
  }

  lemma RevokeKeeps(s: System, c: string, ok: bool, t: System)
    requires Invariant(s) && Step(s, Revoke(c, ok), t)
    ensures Invariant(t)
  {
    var x, y := At(s, c), At(t, c);
    var n := |x.held| - 1;
    var l := x.held[n];
    assert l in Leases(x);
    forall d, j | d in s.clients && d != c && 0 <= j < Relied(s, s.clients[d])
      ensures Owns(t, s.clients[d], j)
    {
      assert Owns(s, s.clients[d], j) && s.clients[d].held[j] in Leases(s.clients[d]);
    }
    forall i | 0 <= i < Owned(y)
      ensures Owns(t, y, i)
    {
      assert Owns(s, x, i) && x.held[i] != x.held[n];
    }
    forall m | m in Leases(y)
      ensures m in Leases(x)
    {
      assert m in x.held[..n];
    }
    ClientStep(s, c, t);
  }

  /** A lapse of a lease that keeps no key some client relies on. */
  lemma LapseKeeps(s: System, l: nat, t: System)
    requires Invariant(s) && Step(s, Lapse(l), t) && NoLapse(s, Lapse(l))
    ensures Invariant(t)
  {
    assert t.clients == s.clients;
    forall c, i | c in s.clients && 0 <= i < Relied(t, s.clients[c])
      ensures Owns(t, s.clients[c], i)
    {
      assert Owns(s, s.clients[c], i);
    }
  }

  lemma StepKeepsInvariant(s: System, e: Event, t: System)
    requires Invariant(s) && Step(s, e, t) && NoLapse(s, e)
    ensures Invariant(t)
  {
    match e
    case Start(c, plan) => ClientStep(s, c, t);
    case Grant(c) => GrantKeeps(s, c, t);
    case Acquire(c) => AcquireKeeps(s, c, t);
    case KeepAlive(c, ok) => KeepAliveKeeps(s, c, ok, t);
    case GiveUp(c, applied) => GiveUpKeeps(s, c, applied, t);
    case RevokeUnused(c, ok) => RevokeUnusedKeeps(s, c, ok, t);
    case Leave(c) => LeaveKeeps(s, c, t);
    case Delete(c, ok) => DeleteKeeps(s, c, ok, t);
    case Revoke(c, ok) => RevokeKeeps(s, c, ok, t);
    case Crash(c) => ClientStep(s, c, t);
    case Lapse(l) => LapseKeeps(s, l, t);
  }

  lemma GrantKeeps(s: System, c: string, t: System)
    requires Invariant(s) && Step(s, Grant(c), t)
    ensures Invariant(t)
  {
    var x := At(s, c);
    forall i | 0 <= i < Owned(At(t, c))
      ensures Owns(t, At(t, c), i)
    {
      assert Owns(s, x, i);
    }
    assert forall l :: l in x.held ==> l in Leases(x);
    ClientStep(s, c, t);
  }

  lemma LeaveKeeps(s: System, c: string, t: System)
    requires Invariant(s) && Step(s, Leave(c), t)
    ensures Invariant(t)
  {
    forall i | 0 <= i < Owned(At(t, c))
      ensures Owns(t, At(t, c), i)
    {
      assert Owns(s, At(s, c), i);
    }
    assert Leases(At(t, c)) == Leases(At(s, c));
    assert c in s.clients && forall l :: l in Leases(At(s, c)) ==> l < s.next;
    ClientStep(s, c, t);
  }

  /** Nobody has started and no lock is held. */
  predicate IsStart(s: System) {
    s.locks == map[] && forall c :: c in s.clients ==> s.clients[c] == Done
  }

  ghost predicate IsRun(states: seq<System>, events: seq<Event>) {
    && |states| == |events| + 1
    && IsStart(states[0])
    && forall i :: 0 <= i < |events| ==> Step(states[i], events[i], states[i + 1])
  }

  lemma {:induction false} InvariantThroughout(states: seq<System>, events: seq<Event>, n: nat)
    requires IsRun(states, events) && n <= |events|
    requires forall i :: 0 <= i < n ==> NoLapse(states[i], events[i])
    ensures Invariant(states[n])
  {
    if n > 0 {
      InvariantThroughout(states, events, n - 1);
      StepKeepsInvariant(states[n - 1], events[n - 1], states[n]);
    }
  }

  /** Mutual exclusion: in every run in which no lease lapses that keeps a key some client relies on, two
      clients inside at once have no key in common. */
  lemma MutualExclusion(states: seq<System>, events: seq<Event>, n: nat, c: string, d: string)
    requires IsRun(states, events) && n <= |events|
    requires forall i :: 0 <= i < n ==> NoLapse(states[i], events[i])
    requires c in states[n].clients && d in states[n].clients && c != d
    requires states[n].clients[c].Inside? && states[n].clients[d].Inside?
    ensures Elems(states[n].clients[c].plan) !! Elems(states[n].clients[d].plan)
  {
    InvariantThroughout(states, events, n);
    var s := states[n];
    forall k | k in Elems(s.clients[c].plan)
      ensures k !in Elems(s.clients[d].plan)
    {
      var i :| 0 <= i < |s.clients[c].plan| && s.clients[c].plan[i] == k;
      forall j | 0 <= j < |s.clients[d].plan|
        ensures s.clients[d].plan[j] != k
      {
        AnotherOwnsOther(s, c, i, d, j);
      }
    }
  }

  function WantedBy(s: System, c: string): string {
    var k := Wanted(At(s, c));
    if k.Some? then k.value else ""
  }

  /** c waits for a key that d has and has not begun to give back. */
  predicate WaitsFor(s: System, c: string, d: string) {
    && c in s.clients && d in s.clients
    && Wanted(s.clients[c]).Some?
    && exists i :: 0 <= i < Owned(s.clients[d]) && i < |s.clients[d].plan| && s.clients[d].plan[i] == WantedBy(s, c)
  }

  /** Clients, each waiting for the next, the last being the first. */
  predicate WaitCycle(s: System, cs: seq<string>) {
    |cs| >= 2 && cs[0] == cs[|cs| - 1] && forall i :: 0 <= i < |cs| - 1 ==> WaitsFor(s, cs[i], cs[i + 1])
  }

  ghost predicate AllShaped(s: System) {
    forall c :: c in s.clients ==> Shaped(s.clients[c])
  }

  ghost predicate LeasesIssued(s: System) {
    forall c, l :: c in s.clients && l in Leases(s.clients[c]) ==> l < s.next
  }

  lemma ShapeStep(s: System, c: string, t: System)
    requires AllShaped(s) && LeasesIssued(s) && t.clients == s.clients[c := At(t, c)] && s.next <= t.next
    requires Shaped(At(t, c)) && forall l :: l in Leases(At(t, c)) ==> l in Leases(At(s, c)) || l < t.next
    ensures AllShaped(t) && LeasesIssued(t)
  {
  }

  lemma GrantShape(s: System, c: string, t: System)
    requires AllShaped(s) && LeasesIssued(s) && Step(s, Grant(c), t)
    ensures AllShaped(t) && LeasesIssued(t)
  {
    assert forall l :: l in At(s, c).held ==> l in Leases(At(s, c));
    ShapeStep(s, c, t);
  }

  lemma AcquireShape(s: System, c: string, t: System)
    requires AllShaped(s) && LeasesIssued(s) && Step(s, Acquire(c), t)
    ensures AllShaped(t) && LeasesIssued(t)
  {
    var x := At(s, c);
    assert x.lease.value in Leases(x);
    assert Elems(x.held + [x.lease.value]) == Elems(x.held) + {x.lease.value};
    ShapeStep(s, c, t);
  }

  lemma RevokeShape(s: System, c: string, ok: bool, t: System)
    requires AllShaped(s) && LeasesIssued(s) && Step(s, Revoke(c, ok), t)
    ensures AllShaped(t) && LeasesIssued(t)
  {
    var x := At(s, c);
    assert forall l :: l in x.held[..|x.held| - 1] ==> l in x.held;
    ShapeStep(s, c, t);
  }

  lemma StepKeepsShape(s: System, e: Event, t: System)
    requires AllShaped(s) && LeasesIssued(s) && Step(s, e, t)
    ensures AllShaped(t) && LeasesIssued(t)
  {
    match e
    case Start(c, plan) => ShapeStep(s, c, t);
    case Grant(c) => GrantShape(s, c, t);
    case Acquire(c) => AcquireShape(s, c, t);
    case KeepAlive(c, _) => ShapeStep(s, c, t);
    case GiveUp(c, _) => ShapeStep(s, c, t);
    case RevokeUnused(c, _) => ShapeStep(s, c, t);
    case Leave(c) => ShapeStep(s, c, t);
    case Delete(c, _) => ShapeStep(s, c, t);
    case Revoke(c, ok) => RevokeShape(s, c, ok, t);
    case Crash(c) => ShapeStep(s, c, t);
    case Lapse(l) =>
  }

  lemma {:induction false} ShapedThroughout(states: seq<System>, events: seq<Event>, n: nat)
    requires IsRun(states, events) && n <= |events|
    ensures AllShaped(states[n])
    ensures LeasesIssued(states[n])
  {
    if n > 0 {
      ShapedThroughout(states, events, n - 1);
      StepKeepsShape(states[n - 1], events[n - 1], states[n]);
    }
  }

  lemma WaitsUpwards(s: System, c: string, d: string, e: string)
    requires AllShaped(s) && WaitsFor(s, c, d) && WaitsFor(s, d, e)
    ensures Below(WantedBy(s, c), WantedBy(s, d))
  {
    var x := s.clients[d];
    var i :| 0 <= i < Owned(x) && i < |x.plan| && x.plan[i] == WantedBy(s, c);
    assert Shaped(x);
  }

  lemma {:induction false} WaitChain(s: System, cs: seq<string>, n: nat)
    requires AllShaped(s) && n < |cs| - 1 && n > 0 && forall i :: 0 <= i < |cs| - 1 ==> WaitsFor(s, cs[i], cs[i + 1])
    ensures Below(WantedBy(s, cs[0]), WantedBy(s, cs[n]))
  {
    WaitsUpwards(s, cs[n - 1], cs[n], cs[n + 1]);
    if n > 1 {
      WaitChain(s, cs, n - 1);
      BelowTransitive(WantedBy(s, cs[0]), WantedBy(s, cs[n - 1]), WantedBy(s, cs[n]));
    }
  }

  /** No circular wait: in every state of every run, lapses and crashes included, no clients wait
      for each other in a circle, because every plan is sorted. */
  lemma NoCircularWait(states: seq<System>, events: seq<Event>, n: nat, cs: seq<string>)
    requires IsRun(states, events) && n <= |events|
    ensures !WaitCycle(states[n], cs)
  {
    ShapedThroughout(states, events, n);
    var s := states[n];
    if WaitCycle(s, cs) {
      BelowIrreflexive(WantedBy(s, cs[0]));
      CycleAscends(s, cs);
    }
  }

  lemma CycleAscends(s: System, cs: seq<string>)
    requires AllShaped(s) && WaitCycle(s, cs)
    ensures Below(WantedBy(s, cs[0]), WantedBy(s, cs[0]))
  {
    var m := |cs| - 1;
    var round := cs + [cs[1]];
    assert forall i :: 0 <= i < m ==> WaitsFor(s, round[i], round[i + 1]);
    assert WaitsFor(s, round[m], round[m + 1]);
    WaitChain(s, round, m);
  }
}
