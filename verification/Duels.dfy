/** When the passes of several hosts never stop changing the store, and exactly when they do stop. */
module Duels {
  import opened Domain
  import opened Graph
  import opened Validation
  import opened ReconcilePlan
  import opened PassTheorems
  import opened Convergence
  import opened ConvergenceBound
  import opened OneHost
  import opened Sweeps

  lemma {:induction false} Listing(s: set<RecordIntent>) returns (xs: seq<RecordIntent>)
    ensures Elems(xs) == s && NoDuplicates(xs)
  {
    xs := [];
    if x :| x in s {
      var rest := Listing(s - {x});
      assert forall y :: y in rest ==> y in Elems(rest);
      xs := rest + [x];
      assert Elems(xs) == Elems(rest) + {x};
    }
  }

  lemma CleanListing(s: set<RecordIntent>, xs: seq<RecordIntent>)
    requires Clean(s) && Elems(xs) == s && NoDuplicates(xs)
    ensures CleanList(xs)
  {
    forall i, j | 0 <= i < j < |xs|
      ensures !Conflict(xs[i].record, xs[j].record)
    {
      assert xs[i] in Elems(xs) && xs[j] in Elems(xs);
    }
  }

  /** All the two hosts of a duel want. */
  function Sides(wishes: Wishes, d: RecordIntent, e: RecordIntent): set<RecordIntent>
    requires Wished(wishes, d) && Wished(wishes, e)
  {
    wishes[d.hostname] + wishes[e.hostname]
  }

  /** d is stored, and whatever its host has stored against e beats e. */
  ghost predicate Leads(wishes: Wishes, d: RecordIntent, e: RecordIntent, s: set<RecordIntent>)
    requires Wished(wishes, d) && Wished(wishes, e)
  {
    && Clean(s) && s <= Sides(wishes, d, e) && d in s
    && forall y :: y in s && y in wishes[d.hostname] && Conflict(e.record, y.record) ==> Beats(y, e)
  }

  lemma NoCycleWithin(wishes: Wishes, d: RecordIntent, e: RecordIntent, s: set<RecordIntent>, g: set<RecordIntent>)
    requires Wished(wishes, d) && Wished(wishes, e) && Unhindered(wishes, d, e) && s <= Sides(wishes, d, e)
    ensures !ClosesCycleIn(e.record, s - g - Rivals(e, s))
  {
    var all := Sides(wishes, d, e);
    assert s - g - Rivals(e, s) <= all - Rivals(e, all);
    ClosesCycleMonotone(e.record, s - g - Rivals(e, s), all - Rivals(e, all));
  }

  /** The challenger meets nobody it does not beat. */
  lemma ChallengerWins(wishes: Wishes, d: RecordIntent, e: RecordIntent, s: set<RecordIntent>)
    requires Settled(wishes) && Duel(wishes, d, e) && Leads(wishes, d, e, s)
    ensures !Present(e, s) && Prevails(e, Rivals(e, s)) && d in Rivals(e, s) && e !in s
  {
    assert WellFormed(wishes[e.hostname]);
    assert forall r :: r in s && r != d ==> !Conflict(d.record, r.record);
    assert forall r: RecordIntent :: r.Equal(e) ==> Conflict(d.record, r.record) && r.hostname != d.hostname;
    assert e.Equal(e);
    forall r | r in Rivals(e, s)
      ensures Beats(e, r)
    {
      assert r !in wishes[e.hostname];
    }
  }

  /** Neither closes a cycle through what the two hosts want beside its own rivals, so the cycle rule
      stays out of it. */
  ghost predicate Unhindered(wishes: Wishes, d: RecordIntent, e: RecordIntent)
    requires Wished(wishes, d) && Wished(wishes, e)
  {
    var all := Sides(wishes, d, e);
    !ClosesCycleIn(d.record, all - Rivals(d, all)) && !ClosesCycleIn(e.record, all - Rivals(e, all))
  }

  lemma NothingStaleInDuel(wishes: Wishes, d: RecordIntent, e: RecordIntent, s: set<RecordIntent>,
          order: seq<RecordIntent>, live: Liveness)
    requires Settled(wishes) && Wished(wishes, d) && Wished(wishes, e) && s <= Sides(wishes, d, e)
    requires Elems(order) == wishes[e.hostname] && NoPeerGone(wishes, s, e.hostname, live)
    ensures StaleIn(order, s, e.hostname, live) == {} && s - StaleIn(order, s, e.hostname, live) == s
  {
    assert forall x :: x in wishes[e.hostname] ==> x.Key() in Keys(wishes[e.hostname]);
  }

  /** The host of e takes its turn, in any order of its wishes. */
  lemma DuelPass(wishes: Wishes, d: RecordIntent, e: RecordIntent, s: set<RecordIntent>, order: seq<RecordIntent>,
          live: Liveness)
    requires Settled(wishes) && Duel(wishes, d, e) && Leads(wishes, d, e, s) && Unhindered(wishes, d, e)
    requires CleanList(order) && Elems(order) == wishes[e.hostname] && NoPeerGone(wishes, s, e.hostname, live)
    ensures
      var p := Reconcile(order, s, e.hostname, live);
      && e in p.adds && d in p.removes && p.removes <= s && p.adds <= wishes[e.hostname]
      && (forall y :: y in p.adds && Conflict(d.record, y.record) ==> Beats(y, d))
  {
    var p := Reconcile(order, s, e.hostname, live);
    PassSound(order, s, e.hostname, live);
    NothingStaleInDuel(wishes, d, e, s, order, live);
    ChallengerWins(wishes, d, e, s);
    forall g | g <= p.removes
      ensures !ClosesCycleIn(e.record, s - g - Rivals(e, s))
    {
      NoCycleWithin(wishes, d, e, s, g);
    }
    assert !Refused(e, s, s, {}, p.removes);
    assert Won(e, s, s, p.removes);
    forall y | y in p.adds && Conflict(d.record, y.record)
      ensures Beats(y, d)
    {
      assert Won(y, s, s, p.removes) && d in Rivals(y, s);
    }
  }

  /** Whatever turn that is, the two change places and the store changes. */
  lemma DuelTurn(depth: string -> nat, wishes: Wishes, d: RecordIntent, e: RecordIntent, s: set<RecordIntent>,
          turn: Turn, t: set<RecordIntent>)
    requires Settled(wishes) && Duel(wishes, d, e) && Leads(wishes, d, e, s) && Unhindered(wishes, d, e)
    requires IsPass(depth, wishes, s, turn, t) && turn.host == e.hostname
    ensures t != s && Leads(wishes, e, d, t)
  {
    DuelPass(wishes, d, e, s, turn.order, turn.live);
    PassKeepsClean(turn.order, s, turn.host, turn.live);
    assert t <= Apply(s, Reconcile(turn.order, s, turn.host, turn.live));
    assert d in s && d !in t;
    forall y | y in t && y in wishes[e.hostname] && Conflict(d.record, y.record)
      ensures Beats(y, d)
    {
      assert y in s ==> y == d;
    }
  }

  /** Whose record is stored after n turns. */
  function Leader(d: RecordIntent, e: RecordIntent, n: nat): RecordIntent {
    if n % 2 == 0 then d else e
  }

  ghost predicate Alternates(d: RecordIntent, e: RecordIntent, turns: seq<Turn>) {
    forall i :: 0 <= i < |turns| ==> turns[i].host == Leader(d, e, i + 1).hostname
  }

  lemma LeadersDuel(wishes: Wishes, d: RecordIntent, e: RecordIntent, n: nat)
    requires Duel(wishes, d, e) && Unhindered(wishes, d, e)
    ensures Duel(wishes, Leader(d, e, n), Leader(d, e, n + 1)) && Leader(d, e, n + 2) == Leader(d, e, n)
    ensures Unhindered(wishes, Leader(d, e, n), Leader(d, e, n + 1))
  {
    assert Sides(wishes, e, d) == Sides(wishes, d, e);
    assert Conflict(d.record, e.record) == Conflict(e.record, d.record);
  }

  /** After n turns the one side leads. */
  ghost predicate LeadsAfter(wishes: Wishes, d: RecordIntent, e: RecordIntent, n: nat, s: set<RecordIntent>)
    requires Wished(wishes, d) && Wished(wishes, e)
  {
    Leads(wishes, Leader(d, e, n), Leader(d, e, n + 1), s)
  }

  lemma LeaderTurn(depth: string -> nat, wishes: Wishes, d: RecordIntent, e: RecordIntent, s: set<RecordIntent>, n: nat,
          turn: Turn, t: set<RecordIntent>)
    requires Settled(wishes) && Duel(wishes, d, e) && Unhindered(wishes, d, e) && LeadsAfter(wishes, d, e, n, s)
    requires IsPass(depth, wishes, s, turn, t) && turn.host == Leader(d, e, n + 1).hostname
    ensures t != s && LeadsAfter(wishes, d, e, n + 1, t)
  {
    LeadersDuel(wishes, d, e, n);
    DuelTurn(depth, wishes, Leader(d, e, n), Leader(d, e, n + 1), s, turn, t);
  }

  lemma TurnOfRun(depth: string -> nat, wishes: Wishes, d: RecordIntent, e: RecordIntent,
          states: seq<set<RecordIntent>>, turns: seq<Turn>, n: nat)
    requires IsPassRun(depth, wishes, states, turns) && Alternates(d, e, turns) && n < |turns|
    ensures IsPass(depth, wishes, states[n], turns[n], states[n + 1])
    ensures turns[n].host == Leader(d, e, n + 1).hostname
  {
  }

  ghost predicate PassesOn(wishes: Wishes, d: RecordIntent, e: RecordIntent, states: seq<set<RecordIntent>>, i: nat)
    requires Wished(wishes, d) && Wished(wishes, e) && i + 1 < |states|
  {
    LeadsAfter(wishes, d, e, i, states[i]) ==>
      states[i + 1] != states[i] && LeadsAfter(wishes, d, e, i + 1, states[i + 1])
  }

  lemma TurnPassesOn(depth: string -> nat, wishes: Wishes, d: RecordIntent, e: RecordIntent,
          states: seq<set<RecordIntent>>, turns: seq<Turn>, i: nat)
    requires Settled(wishes) && Duel(wishes, d, e) && Unhindered(wishes, d, e) && i < |turns|
    requires IsPassRun(depth, wishes, states, turns) && Alternates(d, e, turns)
    ensures PassesOn(wishes, d, e, states, i)
  {
    if LeadsAfter(wishes, d, e, i, states[i]) {
      TurnOfRun(depth, wishes, d, e, states, turns, i);
      LeaderTurn(depth, wishes, d, e, states[i], i, turns[i], states[i + 1]);
    }
  }

  lemma {:induction false} AllPassOn(wishes: Wishes, d: RecordIntent, e: RecordIntent, states: seq<set<RecordIntent>>,
          n: nat)
    requires Wished(wishes, d) && Wished(wishes, e) && n < |states| && LeadsAfter(wishes, d, e, 0, states[0])
    requires forall i: nat :: i < n ==> PassesOn(wishes, d, e, states, i)
    ensures Changes(states, n) == n && LeadsAfter(wishes, d, e, n, states[n])
  {
    if n > 0 {
      AllPassOn(wishes, d, e, states, n - 1);
      assert PassesOn(wishes, d, e, states, n - 1);
    }
  }

  /** In every run in which the two hosts take turns every single pass changes the store, whatever
      orders, listings of live hosts and deletions the passes have. */
  lemma DuelGoesOn(depth: string -> nat, wishes: Wishes, d: RecordIntent, e: RecordIntent,
          states: seq<set<RecordIntent>>, turns: seq<Turn>, n: nat)
    requires Settled(wishes) && Duel(wishes, d, e) && Unhindered(wishes, d, e) && n <= |turns|
    requires IsPassRun(depth, wishes, states, turns) && Alternates(d, e, turns) && Leads(wishes, d, e, states[0])
    ensures Changes(states, n) == n && Leads(wishes, Leader(d, e, n), Leader(d, e, n + 1), states[n])
  {
    forall i: nat | i < n
      ensures PassesOn(wishes, d, e, states, i)
    {
      TurnPassesOn(depth, wishes, d, e, states, turns, i);
    }
    assert Leader(d, e, 0) == d && Leader(d, e, 1) == e;
    AllPassOn(wishes, d, e, states, n);
  }

  /** A run of the code: every turn deletes what its removals hit. */
  ghost predicate IsCodeRun(hits: Reach, depth: string -> nat, wishes: Wishes, states: seq<set<RecordIntent>>,
          turns: seq<Turn>) {
    IsPassRun(depth, wishes, states, turns) && IsSwept(hits, states, turns)
  }

  /** A host can always take a turn. */
  lemma TurnExists(hits: Reach, depth: string -> nat, wishes: Wishes, host: string, s: set<RecordIntent>)
    returns (turn: Turn, t: set<RecordIntent>)
    requires IsReach(hits, depth) && Settled(wishes) && host in wishes && Clean(s)
    ensures IsPass(depth, wishes, s, turn, t) && turn.host == host
    ensures turn.deleted == Swept(hits, s, PlanOf(s, turn).removes)
  {
    var order := Listing(wishes[host]);
    CleanListing(wishes[host], order);
    var p := Reconcile(order, s, host, None);
    turn, t := Turn(host, order, None, Swept(hits, s, p.removes)), AfterSweep(hits, s, p);
    SweepIsEffect(hits, depth, s, order, host, None);
  }

  lemma NextTurn(hits: Reach, depth: string -> nat, wishes: Wishes, d: RecordIntent, e: RecordIntent,
          states: seq<set<RecordIntent>>, turns: seq<Turn>)
    returns (turn: Turn, t: set<RecordIntent>)
    requires IsReach(hits, depth) && Settled(wishes) && Duel(wishes, d, e) && Unhindered(wishes, d, e)
    requires IsPassRun(depth, wishes, states, turns) && Alternates(d, e, turns) && Leads(wishes, d, e, states[0])
    ensures IsPass(depth, wishes, states[|turns|], turn, t) && turn.host == Leader(d, e, |turns| + 1).hostname
    ensures turn.deleted == Swept(hits, states[|turns|], PlanOf(states[|turns|], turn).removes)
  {
    DuelGoesOn(depth, wishes, d, e, states, turns, |turns|);
    var s := states[|turns|];
    assert Clean(s) && Leader(d, e, |turns| + 1).hostname in wishes;
    turn, t := TurnExists(hits, depth, wishes, Leader(d, e, |turns| + 1).hostname, s);
  }

  /** The two hosts can go on taking turns for as long as one likes. */
  lemma {:induction false} DuelRun(hits: Reach, depth: string -> nat, wishes: Wishes, d: RecordIntent, e: RecordIntent,
          s: set<RecordIntent>, n: nat)
    returns (states: seq<set<RecordIntent>>, turns: seq<Turn>)
    requires IsReach(hits, depth) && Settled(wishes) && Duel(wishes, d, e) && Unhindered(wishes, d, e)
    requires Leads(wishes, d, e, s)
    ensures IsCodeRun(hits, depth, wishes, states, turns) && Alternates(d, e, turns) && |turns| == n && states[0] == s
  {
    if n == 0 {
      states, turns := [s], [];
    } else {
      var before, earlier := DuelRun(hits, depth, wishes, d, e, s, n - 1);
      var turn, t := NextTurn(hits, depth, wishes, d, e, before, earlier);
      LongerRun(hits, depth, wishes, before, earlier, turn, t);
      AlternatesOn(d, e, earlier, turn);
      states, turns := before + [t], earlier + [turn];
    }
  }

  lemma AlternatesOn(d: RecordIntent, e: RecordIntent, turns: seq<Turn>, turn: Turn)
    requires Alternates(d, e, turns) && turn.host == Leader(d, e, |turns| + 1).hostname
    ensures Alternates(d, e, turns + [turn])
  {
  }

  lemma LongerRun(hits: Reach, depth: string -> nat, wishes: Wishes, states: seq<set<RecordIntent>>, turns: seq<Turn>,
          turn: Turn, t: set<RecordIntent>)
    requires IsCodeRun(hits, depth, wishes, states, turns) && IsPass(depth, wishes, states[|turns|], turn, t)
    requires turn.deleted == Swept(hits, states[|turns|], PlanOf(states[|turns|], turn).removes)
    ensures IsCodeRun(hits, depth, wishes, states + [t], turns + [turn])
  {
    LongerPassRun(depth, wishes, states, turns, turn, t);
    LongerSwept(hits, states, turns, turn, t);
  }

  lemma LongerPassRun(depth: string -> nat, wishes: Wishes, states: seq<set<RecordIntent>>, turns: seq<Turn>,
          turn: Turn, t: set<RecordIntent>)
    requires IsPassRun(depth, wishes, states, turns) && IsPass(depth, wishes, states[|turns|], turn, t)
    ensures IsPassRun(depth, wishes, states + [t], turns + [turn])
  {
    var longer, all := states + [t], turns + [turn];
    forall i | 0 <= i < |all|
      ensures IsPass(depth, wishes, longer[i], all[i], longer[i + 1])
    {
      if i < |turns| {
        assert longer[i] == states[i] && longer[i + 1] == states[i + 1] && all[i] == turns[i];
      }
    }
  }

  lemma LongerSwept(hits: Reach, states: seq<set<RecordIntent>>, turns: seq<Turn>, turn: Turn, t: set<RecordIntent>)
    requires IsSwept(hits, states, turns)
    requires turn.deleted == Swept(hits, states[|turns|], PlanOf(states[|turns|], turn).removes)
    ensures IsSwept(hits, states + [t], turns + [turn])
  {
    var longer, all := states + [t], turns + [turn];
    forall i | 0 <= i < |all|
      ensures all[i].deleted == Swept(hits, longer[i], PlanOf(longer[i], all[i]).removes)
    {
      if i < |turns| {
        assert longer[i] == states[i] && all[i] == turns[i];
      }
    }
  }

  /** The number bounds the changing passes of every run of the code from the start. */
  ghost predicate BoundsCodeChanges(hits: Reach, depth: string -> nat, wishes: Wishes, start: set<RecordIntent>,
          bound: nat) {
    forall states, turns ::
      IsCodeRun(hits, depth, wishes, states, turns) && states[0] == start ==> Changes(states, |turns|) <= bound
  }

  /** A duel never ends: from a store that holds one side of it no number bounds the changing passes.
      One forced record is enough, against an unforced record that is older. */
  lemma DuelNeverEnds(hits: Reach, depth: string -> nat, wishes: Wishes, d: RecordIntent, e: RecordIntent)
    requires IsReach(hits, depth) && Settled(wishes) && Duel(wishes, d, e) && Unhindered(wishes, d, e)
    ensures Clean({d}) && !exists bound: nat :: BoundsCodeChanges(hits, depth, wishes, {d}, bound)
  {
    assert d.record.Supported() && Clean({d});
    assert Leads(wishes, d, e, {d});
    forall bound: nat
      ensures !BoundsCodeChanges(hits, depth, wishes, {d}, bound)
    {
      var states, turns := DuelRun(hits, depth, wishes, d, e, {d}, bound + 1);
      DuelGoesOn(depth, wishes, d, e, states, turns, bound + 1);
      assert IsCodeRun(hits, depth, wishes, states, turns) && states[0] == {d} && Changes(states, |turns|) > bound;
    }
  }

  lemma PeaceBounds(hits: Reach, depth: string -> nat, wishes: Wishes, start: set<RecordIntent>)
    requires Settled(wishes) && Peaceful(wishes) && Clean(start)
    ensures exists bound: nat :: BoundsCodeChanges(hits, depth, wishes, start, bound)
  {
    FinitelyManyChanges(depth, wishes, start);
    var bound: nat :| BoundsChanges(depth, wishes, start, bound);
    assert BoundsCodeChanges(hits, depth, wishes, start, bound);
  }

  /** From every clean store some number bounds the changing passes of every run. */
  ghost predicate AlwaysSettles(hits: Reach, depth: string -> nat, wishes: Wishes) {
    forall start :: Clean(start) ==> exists bound: nat :: BoundsCodeChanges(hits, depth, wishes, start, bound)
  }

  /** The exact condition, unless alias cycles hinder every duel there is: the changing passes are bounded
      from every clean store if and only if there is no duel among the wishes. */
  lemma SettlesExactly(hits: Reach, depth: string -> nat, wishes: Wishes)
    requires IsReach(hits, depth) && Settled(wishes)
    requires Peaceful(wishes) || exists d, e :: Duel(wishes, d, e) && Unhindered(wishes, d, e)
    ensures AlwaysSettles(hits, depth, wishes) <==> Peaceful(wishes)
  {
    if Peaceful(wishes) {
      forall start | Clean(start)
        ensures exists bound: nat :: BoundsCodeChanges(hits, depth, wishes, start, bound)
      {
        PeaceBounds(hits, depth, wishes, start);
      }
    } else {
      var d, e :| Duel(wishes, d, e) && Unhindered(wishes, d, e);
      DuelNeverEnds(hits, depth, wishes, d, e);
    }
  }

  /** Two hosts that want one address: the changing passes are bounded if and only if not each of the
      two records beats the other. */
  lemma TwoClaimsExactly(hits: Reach, depth: string -> nat, a: RecordIntent, b: RecordIntent)
    requires IsReach(hits, depth)
    requires a.record == b.record && a.record.IsAddress() && a.hostname != b.hostname
    ensures
      var wishes := map[a.hostname := {a}, b.hostname := {b}];
      (exists bound: nat :: BoundsCodeChanges(hits, depth, wishes, {a}, bound)) <==> !(Beats(a, b) && Beats(b, a))
  {
    var wishes := map[a.hostname := {a}, b.hostname := {b}];
    assert Clean({a}) && Settled(wishes) && Wished(wishes, a) && Wished(wishes, b);
    if Beats(a, b) && Beats(b, a) {
      assert Duel(wishes, a, b);
      DuelNeverEnds(hits, depth, wishes, a, b);
    } else {
      PeaceBounds(hits, depth, wishes, {a});
    }
  }

  /** An address that beats the same address of another host evicts it, forced or not. */
  lemma BeatenIsEvicted(a: RecordIntent, b: RecordIntent)
    requires Beats(b, a) && a.record == b.record && a.record.IsAddress() && a.hostname != b.hostname
    ensures Reconcile([b], {a}, b.hostname, None) == Plan({b}, {a})
  {
    var actual := {a};
    assert Elems([b]) == {b};
    assert StaleOf(actual, Keys(Elems([b])), b.hostname, None) == {};
    assert actual - {} == actual;
    assert Rivals(b, actual) == {a};
    assert !Present(b, actual);
    assert actual - {} - {a} == {};
    assert [b][..0] == [];
    assert Consider(b, actual, actual, Plan({}, {})) == Plan({b}, {a});
    assert ConsiderAll([b], actual, actual, Plan({}, {})) == Plan({b}, {a});
  }
}
