/** From the descent of a single pass to whole runs: a number that every changing pass lowers, a
    bound on the changing passes of any run, and a store that no further pass changes. */
module ConvergenceBound {
  import opened Domain
  import opened ReconcilePlan
  import opened PassTheorems
  import opened Convergence

  function Times(n: nat, unit: nat): nat {
    if n == 0 then 0 else unit + Times(n - 1, unit)
  }

  function Power(b: nat, e: nat): nat {
    if e == 0 then 1 else Times(b, Power(b, e - 1))
  }

  lemma {:induction false} TimesMonotone(m: nat, n: nat, unit: nat)
    requires m <= n
    ensures Times(m, unit) <= Times(n, unit)
    ensures m < n ==> Times(m, unit) + unit <= Times(n, unit)
  {
    if m < n {
      TimesMonotone(m, n - 1, unit);
    }
  }

  function Base(f: Frame): nat {
    |NameMarks(f)| + |SlotMarks(f)| + 1
  }

  function Square(f: Frame): nat {
    Times(Base(f), Base(f))
  }

  /** The room left at one level, names before records. */
  function Room(depth: string -> nat, f: Frame, store: set<RecordIntent>, level: nat): nat {
    Times(|NameRoom(depth, f, store, level)|, Base(f)) + |SlotRoom(depth, f, store, level)|
  }

  /** The room left from a level on, the lower level counting more. */
  function RoomFrom(depth: string -> nat, f: Frame, store: set<RecordIntent>, level: nat): nat
    requires level <= f.top + 1
    decreases f.top + 1 - level
  {
    if level == f.top + 1 then 0
    else Times(Room(depth, f, store, level), Power(Square(f), f.top - level)) + RoomFrom(depth, f, store, level + 1)
  }

  /** The records nobody wants first, then the room left. */
  function Rank(depth: string -> nat, f: Frame, wishes: Wishes, store: set<RecordIntent>): nat {
    Times(|Unwished(wishes, store)|, Power(Square(f), f.top + 1)) + RoomFrom(depth, f, store, 0)
  }

  lemma Carry(high: nat, high': nat, low: nat, low': nat, unit: nat)
    requires high' < high && low' < unit
    ensures Times(high', unit) + low' < Times(high, unit) + low
  {
    TimesMonotone(high', high, unit);
  }

  lemma RoomBounded(depth: string -> nat, f: Frame, store: set<RecordIntent>, level: nat)
    ensures Room(depth, f, store, level) < Square(f)
  {
    SubsetSmaller(NameRoom(depth, f, store, level), NameMarks(f));
    SubsetSmaller(SlotRoom(depth, f, store, level), SlotMarks(f));
    Carry(Base(f), |NameRoom(depth, f, store, level)|, 0, |SlotRoom(depth, f, store, level)|, Base(f));
  }

  lemma {:induction false} RoomFromBounded(depth: string -> nat, f: Frame, store: set<RecordIntent>, level: nat)
    requires level <= f.top + 1
    ensures RoomFrom(depth, f, store, level) < Power(Square(f), f.top + 1 - level)
    decreases f.top + 1 - level
  {
    if level <= f.top {
      var unit := Power(Square(f), f.top - level);
      RoomFromBounded(depth, f, store, level + 1);
      RoomBounded(depth, f, store, level);
      Carry(Square(f), Room(depth, f, store, level), 0, RoomFrom(depth, f, store, level + 1), unit);
    }
  }

  /** A change at level k that leaves the lower levels alone is decided by level k. */
  lemma {:induction false} RoomFromDescends(depth: string -> nat, f: Frame, s: set<RecordIntent>, t: set<RecordIntent>,
          k: nat, level: nat)
    requires level <= k <= f.top
    requires forall l: nat :: l < k ==> Room(depth, f, t, l) == Room(depth, f, s, l)
    requires Room(depth, f, t, k) < Room(depth, f, s, k)
    ensures RoomFrom(depth, f, t, level) < RoomFrom(depth, f, s, level)
    decreases k - level
  {
    var unit := Power(Square(f), f.top - level);
    if level < k {
      RoomFromDescends(depth, f, s, t, k, level + 1);
      assert Room(depth, f, t, level) == Room(depth, f, s, level);
    } else {
      RoomFromBounded(depth, f, t, k + 1);
      Carry(Room(depth, f, s, k), Room(depth, f, t, k),
            RoomFrom(depth, f, s, k + 1), RoomFrom(depth, f, t, k + 1), unit);
    }
  }

  lemma RoomDescends(depth: string -> nat, wishes: Wishes, f: Frame, s: set<RecordIntent>, turn: Turn,
          t: set<RecordIntent>, k: nat)
    requires Settled(wishes) && Peaceful(wishes) && Clean(s) && IsPass(depth, wishes, s, turn, t)
    requires FitsWishes(depth, f, wishes) && FitsAll(depth, f, s)
    requires SparesOthers(wishes, turn)
    requires forall e :: e in t - s ==> k <= depth(e.record.name)
    requires exists e :: e in t - s && depth(e.record.name) == k
    ensures Room(depth, f, t, k) < Room(depth, f, s, k)
  {
    NameRoomShrinks(depth, wishes, f, s, turn, t, k);
    if NameRoom(depth, f, t, k) == NameRoom(depth, f, s, k) {
      SlotRoomShrinks(depth, wishes, f, s, turn, t, k);
      StrictSubsetSmaller(SlotRoom(depth, f, t, k), SlotRoom(depth, f, s, k));
    } else {
      StrictSubsetSmaller(NameRoom(depth, f, t, k), NameRoom(depth, f, s, k));
      SubsetSmaller(SlotRoom(depth, f, t, k), SlotMarks(f));
      Carry(|NameRoom(depth, f, s, k)|, |NameRoom(depth, f, t, k)|,
            |SlotRoom(depth, f, s, k)|, |SlotRoom(depth, f, t, k)|, Base(f));
    }
  }

  /** A pass that spares what nobody wants and changes the store adds something. */
  lemma ChangeAdds(depth: string -> nat, wishes: Wishes, s: set<RecordIntent>, turn: Turn, t: set<RecordIntent>)
    requires Settled(wishes) && Peaceful(wishes) && Clean(s) && IsPass(depth, wishes, s, turn, t)
    requires SparesOthers(wishes, turn) && t - s == {}
    ensures t == s
  {
    PassFacts(depth, wishes, s, turn, t);
    var p := Reconcile(turn.order, s, turn.host, turn.live);
    assert p.adds <= t - s;
    assert p.removes == {};
    assert turn.deleted == {};
  }

  lemma UnwishedLowersRank(depth: string -> nat, wishes: Wishes, f: Frame, s: set<RecordIntent>, t: set<RecordIntent>)
    requires |Unwished(wishes, t)| < |Unwished(wishes, s)|
    ensures Rank(depth, f, wishes, t) < Rank(depth, f, wishes, s)
  {
    RoomFromBounded(depth, f, t, 0);
    Carry(|Unwished(wishes, s)|, |Unwished(wishes, t)|, RoomFrom(depth, f, s, 0), RoomFrom(depth, f, t, 0),
          Power(Square(f), f.top + 1));
  }

  lemma RoomLowersRank(depth: string -> nat, wishes: Wishes, f: Frame, s: set<RecordIntent>, t: set<RecordIntent>,
          k: nat)
    requires Unwished(wishes, t) <= Unwished(wishes, s) && k <= f.top
    requires forall l: nat :: l < k ==> Room(depth, f, t, l) == Room(depth, f, s, l)
    requires Room(depth, f, t, k) < Room(depth, f, s, k)
    ensures Rank(depth, f, wishes, t) < Rank(depth, f, wishes, s)
  {
    SubsetSmaller(Unwished(wishes, t), Unwished(wishes, s));
    RoomFromDescends(depth, f, s, t, k, 0);
    TimesMonotone(|Unwished(wishes, t)|, |Unwished(wishes, s)|, Power(Square(f), f.top + 1));
  }

  /** Every pass that changes the store lowers the rank. */
  lemma PassLowersRank(depth: string -> nat, wishes: Wishes, f: Frame, s: set<RecordIntent>, turn: Turn,
          t: set<RecordIntent>)
    requires Settled(wishes) && Peaceful(wishes) && Clean(s) && IsPass(depth, wishes, s, turn, t) && t != s
    requires FitsWishes(depth, f, wishes) && FitsAll(depth, f, s)
    ensures Rank(depth, f, wishes, t) < Rank(depth, f, wishes, s)
  {
    PassKeepsSetting(depth, wishes, f, s, turn, t);
    if !SparesOthers(wishes, turn) {
      UnwishedDescends(depth, wishes, f, s, turn, t);
      UnwishedLowersRank(depth, wishes, f, s, t);
    } else {
      if t - s == {} {
        ChangeAdds(depth, wishes, s, turn, t);
      }
      var d := LowestLevel(depth, t - s);
      var k := depth(d.record.name);
      assert Fits(depth, f, d);
      LowerRoomsStay(depth, wishes, f, s, turn, t, k);
      RoomDescends(depth, wishes, f, s, turn, t, k);
      RoomLowersRank(depth, wishes, f, s, t, k);
    }
  }

  lemma LowerRoomsStay(depth: string -> nat, wishes: Wishes, f: Frame, s: set<RecordIntent>, turn: Turn,
          t: set<RecordIntent>, k: nat)
    requires Settled(wishes) && Peaceful(wishes) && Clean(s) && IsPass(depth, wishes, s, turn, t)
    requires SparesOthers(wishes, turn)
    requires forall e :: e in t - s ==> k <= depth(e.record.name)
    ensures forall l: nat :: l < k ==> Room(depth, f, t, l) == Room(depth, f, s, l)
  {
    forall l: nat | l < k
      ensures Room(depth, f, t, l) == Room(depth, f, s, l)
    {
      LowerLevelsStay(depth, wishes, f, s, turn, t, k, l);
    }
  }

  /** A run: any hosts take turns in any order. */
  ghost predicate IsPassRun(depth: string -> nat, wishes: Wishes, states: seq<set<RecordIntent>>, turns: seq<Turn>) {
    && |states| == |turns| + 1
    && forall i :: 0 <= i < |turns| ==> IsPass(depth, wishes, states[i], turns[i], states[i + 1])
  }

  /** How many of the first n passes changed the store. */
  function Changes(states: seq<set<RecordIntent>>, n: nat): nat
    requires n < |states|
  {
    if n == 0 then 0 else Changes(states, n - 1) + if states[n] != states[n - 1] then 1 else 0
  }

  /** From a clean store within the frame to another, the rank falling if anything changes. */
  ghost predicate Descends(depth: string -> nat, wishes: Wishes, f: Frame, s: set<RecordIntent>, t: set<RecordIntent>) {
    Clean(s) && FitsAll(depth, f, s) ==>
      && Clean(t) && FitsAll(depth, f, t)
      && Rank(depth, f, wishes, t) + (if t != s then 1 else 0) <= Rank(depth, f, wishes, s)
  }

  lemma PassDescends(depth: string -> nat, wishes: Wishes, f: Frame, s: set<RecordIntent>, turn: Turn,
          t: set<RecordIntent>)
    requires Settled(wishes) && Peaceful(wishes) && FitsWishes(depth, f, wishes) && IsPass(depth, wishes, s, turn, t)
    ensures Descends(depth, wishes, f, s, t)
  {
    if Clean(s) && FitsAll(depth, f, s) {
      PassKeepsSetting(depth, wishes, f, s, turn, t);
      if t != s {
        PassLowersRank(depth, wishes, f, s, turn, t);
      }
    }
  }

  lemma {:induction false} AllDescend(depth: string -> nat, wishes: Wishes, f: Frame, states: seq<set<RecordIntent>>,
          n: nat)
    requires n < |states| && Clean(states[0]) && FitsAll(depth, f, states[0])
    requires forall i: nat :: i < n ==> Descends(depth, wishes, f, states[i], states[i + 1])
    ensures Clean(states[n]) && FitsAll(depth, f, states[n])
    ensures Changes(states, n) + Rank(depth, f, wishes, states[n]) <= Rank(depth, f, wishes, states[0])
  {
    if n > 0 {
      AllDescend(depth, wishes, f, states, n - 1);
      assert Descends(depth, wishes, f, states[n - 1], states[n - 1 + 1]);
    }
  }

  lemma ChangesBounded(depth: string -> nat, wishes: Wishes, f: Frame, states: seq<set<RecordIntent>>, turns: seq<Turn>,
          n: nat)
    requires IsPassRun(depth, wishes, states, turns) && n <= |turns|
    requires Settled(wishes) && Clean(states[0]) && Peaceful(wishes)
    requires FitsWishes(depth, f, wishes) && FitsAll(depth, f, states[0])
    ensures Clean(states[n]) && FitsAll(depth, f, states[n])
    ensures Changes(states, n) + Rank(depth, f, wishes, states[n]) <= Rank(depth, f, wishes, states[0])
  {
    forall i: nat | i < n
      ensures Descends(depth, wishes, f, states[i], states[i + 1])
    {
      PassDescends(depth, wishes, f, states[i], turns[i], states[i + 1]);
    }
    AllDescend(depth, wishes, f, states, n);
  }

  lemma {:induction false} FrameFor(depth: string -> nat, all: set<RecordIntent>) returns (f: Frame)
    ensures FitsAll(depth, f, all)
  {
    if all == {} {
      f := Frame({}, 0, 0);
    } else {
      var r :| r in all;
      var g := FrameFor(depth, all - {r});
      var level := depth(r.record.name);
      f := Frame(g.universe + {r.record},
                 if g.horizon <= Mark(r) then Mark(r) + 1 else g.horizon,
                 if g.top < level then level else g.top);
      forall x | x in all
        ensures Fits(depth, f, x)
      {
        assert x == r || x in all - {r};
      }
    }
  }

  lemma FrameCovers(depth: string -> nat, wishes: Wishes, start: set<RecordIntent>) returns (f: Frame)
    ensures FitsWishes(depth, f, wishes) && FitsAll(depth, f, start)
  {
    f := FrameFor(depth, start + set h, r | h in wishes && r in wishes[h] :: r);
  }

  ghost predicate BoundsChanges(depth: string -> nat, wishes: Wishes, start: set<RecordIntent>, bound: nat) {
    forall states, turns ::
      IsPassRun(depth, wishes, states, turns) && states[0] == start ==> Changes(states, |turns|) <= bound
  }

  /** Convergence: from any clean store, fixed wishes without a duel bound the number of changing
      passes, whatever hosts run, in whatever order, for however long. */
  lemma FinitelyManyChanges(depth: string -> nat, wishes: Wishes, start: set<RecordIntent>)
    requires Settled(wishes) && Clean(start) && Peaceful(wishes)
    ensures exists bound: nat :: BoundsChanges(depth, wishes, start, bound)
  {
    var f := FrameCovers(depth, wishes, start);
    forall states, turns | IsPassRun(depth, wishes, states, turns) && states[0] == start
      ensures Changes(states, |turns|) <= Rank(depth, f, wishes, start)
    {
      ChangesBounded(depth, wishes, f, states, turns, |turns|);
    }
    assert BoundsChanges(depth, wishes, start, Rank(depth, f, wishes, start));
  }

  /** Garbage collection finds nobody gone. */
  predicate NobodyGone(store: set<RecordIntent>, host: string, live: Liveness) {
    live.Some? ==> forall r :: r in store ==> r.hostname == host || r.hostname in live.value
  }

  ghost predicate IsCalmPass(depth: string -> nat, wishes: Wishes, s: set<RecordIntent>, turn: Turn,
          t: set<RecordIntent>) {
    IsPass(depth, wishes, s, turn, t) && NobodyGone(s, turn.host, turn.live)
  }

  /** No host's pass, in any order and with any liveness that finds nobody gone, changes the store. */
  ghost predicate IsFinal(depth: string -> nat, wishes: Wishes, s: set<RecordIntent>) {
    forall turn, t :: IsCalmPass(depth, wishes, s, turn, t) ==> t == s
  }

  /** A host's pass leaves the store alone exactly when it plans nothing. */
  lemma PassIsQuiet(depth: string -> nat, wishes: Wishes, s: set<RecordIntent>, turn: Turn, t: set<RecordIntent>)
    requires Settled(wishes) && Clean(s) && IsPass(depth, wishes, s, turn, t)
    ensures t == s <==> Reconcile(turn.order, s, turn.host, turn.live) == Plan({}, {})
  {
    PassFacts(depth, wishes, s, turn, t);
    var p := Reconcile(turn.order, s, turn.host, turn.live);
    assert p == Plan({}, {}) ==> turn.deleted == {};
    if t == s {
      assert p.adds == {} && p.removes == {};
    }
  }

  lemma SameStale(wishes: Wishes, s: set<RecordIntent>, a: Turn, b: Turn)
    requires Elems(a.order) == Elems(b.order) && a.host == b.host
    requires NobodyGone(s, a.host, a.live) && NobodyGone(s, b.host, b.live)
    ensures StaleIn(a.order, s, a.host, a.live) == StaleIn(b.order, s, b.host, b.live)
  {
  }

  /** One pass of a host that changes nothing speaks for all its passes. */
  lemma QuietHostStaysQuiet(depth: string -> nat, wishes: Wishes, s: set<RecordIntent>, quiet: Turn, turn: Turn,
          t: set<RecordIntent>)
    requires Settled(wishes) && Clean(s)
    requires IsCalmPass(depth, wishes, s, quiet, s) && IsCalmPass(depth, wishes, s, turn, t) && turn.host == quiet.host
    ensures t == s
  {
    PassIsQuiet(depth, wishes, s, quiet, s);
    PassIsQuiet(depth, wishes, s, turn, t);
    QuietReconcile(quiet.order, s, quiet.host, quiet.live);
    QuietReconcile(turn.order, s, turn.host, turn.live);
    SameStale(wishes, s, turn, quiet);
    assert forall d :: d in turn.order ==> d in Elems(quiet.order);
  }

  /** A round: a run in which every host gets at least one turn. */
  datatype Round = Round(states: seq<set<RecordIntent>>, turns: seq<Turn>)

  ghost predicate IsRound(depth: string -> nat, wishes: Wishes, s: set<RecordIntent>, r: Round, t: set<RecordIntent>) {
    && IsPassRun(depth, wishes, r.states, r.turns)
    && (forall i :: 0 <= i < |r.turns| ==> IsCalmPass(depth, wishes, r.states[i], r.turns[i], r.states[i + 1]))
    && r.states[0] == s && r.states[|r.turns|] == t
    && (forall h :: h in wishes ==> exists i :: 0 <= i < |r.turns| && r.turns[i].host == h)
  }

  function RoundChanges(r: Round): nat {
    if |r.turns| < |r.states| then Changes(r.states, |r.turns|) else 0
  }

  lemma {:induction false} NoChange(states: seq<set<RecordIntent>>, n: nat, i: nat)
    requires i <= n < |states| && Changes(states, n) == 0
    ensures states[i] == states[n]
  {
    if i < n {
      NoChange(states, n - 1, i);
    }
  }

  /** A round that changes nothing has reached a final store. */
  lemma QuietRoundIsFinal(depth: string -> nat, wishes: Wishes, s: set<RecordIntent>, r: Round, t: set<RecordIntent>)
    requires Settled(wishes) && Clean(s)
    requires IsRound(depth, wishes, s, r, t) && RoundChanges(r) == 0
    ensures IsFinal(depth, wishes, s)
  {
    forall turn, u | IsCalmPass(depth, wishes, s, turn, u)
      ensures u == s
    {
      var i :| 0 <= i < |r.turns| && r.turns[i].host == turn.host;
      NoChange(r.states, |r.turns|, 0);
      NoChange(r.states, |r.turns|, i);
      NoChange(r.states, |r.turns|, i + 1);
      QuietHostStaysQuiet(depth, wishes, s, r.turns[i], turn, u);
    }
  }

  ghost predicate IsRounds(depth: string -> nat, wishes: Wishes, ends: seq<set<RecordIntent>>, rounds: seq<Round>) {
    && |ends| == |rounds| + 1
    && forall i :: 0 <= i < |rounds| ==> IsRound(depth, wishes, ends[i], rounds[i], ends[i + 1])
  }

  lemma {:induction false} RoundsDescend(depth: string -> nat, wishes: Wishes, f: Frame, ends: seq<set<RecordIntent>>,
          rounds: seq<Round>, n: nat)
    requires IsRounds(depth, wishes, ends, rounds) && n <= |rounds|
    requires Settled(wishes) && Clean(ends[0]) && Peaceful(wishes)
    requires FitsWishes(depth, f, wishes) && FitsAll(depth, f, ends[0])
    requires forall i :: 0 <= i < n ==> RoundChanges(rounds[i]) != 0
    ensures Clean(ends[n]) && FitsAll(depth, f, ends[n])
    ensures n + Rank(depth, f, wishes, ends[n]) <= Rank(depth, f, wishes, ends[0])
  {
    if n > 0 {
      RoundsDescend(depth, wishes, f, ends, rounds, n - 1);
      var r := rounds[n - 1];
      assert IsRound(depth, wishes, ends[n - 1], r, ends[n]);
      ChangesBounded(depth, wishes, f, r.states, r.turns, |r.turns|);
    }
  }

  ghost predicate FinalWithin(depth: string -> nat, wishes: Wishes, start: set<RecordIntent>, bound: nat) {
    forall ends, rounds :: IsRounds(depth, wishes, ends, rounds) && ends[0] == start && |rounds| > bound ==>
      exists i :: 0 <= i <= bound && IsFinal(depth, wishes, ends[i])
  }

  /** If every host keeps taking turns, the store becomes final: within a number of rounds fixed by
      the start, a round begins with a store that no pass of any host changes again. */
  lemma RoundsReachFinal(depth: string -> nat, wishes: Wishes, start: set<RecordIntent>)
    requires Settled(wishes) && Clean(start) && Peaceful(wishes)
    ensures exists bound: nat :: FinalWithin(depth, wishes, start, bound)
  {
    var f := FrameCovers(depth, wishes, start);
    var bound := Rank(depth, f, wishes, start);
    forall ends, rounds | IsRounds(depth, wishes, ends, rounds) && ends[0] == start && |rounds| > bound
      ensures exists i :: 0 <= i <= bound && IsFinal(depth, wishes, ends[i])
    {
      FirstQuietRound(depth, wishes, f, ends, rounds, bound);
    }
    assert FinalWithin(depth, wishes, start, bound);
  }

  lemma FirstQuietRound(depth: string -> nat, wishes: Wishes, f: Frame, ends: seq<set<RecordIntent>>,
          rounds: seq<Round>, bound: nat)
    requires IsRounds(depth, wishes, ends, rounds) && bound < |rounds| && bound == Rank(depth, f, wishes, ends[0])
    requires Settled(wishes) && Clean(ends[0]) && Peaceful(wishes)
    requires FitsWishes(depth, f, wishes) && FitsAll(depth, f, ends[0])
    ensures exists i :: 0 <= i <= bound && IsFinal(depth, wishes, ends[i])
  {
    var i := 0;
    while i <= bound && RoundChanges(rounds[i]) != 0
      invariant 0 <= i <= bound + 1
      invariant forall j :: 0 <= j < i ==> RoundChanges(rounds[j]) != 0
    {
      i := i + 1;
    }
    RoundsDescend(depth, wishes, f, ends, rounds, i);
    assert IsRound(depth, wishes, ends[i], rounds[i], ends[i + 1]);
    QuietRoundIsFinal(depth, wishes, ends[i], rounds[i], ends[i + 1]);
  }
}
