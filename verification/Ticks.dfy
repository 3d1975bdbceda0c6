/** From one tick to the next: when a host's ticks all want the same, and what a tie does to them. */
module Ticks {
  import opened Domain
  import opened Priority
  import opened Filter
  import opened MemoryStates
  import opened Graph
  import opened Validation
  import opened ReconcilePlan
  import opened PassTheorems
  import opened PassLimits
  import opened Convergence

  /** All a tracker asks for. */
  function WantedSet(view: View): set<RecordIntent> {
    set id, x | id in view && view[id].status == Running && x in view[id].intents :: x
  }

  /** What a host's tick hands to the pass, by the contract of the tick: all the tracker wants, in
      some order, filtered. */
  ghost predicate IsFiltered(view: View, desired: seq<RecordIntent>, order: seq<RecordIntent>) {
    && (forall x :: x in desired <==> Wants(view, x))
    && (forall x :: x in order <==> exists k: nat :: Survives(desired, k) && desired[k] == x)
  }

  lemma FilteredIsSurvivors(view: View, desired: seq<RecordIntent>, order: seq<RecordIntent>)
    requires IsFiltered(view, desired, order)
    ensures Elems(desired) == WantedSet(view) && Elems(order) == SurvivorsOf(desired)
  {
    forall x
      ensures x in Elems(desired) <==> x in WantedSet(view)
    {
      assert x in Elems(desired) <==> Wants(view, x);
    }
  }

  /** Ticks over one tracker want the same, whatever order its map is walked in, when no kept slot
      has two winners; each tick is then a pass in the sense of the convergence theorems. */
  lemma TickIsPass(depth: string -> nat, wishes: Wishes, view: View, desired: seq<RecordIntent>, s: set<RecordIntent>,
          turn: Turn, t: set<RecordIntent>)
    requires IsFiltered(view, desired, turn.order) && NoTiedWinners(WantedSet(view))
    requires turn.host in wishes && wishes[turn.host] == Winners(WantedSet(view))
    requires PassEffect(depth, s, turn, t) && NoPeerGone(wishes, s, turn.host, turn.live)
    ensures IsPass(depth, wishes, s, turn, t)
  {
    FilteredIsSurvivors(view, desired, turn.order);
    SurvivorsAreWinners(desired);
  }

  /** The wishes such a tracker amounts to are conflict-free. */
  lemma WinnersAreClean(view: View, desired: seq<RecordIntent>, order: seq<RecordIntent>)
    requires IsFiltered(view, desired, order) && NoTiedWinners(WantedSet(view)) && CleanList(order)
    ensures Clean(Winners(WantedSet(view)))
  {
    FilteredIsSurvivors(view, desired, order);
    SurvivorsAreWinners(desired);
    ConflictFreeWellFormed(order);
  }

  lemma TiedFirstWins(x: RecordIntent, y: RecordIntent)
    requires Ties(x, y) && SameSlot(x.record, y.record) && x.record.Supported()
    ensures SurvivorsOf([x, y]) == {x}
  {
    var xs := [x, y];
    assert xs[0] == x && xs[1] == y;
    if x.record.kind == CNAME {
      assert IsAliasOf(xs[0].record, x.record.name);
    }
    assert Aliased(xs, x.record.name) <==> x.record.kind == CNAME;
    assert Survives(xs, 0);
    assert !Yields(xs, 0, 1);
  }

  lemma OwnRecordSwapped(x: RecordIntent, y: RecordIntent)
    requires x != y && x.created == y.created && x.hostname == y.hostname && y.record.Supported()
    requires y.record.kind == CNAME ==> y.record.name != y.record.value
    ensures Reconcile([y], {x}, y.hostname, None) == Plan({y}, {x})
  {
    var nobody: set<RecordIntent> := {};
    assert Elems([y]) == {y};
    assert x.Key() != y.Key();
    assert StaleOf({x}, Keys({y}), y.hostname, None) == {x};
    assert {x} - {x} == nobody && nobody - {x} == nobody;
    assert Rivals(y, nobody) == nobody && !Present(y, nobody);
    assert {x} - {x} - nobody == nobody;
    if y.record.kind == CNAME {
      AcceptsOnEmpty(y);
    }
    assert [y][..0] == [];
    assert ConsiderAll([], {x}, nobody, Plan({}, {x})) == Plan({}, {x});
    assert Consider(y, {x}, nobody, Plan({}, {x})) == Plan({y}, {x});
    assert ConsiderAll([y], {x}, nobody, Plan({}, {x})) == Plan({y}, {x});
  }

  /** Two tied intents of one host for one slot keep replacing one another: each order of the tracker's
      walk keeps the one that comes first, and a tick that follows a tick of the other order removes
      the host's own record and adds the other, with no container having changed. */
  lemma TieFlaps(x: RecordIntent, y: RecordIntent)
    requires x != y && Ties(x, y) && SameSlot(x.record, y.record) && x.hostname == y.hostname && x.record.Supported()
    requires x.record.kind == CNAME ==> x.record.value != x.record.name && y.record.value != y.record.name
    ensures SurvivorsOf([x, y]) == {x} && SurvivorsOf([y, x]) == {y}
    ensures Reconcile([y], {x}, x.hostname, None) == Plan({y}, {x})
    ensures Reconcile([x], {y}, x.hostname, None) == Plan({x}, {y})
  {
    StrictWeakOrder(x, y, x);
    TiedFirstWins(x, y);
    TiedFirstWins(y, x);
    OwnRecordSwapped(x, y);
    OwnRecordSwapped(y, x);
  }
}
