/** Where one pass falls short of the obvious claim, and exactly when it does not. */
module PassLimits {
  import opened Domain
  import opened Graph
  import opened Validation
  import opened ReconcilePlan
  import opened PassTheorems

  lemma AfterNoStale(desired: seq<RecordIntent>, actual: set<RecordIntent>, host: string, live: Liveness)
    ensures StaleIn(desired, Apply(actual, Reconcile(desired, actual, host, live)), host, live) == {}
  {
    PassSound(desired, actual, host, live);
    var p := Reconcile(desired, actual, host, live);
    forall r | r in Apply(actual, p)
      ensures !IsStale(r, Keys(Elems(desired)), host, live)
    {
      if r in p.adds {
        assert r in Elems(desired);
      } else {
        assert r !in StaleIn(desired, actual, host, live);
      }
    }
  }

  /** d meets a rival that is left and that it does not beat; or it is an alias that would close a cycle
      in the store after the pass. */
  ghost predicate StillLoses(d: RecordIntent, left: set<RecordIntent>, after: set<RecordIntent>) {
    || (exists r :: r in left && Conflict(d.record, r.record) && !Beats(d, r))
    || ClosesCycleIn(d.record, after - Rivals(d, after))
  }

  lemma PresentAfter(left: set<RecordIntent>, adds: set<RecordIntent>, d: RecordIntent)
    requires d.record.Supported() && forall r :: r in adds ==> !Conflict(d.record, r.record)
    ensures Present(d, left + adds) <==> d.Key() in Keys(left)
    ensures Rivals(d, left + adds) == Rivals(d, left)
  {
    if r :| r in left + adds && r.Equal(d) {
      assert Conflict(d.record, r.record);
      assert r in left && r.Key() == d.Key();
    }
    if r :| r in left && r.Key() == d.Key() {
      assert r in left + adds && r.Equal(d);
    }
  }

  lemma NotMet(desired: seq<RecordIntent>, adds: set<RecordIntent>, d: RecordIntent)
    requires CleanList(desired) && d in desired && adds <= Elems(desired) && d !in adds
    ensures d.record.Supported() && forall r :: r in adds ==> !Conflict(d.record, r.record)
  {
    assert d in Elems(desired);
    forall r | r in adds
      ensures !Conflict(d.record, r.record)
    {
      if Conflict(d.record, r.record) {
        SameEntry(desired, d, r);
      }
    }
  }

  lemma LoserMoves(desired: seq<RecordIntent>, adds: set<RecordIntent>, left: set<RecordIntent>, d: RecordIntent)
    requires CleanList(desired) && d in desired && adds <= Elems(desired)
    ensures Moves(d, left + adds) <==> d !in adds && d.Key() !in Keys(left) && !StillLoses(d, left, left + adds)
  {
    var after := left + adds;
    if d in adds {
      assert d.Equal(d) && d in after;
    } else {
      NotMet(desired, adds, d);
      PresentAfter(left, adds, d);
      assert Rivals(d, after - Rivals(d, after)) == {};
    }
  }

  /** A second pass over the same desired intents, in any order, changes nothing if and only if every
      intent that the first pass did not add and did not leave stored still loses; whatever the removals
      of the first pass deleted beyond their aim. */
  lemma OnePassEnough(desired: seq<RecordIntent>, again: seq<RecordIntent>, actual: set<RecordIntent>, host: string,
          live: Liveness, deleted: set<RecordIntent>)
    requires CleanList(desired) && Elems(again) == Elems(desired)
    requires Reconcile(desired, actual, host, live).removes <= deleted
    ensures
      var p := Reconcile(desired, actual, host, live);
      var after := (actual - deleted) + p.adds;
      Reconcile(again, after, host, live) == Plan({}, {}) <==>
      forall d :: d in desired && d !in p.adds && d.Key() !in Keys(actual - deleted) ==>
        StillLoses(d, actual - deleted, after)
  {
    var p := Reconcile(desired, actual, host, live);
    var after := (actual - deleted) + p.adds;
    PassSound(desired, actual, host, live);
    QuietReconcile(again, after, host, live);
    AfterNoStale(desired, actual, host, live);
    assert after <= Apply(actual, p);
    assert forall d :: d in again <==> d in Elems(desired);
    forall d | d in desired
      ensures Moves(d, after) <==>
              d !in p.adds && d.Key() !in Keys(actual - deleted) && !StillLoses(d, actual - deleted, after)
    {
      LoserMoves(desired, p.adds, actual - deleted, d);
    }
  }

  /** Within aim, whoever is wanted and stored stays stored. */
  lemma WantedStays(desired: seq<RecordIntent>, actual: set<RecordIntent>, host: string, live: Liveness,
          d: RecordIntent)
    requires CleanList(desired) && d in desired
    ensures d.Key() in Keys(actual - Reconcile(desired, actual, host, live).removes) <==> d.Key() in Keys(actual)
  {
    PassSound(desired, actual, host, live);
    var p := Reconcile(desired, actual, host, live);
    if r :| r in actual && r.Key() == d.Key() {
      assert d in Elems(desired) && r.Key() in Keys(Elems(desired));
      if r in p.removes {
        RemovalJustified(desired, actual, host, live, r);
      }
      assert r in actual - p.removes;
    }
  }

  /** Two records that do not conflict have a common rival only if they are addresses and it is the
      alias of their name. */
  lemma SharedRival(d: Record, e: Record, r: Record)
    requires Conflict(d, r) && Conflict(e, r) && !Conflict(d, e) && d.Supported() && e.Supported()
    ensures r.kind == CNAME && d.IsAddress() && e.IsAddress() && d.name == e.name == r.name
  {
  }

  /** No alias is beaten by some of the addresses wanted for its name and not by all of them. */
  ghost predicate SiblingsAgree(desired: seq<RecordIntent>, lookup: set<RecordIntent>) {
    forall c, d, e :: c in lookup && c.record.kind == CNAME && d in desired && e in desired ==>
      (IsSibling(d, c) && IsSibling(e, c) && Beats(e, c) ==> Beats(d, c))
  }

  /** No desired alias can close a cycle with what is stored and what is wanted. */
  ghost predicate NoCycleInSight(desired: seq<RecordIntent>, actual: set<RecordIntent>) {
    forall d :: d in desired ==> !ClosesCycleIn(d.record, actual + Elems(desired))
  }

  lemma OnlyRivalsRefuse(desired: seq<RecordIntent>, actual: set<RecordIntent>, host: string, live: Liveness,
          d: RecordIntent)
    requires NoCycleInSight(desired, actual) && d in desired
    ensures
      var p := Reconcile(desired, actual, host, live);
      var lookup := actual - StaleIn(desired, actual, host, live);
      && (d in p.adds <==> !Present(d, lookup) && Prevails(d, Rivals(d, lookup)))
      && !ClosesCycleIn(d.record, Apply(actual, p) - Rivals(d, Apply(actual, p)))
  {
    PassSound(desired, actual, host, live);
    var p := Reconcile(desired, actual, host, live);
    var stale := StaleIn(desired, actual, host, live);
    var lookup := actual - stale;
    assert d in Elems(desired);
    assert d in p.adds ==> Won(d, actual, lookup, p.removes);
    if g :| stale <= g <= p.removes && ClosesCycleIn(d.record, actual - g - Rivals(d, lookup)) {
      ClosesCycleMonotone(d.record, actual - g - Rivals(d, lookup), actual + Elems(desired));
    }
    ClosesCycleMonotone(d.record, Apply(actual, p) - Rivals(d, Apply(actual, p)), actual + Elems(desired));
  }

  lemma UnbeatenRival(d: RecordIntent, actual: set<RecordIntent>, lookup: set<RecordIntent>) returns (r: RecordIntent)
    requires lookup <= actual && d.Key() !in Keys(actual) && !(!Present(d, lookup) && Prevails(d, Rivals(d, lookup)))
    ensures r in lookup && Conflict(d.record, r.record) && !Beats(d, r)
  {
    assert forall x :: x in lookup && x.Equal(d) ==> x.Key() == d.Key();
    r :| r in Rivals(d, lookup) && !Beats(d, r);
  }

  /** Whoever was turned away still loses, if siblings agree. */
  lemma AgreeingLoserLoses(desired: seq<RecordIntent>, actual: set<RecordIntent>, host: string, live: Liveness,
          d: RecordIntent)
    requires CleanList(desired) && NoCycleInSight(desired, actual) && d in desired
    requires SiblingsAgree(desired, actual - StaleIn(desired, actual, host, live))
    requires d !in Reconcile(desired, actual, host, live).adds && d.Key() !in Keys(actual)
    ensures
      var p := Reconcile(desired, actual, host, live);
      StillLoses(d, actual - p.removes, Apply(actual, p))
  {
    OnlyRivalsRefuse(desired, actual, host, live, d);
    var lookup := actual - StaleIn(desired, actual, host, live);
    var r := UnbeatenRival(d, actual, lookup);
    UnbeatenStays(desired, actual, host, live, d, r);
    assert r in actual - Reconcile(desired, actual, host, live).removes;
  }

  lemma UnbeatenStays(desired: seq<RecordIntent>, actual: set<RecordIntent>, host: string, live: Liveness,
          d: RecordIntent, r: RecordIntent)
    requires CleanList(desired) && d in desired && d !in Reconcile(desired, actual, host, live).adds
    requires SiblingsAgree(desired, actual - StaleIn(desired, actual, host, live))
    requires r in Rivals(d, actual - StaleIn(desired, actual, host, live)) && !Beats(d, r)
    ensures r !in Reconcile(desired, actual, host, live).removes
  {
    PassSound(desired, actual, host, live);
    var p := Reconcile(desired, actual, host, live);
    var lookup := actual - StaleIn(desired, actual, host, live);
    if e :| e in p.adds && r in Rivals(e, lookup) {
      LoserSibling(desired, actual, host, live, d, e, r);
    }
  }

  lemma LoserSibling(desired: seq<RecordIntent>, actual: set<RecordIntent>, host: string, live: Liveness,
          d: RecordIntent, e: RecordIntent, r: RecordIntent)
    requires CleanList(desired) && d in desired && d !in Reconcile(desired, actual, host, live).adds
    requires e in Reconcile(desired, actual, host, live).adds
    requires r in Rivals(d, actual - StaleIn(desired, actual, host, live))
    requires r in Rivals(e, actual - StaleIn(desired, actual, host, live))
    requires SiblingsAgree(desired, actual - StaleIn(desired, actual, host, live))
    ensures Beats(d, r)
  {
    PassSound(desired, actual, host, live);
    var lookup := actual - StaleIn(desired, actual, host, live);
    assert Won(e, actual, lookup, Reconcile(desired, actual, host, live).removes);
    assert e in Elems(desired) && d in Elems(desired);
    assert Conflict(d.record, e.record) ==> d == e by {
      if Conflict(d.record, e.record) {
        SameEntry(desired, d, e);
      }
    }
    SharedRival(d.record, e.record, r.record);
    assert IsSibling(d, r) && IsSibling(e, r) && Beats(e, r);
  }

  /** A sibling that does not beat the alias waits for the next pass. */
  lemma DisagreeingSiblingMoves(desired: seq<RecordIntent>, actual: set<RecordIntent>, host: string, live: Liveness,
          c: RecordIntent, d: RecordIntent, e: RecordIntent)
    requires CleanList(desired) && Clean(actual) && NoCycleInSight(desired, actual) && d in desired && e in desired
    requires c in actual - StaleIn(desired, actual, host, live) && c.record.kind == CNAME
    requires IsSibling(d, c) && IsSibling(e, c) && Beats(e, c) && !Beats(d, c)
    ensures
      var p := Reconcile(desired, actual, host, live);
      d !in p.adds && d.Key() !in Keys(actual) && !StillLoses(d, actual - p.removes, Apply(actual, p))
  {
    PassSound(desired, actual, host, live);
    OnlyRivalsRefuse(desired, actual, host, live, d);
    OnlyRivalsRefuse(desired, actual, host, live, e);
    var p := Reconcile(desired, actual, host, live);
    var lookup := actual - StaleIn(desired, actual, host, live);
    AliasStandsAlone(c, d, actual, lookup);
    AliasStandsAlone(c, e, actual, lookup);
    assert e in p.adds && Won(e, actual, lookup, p.removes);
  }

  /** Whether one pass is enough when its removals delete what they aim at and no more, decided before
      it: if no alias cycle is in sight, a second pass over the same desired intents, in any order,
      changes nothing if and only if no stored alias that is not stale is beaten by some of the
      addresses wanted for its name and not by all. */
  lemma SettlesWithinAim(desired: seq<RecordIntent>, again: seq<RecordIntent>, actual: set<RecordIntent>, host: string,
          live: Liveness)
    requires CleanList(desired) && Clean(actual) && NoCycleInSight(desired, actual) && Elems(again) == Elems(desired)
    ensures
      var p := Reconcile(desired, actual, host, live);
      Reconcile(again, Apply(actual, p), host, live) == Plan({}, {}) <==>
      SiblingsAgree(desired, actual - StaleIn(desired, actual, host, live))
  {
    var p := Reconcile(desired, actual, host, live);
    OnePassEnough(desired, again, actual, host, live, p.removes);
    forall d | d in desired
      ensures d.Key() in Keys(actual - p.removes) <==> d.Key() in Keys(actual)
    {
      WantedStays(desired, actual, host, live, d);
    }
    var lookup := actual - StaleIn(desired, actual, host, live);
    if SiblingsAgree(desired, lookup) {
      forall d | d in desired && d !in p.adds && d.Key() !in Keys(actual)
        ensures StillLoses(d, actual - p.removes, Apply(actual, p))
      {
        AgreeingLoserLoses(desired, actual, host, live, d);
      }
    } else {
      var c, d, e :| c in lookup && c.record.kind == CNAME && d in desired && e in desired
        && IsSibling(d, c) && IsSibling(e, c) && Beats(e, c) && !Beats(d, c);
      DisagreeingSiblingMoves(desired, actual, host, live, c, d, e);
    }
  }

  function Intent(container: string, created: nat, host: string, force: bool, record: Record): RecordIntent {
    RecordIntent(container, container, created, host, force, 0, record)
  }

  /** One pass need not be enough: the lookup is not updated by an eviction, so the sibling of the
      address that evicts an alias is turned away by the alias just evicted. */
  lemma SiblingWaits()
    ensures exists desired: seq<RecordIntent>, actual: set<RecordIntent> ::
              CleanList(desired) && Clean(actual) &&
              var p := Reconcile(desired, actual, "h", None);
              Reconcile(desired, Apply(actual, p), "h", None) != Plan({}, {})
  {
    var c := Intent("c", 5, "other", false, Record("x", CNAME, "y"));
    var a1 := Intent("a1", 1, "h", false, Record("x", A, "10.0.0.1"));
    var a2 := Intent("a2", 9, "h", false, Record("x", A, "10.0.0.2"));
    var desired, actual := [a1, a2], {c};
    assert Elems(desired) == {a1, a2};
    assert StaleIn(desired, actual, "h", None) == {};
    assert actual - {} == actual;
    assert IsSibling(a1, c) && IsSibling(a2, c) && Beats(a1, c) && !Beats(a2, c);
    assert !SiblingsAgree(desired, actual);
    SettlesWithinAim(desired, desired, actual, "h", None);
  }

  /** A hop of the trail follows this edge. */
  ghost predicate Uses(p: seq<string>, edge: (string, string)) {
    exists i :: 0 <= i < |p| - 1 && (p[i], p[i + 1]) == edge
  }

  ghost predicate UsedAlias(d: RecordIntent, p: seq<string>) {
    d.record.kind == CNAME && Uses(p, CnameLink(d.record))
  }

  lemma CycleWithin(big: Links, small: Links, p: seq<string>)
    requires IsCycle(big, p) && forall e :: e in big && Uses(p, e) ==> e in small
    ensures HasCycle(small)
  {
    forall i | 0 <= i < |p| - 1
      ensures Hop(small, p, i)
    {
      assert Hop(big, p, i);
      assert Uses(p, (p[i], p[i + 1]));
    }
    assert IsCycle(small, p);
  }

  /** A cycle of the larger graph leaves an acyclic smaller one somewhere. */
  lemma CycleLeaves(big: Links, small: Links, p: seq<string>)
    requires IsCycle(big, p) && !HasCycle(small)
    ensures exists e :: e in big && Uses(p, e) && e !in small
  {
    if forall e :: e in big && Uses(p, e) ==> e in small {
      CycleWithin(big, small, p);
    }
  }

  /** No single addition closes a cycle with the records that outlive the pass. */
  lemma SingleAdditionSafe(desired: seq<RecordIntent>, actual: set<RecordIntent>, host: string, live: Liveness,
          d: RecordIntent)
    requires !HasCycle(LinksOf(actual))
    requires d in Reconcile(desired, actual, host, live).adds && d.record.kind == CNAME
    ensures !HasCycle(LinksOf(actual - Reconcile(desired, actual, host, live).removes) + {CnameLink(d.record)})
  {
    PassSound(desired, actual, host, live);
    var p := Reconcile(desired, actual, host, live);
    var base := LinksOf(actual - p.removes);
    assert Won(d, actual, actual - StaleIn(desired, actual, host, live), p.removes);
    SurvivorsAcyclic(actual, p.removes);
    NewEdgeExact(base, d.record.name, d.record.value);
  }

  lemma SurvivorsAcyclic(actual: set<RecordIntent>, removes: set<RecordIntent>)
    requires !HasCycle(LinksOf(actual))
    ensures !HasCycle(LinksOf(actual - removes))
  {
    LinksMonotone(actual - removes, actual);
    if HasCycle(LinksOf(actual - removes)) {
      CycleMonotone(LinksOf(actual - removes), LinksOf(actual));
    }
  }

  /** The cycle check looks at the stored records only, so a pass can close a cycle; but every
      cycle it closes runs through two aliases it added itself. */
  lemma CycleNeedsTwoAdditions(desired: seq<RecordIntent>, actual: set<RecordIntent>, host: string, live: Liveness,
          c: seq<string>)
    requires !HasCycle(LinksOf(actual))
    requires IsCycle(LinksOf(Apply(actual, Reconcile(desired, actual, host, live))), c)
    ensures exists d, e ::
              && d in Reconcile(desired, actual, host, live).adds && e in Reconcile(desired, actual, host, live).adds
              && CnameLink(d.record) != CnameLink(e.record) && UsedAlias(d, c) && UsedAlias(e, c)
  {
    var p := Reconcile(desired, actual, host, live);
    var base, all := LinksOf(actual - p.removes), LinksOf(Apply(actual, p));
    SurvivorsAcyclic(actual, p.removes);
    CycleLeaves(all, base, c);
    var l :| l in all && Uses(c, l) && l !in base;
    var d :| d in p.adds && d.record.kind == CNAME && CnameLink(d.record) == l;
    SingleAdditionSafe(desired, actual, host, live, d);
    CycleLeaves(all, base + {l}, c);
    var m :| m in all && Uses(c, m) && m !in base + {l};
    var e :| e in p.adds && e.record.kind == CNAME && CnameLink(e.record) == m;
    assert UsedAlias(d, c) && UsedAlias(e, c);
  }

  predicate AtMostOneAlias(adds: set<RecordIntent>) {
    forall d, e :: d in adds && e in adds && d.record.kind == CNAME && e.record.kind == CNAME ==> d == e
  }

  /** Hence a pass that adds at most one alias keeps an acyclic store acyclic. */
  lemma OneAliasKeepsAcyclic(desired: seq<RecordIntent>, actual: set<RecordIntent>, host: string, live: Liveness)
    requires !HasCycle(LinksOf(actual))
    requires AtMostOneAlias(Reconcile(desired, actual, host, live).adds)
    ensures !HasCycle(LinksOf(Apply(actual, Reconcile(desired, actual, host, live))))
  {
    if c :| IsCycle(LinksOf(Apply(actual, Reconcile(desired, actual, host, live))), c) {
      CycleNeedsTwoAdditions(desired, actual, host, live, c);
    }
  }

  /** The desired aliases that are absent, beat all their rivals and close no cycle on their own. */
  ghost function Newcomers(desired: seq<RecordIntent>, lookup: set<RecordIntent>): set<RecordIntent> {
    set d | d in desired && d.record.kind == CNAME && !Present(d, lookup) && Prevails(d, Rivals(d, lookup))
      && !ClosesCycleIn(d.record, lookup)
  }

  /** No desired intent that is absent and beats its rivals has an alias among them. */
  ghost predicate EvictsNoAlias(desired: seq<RecordIntent>, lookup: set<RecordIntent>) {
    forall d, r :: d in desired && !Present(d, lookup) && Prevails(d, Rivals(d, lookup)) && r in Rivals(d, lookup) ==>
      r.record.kind != CNAME
  }

  lemma SameLinks(r: Record, s: set<RecordIntent>, t: set<RecordIntent>)
    requires forall x: RecordIntent :: x.record.kind == CNAME ==> (x in s <==> x in t)
    ensures LinksOf(s) == LinksOf(t) && (ClosesCycleIn(r, s) <==> ClosesCycleIn(r, t))
  {
  }

  /** Then the pass adds exactly those aliases and removes none but the stale ones. */
  lemma NewcomersAreAdded(desired: seq<RecordIntent>, actual: set<RecordIntent>, host: string, live: Liveness)
    requires EvictsNoAlias(desired, actual - StaleIn(desired, actual, host, live))
    ensures
      var p := Reconcile(desired, actual, host, live);
      var lookup := actual - StaleIn(desired, actual, host, live);
      && LinksOf(actual - p.removes) == LinksOf(lookup)
      && forall d :: d in p.adds && d.record.kind == CNAME <==> d in Newcomers(desired, lookup)
  {
    PassSound(desired, actual, host, live);
    var p := Reconcile(desired, actual, host, live);
    var stale := StaleIn(desired, actual, host, live);
    var lookup := actual - stale;
    forall x | x in p.removes && x !in stale
      ensures x.record.kind != CNAME
    {
      var d :| d in p.adds && x in Rivals(d, lookup);
      assert Won(d, actual, lookup, p.removes) && d in Elems(desired);
    }
    forall d | d in desired && d.record.kind == CNAME
      ensures d in p.adds <==> d in Newcomers(desired, lookup)
    {
      assert d in Elems(desired);
      SameLinks(d.record, actual - p.removes, lookup);
      assert d in p.adds ==> Won(d, actual, lookup, p.removes);
      if !Present(d, lookup) && Prevails(d, Rivals(d, lookup)) {
        NewcomerNotRefused(d, actual, stale, p.removes);
      }
    }
    assert forall d :: d in p.adds ==> d in Elems(desired);
    SameLinks(Record("", CNAME, ""), actual - p.removes, lookup);
  }

  lemma NewcomerNotRefused(d: RecordIntent, actual: set<RecordIntent>, stale: set<RecordIntent>,
          removes: set<RecordIntent>)
    requires !Present(d, actual - stale) && Prevails(d, Rivals(d, actual - stale))
    ensures !ClosesCycleIn(d.record, actual - stale) ==> !Refused(d, actual, actual - stale, stale, removes)
  {
    if !ClosesCycleIn(d.record, actual - stale) {
      forall g | stale <= g <= removes
        ensures !ClosesCycleIn(d.record, actual - g - Rivals(d, actual - stale))
      {
        ClosesCycleMonotone(d.record, actual - g - Rivals(d, actual - stale), actual - stale);
      }
    }
  }

  lemma LinksOfUnion(s: set<RecordIntent>, t: set<RecordIntent>)
    ensures LinksOf(s + t) == LinksOf(s) + LinksOf(t)
  {
  }

  /** Whatever is evicted, a batch keeps the store acyclic if what is not stale forms no cycle with
      all the absent desired aliases. */
  lemma BatchAcyclicIf(desired: seq<RecordIntent>, actual: set<RecordIntent>, host: string, live: Liveness)
    requires !HasCycle(LinksOf(actual - StaleIn(desired, actual, host, live)) + LinksOf(AbsentIn(desired, actual)))
    ensures !HasCycle(LinksOf(Apply(actual, Reconcile(desired, actual, host, live))))
  {
    PassSound(desired, actual, host, live);
    AddsWereAbsent(desired, actual, host, live);
    var p := Reconcile(desired, actual, host, live);
    var all := LinksOf(actual - StaleIn(desired, actual, host, live)) + LinksOf(AbsentIn(desired, actual));
    LinksMonotone(actual - p.removes, actual - StaleIn(desired, actual, host, live));
    LinksMonotone(p.adds, AbsentIn(desired, actual));
    LinksOfUnion(actual - p.removes, p.adds);
    if HasCycle(LinksOf(Apply(actual, p))) {
      CycleMonotone(LinksOf(Apply(actual, p)), all);
    }
  }

  /** The desired intents whose keys are not stored. */
  function AbsentIn(desired: seq<RecordIntent>, actual: set<RecordIntent>): set<RecordIntent> {
    set d | d in desired && d.Key() !in Keys(actual)
  }

  lemma AddsWereAbsent(desired: seq<RecordIntent>, actual: set<RecordIntent>, host: string, live: Liveness)
    ensures Reconcile(desired, actual, host, live).adds <= AbsentIn(desired, actual)
  {
    forall d | d in Reconcile(desired, actual, host, live).adds
      ensures d in AbsentIn(desired, actual)
    {
      AddedIsNew(desired, actual, host, live, d);
    }
  }

  /** And a pass over a desired list with at most one absent alias keeps an acyclic store acyclic. */
  lemma OneAbsentAliasKeepsAcyclic(desired: seq<RecordIntent>, actual: set<RecordIntent>, host: string, live: Liveness)
    requires !HasCycle(LinksOf(actual)) && AtMostOneAlias(AbsentIn(desired, actual))
    ensures !HasCycle(LinksOf(Apply(actual, Reconcile(desired, actual, host, live))))
  {
    AddsWereAbsent(desired, actual, host, live);
    OneAliasKeepsAcyclic(desired, actual, host, live);
  }

  lemma MutualAliases(a: RecordIntent, b: RecordIntent)
    requires a.record.kind == CNAME && b.record.kind == CNAME
    requires a.record.value == b.record.name && b.record.value == a.record.name
    ensures HasCycle(LinksOf({a, b}))
  {
    var links := LinksOf({a, b});
    var c := [a.record.name, b.record.name, a.record.name];
    assert CnameLink(a.record) in links && CnameLink(b.record) in links;
    assert Hop(links, c, 0) && Hop(links, c, 1);
    assert IsCycle(links, c);
  }

  lemma OnEmptyStore(ds: seq<RecordIntent>, host: string)
    ensures Reconcile(ds, {}, host, None) == ConsiderAll(ds, {}, {}, Plan({}, {}))
  {
    var nobody: set<RecordIntent> := {};
    assert StaleIn(ds, nobody, host, None) == {};
    assert nobody - StaleIn(ds, nobody, host, None) == nobody;
  }

  lemma FirstAdded(a: RecordIntent)
    requires a.record.kind == CNAME && a.record.name != a.record.value
    ensures ConsiderAll([a], {}, {}, Plan({}, {})) == Plan({a}, {})
  {
    AddsOnEmpty([], Plan({}, {}), a);
    assert [] + [a] == [a];
  }

  lemma BothAdded(a: RecordIntent, b: RecordIntent)
    requires a.record.kind == CNAME && b.record.kind == CNAME
    requires a.record.name != a.record.value && b.record.name != b.record.value
    ensures Reconcile([a, b], {}, "h", None) == Plan({a, b}, {})
  {
    FirstAdded(a);
    AddsOnEmpty([a], Plan({a}, {}), b);
    assert [a] + [b] == [a, b] && {a} + {b} == {a, b};
    OnEmptyStore([a, b], "h");
  }

  /** Two containers of one host alias each other: both records are added, and the next pass finds
      nothing to change. */
  lemma BatchClosesCycle()
    ensures exists desired: seq<RecordIntent> ::
              CleanList(desired) &&
              var p := Reconcile(desired, {}, "h", None);
              HasCycle(LinksOf(Apply({}, p))) && Reconcile(desired, Apply({}, p), "h", None) == Plan({}, {})
  {
    var a := Intent("a", 1, "h", false, Record("a", CNAME, "b"));
    var b := Intent("b", 2, "h", false, Record("b", CNAME, "a"));
    var desired := [a, b];
    assert Elems(desired) == {a, b};
    BothAdded(a, b);
    MutualAliases(a, b);
    assert Apply({}, Plan({a, b}, {})) == {a, b};
    OnePassEnough(desired, desired, {}, "h", None, {});
    assert CleanList(desired);
  }

  lemma AddsOnEmpty(ds: seq<RecordIntent>, q: Plan, d: RecordIntent)
    requires d.record.kind == CNAME && d.record.name != d.record.value
    requires q.removes == {} && ConsiderAll(ds, {}, {}, Plan({}, {})) == q
    ensures ConsiderAll(ds + [d], {}, {}, Plan({}, {})) == Plan(q.adds + {d}, {})
  {
    AcceptsOnEmpty(d);
    assert (ds + [d])[..|ds|] == ds;
    var nobody: set<RecordIntent> := {};
    assert nobody - q.removes - Rivals(d, nobody) == nobody;
    assert Consider(d, nobody, nobody, q) == Plan(q.adds + {d}, {});
  }

  lemma AcceptsOnEmpty(d: RecordIntent)
    requires d.record.kind == CNAME && d.record.name != d.record.value
    ensures Admissible(d, {}) && Rivals(d, {}) == {} && !Present(d, {}) && Prevails(d, {})
  {
    var links := LinksOf({}) + {CnameLink(d.record)};
    var next := map[d.record.name := d.record.value];
    PairsAfter(map[], d.record.name, d.record.value);
    assert links == Pairs(next);
    var p := [d.record.name, d.record.value];
    assert Hop(links, p, 0);
    DeadEndNoLoop(next, p);
  }
}
