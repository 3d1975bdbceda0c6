/** Many hosts with fixed desired sets among which there is no duel: however their passes interleave,
    only finitely many of them change the store. */
module Convergence {
  import opened Domain
  import opened ReconcilePlan
  import opened PassTheorems

  type Wishes = map<string, set<RecordIntent>>

  /** What each host wants: filtered, and its own. */
  predicate Settled(wishes: Wishes) {
    forall h :: h in wishes ==> Clean(wishes[h]) && forall d :: d in wishes[h] ==> d.hostname == h
  }

  predicate Wished(wishes: Wishes, r: RecordIntent) {
    r.hostname in wishes && r in wishes[r.hostname]
  }

  /** Whoever among these conflicts with d and beats it is beaten by d. */
  predicate AnswersBack(d: RecordIntent, theirs: set<RecordIntent>) {
    forall x :: x in theirs && Conflict(d.record, x.record) && Beats(x, d) ==> Beats(d, x)
  }

  /** Two hosts want conflicting records that beat each other both ways, and no other wish of one
      host shields its record from that of the other. */
  predicate Duel(wishes: Wishes, d: RecordIntent, e: RecordIntent) {
    && Wished(wishes, d) && Wished(wishes, e) && d.hostname != e.hostname
    && Conflict(d.record, e.record) && Beats(d, e) && Beats(e, d)
    && AnswersBack(d, wishes[e.hostname]) && AnswersBack(e, wishes[d.hostname])
  }

  ghost predicate Peaceful(wishes: Wishes) {
    forall d, e :: !Duel(wishes, d, e)
  }

  /** Age and force as one number: of two intents that do not beat each other both ways, the one
      that beats the other has the smaller mark. */
  function Mark(r: RecordIntent): nat {
    2 * r.created + if r.force then 0 else 1
  }

  /** One pass of a host: the order its filter happened to return, the liveness it read, and every
      record its removals deleted. */
  datatype Turn = Turn(host: string, order: seq<RecordIntent>, live: Liveness, deleted: set<RecordIntent>)

  /** Garbage collection finds none of the hosts gone that take part; it may collect from others. */
  predicate NoPeerGone(wishes: Wishes, store: set<RecordIntent>, host: string, live: Liveness) {
    live.Some? ==> forall r :: r in store && r.hostname in wishes ==> r.hostname == host || r.hostname in live.value
  }

  /** The removals delete what they aim at, and beyond it only records of longer keys. */
  ghost predicate Reaches(depth: string -> nat, aimed: set<RecordIntent>, deleted: set<RecordIntent>) {
    && aimed <= deleted
    && forall x :: x in deleted && x !in aimed ==>
         exists r :: r in aimed && depth(r.record.name) < depth(x.record.name)
  }

  /** What a completed pass does to the records of the store. */
  ghost predicate PassEffect(depth: string -> nat, s: set<RecordIntent>, turn: Turn, t: set<RecordIntent>) {
    && CleanList(turn.order)
    && var p := Reconcile(turn.order, s, turn.host, turn.live);
       && turn.deleted <= s
       && Reaches(depth, p.removes, turn.deleted)
       && t == (s - turn.deleted) + p.adds
  }

  ghost predicate IsPass(depth: string -> nat, wishes: Wishes, s: set<RecordIntent>, turn: Turn, t: set<RecordIntent>) {
    && turn.host in wishes && Elems(turn.order) == wishes[turn.host]
    && NoPeerGone(wishes, s, turn.host, turn.live)
    && PassEffect(depth, s, turn, t)
  }

  /** A finite frame around everything that can ever be stored. */
  datatype Frame = Frame(universe: set<Record>, horizon: nat, top: nat)

  ghost predicate Fits(depth: string -> nat, f: Frame, r: RecordIntent) {
    r.record in f.universe && Mark(r) < f.horizon && depth(r.record.name) <= f.top
  }

  ghost predicate FitsAll(depth: string -> nat, f: Frame, store: set<RecordIntent>) {
    forall r :: r in store ==> Fits(depth, f, r)
  }

  ghost predicate FitsWishes(depth: string -> nat, f: Frame, wishes: Wishes) {
    forall h :: h in wishes ==> FitsAll(depth, f, wishes[h])
  }

  function NameMarks(f: Frame): set<(string, nat)> {
    set r, t: nat | r in f.universe && t < f.horizon :: (r.name, t)
  }

  function SlotMarks(f: Frame): set<(Record, nat)> {
    set r, t: nat | r in f.universe && t < f.horizon :: (r, t)
  }

  /** The marks below those of every record of the name, for names of one level: they shrink when the
      lowest mark of a name goes down. */
  function NameRoom(depth: string -> nat, f: Frame, store: set<RecordIntent>, level: nat): set<(string, nat)> {
    set m | m in NameMarks(f) && depth(m.0) == level && forall r :: r in store && r.record.name == m.0 ==> m.1 < Mark(r)
  }

  /** The same for single records. */
  function SlotRoom(depth: string -> nat, f: Frame, store: set<RecordIntent>, level: nat): set<(Record, nat)> {
    set m | m in SlotMarks(f) && depth(m.0.name) == level && forall r :: r in store && r.record == m.0 ==> m.1 < Mark(r)
  }

  /** Stored records that are nobody's wish. */
  function Unwished(wishes: Wishes, store: set<RecordIntent>): set<RecordIntent> {
    set r | r in store && !Wished(wishes, r)
  }

  /** The facts of a pass the descent needs. */
  lemma PassFacts(depth: string -> nat, wishes: Wishes, s: set<RecordIntent>, turn: Turn, t: set<RecordIntent>)
    requires Settled(wishes) && Clean(s) && IsPass(depth, wishes, s, turn, t)
    ensures
      var p := Reconcile(turn.order, s, turn.host, turn.live);
      var stale := StaleIn(turn.order, s, turn.host, turn.live);
      && p.adds <= wishes[turn.host] && p.adds !! s && p.adds <= t
      && stale <= p.removes <= turn.deleted && p.removes !! t
      && (forall r :: r in stale ==> !Wished(wishes, r))
      && (forall d :: d in p.adds ==> Rivals(d, s - stale) <= p.removes)
      && (forall d, r :: d in p.adds && r in Rivals(d, s - stale) ==> Beats(d, r))
      && (forall r :: r in p.removes && r !in stale ==> exists d :: d in p.adds && r in Rivals(d, s - stale))
  {
    var p := Reconcile(turn.order, s, turn.host, turn.live);
    var stale := StaleIn(turn.order, s, turn.host, turn.live);
    PassSound(turn.order, s, turn.host, turn.live);
    forall d | d in p.adds
      ensures d !in s && Rivals(d, s - stale) <= p.removes && forall r :: r in Rivals(d, s - stale) ==> Beats(d, r)
    {
      assert Won(d, s, s - stale, p.removes);
      AddedIsNew(turn.order, s, turn.host, turn.live, d);
      assert d in s ==> d.Key() in Keys(s);
    }
    assert forall d :: d in wishes[turn.host] ==> d.Key() in Keys(wishes[turn.host]);
    forall r | r in p.removes
      ensures r !in t
    {
      assert r in s;
    }
  }

  lemma StrictlyLower(d: RecordIntent, r: RecordIntent)
    requires Beats(d, r) && (!Beats(r, d) || !d.force)
    ensures Mark(d) < Mark(r)
  {
  }

  /** Without duels an evicted wish had the higher mark, unless it was an alias and fell to addresses. */
  lemma EvictedHadHigherMark(wishes: Wishes, d: RecordIntent, r: RecordIntent)
    requires Settled(wishes) && Peaceful(wishes) && Wished(wishes, d) && Wished(wishes, r)
    requires r != d && Conflict(d.record, r.record) && Beats(d, r)
    requires !(d.record.IsAddress() && r.record.kind == CNAME)
    ensures Mark(d) < Mark(r)
  {
    assert WellFormed(wishes[d.hostname]);
    assert d.hostname != r.hostname;
    assert !Duel(wishes, d, r);
    if Beats(r, d) && AnswersBack(d, wishes[r.hostname]) {
      var y :| y in wishes[d.hostname] && Conflict(r.record, y.record) && Beats(y, r) && !Beats(r, y);
      NoCommonRival(wishes[d.hostname], d, y, r);
    } else {
      StrictlyLower(d, r);
    }
  }

  lemma NoCommonRival(mine: set<RecordIntent>, d: RecordIntent, y: RecordIntent, r: RecordIntent)
    requires Clean(mine) && d in mine && y in mine && Conflict(d.record, r.record) && Conflict(r.record, y.record)
    requires !(d.record.IsAddress() && r.record.kind == CNAME)
    ensures d == y
  {
    assert Conflict(d.record, y.record);
  }

  /** An alias that falls to addresses falls to one of lower mark as well. */
  lemma AddressOfLowerMark(wishes: Wishes, d: RecordIntent, c: RecordIntent) returns (x: RecordIntent)
    requires Settled(wishes) && Peaceful(wishes) && Wished(wishes, d) && Wished(wishes, c)
    requires d.record.IsAddress() && c.record.kind == CNAME && d.record.name == c.record.name && Beats(d, c)
    ensures Wished(wishes, x) && x.hostname == d.hostname && IsSibling(x, c)
    ensures Beats(x, c) && Mark(x) < Mark(c)
  {
    assert WellFormed(wishes[d.hostname]);
    assert Conflict(d.record, c.record) && d.hostname != c.hostname;
    assert !Duel(wishes, d, c);
    x := d;
    if Beats(c, d) && AnswersBack(d, wishes[c.hostname]) {
      var y :| y in wishes[d.hostname] && Conflict(c.record, y.record) && Beats(y, c) && !Beats(c, y);
      assert Conflict(d.record, y.record) ==> y == d;
      x := y;
    }
    StrictlyLower(x, c);
  }

  lemma PassKeepsSetting(depth: string -> nat, wishes: Wishes, f: Frame, s: set<RecordIntent>, turn: Turn,
          t: set<RecordIntent>)
    requires Settled(wishes) && Clean(s) && IsPass(depth, wishes, s, turn, t)
    ensures Clean(t)
    ensures FitsWishes(depth, f, wishes) && FitsAll(depth, f, s) ==> FitsAll(depth, f, t)
    ensures Unwished(wishes, t) <= Unwished(wishes, s)
  {
    PassFacts(depth, wishes, s, turn, t);
    PassKeepsClean(turn.order, s, turn.host, turn.live);
    var p := Reconcile(turn.order, s, turn.host, turn.live);
    assert t <= Apply(s, p);
    assert forall d :: d in p.adds ==> Wished(wishes, d);
  }

  lemma StrictSubsetSmaller<T>(small: set<T>, big: set<T>)
    requires small < big
    ensures |small| < |big|
  {
    var rest := big - small;
    assert big == small + rest;
    assert rest != {};
  }

  lemma SubsetSmaller<T>(small: set<T>, big: set<T>)
    requires small <= big
    ensures |small| <= |big|
  {
    assert big == small + (big - small);
  }

  /** The pass deletes only what somebody wants. */
  predicate SparesOthers(wishes: Wishes, turn: Turn) {
    forall r :: r in turn.deleted ==> Wished(wishes, r)
  }

  /** A pass that deletes a record nobody wants leaves fewer of them. */
  lemma UnwishedDescends(depth: string -> nat, wishes: Wishes, f: Frame, s: set<RecordIntent>, turn: Turn,
          t: set<RecordIntent>)
    requires Settled(wishes) && Clean(s) && IsPass(depth, wishes, s, turn, t)
    requires !SparesOthers(wishes, turn)
    ensures |Unwished(wishes, t)| < |Unwished(wishes, s)|
  {
    PassFacts(depth, wishes, s, turn, t);
    PassKeepsSetting(depth, wishes, f, s, turn, t);
    var r :| r in turn.deleted && !Wished(wishes, r);
    assert r in Unwished(wishes, s) && r !in Unwished(wishes, t);
    StrictSubsetSmaller(Unwished(wishes, t), Unwished(wishes, s));
  }

  /** The addition undercuts all it meets. */
  predicate Undercuts(d: RecordIntent, s: set<RecordIntent>) {
    forall x :: x in Rivals(d, s) ==> Mark(d) < Mark(x)
  }

  lemma SparingAdds(depth: string -> nat, wishes: Wishes, s: set<RecordIntent>, turn: Turn, t: set<RecordIntent>)
    requires Settled(wishes) && Clean(s) && IsPass(depth, wishes, s, turn, t) && SparesOthers(wishes, turn)
    ensures
      var p := Reconcile(turn.order, s, turn.host, turn.live);
      && StaleIn(turn.order, s, turn.host, turn.live) == {} && s - StaleIn(turn.order, s, turn.host, turn.live) == s
      && p.adds == t - s && p.adds <= wishes[turn.host] && p.removes <= turn.deleted
      && (forall d, r :: d in p.adds && r in Rivals(d, s) ==> Beats(d, r) && Wished(wishes, r) && r != d)
      && (forall r :: r in p.removes ==> exists d :: d in p.adds && r in Rivals(d, s))
  {
    PassFacts(depth, wishes, s, turn, t);
    var p := Reconcile(turn.order, s, turn.host, turn.live);
    var stale := StaleIn(turn.order, s, turn.host, turn.live);
    assert stale == {};
    assert s - stale == s;
    assert p.adds == t - s;
    forall d, r | d in p.adds && r in Rivals(d, s)
      ensures Wished(wishes, r) && r != d
    {
      assert r in turn.deleted && r in s;
    }
  }

  /** An absent address that beats the alias of its name is added. */
  lemma BeatingAddressAdded(depth: string -> nat, wishes: Wishes, s: set<RecordIntent>, turn: Turn,
          t: set<RecordIntent>, x: RecordIntent, c: RecordIntent)
    requires Settled(wishes) && Clean(s) && IsPass(depth, wishes, s, turn, t) && SparesOthers(wishes, turn)
    requires x in wishes[turn.host] && c in s && c.record.kind == CNAME && IsSibling(x, c) && Beats(x, c)
    ensures x in t - s && Rivals(x, s) == {c}
  {
    SparingAdds(depth, wishes, s, turn, t);
    PassSound(turn.order, s, turn.host, turn.live);
    AliasStandsAlone(c, x, s, s);
    var p := Reconcile(turn.order, s, turn.host, turn.live);
    assert x in Elems(turn.order);
    assert !Refused(x, s, s, {}, p.removes);
  }

  lemma OwnUndercuts(wishes: Wishes, s: set<RecordIntent>, d: RecordIntent, r: RecordIntent)
    requires Settled(wishes) && Peaceful(wishes) && Clean(s) && Wished(wishes, d) && d !in s
    requires r in Rivals(d, s) && !(d.record.IsAddress() && r.record.kind == CNAME)
    requires forall y :: y in Rivals(d, s) ==> Beats(d, y) && Wished(wishes, y)
    ensures Undercuts(d, s)
  {
    forall y | y in Rivals(d, s)
      ensures Mark(d) < Mark(y)
    {
      OneSort(s, d, r, y);
      EvictedHadHigherMark(wishes, d, y);
    }
  }

  /** In a clean store the rivals of an address are all addresses if one is. */
  lemma OneSort(s: set<RecordIntent>, d: RecordIntent, r: RecordIntent, y: RecordIntent)
    requires Clean(s) && r in Rivals(d, s) && y in Rivals(d, s)
    ensures d.record.IsAddress() && y.record.kind == CNAME ==> r.record.kind == CNAME
  {
    assert r != y ==> !Conflict(r.record, y.record) && !Conflict(y.record, r.record);
  }

  /** Whatever a pass evicts that spares others falls to an addition that undercuts all it meets. */
  lemma Undercutter(depth: string -> nat, wishes: Wishes, s: set<RecordIntent>, turn: Turn, t: set<RecordIntent>,
          d: RecordIntent, r: RecordIntent)
    returns (x: RecordIntent)
    requires Settled(wishes) && Peaceful(wishes) && Clean(s) && IsPass(depth, wishes, s, turn, t)
    requires SparesOthers(wishes, turn) && d in t - s && r in Rivals(d, s)
    ensures x in t - s && r in Rivals(x, s) && Undercuts(x, s)
  {
    SparingAdds(depth, wishes, s, turn, t);
    assert Wished(wishes, d) && d.hostname == turn.host;
    if d.record.IsAddress() && r.record.kind == CNAME {
      x := AddressOfLowerMark(wishes, d, r);
      BeatingAddressAdded(depth, wishes, s, turn, t, x, r);
    } else {
      x := d;
      OwnUndercuts(wishes, s, d, r);
    }
  }

  lemma SameRecordUndercut(depth: string -> nat, wishes: Wishes, s: set<RecordIntent>, turn: Turn, t: set<RecordIntent>,
          d: RecordIntent, r: RecordIntent)
    requires Settled(wishes) && Peaceful(wishes) && Clean(s) && IsPass(depth, wishes, s, turn, t)
    requires SparesOthers(wishes, turn) && d in t - s && r in s && r.record == d.record
    ensures Mark(d) < Mark(r)
  {
    SparingAdds(depth, wishes, s, turn, t);
    assert d in wishes[turn.host] && d.record.Supported();
    assert r in Rivals(d, s);
    EvictedHadHigherMark(wishes, d, r);
  }

  /** The lowest level at which a non-empty set of intents has a name. */
  lemma {:induction false} LowestLevel(depth: string -> nat, adds: set<RecordIntent>) returns (d: RecordIntent)
    requires adds != {}
    ensures d in adds && forall e :: e in adds ==> depth(d.record.name) <= depth(e.record.name)
  {
    d :| d in adds;
    var rest := adds - {d};
    if rest != {} {
      var e := LowestLevel(depth, rest);
      if depth(e.record.name) < depth(d.record.name) {
        d := e;
      }
      assert forall x :: x in adds ==> x == d || x in rest || x !in rest;
    }
  }

  /** What a pass that spares others deletes lies at or above the lowest level it adds at; at
      that level, only what an added record of the same name evicts. */
  lemma DeletedAt(depth: string -> nat, wishes: Wishes, s: set<RecordIntent>, turn: Turn, t: set<RecordIntent>, k: nat,
          r: RecordIntent)
    requires Settled(wishes) && Peaceful(wishes) && Clean(s) && IsPass(depth, wishes, s, turn, t)
    requires SparesOthers(wishes, turn)
    requires forall e :: e in t - s ==> k <= depth(e.record.name)
    requires r in turn.deleted && depth(r.record.name) <= k
    ensures depth(r.record.name) == k
    ensures exists d :: d in t - s && r in Rivals(d, s) && Undercuts(d, s)
  {
    SparingAdds(depth, wishes, s, turn, t);
    var p := Reconcile(turn.order, s, turn.host, turn.live);
    forall x | x in p.removes
      ensures k <= depth(x.record.name)
    {
      var d :| d in p.adds && x in Rivals(d, s);
    }
    assert r in p.removes;
    var d :| d in p.adds && r in Rivals(d, s);
    var x := Undercutter(depth, wishes, s, turn, t, d, r);
  }

  /** A name whose record loses to one of another kind or target loses all it has. */
  lemma CrossRivals(s: set<RecordIntent>, d: RecordIntent, r: RecordIntent)
    requires Clean(s) && r in Rivals(d, s) && r.record != d.record
    ensures forall x :: x in s && x.record.name == d.record.name ==> x in Rivals(d, s)
  {
    forall x | x in s && x.record.name == d.record.name
      ensures x in Rivals(d, s)
    {
      if d.record.kind != CNAME {
        assert r.record.kind == CNAME;
        assert Conflict(r.record, x.record);
      }
    }
  }

  /** Below the lowest level of the additions nothing moves. */
  lemma LowerLevelsStay(depth: string -> nat, wishes: Wishes, f: Frame, s: set<RecordIntent>, turn: Turn,
          t: set<RecordIntent>, k: nat, level: nat)
    requires Settled(wishes) && Peaceful(wishes) && Clean(s) && IsPass(depth, wishes, s, turn, t)
    requires SparesOthers(wishes, turn)
    requires forall e :: e in t - s ==> k <= depth(e.record.name)
    requires level < k
    ensures NameRoom(depth, f, t, level) == NameRoom(depth, f, s, level)
    ensures SlotRoom(depth, f, t, level) == SlotRoom(depth, f, s, level)
  {
    forall r: RecordIntent | depth(r.record.name) == level
      ensures r in s <==> r in t
    {
      if r in turn.deleted {
        DeletedAt(depth, wishes, s, turn, t, k, r);
      }
    }
    SameRoom(depth, f, s, t, level);
  }

  lemma SameRoom(depth: string -> nat, f: Frame, s: set<RecordIntent>, t: set<RecordIntent>, level: nat)
    requires forall r: RecordIntent :: depth(r.record.name) == level ==> (r in s <==> r in t)
    ensures NameRoom(depth, f, t, level) == NameRoom(depth, f, s, level)
    ensures SlotRoom(depth, f, t, level) == SlotRoom(depth, f, s, level)
  {
  }

  /** At the lowest level of the additions the lowest mark of a name never goes up. */
  lemma NameRoomShrinks(depth: string -> nat, wishes: Wishes, f: Frame, s: set<RecordIntent>, turn: Turn,
          t: set<RecordIntent>, k: nat)
    requires Settled(wishes) && Peaceful(wishes) && Clean(s) && IsPass(depth, wishes, s, turn, t)
    requires SparesOthers(wishes, turn)
    requires forall e :: e in t - s ==> k <= depth(e.record.name)
    ensures NameRoom(depth, f, t, k) <= NameRoom(depth, f, s, k)
  {
    forall m | m in NameRoom(depth, f, t, k)
      ensures m in NameRoom(depth, f, s, k)
    {
      forall r | r in s && r.record.name == m.0
        ensures m.1 < Mark(r)
      {
        if r !in t {
          assert r in turn.deleted;
          DeletedAt(depth, wishes, s, turn, t, k, r);
          var d :| d in t - s && r in Rivals(d, s) && Undercuts(d, s);
          assert d in t && d.record.name == m.0;
        }
      }
    }
  }

  /** If no name's lowest mark goes down there, some single record's does. */
  lemma SlotRoomShrinks(depth: string -> nat, wishes: Wishes, f: Frame, s: set<RecordIntent>, turn: Turn,
          t: set<RecordIntent>, k: nat)
    requires Settled(wishes) && Peaceful(wishes) && Clean(s) && IsPass(depth, wishes, s, turn, t)
    requires FitsWishes(depth, f, wishes) && FitsAll(depth, f, s)
    requires SparesOthers(wishes, turn)
    requires forall e :: e in t - s ==> k <= depth(e.record.name)
    requires exists e :: e in t - s && depth(e.record.name) == k
    requires NameRoom(depth, f, t, k) == NameRoom(depth, f, s, k)
    ensures SlotRoom(depth, f, t, k) < SlotRoom(depth, f, s, k)
  {
    PassFacts(depth, wishes, s, turn, t);
    PassKeepsSetting(depth, wishes, f, s, turn, t);
    forall m | m in SlotRoom(depth, f, t, k)
      ensures m in SlotRoom(depth, f, s, k)
    {
      forall r | r in s && r.record == m.0
        ensures m.1 < Mark(r)
      {
        if r !in t {
          DeletedAt(depth, wishes, s, turn, t, k, r);
          var d :| d in t - s && r in Rivals(d, s) && Undercuts(d, s);
          NoCrossEviction(depth, f, s, t, k, d, r);
          assert d in t && d.record == m.0;
        }
      }
    }
    var e :| e in t - s && depth(e.record.name) == k;
    SlotWitness(depth, wishes, f, s, turn, t, k, e);
  }

  /** An added record that evicted across kinds would have lowered its name's mark. */
  lemma NoCrossEviction(depth: string -> nat, f: Frame, s: set<RecordIntent>, t: set<RecordIntent>, k: nat,
          d: RecordIntent, r: RecordIntent)
    requires Clean(s) && d in t && r in Rivals(d, s) && depth(r.record.name) == k
    requires Undercuts(d, s)
    requires Fits(depth, f, d)
    requires NameRoom(depth, f, t, k) == NameRoom(depth, f, s, k)
    ensures r.record == d.record
  {
    var m := (d.record.name, Mark(d));
    assert m in NameMarks(f);
    assert m !in NameRoom(depth, f, t, k);
    if r.record != d.record {
      CrossRivals(s, d, r);
    }
  }

  lemma SlotWitness(depth: string -> nat, wishes: Wishes, f: Frame, s: set<RecordIntent>, turn: Turn,
          t: set<RecordIntent>, k: nat, e: RecordIntent)
    requires Settled(wishes) && Peaceful(wishes) && Clean(s) && IsPass(depth, wishes, s, turn, t)
    requires SparesOthers(wishes, turn)
    requires e in t - s && depth(e.record.name) == k && Fits(depth, f, e)
    ensures (e.record, Mark(e)) in SlotRoom(depth, f, s, k) && (e.record, Mark(e)) !in SlotRoom(depth, f, t, k)
  {
    SparingAdds(depth, wishes, s, turn, t);
    var m := (e.record, Mark(e));
    assert m in SlotMarks(f);
    assert e.record.Supported() by {
      assert e in wishes[turn.host];
    }
    forall r | r in s && r.record == e.record
      ensures Mark(e) < Mark(r)
    {
      SameRecordUndercut(depth, wishes, s, turn, t, e, r);
    }
  }
}
