/** Cross-host garbage collection without the lock: any hosts list, read liveness, register and
    remove in any order. A listing may be as old as it likes; the liveness read is not. */
module Collection {
  import opened Domain
  import opened ReconcilePlan
  import opened PassTheorems

  /** How far a host's pass has come: what it listed, and then whom it found live. */
  datatype Pass =
    | Idle
    | Listed(snapshot: set<RecordIntent>)
    | Judged(snapshot: set<RecordIntent>, live: Liveness)

  /** `up` are the hosts whose liveness key is present, `active` those that believe they are
      heartbeating, `stores` every record set there has been, the present one last. */
  datatype System = System(
    up: set<string>,
    active: set<string>,
    stores: seq<set<RecordIntent>>,
    passes: map<string, Pass>)

  datatype Event =
    | PutKey(host: string)
    | LoseKey(host: string)
    | Activate(host: string)
    | Deactivate(host: string)
    | Register(host: string, added: RecordIntent)
    | Remove(host: string, gone: set<RecordIntent>)
    | ListRecords(host: string, age: nat)
    | ReadLiveness(host: string, fails: bool)
    | Finish(host: string)

  function PassOf(s: System, host: string): Pass {
    if host in s.passes then s.passes[host] else Idle
  }

  function Current(s: System): set<RecordIntent>
    requires s.stores != []
  {
    s.stores[|s.stores| - 1]
  }

  /** What the liveness read gives: every host with its key up and the reader itself, or nothing. */
  function LiveFor(s: System, host: string, fails: bool): Liveness {
    if host in s.active && !fails then Some(s.up + {host}) else None
  }

  predicate Step(s: System, e: Event, t: System) {
    && s.stores != []
    && match e
       case PutKey(h) => t == s.(up := s.up + {h})
       case LoseKey(h) => t == s.(up := s.up - {h})
       case Activate(h) => t == s.(active := s.active + {h})
       case Deactivate(h) => t == s.(active := s.active - {h})
       case Register(h, r) => r.hostname == h && t == s.(stores := s.stores + [Current(s) + {r}])
       case Remove(h, gone) => t == s.(stores := s.stores + [Current(s) - gone])
       case ListRecords(h, age) =>
         && PassOf(s, h).Idle? && age < |s.stores|
         && t == s.(passes := s.passes[h := Listed(s.stores[age])])
       case ReadLiveness(h, fails) =>
         && PassOf(s, h).Listed?
         && t == s.(passes := s.passes[h := Judged(PassOf(s, h).snapshot, LiveFor(s, h, fails))])
       case Finish(h) => t == s.(passes := s.passes[h := Idle])
  }

  predicate IsRun(states: seq<System>, events: seq<Event>) {
    && |states| == |events| + 1
    && forall i :: 0 <= i < |events| ==> Step(states[i], events[i], states[i + 1])
  }

  predicate OwnsNone(h: string, store: set<RecordIntent>) {
    forall r :: r in store ==> r.hostname != h
  }

  predicate NeverOwned(h: string, s: System) {
    forall i :: 0 <= i < |s.stores| ==> OwnsNone(h, s.stores[i])
  }

  /** The one thing asked of host h, at each of its own steps: it registers only while its key is
      up, and its key is not lost once it has registered. */
  predicate Vouches(h: string, s: System, e: Event) {
    && (e.Register? && e.host == h ==> h in s.up)
    && (e == LoseKey(h) ==> NeverOwned(h, s))
  }

  /** A listing shows the store as it once was, and no pass holds a record of h against a live set
      that lacks h. */
  predicate Trusted(h: string, s: System, peer: string) {
    match PassOf(s, peer)
    case Idle => true
    case Listed(snapshot) => snapshot in s.stores
    case Judged(snapshot, live) => OwnsNone(h, snapshot) || (live.Some? ==> h in live.value)
  }

  ghost predicate Invariant(h: string, s: System) {
    && s.stores != []
    && (h in s.up || NeverOwned(h, s))
    && (forall p :: Trusted(h, s, p))
  }

  predicate IsStart(h: string, s: System) {
    && s.stores != []
    && (h in s.up || NeverOwned(h, s))
    && s.passes == map[]
  }

  lemma StepKeepsTrust(h: string, s: System, e: Event, t: System)
    requires Invariant(h, s) && Step(s, e, t) && Vouches(h, s, e)
    ensures Invariant(h, t)
  {
    forall p
      ensures Trusted(h, t, p)
    {
      assert Trusted(h, s, p);
    }
    if h !in t.up {
      forall i | 0 <= i < |t.stores|
        ensures OwnsNone(h, t.stores[i])
      {
        assert OwnsNone(h, Current(s));
        assert i < |s.stores| ==> t.stores[i] == s.stores[i];
      }
    }
  }

  /** Garbage collection never takes a record of a host that vouches: in every run in which h
      registers only with its key up and does not lose the key once it has registered, no peer's
      pass ever finds a record of h orphaned, however old its listing and whatever it desires. */
  lemma {:induction false} NeverOrphaned(states: seq<System>, events: seq<Event>, h: string, i: nat)
    requires IsRun(states, events) && IsStart(h, states[0]) && i < |states|
    requires forall j :: 0 <= j < i ==> Vouches(h, states[j], events[j])
    ensures Invariant(h, states[i])
    ensures forall p, r ::
              p != h && PassOf(states[i], p).Judged? && r in PassOf(states[i], p).snapshot && r.hostname == h ==>
              PassOf(states[i], p).live.Some? ==> h in PassOf(states[i], p).live.value
  {
    if i > 0 {
      NeverOrphaned(states, events, h, i - 1);
      assert Step(states[i - 1], events[i - 1], states[i]);
      StepKeepsTrust(h, states[i - 1], events[i - 1], states[i]);
    }
    forall p | p != h && PassOf(states[i], p).Judged?
      ensures Trusted(h, states[i], p)
    {
    }
  }

  /** So a peer removes a record of such a host only to store one of its own that beats it. */
  lemma TakenOnlyByABetterClaim(states: seq<System>, events: seq<Event>, h: string, i: nat, p: string,
          desired: seq<RecordIntent>, r: RecordIntent)
    requires IsRun(states, events) && IsStart(h, states[0]) && i < |states|
    requires forall j :: 0 <= j < i ==> Vouches(h, states[j], events[j])
    requires p != h && PassOf(states[i], p).Judged? && CleanList(desired) && r.hostname == h
    requires r in Reconcile(desired, PassOf(states[i], p).snapshot, p, PassOf(states[i], p).live).removes
    ensures exists d :: d in Reconcile(desired, PassOf(states[i], p).snapshot, p, PassOf(states[i], p).live).adds
              && Conflict(d.record, r.record) && (d.force || d.created < r.created)
  {
    var pass := PassOf(states[i], p);
    RemovalJustified(desired, pass.snapshot, p, pass.live, r);
    NeverOrphaned(states, events, h, i);
    assert pass.live.Some? ==> h in pass.live.value;
  }

  /** Host h does nothing to its own key. */
  predicate Silent(h: string, e: Event) {
    e != PutKey(h) && e != LoseKey(h)
  }

  /** Somebody can get to hold r against a live set that lacks its owner. */
  ghost predicate CanOrphan(s: System, p: string, r: RecordIntent, wanted: set<IntentKey>) {
    exists states: seq<System>, events: seq<Event> ::
      && IsRun(states, events) && states[0] == s
      && (forall j :: 0 <= j < |events| ==> Silent(r.hostname, events[j]))
      && var pass := PassOf(states[|events|], p);
         pass.Judged? && r in pass.snapshot && r.Key() !in wanted && pass.live.Some? && r.hostname !in pass.live.value
  }

  lemma {:induction false} SilenceKeepsKey(states: seq<System>, events: seq<Event>, h: string, p: string, i: nat)
    requires IsRun(states, events) && i < |states| && h in states[0].up && PassOf(states[0], p).Idle?
    requires forall j :: 0 <= j < |events| ==> Silent(h, events[j])
    ensures h in states[i].up
    ensures PassOf(states[i], p).Judged? && PassOf(states[i], p).live.Some? ==> h in PassOf(states[i], p).live.value
  {
    if i > 0 {
      SilenceKeepsKey(states, events, h, p, i - 1);
      assert Step(states[i - 1], events[i - 1], states[i]) && Silent(h, events[i - 1]);
    }
  }

  /** The key is exactly what protects a host's records: as long as the owner leaves its key alone,
      an idle peer that does not want a stored record can come to collect it if and only if the
      owner's key is down. */
  lemma KeyProtectsExactly(s: System, p: string, r: RecordIntent, wanted: set<IntentKey>)
    requires s.stores != [] && PassOf(s, p).Idle? && r in Current(s) && r.hostname != p && r.Key() !in wanted
    ensures CanOrphan(s, p, r, wanted) <==> r.hostname !in s.up
  {
    if r.hostname in s.up {
      forall states: seq<System>, events: seq<Event> | IsRun(states, events) && states[0] == s
          && forall j :: 0 <= j < |events| ==> Silent(r.hostname, events[j])
        ensures PassOf(states[|events|], p).Judged? && PassOf(states[|events|], p).live.Some? ==>
                  r.hostname in PassOf(states[|events|], p).live.value
      {
        SilenceKeepsKey(states, events, r.hostname, p, |events|);
      }
    } else {
      var s1 := s.(active := s.active + {p});
      var s2 := s1.(passes := s1.passes[p := Listed(Current(s))]);
      var s3 := s2.(passes := s2.passes[p := Judged(Current(s), Some(s.up + {p}))]);
      var states := [s, s1, s2, s3];
      var events := [Activate(p), ListRecords(p, |s.stores| - 1), ReadLiveness(p, false)];
      assert Step(s, events[0], s1) && Step(s1, events[1], s2) && Step(s2, events[2], s3);
      assert IsRun(states, events) && states[|events|] == s3;
    }
  }

  /** Both halves of the condition are needed. A host whose heartbeat never started registers all
      the same, and its record can be collected at once. */
  lemma NoHeartbeatNoProtection(s: System, p: string, r: RecordIntent, wanted: set<IntentKey>)
    requires s.stores != [] && PassOf(s, p).Idle? && r.hostname != p && r.Key() !in wanted && r.hostname !in s.up
    ensures exists t :: Step(s, Register(r.hostname, r), t) && CanOrphan(t, p, r, wanted)
  {
    var t := s.(stores := s.stores + [Current(s) + {r}]);
    KeyProtectsExactly(t, p, r, wanted);
    assert Step(s, Register(r.hostname, r), t);
  }

  /** A host that stops cleanly takes its key down itself, and its records can be collected in the
      very next moment: a restart has no grace period. */
  lemma CleanStopNoGrace(s: System, p: string, r: RecordIntent, wanted: set<IntentKey>)
    requires s.stores != [] && PassOf(s, p).Idle? && r in Current(s) && r.hostname != p && r.Key() !in wanted
    requires r.hostname in s.up
    ensures !CanOrphan(s, p, r, wanted)
    ensures exists t :: Step(s, LoseKey(r.hostname), t) && CanOrphan(t, p, r, wanted)
  {
    KeyProtectsExactly(s, p, r, wanted);
    var t := s.(up := s.up - {r.hostname});
    KeyProtectsExactly(t, p, r, wanted);
    assert Step(s, LoseKey(r.hostname), t);
  }
}
