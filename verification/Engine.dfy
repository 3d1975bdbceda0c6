/** The sync engine: events into the tracker, and one tick of the reconciliation loop from listing
    to the last write. */
module Engine {
  import opened Domain
  import opened DefaultMaps
  import opened Text
  import opened Paths
  import opened Registry
  import opened ReconcilePlan
  import opened PassTheorems
  import opened Stores
  import opened MemoryStates
  import opened Debounce
  import opened Filter
  import opened Reconciliation
  import opened Convergence
  import opened Sweeps
  import opened Overreach

  datatype EventType = InitialDetection | Started | Stopped | Died | Resync | Unsupported(text: string)

  /** A container event, with the intents its labels parse to. */
  datatype ContainerEvent = ContainerEvent(
    containerId: string,
    intents: seq<RecordIntent>,
    eventType: EventType,
    runningContainerIds: seq<string>)

  /** What an event asks of the tracker, if anything. */
  function CallFor(evt: ContainerEvent): Option<Call> {
    if evt.eventType == Resync then Some(Resynced(Elems(evt.runningContainerIds)))
    else if evt.containerId == "" then None
    else match evt.eventType
      case InitialDetection => if evt.intents == [] then None else Some(Upserted(evt.containerId, evt.intents, Running))
      case Started => if evt.intents == [] then None else Some(Upserted(evt.containerId, evt.intents, Running))
      case Stopped => Some(MarkedRemoved(evt.containerId))
      case Died => Some(MarkedRemoved(evt.containerId))
      case _ => None
  }

  /** The tracker was fed records that passed construction. */
  predicate TracksValid(rules: IpRules, view: View) {
    forall id :: id in view ==> forall x :: x in view[id].intents ==> IsValidRecord(rules, x.record)
  }

  lemma WantedIsValid(rules: IpRules, view: View, wanted: seq<RecordIntent>)
    requires TracksValid(rules, view) && forall x :: x in wanted <==> Wants(view, x)
    ensures forall x :: x in wanted ==> IsValidRecord(rules, x.record)
  {
  }

  lemma OneMoreTarget(prefix: string, store: Records, rs: set<RecordIntent>, gone: set<string>, r: RecordIntent)
    requires gone <= AllTargets(prefix, store, rs)
    ensures gone + Targets(prefix, store - gone, r) <= AllTargets(prefix, store, rs + {r})
    ensures gone == AllTargets(prefix, store, rs) ==>
              gone + Targets(prefix, store - gone, r) == AllTargets(prefix, store, rs + {r})
    ensures AllTargets(prefix, store, rs) <= AllTargets(prefix, store, rs + {r})
  {
    assert Targets(prefix, store - gone, r) == Targets(prefix, store, r) - gone;
    forall k | k in AllTargets(prefix, store, rs + {r})
      ensures k in AllTargets(prefix, store, rs) || k in Targets(prefix, store, r)
    {
    }
  }

  /** How the calls of one removal turn out. */
  datatype RemoveOutcome = RemoveOutcome(getFails: bool, batches: nat -> BatchOutcome)

  datatype RegisterOutcome = RegisterOutcome(listFails: bool, put: PutOutcome)

  /** Every call of the removal goes through. */
  ghost predicate GoesThrough(o: RemoveOutcome) {
    !o.getFails && forall b: nat :: o.batches(b) == Applied
  }

  /** The put of the registration takes effect. */
  predicate TakesEffect(o: RegisterOutcome) {
    !o.listFails && o.put in {Stored, StoredUnacknowledged}
  }

  /** Of the first n removals each that goes through has deleted all its targets. */
  ghost predicate ThroughGone(prefix: string, store: Records, toRemove: seq<RecordIntent>, n: nat,
          outcome: nat -> RemoveOutcome, gone: set<string>)
    requires n <= |toRemove|
  {
    forall i: nat :: i < n && GoesThrough(outcome(i)) ==> Targets(prefix, store, toRemove[i]) <= gone
  }

  lemma OneMoreThrough(prefix: string, store: Records, toRemove: seq<RecordIntent>, n: nat,
          outcome: nat -> RemoveOutcome, gone: set<string>, more: set<string>)
    requires n < |toRemove| && ThroughGone(prefix, store, toRemove, n, outcome, gone)
    requires GoesThrough(outcome(n)) ==> more == Targets(prefix, store - gone, toRemove[n])
    ensures ThroughGone(prefix, store, toRemove, n + 1, outcome, gone + more)
  {
    var r := toRemove[n];
    assert Targets(prefix, store - gone, r) == Targets(prefix, store, r) - gone;
  }

  /** Of the first n registrations exactly those that take effect are stored. */
  ghost predicate EffectStored(toAdd: seq<RecordIntent>, n: nat, outcome: nat -> RegisterOutcome, added: Records)
    requires n <= |toAdd|
  {
    forall i: nat :: i < n ==> (toAdd[i] in added.Values <==> TakesEffect(outcome(i)))
  }

  lemma OneMoreEffect(toAdd: seq<RecordIntent>, n: nat, outcome: nat -> RegisterOutcome, added: Records, key: string)
    requires n < |toAdd| && NoDuplicates(toAdd) && EffectStored(toAdd, n, outcome, added)
    requires key !in added && toAdd[n] !in added.Values
    ensures EffectStored(toAdd, n + 1, outcome, if TakesEffect(outcome(n)) then added[key := toAdd[n]] else added)
  {
    ValuesAfter(added, key, toAdd[n]);
    forall i: nat | i < n
      ensures toAdd[i] != toAdd[n]
    {
    }
  }

  /** Where the second write loop is after n registrations. */
  ghost predicate Registered(prefix: string, before: Records, toAdd: seq<RecordIntent>, n: nat,
          outcome: nat -> RegisterOutcome, added: Records, errs: nat)
    requires n <= |toAdd|
  {
    && AddedFrom(prefix, before, added, Elems(toAdd[..n]), errs == 0)
    && EffectStored(toAdd, n, outcome, added)
    && (errs == 0 <==> forall i: nat :: i < n ==> !outcome(i).listFails && outcome(i).put == Stored)
  }

  lemma OneMoreRegistered(prefix: string, before: Records, toAdd: seq<RecordIntent>, n: nat,
          outcome: nat -> RegisterOutcome, added: Records, errs: nat, key: string)
    requires n < |toAdd| && NoDuplicates(toAdd) && Registered(prefix, before, toAdd, n, outcome, added, errs)
    requires TakesEffect(outcome(n)) ==> key !in before + added && HomedAt(prefix, key, toAdd[n])
    ensures Registered(prefix, before, toAdd, n + 1, outcome,
                       if TakesEffect(outcome(n)) then added[key := toAdd[n]] else added,
                       if !outcome(n).listFails && outcome(n).put == Stored then errs else errs + 1)
  {
    var d, ds := toAdd[n], Elems(toAdd[..n]);
    assert Elems(toAdd[..n + 1]) == ds + {d} && d !in ds;
    if TakesEffect(outcome(n)) {
      OneMoreEffect(toAdd, n, outcome, added, key);
      AddedOneMore(prefix, before, added, ds, errs == 0, key, d);
    } else {
      assert EffectStored(toAdd, n + 1, outcome, added);
    }
  }

  lemma MinusMinus(store: Records, a: set<string>, b: set<string>)
    ensures store - a - b == store - (a + b)
  {
  }

  /** What registrations out of ds stored: new keys, at home, one for each intent; all of ds when
      nothing failed. */
  ghost predicate AddedFrom(prefix: string, before: Records, added: Records, ds: set<RecordIntent>, all: bool) {
    && added.Keys !! before.Keys
    && (forall k :: k in added ==> HomedAt(prefix, k, added[k]))
    && (forall k, l :: k in added && l in added && k != l ==> added[k] != added[l])
    && added.Values <= ds
    && (all ==> ds <= added.Values)
  }

  lemma ValuesAfter(m: Records, k: string, d: RecordIntent)
    requires k !in m
    ensures m[k := d].Values == m.Values + {d}
  {
    forall x | x in m.Values + {d}
      ensures x in m[k := d].Values
    {
      if x in m.Values {
        var l :| l in m && m[l] == x;
        assert m[k := d][l] == x;
      } else {
        assert m[k := d][k] == x;
      }
    }
  }

  lemma AddedOneMore(prefix: string, before: Records, added: Records, ds: set<RecordIntent>, all: bool, key: string,
          d: RecordIntent)
    requires AddedFrom(prefix, before, added, ds, all) && d !in ds
    requires key !in before && key !in added && HomedAt(prefix, key, d)
    ensures AddedFrom(prefix, before, added[key := d], ds + {d}, all)
  {
    ValuesAfter(added, key, d);
    var more := added[key := d];
    forall k, l | k in more && l in more && k != l
      ensures more[k] != more[l]
    {
      assert k != key ==> added[k] in added.Values;
      assert l != key ==> added[l] in added.Values;
    }
  }

  lemma PutAfterUnion(before: Records, added: Records, key: string, d: RecordIntent)
    ensures (before + added)[key := d] == before + added[key := d]
  {
  }

  class SyncEngine {
    const hostname: string
    const dryRun: bool
    const registry: EtcdRegistry
    const state: MemoryState

    constructor (hostname: string, dryRun: bool, registry: EtcdRegistry, state: MemoryState)
      ensures this.hostname == hostname && this.dryRun == dryRun && this.registry == registry && this.state == state
    {
      this.hostname := hostname;
      this.dryRun := dryRun;
      this.registry := registry;
      this.state := state;
    }

    /** Applies one event to the tracker. */
    method HandleEvent(evt: ContainerEvent)
      requires state.Valid()
      modifies state, state.containers.Values
      ensures state.Valid()
      ensures evt.eventType in {Stopped, Died} && evt.containerId != "" ==>
                state.View() == old(state.View()) - {evt.containerId}
      ensures evt.eventType in {Started, InitialDetection} && evt.containerId != "" && evt.intents != [] ==>
                state.View() == old(state.View())[evt.containerId := Entry(evt.intents, Running, 0)]
      ensures evt.eventType == Resync ==>
                forall id :: id in state.View() <==>
                  && id in old(state.View())
                  && (old(state.View())[id].status != Running || id in evt.runningContainerIds
                      || old(state.View())[id].missed == 0)
      ensures evt.eventType == Resync ==>
                forall id :: id in state.View() ==>
                  var was := old(state.View())[id];
                  state.View()[id] ==
                  if was.status != Running then was
                  else Entry(was.intents, Running, if id in evt.runningContainerIds then 0 else 1)
      ensures evt.eventType != Resync &&
              (evt.containerId == "" || evt.eventType.Unsupported?
               || (evt.eventType in {Started, InitialDetection} && evt.intents == [])) ==>
                state.View() == old(state.View())
      ensures CallFor(evt) == None ==> state.View() == old(state.View())
      ensures CallFor(evt).Some? ==> state.View() == After(old(state.View()), CallFor(evt).value)
    {
      if evt.eventType == Resync {
        var running := Elems(evt.runningContainerIds);
        var removed := state.RetainRunning(running);
      } else if evt.containerId == "" {
        return;
      } else if evt.eventType.Unsupported? {
        return;
      } else if evt.eventType == InitialDetection || evt.eventType == Started {
        if |evt.intents| > 0 {
          state.Upsert(evt.containerId, evt.intents, Running);
        }
      } else if evt.eventType == Stopped || evt.eventType == Died {
        var removed := state.MarkRemoved(evt.containerId);
      }
    }

    ghost function Seen(): Records
      reads registry
    {
      Decoded(registry.rules, registry.pathPrefix, registry.kv)
    }

    method RemoveOne(r: RecordIntent, outcome: RemoveOutcome) returns (ok: bool, ghost gone: set<string>)
      modifies registry
      ensures gone <= Targets(registry.pathPrefix, old(Seen()), r) && Seen() == old(Seen()) - gone
      ensures ok ==> gone == Targets(registry.pathPrefix, old(Seen()), r)
      ensures GoesThrough(outcome) ==> ok
      ensures registry.kv.Keys <= old(registry.kv).Keys
    {
      ghost var deleted;
      ok, deleted := registry.Remove(r, outcome.getFails, outcome.batches);
      SeenAfterRemoval(registry.rules, registry.pathPrefix, old(registry.kv), r, deleted);
      gone := deleted * old(Seen()).Keys;
    }

    /** The first write loop: goes on after errors and counts them. */
    method RemoveAll(toRemove: seq<RecordIntent>, outcome: nat -> RemoveOutcome)
      returns (errs: nat, ghost gone: set<string>)
      modifies registry
      ensures gone <= AllTargets(registry.pathPrefix, old(Seen()), Elems(toRemove))
      ensures errs == 0 ==> gone == AllTargets(registry.pathPrefix, old(Seen()), Elems(toRemove))
      ensures ThroughGone(registry.pathPrefix, old(Seen()), toRemove, |toRemove|, outcome, gone)
      ensures (forall i: nat :: i < |toRemove| ==> GoesThrough(outcome(i))) ==> errs == 0
      ensures Seen() == old(Seen()) - gone
      ensures registry.kv.Keys <= old(registry.kv).Keys
    {
      errs, gone := 0, {};
      var prefix := registry.pathPrefix;
      ghost var seen0 := Seen();
      assert seen0 - {} == seen0;
      for i := 0 to |toRemove|
        invariant gone <= AllTargets(prefix, seen0, Elems(toRemove[..i]))
        invariant errs == 0 ==> gone == AllTargets(prefix, seen0, Elems(toRemove[..i]))
        invariant ThroughGone(prefix, seen0, toRemove, i, outcome, gone)
        invariant (forall j: nat :: j < i ==> GoesThrough(outcome(j))) ==> errs == 0
        invariant Seen() == seen0 - gone
        invariant registry.kv.Keys <= old(registry.kv).Keys
      {
        var r := toRemove[i];
        assert Elems(toRemove[..i + 1]) == Elems(toRemove[..i]) + {r};
        OneMoreTarget(prefix, seen0, Elems(toRemove[..i]), gone, r);
        var ok, deleted := RemoveOne(r, outcome(i));
        MinusMinus(seen0, gone, deleted);
        OneMoreThrough(prefix, seen0, toRemove, i, outcome, gone, deleted);
        gone := gone + deleted;
        if !ok {
          errs := errs + 1;
        }
      }
      assert toRemove[..|toRemove|] == toRemove;
    }

    method RegisterOne(d: RecordIntent, outcome: RegisterOutcome)
      returns (ok: bool, ghost key: string, ghost stored: bool)
      requires OneSlashAtMost(registry.pathPrefix) && IsValidRecord(registry.rules, d.record)
      modifies registry
      ensures stored <==> TakesEffect(outcome)
      ensures ok <==> !outcome.listFails && outcome.put == Stored
      ensures |registry.kv| <= |old(registry.kv)| + 1
      ensures Seen() == if stored then old(Seen())[key := d] else old(Seen())
      ensures HomedAt(registry.pathPrefix, key, d)
      ensures stored && |old(registry.kv)| < MAX_INT ==> key !in old(Seen())
    {
      ghost var leaf;
      ok, leaf := registry.Register(d, outcome.listFails, outcome.put);
      key := LeafKey(registry.pathPrefix, d.record.name, leaf);
      stored := !outcome.listFails && outcome.put != Lost;
      LeafHome(registry.rules, registry.pathPrefix, d, leaf);
      if stored {
        RegisterDecoded(registry.rules, registry.pathPrefix, old(registry.kv), d, leaf);
      }
    }

    /** The second write loop: goes on after errors and counts them. */
    method RegisterAll(toAdd: seq<RecordIntent>, outcome: nat -> RegisterOutcome)
      returns (errs: nat, ghost added: Records)
      requires OneSlashAtMost(registry.pathPrefix) && NoDuplicates(toAdd)
      requires forall i :: 0 <= i < |toAdd| ==> IsValidRecord(registry.rules, toAdd[i].record)
      modifies registry
      ensures |old(registry.kv)| + |toAdd| <= MAX_INT ==>
                && Seen() == old(Seen()) + added
                && AddedFrom(registry.pathPrefix, old(Seen()), added, Elems(toAdd), errs == 0)
                && EffectStored(toAdd, |toAdd|, outcome, added)
                && (errs == 0 <==>
                    forall i: nat :: i < |toAdd| ==> !outcome(i).listFails && outcome(i).put == Stored)
    {
      errs, added := 0, map[];
      var prefix := registry.pathPrefix;
      ghost var seen0, small := Seen(), |registry.kv| + |toAdd| <= MAX_INT;
      assert seen0 + map[] == seen0;
      for i := 0 to |toAdd|
        invariant |registry.kv| <= |old(registry.kv)| + i
        invariant small ==> Seen() == seen0 + added
        invariant small ==> Registered(prefix, seen0, toAdd, i, outcome, added, errs)
      {
        var d := toAdd[i];
        var ok, key, stored := RegisterOne(d, outcome(i));
        if small {
          OneMoreRegistered(prefix, seen0, toAdd, i, outcome, added, errs, key);
          if stored {
            PutAfterUnion(seen0, added, key, d);
            added := added[key := d];
          }
        }
        if !ok {
          errs := errs + 1;
        }
      }
      assert toAdd[..|toAdd|] == toAdd;
    }

    /** The writes of one pass: removals first, whatever their outcome then registrations. */
    method Write(toAdd: seq<RecordIntent>, toRemove: seq<RecordIntent>, removals: nat -> RemoveOutcome,
            registrations: nat -> RegisterOutcome)
      returns (errs: nat, ghost w: Written)
      requires OneSlashAtMost(registry.pathPrefix) && NoDuplicates(toAdd)
      requires forall i :: 0 <= i < |toAdd| ==> IsValidRecord(registry.rules, toAdd[i].record)
      modifies registry
      ensures errs == 0 ==> w.removed && w.stored
      ensures (forall i: nat :: GoesThrough(removals(i))) ==> w.removed
      ensures ThroughGone(registry.pathPrefix, old(Seen()), toRemove, |toRemove|, removals, w.gone)
      ensures |old(registry.kv)| + |toAdd| <= MAX_INT ==>
                forall i :: 0 <= i < |toAdd| && TakesEffect(registrations(i)) ==> toAdd[i] in w.added.Values
      ensures |old(registry.kv)| + |toAdd| <= MAX_INT ==>
                && WroteFrom(registry.pathPrefix, old(Seen()), Elems(toAdd), Elems(toRemove), w)
                && Seen() == old(Seen()) - w.gone + w.added
    {
      var removeErrs, gone := RemoveAll(toRemove, removals);
      SubsetSmaller(registry.kv.Keys, old(registry.kv).Keys);
      assert |registry.kv| == |registry.kv.Keys| && |old(registry.kv)| == |old(registry.kv).Keys|;
      var addErrs, added := RegisterAll(toAdd, registrations);
      errs := removeErrs + addErrs;
      w := Written(gone, added, removeErrs == 0, addErrs == 0);
    }

    /** Everything before the writes: list, filter, compare. */
    method PlanTick(live: Liveness)
      returns (toAdd: seq<RecordIntent>, toRemove: seq<RecordIntent>,
               ghost desired: seq<RecordIntent>, ghost order: seq<RecordIntent>)
      requires state.Valid()
      requires TracksValid(registry.rules, state.View())
      ensures forall x :: x in desired <==> Wants(state.View(), x)
      ensures forall x :: x in order <==> exists k: nat :: Survives(desired, k) && desired[k] == x
      ensures CleanList(order) && NoDuplicates(toAdd) && |toAdd| <= |order|
      ensures forall i :: 0 <= i < |toAdd| ==> IsValidRecord(registry.rules, toAdd[i].record)
      ensures Sound(registry.pathPrefix, Seen()) ==>
                Plan(Elems(toAdd), Elems(toRemove)) == Reconcile(order, Seen().Values, hostname, live)
    {
      var actual := registry.List();
      var wanted := state.GetAllDesiredRecordIntents();
      WantedIsValid(registry.rules, state.View(), wanted);
      var filtered := FilterRecordIntents(wanted);
      desired, order := wanted, filtered;
      toAdd, toRemove := ReconcileAndValidate(filtered, actual, hostname, live);
      FilteredIsValid(registry.rules, wanted, filtered, toAdd);
      FewerAdds(filtered, toAdd);
      if Sound(registry.pathPrefix, Seen()) {
        ghost var keys :| Enumerates(keys, Seen()) && Follows(actual, keys, Seen());
        ListingIsClean(Seen(), keys, actual);
      }
    }

    /** One tick under the lock. `live` is what the liveness read returned, None after an error. */
    method Tick(listFails: bool, live: Liveness, removals: nat -> RemoveOutcome, registrations: nat -> RegisterOutcome)
      returns (errs: nat, aborted: bool, ghost desired: seq<RecordIntent>, ghost turn: Turn, ghost removed: bool)
      requires state.Valid() && OneSlashAtMost(registry.pathPrefix)
      requires TracksValid(registry.rules, state.View())
      modifies registry
      ensures aborted <==> listFails
      ensures listFails || dryRun ==> registry.kv == old(registry.kv)
      ensures !listFails ==> turn.host == hostname && turn.live == live
      ensures !listFails ==> forall x :: x in desired <==> Wants(state.View(), x)
      ensures !listFails ==> forall x :: x in turn.order <==> exists k: nat :: Survives(desired, k) && desired[k] == x
      ensures !listFails && !dryRun && Sound(registry.pathPrefix, old(Seen()))
                && |old(registry.kv)| + |turn.order| <= MAX_INT
              ==>
                && (removed ==> Sound(registry.pathPrefix, Seen()))
                && (errs == 0 ==> removed)
                && (errs == 0 ==> PassEffect(KeyDepth(registry.pathPrefix), old(Seen()).Values, turn, Seen().Values))
                && (errs == 0 ==> turn.deleted == SweptBy(registry.pathPrefix, old(Seen()).Values, turn))
                && ((forall i: nat :: GoesThrough(removals(i))) ==> removed)
                && ((forall i: nat :: TakesEffect(registrations(i))) ==>
                      Reconcile(turn.order, old(Seen()).Values, hostname, live).adds <= Seen().Values)
    {
      errs, aborted, removed := 0, listFails, false;
      desired, turn := [], Turn(hostname, [], live, {});
      if listFails {
        return;
      }
      var toAdd, toRemove, intents, order := PlanTick(live);
      desired, turn := intents, Turn(hostname, order, live, {});
      if dryRun {
        return;
      }
      var failures, w := Write(toAdd, toRemove, removals, registrations);
      errs, removed := failures, w.removed;
      turn := Turn(hostname, order, live, DeletedBy(old(Seen()), w));
      if Sound(registry.pathPrefix, old(Seen())) && |old(registry.kv)| + |order| <= MAX_INT {
        TickEffect(registry.pathPrefix, old(Seen()), order, hostname, live, Elems(toAdd), Elems(toRemove), w);
      }
    }
  }

  /** What the writes of a pass did to the records List sees. */
  datatype Written = Written(gone: set<string>, added: Records, removed: bool, stored: bool)

  ghost predicate WroteFrom(prefix: string, store: Records, adds: set<RecordIntent>, removes: set<RecordIntent>,
          w: Written) {
    && w.gone <= AllTargets(prefix, store, removes)
    && (w.removed ==> w.gone == AllTargets(prefix, store, removes))
    && AddedFrom(prefix, store - w.gone, w.added, adds, w.stored)
  }

  function DeletedBy(store: Records, w: Written): set<RecordIntent> {
    set k | k in w.gone && k in store :: store[k]
  }

  lemma LeafHome(rules: IpRules, prefix: string, d: RecordIntent, leaf: string)
    requires IsValidRecord(rules, d.record) && exists idx :: 1 <= idx && leaf == "x" + Itoa(idx)
    ensures IsLeaf(leaf) && HomedAt(prefix, LeafKey(prefix, d.record.name, leaf), d)
  {
    var idx :| 1 <= idx && leaf == "x" + Itoa(idx);
    ItoaParses(idx);
    RegisteredIsHomed(prefix, d, leaf);
  }

  /** A store the protocol can rely on. */
  ghost predicate Sound(prefix: string, store: Records) {
    NoConflicts(store) && Supports(store) && Homed(prefix, store)
  }

  lemma {:induction false} ElemsCount<T>(xs: seq<T>)
    ensures |Elems(xs)| <= |xs|
    ensures NoDuplicates(xs) ==> |Elems(xs)| == |xs|
  {
    if xs != [] {
      var init, last := xs[..|xs| - 1], xs[|xs| - 1];
      ElemsCount(init);
      assert xs == init + [last];
      assert Elems(xs) == Elems(init) + {last};
      if NoDuplicates(xs) {
        assert last !in Elems(init);
      }
    }
  }

  lemma FewerAdds(filtered: seq<RecordIntent>, toAdd: seq<RecordIntent>)
    requires Elems(toAdd) <= Elems(filtered)
    requires forall i, j :: 0 <= i < j < |toAdd| ==> toAdd[i].record != toAdd[j].record
    ensures NoDuplicates(toAdd) && |toAdd| <= |filtered|
  {
    ElemsCount(toAdd);
    ElemsCount(filtered);
    SubsetSmaller(Elems(toAdd), Elems(filtered));
  }

  lemma FilteredIsValid(rules: IpRules, wanted: seq<RecordIntent>, filtered: seq<RecordIntent>,
          toAdd: seq<RecordIntent>)
    requires forall x :: x in wanted ==> IsValidRecord(rules, x.record)
    requires forall x :: x in filtered <==> exists k: nat :: Survives(wanted, k) && wanted[k] == x
    requires Elems(toAdd) <= Elems(filtered)
    ensures forall i :: 0 <= i < |toAdd| ==> IsValidRecord(rules, toAdd[i].record)
  {
    forall i | 0 <= i < |toAdd|
      ensures IsValidRecord(rules, toAdd[i].record)
    {
      assert toAdd[i] in Elems(toAdd);
      assert toAdd[i] in filtered;
    }
  }

  /** In a sound store a record has one key, so deleting keys deletes exactly their records. */
  lemma ValuesMinus(store: Records, gone: set<string>, deleted: set<RecordIntent>)
    requires NoConflicts(store) && Supports(store)
    requires deleted == set k | k in gone && k in store :: store[k]
    ensures (store - gone).Values == store.Values - deleted
  {
    forall x | x in (store - gone).Values
      ensures x !in deleted
    {
      var k :| k in store - gone && store[k] == x;
      forall l | l in gone && l in store
        ensures store[l] != x
      {
        assert !Conflict(store[k].record, store[l].record);
      }
    }
    forall x | x in store.Values - deleted
      ensures x in (store - gone).Values
    {
      var k :| k in store && store[k] == x;
      assert k in store - gone;
    }
  }

  lemma RemovalKeepsSound(prefix: string, store: Records, gone: set<string>, deleted: set<RecordIntent>)
    requires Sound(prefix, store) && deleted == set k | k in gone && k in store :: store[k]
    ensures Sound(prefix, store - gone) && (store - gone).Values == store.Values - deleted && deleted <= store.Values
  {
    ValuesMinus(store, gone, deleted);
  }

  /** Removals that all complete delete exactly the records they hit. */
  lemma RemovalEffect(prefix: string, store: Records, aimed: set<RecordIntent>, deleted: set<RecordIntent>)
    requires Homed(prefix, store) && Clean(store.Values) && aimed <= store.Values
    requires deleted == set k | k in AllTargets(prefix, store, aimed) && k in store :: store[k]
    ensures deleted == Swept(KeyReach(prefix), store.Values, aimed) && Reaches(KeyDepth(prefix), aimed, deleted)
  {
    SweptTargets(prefix, store, aimed);
    KeyReachIsReach(prefix);
    SweepReaches(KeyReach(prefix), KeyDepth(prefix), store.Values, aimed);
  }

  lemma UnionValues(before: Records, added: Records)
    requires added.Keys !! before.Keys
    ensures (before + added).Values == before.Values + added.Values
  {
    forall x | x in before.Values + added.Values
      ensures x in (before + added).Values
    {
      if x in before.Values {
        var k :| k in before && before[k] == x;
        assert (before + added)[k] == x;
      } else {
        var k :| k in added && added[k] == x;
        assert (before + added)[k] == x;
      }
    }
  }

  /** Additions that were planned fit into what the removals left. */
  lemma AdditionSound(prefix: string, before: Records, added: Records, ds: set<RecordIntent>, all: bool,
          fits: set<RecordIntent>)
    requires Sound(prefix, before) && AddedFrom(prefix, before, added, ds, all)
    requires Clean(fits) && ds <= fits && before.Values <= fits && ds !! before.Values
    ensures Sound(prefix, before + added)
  {
    var after := before + added;
    forall k | k in after
      ensures after[k] in fits && HomedAt(prefix, k, after[k])
    {
      assert k in added ==> added[k] in added.Values;
      assert k !in added ==> before[k] in before.Values;
    }
    forall k, l | k in after && l in after && k != l
      ensures !Conflict(after[k].record, after[l].record)
    {
      if k in before && k !in added && l in before && l !in added {
        assert !Conflict(before[k].record, before[l].record);
      } else {
        DistinctValues(before, added, ds, k, l);
      }
    }
  }

  lemma DistinctValues(before: Records, added: Records, ds: set<RecordIntent>, k: string, l: string)
    requires added.Keys !! before.Keys && added.Values <= ds && ds !! before.Values
    requires forall k, l :: k in added && l in added && k != l ==> added[k] != added[l]
    requires k in before + added && l in before + added && k != l && (k in added || l in added)
    ensures (before + added)[k] != (before + added)[l]
  {
    assert k in added ==> added[k] in added.Values;
    assert l in added ==> added[l] in added.Values;
    assert k in before ==> before[k] in before.Values;
    assert l in before ==> before[l] in before.Values;
  }

  lemma PlannedAreNew(order: seq<RecordIntent>, s: set<RecordIntent>, host: string, live: Liveness)
    ensures Reconcile(order, s, host, live).adds !! s
  {
    forall d | d in Reconcile(order, s, host, live).adds
      ensures d !in s
    {
      AddedIsNew(order, s, host, live, d);
      assert d in s ==> d.Key() in Keys(s);
    }
  }

  /** The second half of a tick, on what the removals left. */
  lemma AdditionEffect(prefix: string, s: set<RecordIntent>, deleted: set<RecordIntent>, before: Records,
          order: seq<RecordIntent>, host: string, live: Liveness, adds: set<RecordIntent>, removes: set<RecordIntent>,
          added: Records, all: bool)
    requires Clean(s) && CleanList(order) && Plan(adds, removes) == Reconcile(order, s, host, live)
    requires Sound(prefix, before) && before.Values == s - deleted && removes <= deleted <= s
    requires AddedFrom(prefix, before, added, adds, all)
    ensures Sound(prefix, before + added)
    ensures all ==> (before + added).Values == s - deleted + adds
  {
    PassKeepsClean(order, s, host, live);
    PlannedAreNew(order, s, host, live);
    AdditionSound(prefix, before, added, adds, all, Apply(s, Plan(adds, removes)));
    UnionValues(before, added);
  }

  /** The whole tick, from the facts its parts provide. */
  lemma TickEffect(prefix: string, store: Records, order: seq<RecordIntent>, host: string, live: Liveness,
          adds: set<RecordIntent>, removes: set<RecordIntent>, w: Written)
    requires Sound(prefix, store) && CleanList(order)
    requires Plan(adds, removes) == Reconcile(order, store.Values, host, live)
    requires WroteFrom(prefix, store, adds, removes, w)
    ensures w.removed ==> Sound(prefix, store - w.gone + w.added)
    ensures w.removed && w.stored ==>
              PassEffect(KeyDepth(prefix), store.Values, Turn(host, order, live, DeletedBy(store, w)),
                         (store - w.gone + w.added).Values)
    ensures w.removed ==>
              DeletedBy(store, w) == SweptBy(prefix, store.Values, Turn(host, order, live, DeletedBy(store, w)))
  {
    if w.removed {
      ValuesClean(store);
      var s, deleted := store.Values, DeletedBy(store, w);
      PassSound(order, s, host, live);
      RemovalKeepsSound(prefix, store, w.gone, deleted);
      RemovalEffect(prefix, store, removes, deleted);
      AdditionEffect(prefix, s, deleted, store - w.gone, order, host, live, adds, removes, w.added, w.stored);
    }
  }
}
