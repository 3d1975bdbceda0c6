# Verification of docker-coredns-sync

docker-coredns-sync lets each Docker host publish DNS records for its containers into one etcd
store that CoreDNS serves. This project models that program in Dafny and proves properties of the
model. `dafny verify dfyconfig.toml` checks all of it.

What is modelled, from the inside out:

- **One host's wishes.** `Filter` folds the intents of a host's containers into a conflict-free set
  over the nested index of `NestedRecordMaps` and `DefaultMaps`, and is proved against a declarative
  choice of survivors. `MemoryStates` is the tracker of running containers; `Debounce` says what it
  holds after any history of events.
- **One pass.** `Reconciliation` computes the diff as the source does (an index, a branch for each
  kind, evictions, a simulated store, `Validation` with its cycle walk). `ReconcilePlan` is the same
  pass on sets. `PassTheorems`, `Discharge`, `PassLimits` and `OrderLimits` say what a pass
  guarantees and where it stops short, `Sweeps` and `Overreach` what it leaves once its removals
  delete more than they aim at, and `OneHost` what repeating it comes to. `KeyText` is the identity of
  an intent as text.
- **The store.** `Paths` and `Registry` are the etcd keys, the wire values, registration under a
  fresh index, batched removal and listing. `Stores` relates them to records. `Engine` is the tick:
  list, read liveness, plan, remove, register.
- **Many hosts.** `Runs` and `RunsAcyclic` interleave passes under the lock, one etcd write a step,
  with failing writes, crashes and lock expiry; `RunLimits` shows which of their conditions are
  needed. `Convergence` and `ConvergenceBound` show that passes of hosts with fixed wishes stop
  changing the store, `Duels` and `HinderedDuels` when they never do, and `Ticks` when the ticks of
  a host want the same each time. `Locks`, `LockLimits`, `LockRetry`, `Heartbeats` and `Collection`
  are the lock and liveness protocols.

The rules on names are those of section 3.6.2 of RFC 1034 (a CNAME excludes other data) and
section 10.1 of RFC 2181 (one canonical name for an alias).

Several claims one would expect are false of the code. For each there is a counterexample lemma,
and the theorem beside it carries the condition under which the claim holds:

- one pass is not a fixpoint, because siblings wait for each other (`PassLimits.SiblingWaits`) and
  because a removal can delete a wanted record (`Overreach.OverreachReopens`; exact condition in
  `Sweeps.OnePassSettles`);
- a batch can close an alias cycle (`PassLimits.BatchClosesCycle`, exact condition in
  `Sweeps.BatchAcyclicExactly`), and a pass that evicts an alias can leave one or not depending on
  the order of its list (`OrderLimits.AcyclicityDependsOnOrder`);
- a failed removal does not stop the registrations after it (`RunLimits.FailedRemovalBreaks`, exact
  condition in `Runs.RegisterExact`), and a host that is inside never looks at the lock again, before
  it plans, before it writes or when it deletes it (`RunLimits.ExpiryBreaks`, exact condition in
  `RunLimits.ExpireExact`);
- passes of several hosts need not settle: force protects nothing that is stored, so a forced record
  and an older unforced one evict each other for ever (`Duels.DuelNeverEnds`, exact conditions in
  `Duels.TwoClaimsExactly` and `Duels.SettlesExactly`, the latter with an exception for alias cycles
  that `HinderedDuels.HinderedDuelSettles` shows to be needed);
- the filter can depend on the input order (`Filter.OrderFreeExactly` says exactly when), and the
  tracker is walked in a fresh order on each tick, so a host with two tied claims keeps replacing its
  own record (`Ticks.TieFlaps`);
- a removal can delete records of longer names (`Stores.RemovalOverreaches`, exact condition in
  `Stores.TargetsExactly`; the pass, fixpoint and convergence theorems allow for it);
- a lapsed lock lease can admit two healthy clients at once (`LockLimits.LapseAdmitsTwo`, exact
  condition in `LockLimits.LapseExact`), and a client that fails on one key leaves the keys before it
  locked until their leases lapse (`LockLimits.LockedUntilLapse`): their keep-alives are not cancelled, so
  that is not before its context ends or etcd is out of reach (internal/registry/etcd_registry.go:440-493);
- a stop can leave the host active with its liveness key up
  (`Heartbeats.Heartbeat.StopMeetsReestablish`, and `StopMeetsLatePut` for the key alone);
- a lock timeout below one second makes no attempt (`LockRetry.FreeKeyExactly`);
- key texts are ambiguous when a field contains the separator (`KeyText.UniqueExactly`);
- a path prefix that ends in two slashes hides every record from listing (`Registry.ListedExactly`);
- without a heartbeat, or after a clean stop, records are unprotected at once
  (`Collection.NoHeartbeatNoProtection`, `Collection.CleanStopNoGrace`). The project's README
  (README.md:163-166) promises that a restart will not cause another host to delete records for one
  grace period; the stop deletes the liveness key itself (internal/registry/etcd_registry.go:223),
  so the model follows the code and the promise does not hold.

Calls to etcd appear with their outcome as a parameter (failed, took effect, took effect without an
acknowledgement). Map iteration order is arbitrary wherever the source walks a map. Conditions such
as `Vouches`, `Harmless`, `HeldWhileInside` and `NoLapse` are stated on single steps of a run, where
a caller could check them.

## Model

| member | source | states |
|---|---|---|
| Priority.StrictWeakOrder | internal/core/reconciliation.go:10-24 | One intent has priority over another exactly when it has force over it, or the same force and the earlier creation instant; this is a strict weak order, and two intents tie exactly when force and creation instant agree. |
| Priority.ShouldReplaceAllExisting | internal/core/reconciliation.go:26-96 | The seven-flag loop answers true exactly when the challenger has force over every existing record, or the same force and the earlier creation instant; the empty list included. |
| Filter.FilterRecordIntents | internal/core/reconciliation.go:100-173 | Of the inputs for one place (the CNAMEs of a name, or one address of it) exactly the first of those that rank highest by force and then by earlier creation is in the running; a name keeps its CNAME if and only if some CNAME input of it has force over, or the same force as and an earlier creation than, every address input of the name, and otherwise keeps an intent for each of its addresses. The result is exactly the set of declarative survivors, conflict-free, supported and without duplicates. |
| Filter.HolderIsChampion | internal/core/reconciliation.go:106-129 | Folding the inputs one by one leaves in each slot the first input that no other beats, and leaves a slot empty only if no input asked for it. |
| Filter.ChampionIsHolder | internal/core/reconciliation.go:106-129 | Conversely the declarative winner of a slot is what the fold leaves there. |
| Filter.Deduplicate | internal/core/reconciliation.go:103-129 | Phase 1 leaves in the nested index exactly the winners of all slots, for any input list. |
| Filter.ResolveName | internal/core/reconciliation.go:133-170 | Phase 2 for one name keeps its CNAME or all its addresses, never both, and leaves other names alone. |
| Filter.AliasedIsCnameWins | internal/core/reconciliation.go:152-165 | Comparing only the slot winners, as phase 2 does, decides the same as comparing all the inputs of the name. |
| Filter.SurvivorsConflictFree | internal/core/reconciliation.go:98-173 | No two survivors break the coexistence, single-CNAME or duplicate-address rule. |
| Filter.EveryNameKept | internal/core/reconciliation.go:98-173 | Every name with a supported intent keeps at least one record. |
| Filter.FilterIdempotent | internal/core/reconciliation.go:98-173 | On a list that is already conflict-free every input survives. |
| Filter.OrderFreeExactly | internal/core/reconciliation.go:98-173 | Every order of the inputs keeps the same set if and only if no slot that is kept has two different unbeaten intents; ties among intents that lose anyway do not matter. |
| Filter.SurvivorsAreWinners | internal/core/reconciliation.go:98-173 | Without such ties what is kept is a function of the set of inputs: the unbeaten intents of the kind each name keeps. |
| Ticks.TieFlaps | internal/core/reconciliation.go:118-124 | For any two tied intents of one host for one slot, each order of the inputs keeps the one listed first, and a pass that follows a pass of the other order removes the host's own record and adds the other, with no container having changed. |
| NestedRecordMaps.NestedRecordMap.Put | internal/core/nested_maps.go:11-44 | The chain of inserting lookups behaves as one update of a flat map on (name, kind, value), and restores the rule that no inner map is empty. |
| NestedRecordMaps.NestedRecordMap.Drop | internal/core/reconciliation.go:121-122 | Deleting one value through the chain removes one entry of the flat map and can leave empty only the inner map of its own name and kind, which the next insertion fills. |
| NestedRecordMaps.NestedRecordMap.PeekNameKindRecords | internal/core/nested_maps.go:66-75 | Lists exactly the flat map's entries of a name and kind, each once; it says found exactly when the list is not empty, so the first element always exists. |
| NestedRecordMaps.NestedRecordMap.PeekNameKindRecord | internal/core/nested_maps.go:78-91 | Finds exactly what the flat map holds under the whole record. |
| NestedRecordMaps.NestedRecordMap.GetAllValues | internal/core/nested_maps.go:46-56 | Lists every value of the flat map exactly once, whatever order the levels are walked in. |
| NestedRecordMaps.NestedRecordMap.GetAllNames | internal/core/nested_maps.go:58-64 | Lists every name that has an entry in the flat map, once. |
| NestedRecordMaps.NestedRecordMap.AddrRecords | internal/core/reconciliation.go:344-354 | Lists exactly the addresses of both families of a name; found exactly when there is one. |
| NestedRecordMaps.PutIntoFlattens | internal/core/nested_maps.go:11-44 | Inserting keeps the three levels equal to one flat map even when the inner map concerned was empty before. |
| NestedRecordMaps.LeafIsAtNameKind | internal/core/nested_maps.go:66-75 | The inner map of a name and kind holds exactly the flat entries with that name and kind. |
| DefaultMaps.DefaultMap.Get | internal/util/default_map.go:19-26 | A read of a missing key stores the factory's product; a read of a present key changes nothing; the result is what is stored afterwards. |
| DefaultMaps.DefaultMap.Values | internal/util/default_map.go:51-57 | Lists the value of every key exactly once, in an order nobody may rely on. |
| Validation.ValidateRecord | internal/core/validation.go:10-104 | Accepts exactly when nothing known clashes with the record and it closes no alias cycle, and the first three rules pass exactly when nothing of its name is a CNAME, or is an address while it is a CNAME, or is the same address; each error is returned exactly in its situation, earlier rules first. |
| Validation.FirstListedCounts | internal/core/validation.go:76-86 | Of several CNAMEs for one name the walk follows the one listed first. |
| Validation.WalkRepeats | internal/core/validation.go:88-100 | The walk ends within as many hops as there are alias names and reports a cycle exactly when following the links from the start visits a name twice. |
| Graph.NewEdgeExact | internal/core/validation.go:74-101 | On an acyclic alias graph a new edge closes a cycle if and only if the walk from its source repeats a name. |
| Graph.DeadEndNoLoop | internal/core/validation.go:88-100 | A walk without repetition that runs out of links proves that no walk from its start repeats a name. |
| ReconcilePlan.ForwardIsLinks | internal/core/validation.go:76-86 | On a conflict-free listing the successor map of the walk is exactly the alias graph of the store. |
| ReconcilePlan.CycleCheckExact | internal/core/validation.go:74-101 | For a clean, acyclic store a CNAME that passes the other rules is refused for a cycle if and only if storing it would create one. |
| ReconcilePlan.ValidationIsAdmissible | internal/core/validation.go:10-104 | On a clean listing the verdict of the flag loops and the walk is the set-level condition: no rival stored, and no walk from the new alias that repeats a name. |
| Reconciliation.ReconcileAndValidate | internal/core/reconciliation.go:183-342 | For any input: additions come from the desired list with distinct records, removals from the listing with distinct keys; whatever is stored, not wanted and this host's own or of a host known to be gone is removed; whatever conflicts with an addition is removed; each addition beats a stored rival if it has any; and a desired record that is not added is stored, or meets a rival it does not beat, or the listing has a conflict at its name, or it closes a cycle with the aliases listed. On conflict-free lists the removals are exactly the undesired records that are own, orphaned, or in the way of an addition that is forced or strictly older; a desired record is added, or stored, or meets a stored record, itself not stale, over which it has neither force nor age, or closes a cycle; and the result is exactly the set-level plan. |
| Reconciliation.SplitActual | internal/core/reconciliation.go:186-212 | Step 1 puts exactly the stale records (own and undesired, or orphaned while liveness is known) into the removals and indexes all others. |
| Reconciliation.AddressEvictions | internal/core/reconciliation.go:219-264 | For an address the branch taken proceeds exactly when the record is not stored yet and prevails over all its rivals, and then evicts exactly those rivals. |
| Reconciliation.CnameEvictions | internal/core/reconciliation.go:266-299 | The same for a CNAME, which meets all the addresses of its name or the other CNAME. |
| Reconciliation.ConsiderOne | internal/core/reconciliation.go:215-329 | One turn of the loop equals one step of the set-level plan, and for any listing an accepted record meets no surviving rival. |
| Discharge.OnlyCyclesRefuse | internal/core/reconciliation.go:305-329 | Eviction discharges validation: on a clean listing, once the rivals are evicted the coexistence, single-CNAME and duplicate rules cannot refuse anybody; only the cycle rule can, and it decides admissibility in the store that remains. |
| PassTheorems.PlanInvariant | internal/core/reconciliation.go:215-329 | After any number of turns: each addition won for a stated reason, each removal is stale or evicted by an addition, each refusal has a stated reason. |
| PassTheorems.RemovalJustified | internal/core/reconciliation.go:193-329 | Every removed record is stored, undesired here, and either own, or orphaned, or beaten at its name by an added record that is forced or strictly older. No desired key is ever removed. |
| PassTheorems.StaleIsRemoved | internal/core/reconciliation.go:193-212 | Conversely every stored record that is not wanted here and is this host's own, or of a host known to be gone, is removed. |
| PassTheorems.DesiredOutcome | internal/core/reconciliation.go:215-329 | Whatever the removals delete beyond their aim, each desired record is stored and stays, or was stored and is deleted beyond aim, or is added, or loses to a stored record of its name it does not beat, or is itself an alias whose walk through the stored aliases that are not its rivals repeats a name. |
| PassTheorems.PassKeepsClean | internal/core/reconciliation.go:183-342 | Applying a pass to a conflict-free store leaves it conflict-free. |
| PassTheorems.PassProgress | internal/core/reconciliation.go:183-342 | Conservation, counted in keys: the differences left plus the additions plus the unwanted records deleted are exactly the differences before plus the wanted records that removals deleted beyond their aim; everything aimed at is among the unwanted. |
| OneHost.FixpointReached | internal/core/reconciliation.go:183-342 | Repeating one host's pass, in any orders of its desired list and whatever its removals delete beyond aim, meets a pass that plans nothing within a number of passes fixed by the store at the start: the unwanted keys times the wanted ones plus one, plus the missing ones. |
| OneHost.FixpointWithoutLoss | internal/core/reconciliation.go:183-342 | If no removal deletes a wanted record, the bound is the number of differences at the start. |
| Sweeps.FixpointWhenClear | internal/core/reconciliation.go:183-342 | That bound holds if, at the start, no stored record that is not wanted has a removal that reaches a wanted one. |
| PassTheorems.QuietReconcile | internal/core/reconciliation.go:183-342 | A pass changes nothing if and only if nothing is stale and no desired intent on its own would move the store. |
| PassTheorems.QuietIsFinal | internal/core/reconciliation.go:183-342 | One quiet pass makes every later pass over the same intents quiet, in any order. |
| Sweeps.PlanExactly | internal/core/reconciliation.go:215-330 | Read off the inputs, when no alias cycle is in sight or no alias need be evicted: the additions are the absent desired intents that beat their rivals and close no cycle, the removals are the stale records and the rivals of those. |
| Sweeps.OnePassSettles | internal/core/reconciliation.go:215-230 | Decided before the pass, with what removals delete beyond their aim: when no desired alias can close a cycle with what is stored and wanted, a second pass is quiet if and only if the removals of the first hit no wanted record and leave each desired intent that was turned away a rival it does not beat. |
| PassLimits.SettlesWithinAim | internal/core/reconciliation.go:215-230 | If removals hit their aim alone, that is: no stored alias that is not stale is beaten by some of the addresses wanted for its name and not by all of them. |
| PassLimits.OnePassEnough | internal/core/reconciliation.go:215-330 | For any desired list, cycles included, and whatever the removals delete beyond their aim: a second pass in any order is quiet if and only if each desired intent that the first neither added nor left stored meets a rival that is left and that it does not beat, or closes a cycle in the store left. |
| Overreach.OverreachReopens | internal/registry/etcd_registry.go:343-355 | For every address record there is a store that meets that simpler condition in which removing it deletes the wanted record below it, and the second pass adds that one again. |
| Sweeps.SweepIsEffect | internal/core/engine.go:156-171 | A pass whose removals delete exactly what they reach is one of those the convergence theorems speak of. |
| Overreach.KeyReachIsReach | internal/registry/etcd_registry.go:343-355 | The registry's removals reach their own record and, beyond it, only records of longer keys. |
| Overreach.SweptTargets | internal/registry/etcd_registry.go:332-398 | The records under the keys that a set of removals deletes are exactly the records they reach. |
| PassLimits.SiblingWaits | internal/core/reconciliation.go:215-230 | A concrete store and desired list for which one pass is not a fixpoint: the sibling of an address that evicts a CNAME loses to the CNAME just evicted. |
| PassLimits.CycleNeedsTwoAdditions | internal/core/reconciliation.go:305-330 | If the store had no alias cycle, every cycle after the pass uses two different aliases the pass added. |
| PassLimits.OneAliasKeepsAcyclic | internal/core/reconciliation.go:305-330 | Hence a pass that adds at most one alias keeps an acyclic store acyclic. |
| Sweeps.BatchAcyclicExactly | internal/core/reconciliation.go:305-330 | Decided before the pass, with what removals delete beyond their aim: if it need evict no alias, the store has no alias cycle afterwards if and only if the aliases that no removal hits form none together with the absent desired aliases that beat their rivals and close none alone. |
| PassLimits.BatchAcyclicIf | internal/core/reconciliation.go:305-330 | Whatever is evicted, the store has no alias cycle afterwards if what is not stale forms none with all the absent desired aliases. |
| PassLimits.OneAbsentAliasKeepsAcyclic | internal/core/reconciliation.go:305-330 | A pass over a desired list with at most one alias that is not stored keeps an acyclic store acyclic. |
| OrderLimits.AcyclicityDependsOnOrder | internal/core/reconciliation.go:305-330 | A concrete acyclic store and desired set for which one order of the list leaves an alias cycle and another does not, because an eviction opens the way; so no condition on the set alone is exact for passes that evict an alias. |
| PassLimits.BatchClosesCycle | internal/core/reconciliation.go:314-319 | A concrete pass that adds two aliases naming each other, and whose next pass changes nothing. |
| KeyText.KeyIsIdentity | internal/domain/record_intent.go:24-35 | If only the value may contain the separator, two intents have the same key text if and only if they agree in everything but the creation instant, which is the equality of the diff. |
| KeyText.UniqueExactly | internal/domain/record_intent.go:33-35 | The key text of an intent is shared with no different intent if and only if none of its fields contains the separator. |
| Text.Reverse | internal/util/slice_funcs.go:3-10 | The array comes back reversed and its input unchanged. |
| Text.ReversedTwice | internal/util/slice_funcs.go:3-10 | Reversing twice gives back the sequence. |
| Paths.RoundTripExact | internal/registry/etcd_path.go:10-29 | Printing a name under a leaf and parsing it back gives the name if and only if the name has no slash, no white space at its ends and no dot at its end; labels that begin with x and any prefix included. |
| Paths.TrimmedAway | internal/registry/etcd_path.go:12 | White space around a name is ignored, and so is one dot at its end, but not a second. |
| Paths.BareKeyParses | internal/registry/etcd_path.go:19-29 | A key without a leaf parses as its name, except that a last segment beginning with x is taken for a leaf. |
| Paths.HostnameGrammar | internal/domain/dns_record.go:84-88 | A host name has at most 255 characters and is one label, or a label, a dot and a host name. |
| Paths.LabelByChars | internal/domain/dns_record.go:84 | A label has 1 to 63 characters, all letters, digits or hyphens, and no hyphen at either end. |
| Paths.ValidIsNormal | internal/domain/dns_record.go:84-88 | Every accepted host name meets that condition. |
| Paths.BaseInjective | internal/registry/etcd_path.go:10-16 | Different names have different key bases. |
| Paths.FoundBelow | internal/registry/etcd_path.go:10-16 | A prefix search below one base finds a leaf if and only if its name is that one or its base lies below it. |
| Paths.BaseBelow | internal/registry/etcd_path.go:10-16 | The base of one valid name lies below that of another if and only if the name ends in a dot and the other name. |
| Paths.TopLabel | internal/registry/etcd_path.go:10-16 | A name of one label is printed right below the prefix. |
| Text.AtoiItoa | internal/registry/etcd_registry.go:287-301 | The index printed into a key parses back, within the range of a 64-bit int; a leading sign counts and a leading zero does not. |
| Registry.UnmarshalMarshal | internal/registry/etcd_wire.go:22-62 | An intent under a valid name whose value is an IPv4 address for A, an IPv6 address for AAAA or a valid host name for CNAME, registered under any leaf of its name, is read back whole, owner fields and TTL included. |
| Registry.DecodedExactly | internal/registry/etcd_wire.go:39-62 | A key is seen by List as an intent if and only if it lies under the prefix, its value decodes, its name is a valid host name, its value is what its kind asks for, and the intent has exactly those fields. |
| Registry.ListedExactly | internal/registry/etcd_registry.go:401-418 | A registered record lies under the prefix List searches if and only if the configured prefix ends in at most one slash: keys are printed under the trimmed prefix and searched under the untrimmed one. |
| Registry.RegisterDecoded | internal/registry/etcd_wire.go:22-62 | Registering changes what List sees by exactly one entry. |
| Registry.EtcdRegistry.GetNextIndexedKey | internal/registry/etcd_registry.go:271-302 | The key is the base, /x and the least positive number that no stored key of the base has after /x, in any spelling that parses; the number is at most one more than the number of stored keys, and the key is not stored. |
| Registry.LeastFree | internal/registry/etcd_registry.go:294-300 | The counting loop ends at the least free positive index, at most one above the number of used ones. |
| Registry.EtcdRegistry.Register | internal/registry/etcd_registry.go:305-321 | Adds the record under one fresh key and overwrites none; a failed call leaves the store alone or has stored the record without saying so. |
| Registry.EtcdRegistry.DeleteBatches | internal/registry/etcd_registry.go:370-398 | Exactly the keys of the batches of 64 that were applied disappear, acknowledged or not; the first batch that reports an error is the one reported, and success is reported exactly when none did. |
| Registry.EtcdRegistry.Remove | internal/registry/etcd_registry.go:323-398 | Deletes only keys below the base of the name whose value has the value, kind, host and container name of the record, and its container id unless the record has none; all of them on success, otherwise those of the applied batches. |
| Registry.BatchStep | internal/registry/etcd_registry.go:372-396 | The batches partition the list: each key belongs to one batch of 64. |
| Registry.EtcdRegistry.List | internal/registry/etcd_registry.go:401-418 | Returns one intent for each key under the prefix whose value decodes, whose name is a valid host name and whose value is an IPv4 address for A, an IPv6 address for AAAA or a valid host name for CNAME, with exactly the fields stored, and skips the rest. |
| Stores.RemovalHitsItself | internal/registry/etcd_registry.go:323-366 | A stored record is a target of its own removal. |
| Stores.RemovalReach | internal/registry/etcd_registry.go:323-366 | Whatever else a removal deletes sits at a longer base and has the removed record's value, kind, host, container name and container id (if it has one): nobody else's record is touched. |
| Stores.TargetsExactly | internal/registry/etcd_registry.go:323-366 | A removal deletes a stored record if and only if it has the removed value, kind, host, container name and container id (if there is one) and its name is the removed one or ends in a dot and it. |
| Stores.RemovalOverreaches | internal/registry/etcd_registry.go:343-355 | For every record there is a conflict-free store in which removing it also deletes a record of a name below it. |
| Paths.BelowIsPrefix | internal/registry/etcd_path.go:10-16 | A name below another is printed under the other's base, followed by its first label. |
| Stores.SeenAfterRemoval | internal/registry/etcd_registry.go:332-398 | Deleting matching keys removes from what List sees exactly the targets among them. |
| MemoryStates.MemoryState.Upsert | internal/state/memory_state.go:30-41 | Replaces one entry wholesale with a fresh miss counter. |
| MemoryStates.MemoryState.RetainRunning | internal/state/memory_state.go:63-82 | Deleting while walking has the effect of one simultaneous resync on all entries, and the count returned is the number of entries gone. |
| MemoryStates.MemoryState.MarkRemoved | internal/state/memory_state.go:88-96 | Removes one entry and says whether it was tracked. |
| MemoryStates.MemoryState.GetAllDesiredRecordIntents | internal/state/memory_state.go:99-109 | Lists exactly the intents of running containers. |
| Debounce.TrackedExactly | internal/state/memory_state.go:30-96 | After any history an id is tracked if and only if after its last upsert there is no removal of it and, for a running one, no two resyncs in a row omit it; the entry holds that upsert's intents and a counter below 2. |
| Debounce.DesiredExactly | internal/state/memory_state.go:99-109 | After any history the desired list is exactly the intents of the last upserts that still count. |
| Engine.SyncEngine.HandleEvent | internal/core/engine.go:46-71 | A stop or death untracks the container; a start or first detection with intents tracks exactly them afresh; a resync drops the running containers it omits that had already missed one, counts one miss for the others it omits and none for those it lists; every other event changes nothing, as does one without a container id or without intents. Each is at most one call of the history. |
| Engine.SyncEngine.PlanTick | internal/core/engine.go:133-146 | What the tick plans is the set-level plan for what the tracker wants, filtered, against what the store holds. |
| Engine.SyncEngine.RemoveAll | internal/core/engine.go:156-163 | Whatever calls fail, only targets of the removals disappear; each removal whose calls go through deletes all its targets even if others fail, and without errors all targets are gone. |
| Engine.SyncEngine.RegisterAll | internal/core/engine.go:164-171 | Registrations take new keys at their own names, one for each record whose put takes effect, whatever fails before it, and none for the others; there is no error exactly when every call was acknowledged. |
| Engine.SyncEngine.Tick | internal/core/engine.go:125-180 | Without errors the tick has the effect the convergence theorem speaks of, and what it deletes is exactly what its removals reach; if its removals went through, the store stays sound whatever registrations fail; if its puts take effect, every planned addition is stored whatever removals fail; a failed listing and a dry run write nothing. |
| Ticks.TickIsPass | internal/core/engine.go:140-146 | If no kept slot of what a tracker wants has two winners, every tick over it wants the same set, whatever order the tracker is walked in, and an error-free tick is a pass of the convergence theorems. |
| Ticks.WinnersAreClean | internal/core/engine.go:140-142 | That set is conflict-free, as those theorems ask. |
| Engine.TickEffect | internal/core/engine.go:141-180 | From what the write loops did to the keys to what the pass did to the records: completed removals delete exactly the records they reach. |
| Runs.RegisterExact | internal/core/engine.go:156-171 | A registration keeps the store conflict-free if and only if no record whose removal failed earlier in the pass is still stored in its way. |
| Runs.StepKeepsInvariant | internal/core/engine.go:129-177 | Every acquisition, plan, single write, failure, crash and release keeps the protocol invariant, save a registration in the way of a failed removal, and so does every expiry of the lock save under a host that is inside, be it still listing or writing. |
| RunLimits.ExpireExact | internal/core/engine.go:129-177 | After an expiry of the lock some continuation without further expiries, and without registrations in the way of failed removals, stores a conflict if and only if the host whose lock it was is inside: a host that has yet to list plans all the same, and one that is done writing still deletes the lock of whoever is inside by then. |
| Runs.StoreSafeThroughout | internal/core/engine.go:129-177 | In every run of any hosts from a conflict-free store, the store is conflict-free after every individual write and at every crash point, as long as no registration meets a record whose removal failed in its pass and the lock never expires under a host that is inside. |
| RunLimits.FailedRemovalBreaks | internal/core/engine.go:156-171 | For every alias and address of one name there is a run in which the removal fails, the pass registers all the same, and the name ends up with both. |
| RunLimits.ExpiryBreaks | internal/core/engine.go:129-171 | For any two conflicting records of different hosts there is a run in which the lock expires under one host before it lists, the other enters, both plan on the empty store, and both records end up stored. |
| RunsAcyclic.AcyclicThroughout | internal/core/reconciliation.go:305-330 | In a run in which no registration meets a record whose removal failed, the lock never expires under a host that is inside, every pass adds at most one alias and no removal of an alias fails, no state has an alias cycle. |
| Convergence.EvictedHadHigherMark | internal/core/reconciliation.go:219-299 | Where no two hosts duel, age and force together rank the wishes: a wish that is evicted ranks behind the one that evicts it, unless it is an alias that falls to addresses. |
| Convergence.Undercutter | internal/core/reconciliation.go:219-299 | And an alias that falls to addresses falls to one that ranks ahead of it: whatever a pass evicts, some addition ranks ahead of all it meets. |
| Convergence.NameRoomShrinks | internal/core/reconciliation.go:219-299 | At the lowest key length at which a pass adds, the best rank stored for a name never gets worse. |
| Convergence.SlotRoomShrinks | internal/core/reconciliation.go:219-299 | If no name's best rank improves there, some single record's does. |
| ConvergenceBound.PassLowersRank | internal/core/reconciliation.go:183-342 | Every pass that changes the store lowers one number: records nobody wants first, then the room ahead of the best rank of each name and of each slot, shorter keys first. |
| ConvergenceBound.FinitelyManyChanges | internal/core/reconciliation.go:183-342 | With fixed desired sets among which there is no duel, every clean start bounds the number of changing passes of every interleaving of any hosts; forced records, collection from hosts that take no part and removals that reach beyond their aim are included. A duel is two conflicting wishes of different hosts that beat each other both ways, neither shielded by another wish of its host. |
| ConvergenceBound.QuietHostStaysQuiet | internal/core/reconciliation.go:183-342 | One pass of a host that changes nothing speaks for all its passes on that store, in any order and with any liveness that finds nobody gone. |
| ConvergenceBound.RoundsReachFinal | internal/core/reconciliation.go:183-342 | Under the same condition, if every host keeps taking turns, a store that no pass of any host changes is reached within a bounded number of rounds. |
| Duels.BeatenIsEvicted | internal/core/reconciliation.go:236 | An address that beats the same address of another host by force or by age evicts it, even if that is forced. |
| Duels.DuelGoesOn | internal/core/reconciliation.go:224-299 | If two hosts duel, and neither duellist closes an alias cycle through the wishes of the two hosts beside its own rivals, every single pass of every run in which they take turns changes the store, whatever order, liveness and deletions the passes have. |
| Duels.DuelNeverEnds | internal/core/reconciliation.go:224-299 | Under the same condition no number bounds the changing passes of the runs, removals deleting all they reach, from a store that holds one of the two records; one forced record is enough, against an older unforced one. |
| Duels.TwoClaimsExactly | internal/core/reconciliation.go:232-242 | Two hosts that want one address: the changing passes are bounded if and only if the two records do not beat each other both ways. |
| Duels.SettlesExactly | internal/core/reconciliation.go:183-342 | For any number of hosts, forced records included: the changing passes are bounded from every clean store if and only if no two hosts duel. Asked of the wishes: if there are duels, in one of them neither duellist closes an alias cycle through the wishes of the two hosts beside its own rivals. |
| HinderedDuels.HinderedDuelSettles | internal/core/reconciliation.go:305-330 | That exception is needed: whenever a forced address duels with an older alias that closes a cycle with a forced alias of its own host, the changing passes are bounded from every clean store, because the older alias is refused for good once the other is stored. |
| HinderedDuels.HinderedDuelSettlesByKeys | internal/registry/etcd_registry.go:323-366 | The same for the removals of the registry, under any prefix. |
| Locks.UniqueSortedKeys | internal/registry/etcd_registry.go:424-432 | The lock list has exactly the keys asked for, each before the next in dictionary order. |
| Locks.BelowExactly | internal/registry/etcd_registry.go:432 | That order compares the first character in which two keys differ, and puts a key before its extensions. |
| Locks.StepKeepsInvariant | internal/registry/etcd_registry.go:436-510 | Every etcd call, failing or not, every crash and every lapse of a lease that keeps no key some client relies on keeps each client the sole owner of the keys it relies on: those it has and has not begun to give back, unless the lease for its next key has lapsed; a client whose keep-alive failed relies on its last key alone. |
| Locks.MutualExclusion | internal/registry/etcd_registry.go:423-511 | In every run in which no lease lapses that keeps a key some client relies on, two clients inside at once have no key in common. |
| Locks.NoCircularWait | internal/registry/etcd_registry.go:424-495 | In every state of every run, lapses and crashes included, no clients wait for each other in a circle. |
| LockLimits.LapseExact | internal/registry/etcd_registry.go:436-510 | In every state reached without such a lapse, and for the lapse of any lease: two clients can come to be inside with one key though no further such lease lapses, if and only if the lease keeps a key of a client that is inside, or on its way there with the lease for its next key not lapsed, or that has yet to delete that key. |
| LockLimits.LapseAdmitsTwo | internal/registry/etcd_registry.go:497-510 | In every state reached without such a lapse, for every client inside and every key it has: once that one lease has lapsed, two other clients can both get inside with the key though their own leases never lapsed, because release deletes the key without looking at its holder. |
| LockLimits.LockedUntilLapse | internal/registry/etcd_registry.go:440-493 | A client that loses a key other than by deleting it, by an error while it takes the next, by giving up on it, by the failure of a keep-alive or by crashing, leaves the key locked exactly until its lease lapses, and until then no client relies on having it. |
| LockRetry.AcquireLock | internal/registry/etcd_registry.go:439-494 | The retry loop acquires exactly when some attempt is granted that started, like all before it, before the whole seconds of the timeout were over, after only failures to get the key. It leaves key and lease when it acquires; no key, and the lease if its revocation fails, when time is up; the lease when it is cancelled or the create fails, and then the key if that was applied; after a failed keep-alive what neither deletion nor revocation removed. |
| LockRetry.FreeKeyExactly | internal/registry/etcd_registry.go:446 | A key that is free from the first moment is acquired if and only if the configured timeout is at least one second; below that no attempt is made. |
| Heartbeats.HeartbeatKeyTrimmed | internal/registry/etcd_registry.go:77-79 | Trimming a liveness key gives its host back, and no other key does. |
| Heartbeats.Heartbeat.GrantAndKeepAlive | internal/registry/etcd_registry.go:113-128 | On success the key is up under a fresh lease; after a failure whether it is up depends only on what took effect and what the cleanup managed; no other host's key changes. |
| Heartbeats.Heartbeat.StartHeartbeat | internal/registry/etcd_registry.go:85-108 | A successful start leaves the key up and the host active; a failed one leaves activity and the stop handle as they were. |
| Heartbeats.Heartbeat.ReestablishHeartbeat | internal/registry/etcd_registry.go:160-192 | The host becomes active again exactly when some attempt succeeds before cancellation, and then its key is up under the new lease. |
| Heartbeats.Heartbeat.LeaseLost | internal/registry/etcd_registry.go:136-155 | When the keep-alive channel closes, the host is active afterwards exactly when an attempt to re-establish succeeds, and then its key is up. |
| Heartbeats.Heartbeat.StopHeartbeat | internal/registry/etcd_registry.go:204-229 | A stop takes the key down at once if the deletion or the revocation gets through, and touches nothing if no start succeeded. |
| Heartbeats.Heartbeat.StopMeetsReestablish | internal/registry/etcd_registry.go:169-229 | A stop that meets the re-establishing of a lost lease, whose attempt got through before the stop cancels it, leaves the host active, with nothing for another stop to take down, and its key up unless the deletion gets through. |
| Heartbeats.Heartbeat.StopMeetsLatePut | internal/registry/etcd_registry.go:113-229 | If the put of that attempt is cancelled, reports an error and takes effect after the deletion all the same, the host is inactive and its key is up exactly if both calls of the clean-up fail. |
| Heartbeats.Heartbeat.GetLiveHostnames | internal/registry/etcd_registry.go:242-268 | Gives no set unless the host is active and the read succeeds; then exactly the hosts with a key up, and itself. |
| Collection.NeverOrphaned | internal/core/engine.go:125-140 | If a host registers only while its liveness key is up and does not lose the key afterwards, no pass of a peer ever finds one of its records orphaned, in any interleaving, without the lock and with listings of any age. |
| Collection.TakenOnlyByABetterClaim | internal/core/engine.go:125-146 | Then a peer removes a record of that host only for an added record of its own that beats it by force or by age. |
| Collection.KeyProtectsExactly | internal/registry/etcd_registry.go:242-268 | As long as the owner leaves its key alone, an idle peer can come to collect an undesired record if and only if the owner's key is down. |
| Collection.NoHeartbeatNoProtection | internal/core/engine.go:91-93 | A host whose heartbeat never started registers all the same, and its record can be collected at once. |
| Collection.CleanStopNoGrace | internal/registry/etcd_registry.go:204-229 | A host whose key is up is safe, and the step that takes its key down on a clean stop makes its records collectable at once. |

## Left out

- Reconciliation.ReconcileAndValidate: equality with the set-level plan holds for conflict-free listings only; on others (records written by hand) the source takes the first of a randomly ordered list of CNAMEs, and the unconditional clauses say what every choice satisfies.
- Registry.EtcdRegistry.GetNextIndexedKey: the key is fresh for indices within the range of a 64-bit int only, as larger ones do not parse.
- Engine.SyncEngine.Tick: assumes reads that reflect the store, and speaks about records under keys of the form registration uses, in a store with fewer keys than a 64-bit int can count; other keys are seen by `Registry` and not by the run theorems.
- Runs.StoreSafeThroughout: says nothing of the lock's keys and leases, which `Locks` treats.
- Sweeps.OnePassSettles: where a desired alias could close a cycle, what the cycle rule refuses depends on the order of the list, and the exact condition is stated over the plan (`PassLimits.OnePassEnough`).
- Sweeps.BatchAcyclicExactly: for passes that evict an alias there is a sufficient condition (`PassLimits.BatchAcyclicIf`) and none on the set of desired intents can be exact (`OrderLimits.AcyclicityDependsOnOrder`).
- Duels.SettlesExactly: where in every duel one of the two closes an alias cycle, the changing passes may be bounded all the same (`HinderedDuels.HinderedDuelSettles`) and only the half that peace bounds them is proved (`ConvergenceBound.FinitelyManyChanges`).
- ConvergenceBound.FinitelyManyChanges: speaks of completed passes of hosts whose desired sets do not change and whose garbage collection finds no host gone that takes part; passes cut short by an error are in `Runs` only.
- A lock transaction with an empty key list, which runs its function at once.
- NestedRecordMaps.NestedRecordMap.Put: the inner maps are values inside the outer map object, so aliasing of an inner map is not captured.
- Stale serializable reads (List and the index scan) outside `Collection`, which allows listings of any age.
- JSON text and time formatting: the wire record is a datatype, and text that does not decode is one more value.
- IP parsing is a parameter; the host name pattern is a predicate on labels.
- Key texts in the diff maps: the maps of `Reconciliation` are keyed by the tuple of fields, justified by `KeyText.KeyIsIdentity`.
- The entry's container name, creation instant and update time in the tracker, which nothing reads.
- The mutexes of the tracker and of the heartbeat fields, save where a stop meets a re-activation (`Heartbeats.Heartbeat.StopMeetsReestablish`).
- Back-off delays, lease times and all wall-clock time: expiry and timeouts are steps or parameters.
- Docker events and labels: intents are an input of `Engine.SyncEngine.HandleEvent`; the backoff and jitter of the event stream are not modelled.
- Logging, metrics, the HTTP server, configuration and the command line.
- The heartbeat prefix lying outside the record prefix, which the configuration check ensures.
