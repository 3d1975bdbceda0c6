/** The record side of the etcd registry: keys and wire values, registering, batched removal and
    listing. Each etcd call may fail; its outcome is a parameter. */
module Registry {
  import opened Domain
  import opened DefaultMaps
  import opened Text
  import opened Paths

  /** The stored JSON object; the codec between it and its text is taken as the identity. */
  datatype WireRecord = WireRecord(
    host: string,
    ttl: uint32,
    kind: RecordKind,
    ownerHostname: string,
    ownerContainerId: string,
    ownerContainerName: string,
    created: nat,
    force: bool)

  datatype Value = Json(wire: WireRecord) | Garbage(text: string)

  type Store = map<string, Value>

  /** What the IP parser accepts is a parameter of the model. */
  datatype IpRules = IpRules(isIPv4: string -> bool, isIPv6: string -> bool)

  /** What a record of each kind must have for a value, under a valid name. */
  predicate IsValidRecord(rules: IpRules, r: Record) {
    && IsValidHostname(r.name)
    && ((r.kind == A && rules.isIPv4(r.value))
        || (r.kind == AAAA && rules.isIPv6(r.value))
        || (r.kind == CNAME && IsValidHostname(r.value)))
  }

  function NewFromKind(rules: IpRules, kind: RecordKind, name: string, value: string): (r: Option<Record>)
    ensures r == if IsValidRecord(rules, Record(name, kind, value)) then Some(Record(name, kind, value)) else None
  {
    if !IsValidHostname(name) then None
    else match kind
      case A => if rules.isIPv4(value) then Some(Record(name, A, value)) else None
      case AAAA => if rules.isIPv6(value) then Some(Record(name, AAAA, value)) else None
      case CNAME => if IsValidHostname(value) then Some(Record(name, CNAME, value)) else None
      case Other(_) => None
  }

  function MarshalEtcdValue(ri: RecordIntent): WireRecord {
    WireRecord(ri.record.value, ri.ttl, ri.record.kind,
               ri.hostname, ri.containerId, ri.containerName, ri.created, ri.force)
  }

  function UnmarshalEtcdValue(rules: IpRules, key: string, raw: Value, prefix: string): Option<RecordIntent> {
    if raw.Garbage? then None
    else
      var w := raw.wire;
      var rec := NewFromKind(rules, w.kind, FqdnFromKey(prefix, key), w.host);
      if rec == None then None
      else
        Some(RecordIntent(w.ownerContainerId, w.ownerContainerName, w.created, w.ownerHostname,
                          w.force, w.ttl, rec.value))
  }

  /** A record registered under any leaf of its name is read back whole. */
  lemma UnmarshalMarshal(rules: IpRules, prefix: string, ri: RecordIntent, leaf: string)
    requires IsValidHostname(ri.record.name) && IsLeaf(leaf)
    requires
      || (ri.record.kind == A && rules.isIPv4(ri.record.value))
      || (ri.record.kind == AAAA && rules.isIPv6(ri.record.value))
      || (ri.record.kind == CNAME && IsValidHostname(ri.record.value))
    ensures
      var key := LeafKey(prefix, ri.record.name, leaf);
      UnmarshalEtcdValue(rules, key, Json(MarshalEtcdValue(ri)), prefix) == Some(ri)
  {
    ValidIsNormal(ri.record.name);
    ParsePrinted(prefix, ri.record.name, leaf);
  }

  /** What List sees: every key that starts with the configured prefix and parses. */
  function Decoded(rules: IpRules, prefix: string, kv: Store): map<string, RecordIntent> {
    map k | k in kv && HasPrefix(k, prefix) && UnmarshalEtcdValue(rules, k, kv[k], prefix).Some? ::
      UnmarshalEtcdValue(rules, k, kv[k], prefix).value
  }

  /** The key counts, and this is what it counts as: it lies under the prefix, its name is a valid host name
      and its value is what its kind asks for. */
  predicate CountsAs(rules: IpRules, prefix: string, key: string, raw: Value, ri: RecordIntent) {
    && HasPrefix(key, prefix) && raw.Json? && IsValidHostname(FqdnFromKey(prefix, key))
    && ((raw.wire.kind == A && rules.isIPv4(raw.wire.host))
        || (raw.wire.kind == AAAA && rules.isIPv6(raw.wire.host))
        || (raw.wire.kind == CNAME && IsValidHostname(raw.wire.host)))
    && ri.record.name == FqdnFromKey(prefix, key) && ri.record.kind == raw.wire.kind && ri.record.value == raw.wire.host
    && ri.hostname == raw.wire.ownerHostname && ri.containerId == raw.wire.ownerContainerId
    && ri.containerName == raw.wire.ownerContainerName && ri.created == raw.wire.created
    && ri.force == raw.wire.force && ri.ttl == raw.wire.ttl
  }

  /** What List sees, key by key. */
  lemma DecodedExactly(rules: IpRules, prefix: string, kv: Store, k: string, ri: RecordIntent)
    ensures
      var seen := Decoded(rules, prefix, kv);
      (k in seen && seen[k] == ri) <==> k in kv && CountsAs(rules, prefix, k, kv[k], ri)
  {
  }

  /** The intents are what the keys count as, each key that counts being there once. */
  ghost predicate ListsAll(rules: IpRules, prefix: string, kv: Store, keys: seq<string>, intents: seq<RecordIntent>) {
    && |keys| == |intents| && NoDuplicates(keys)
    && (forall i :: 0 <= i < |keys| ==> keys[i] in kv && CountsAs(rules, prefix, keys[i], kv[keys[i]], intents[i]))
    && (forall k, ri :: k in kv && CountsAs(rules, prefix, k, kv[k], ri) ==> k in keys)
  }

  lemma ListingByFields(rules: IpRules, prefix: string, kv: Store, keys: seq<string>, intents: seq<RecordIntent>)
    requires Enumerates(keys, Decoded(rules, prefix, kv)) && Follows(intents, keys, Decoded(rules, prefix, kv))
    ensures ListsAll(rules, prefix, kv, keys, intents)
  {
    forall i | 0 <= i < |keys|
      ensures keys[i] in kv && CountsAs(rules, prefix, keys[i], kv[keys[i]], intents[i])
    {
      DecodedExactly(rules, prefix, kv, keys[i], intents[i]);
    }
    forall k, ri | k in kv && CountsAs(rules, prefix, k, kv[k], ri)
      ensures k in keys
    {
      DecodedExactly(rules, prefix, kv, k, ri);
    }
  }

  predicate OneSlashAtMost(prefix: string) {
    prefix == TrimRight(prefix, '/') || prefix == TrimRight(prefix, '/') + "/"
  }

  lemma {:induction false} TrimRightShape(s: string, c: char)
    ensures TrimRight(s, c) <= s
    ensures forall i :: |TrimRight(s, c)| <= i < |s| ==> s[i] == c
  {
    if s != "" && s[|s| - 1] == c {
      TrimRightShape(s[..|s| - 1], c);
    }
  }

  lemma ValidPathStarts(name: string)
    requires IsValidHostname(name)
    ensures var path := Join(Reversed(Split(Normalise(name), '.')), '/'); path != "" && path[0] != '/'
  {
    ValidIsNormal(name);
    var labels := Split(name, '.');
    ReversedAt(labels, 0);
    assert IsLabel(labels[|labels| - 1]);
  }

  /** A registered record is found by List exactly when the configured prefix ends in at most one
      slash: keys are printed under the trimmed prefix and searched under the untrimmed one. */
  lemma ListedExactly(prefix: string, name: string, leaf: string)
    requires IsValidHostname(name)
    ensures HasPrefix(LeafKey(prefix, name, leaf), prefix) <==> OneSlashAtMost(prefix)
  {
    var head := TrimRight(prefix, '/');
    var path := Join(Reversed(Split(Normalise(name), '.')), '/');
    var key := LeafKey(prefix, name, leaf);
    TrimRightShape(prefix, '/');
    ValidPathStarts(name);
    assert key == head + "/" + path + "/" + leaf;
    if |prefix| >= |head| + 2 {
      assert prefix[|head| + 1] == '/' && key[|head| + 1] == path[0];
    } else {
      assert prefix == head || prefix == head + "/";
    }
  }

  /** Registering adds one record to what List sees. */
  lemma RegisterDecoded(rules: IpRules, prefix: string, kv: Store, ri: RecordIntent, leaf: string)
    requires IsValidRecord(rules, ri.record) && IsLeaf(leaf) && OneSlashAtMost(prefix)
    ensures
      var key := LeafKey(prefix, ri.record.name, leaf);
      Decoded(rules, prefix, kv[key := Json(MarshalEtcdValue(ri))]) == Decoded(rules, prefix, kv)[key := ri]
  {
    ListedExactly(prefix, ri.record.name, leaf);
    UnmarshalMarshal(rules, prefix, ri, leaf);
  }

  /** Deleting keys deletes them from what List sees, and nothing else. */
  lemma DeleteDecoded(rules: IpRules, prefix: string, kv: Store, gone: set<string>)
    ensures Decoded(rules, prefix, kv - gone) == Decoded(rules, prefix, kv) - gone
  {
  }

  predicate RecordMatches(w: WireRecord, ri: RecordIntent) {
    && w.host == ri.record.value
    && w.kind == ri.record.kind
    && w.ownerHostname == ri.hostname
    && w.ownerContainerName == ri.containerName
    && (ri.containerId == "" || w.ownerContainerId == ri.containerId)
  }

  /** The keys Remove deletes. The name is compared only through the key, so records of names
      below this one match too; force and TTL are not compared at all. */
  function Matching(kv: Store, prefix: string, ri: RecordIntent): set<string> {
    set k | k in kv && HasPrefix(k, KeyBaseForFqdn(prefix, ri.record.name) + "/")
      && kv[k].Json? && RecordMatches(kv[k].wire, ri)
  }

  /** The key lies below the name of the record and holds its value, kind and owner: the host, the container's
      name, and its id unless the record has none. */
  predicate IsOf(prefix: string, key: string, raw: Value, ri: RecordIntent) {
    && HasPrefix(key, KeyBaseForFqdn(prefix, ri.record.name) + "/") && raw.Json?
    && raw.wire.host == ri.record.value && raw.wire.kind == ri.record.kind
    && raw.wire.ownerHostname == ri.hostname && raw.wire.ownerContainerName == ri.containerName
    && (raw.wire.ownerContainerId == ri.containerId || ri.containerId == "")
  }

  function IndexOf(base: string, key: string): Option<int> {
    if !HasPrefix(key, base + "/") then None
    else
      var suffix := key[|base| + 1..];
      if HasPrefix(suffix, "x") then Atoi(suffix[1..]) else None
  }

  /** The indices in use under a base: some key there reads as x followed by the number. */
  function InUse(base: string, keys: set<string>): set<int> {
    set k | k in keys && IndexOf(base, k).Some? :: IndexOf(base, k).value
  }

  lemma InUseOneMore(base: string, keys: set<string>, k: string)
    ensures InUse(base, keys + {k}) ==
            if IndexOf(base, k).Some? then InUse(base, keys) + {IndexOf(base, k).value} else InUse(base, keys)
  {
    if IndexOf(base, k).Some? {
      assert k in keys + {k};
    }
  }

  lemma InUseBelow(base: string, keys: set<string>, some: set<string>)
    requires forall k :: k in some <==> k in keys && HasPrefix(k, base)
    ensures InUse(base, some) == InUse(base, keys)
  {
    forall k | k in keys && IndexOf(base, k).Some?
      ensures k in some
    {
      assert HasPrefix(k, base + "/");
      assert base == (base + "/")[..|base|] == k[..|base|];
    }
  }

  /** The loop that counts up to the first index not in use. */
  method LeastFree(existing: set<int>) returns (idx: int)
    ensures 1 <= idx <= |existing| + 1 && idx !in existing
    ensures forall j :: 1 <= j < idx ==> j in existing
  {
    idx := 1;
    ghost var ahead := existing;
    while idx in existing
      invariant 1 <= idx && forall j :: 1 <= j < idx ==> j in existing
      invariant ahead <= existing && forall n :: n in existing && idx <= n ==> n in ahead
      decreases ahead
    {
      ahead := ahead - {idx};
      idx := idx + 1;
    }
    RangeCount(idx - 1, existing);
  }

  lemma {:induction false} RangeCount(n: nat, s: set<int>)
    requires forall j :: 1 <= j <= n ==> j in s
    ensures n <= |s|
  {
    if n > 0 {
      RangeCount(n - 1, s - {n});
    }
  }

  lemma FreeIndexFreeKey(prefix: string, fqdn: string, kv: Store, index: nat)
    ensures
      var base := KeyBaseForFqdn(prefix, fqdn);
      && base + "/x" + Itoa(index) == LeafKey(prefix, fqdn, "x" + Itoa(index))
      && (index <= MAX_INT && LeafKey(prefix, fqdn, "x" + Itoa(index)) in kv ==> index in InUse(base, kv.Keys))
  {
    var base := KeyBaseForFqdn(prefix, fqdn);
    var key := LeafKey(prefix, fqdn, "x" + Itoa(index));
    assert base + "/x" + Itoa(index) == key;
    assert key[|base| + 1..] == "x" + Itoa(index);
    AtoiItoa(index);
    assert index <= MAX_INT ==> IndexOf(base, key) == Some(index);
  }

  /** Some key is the base, then /x, then a text of the number. */
  predicate IsTaken(base: string, keys: set<string>, n: int) {
    exists k :: k in keys && HasPrefix(k, base + "/x") && Atoi(k[|base| + 2..]) == Some(n)
  }

  lemma TakenIsInUse(base: string, keys: set<string>, n: int)
    ensures IsTaken(base, keys, n) <==> n in InUse(base, keys)
  {
    forall k | k in keys
      ensures HasPrefix(k, base + "/x") && Atoi(k[|base| + 2..]) == Some(n) <==> IndexOf(base, k) == Some(n)
    {
      var stem := base + "/";
      assert base + "/x" == stem + "x";
      if HasPrefix(k, stem) {
        assert k == stem + k[|stem|..];
        assert HasPrefix(k, stem + "x") <==> HasPrefix(k[|stem|..], "x");
        assert HasPrefix(k[|stem|..], "x") ==> k[|stem|..][1..] == k[|base| + 2..];
      }
    }
  }

  /** The key of the least free positive index of a name. */
  ghost predicate IsNextKey(prefix: string, kv: Store, fqdn: string, key: string, idx: nat) {
    && key == KeyBaseForFqdn(prefix, fqdn) + "/x" + Itoa(idx)
    && 1 <= idx <= |kv| + 1 && !IsTaken(KeyBaseForFqdn(prefix, fqdn), kv.Keys, idx)
    && forall j :: 1 <= j < idx ==> IsTaken(KeyBaseForFqdn(prefix, fqdn), kv.Keys, j)
  }

  const BATCH_SIZE := 64

  /** How a batch transaction turns out: one that reports an error may have been applied all the same. */
  datatype BatchOutcome = Applied | NotApplied | AppliedUnacknowledged

  /** Those of the first n keys of the list whose batch was applied. */
  function Committed(keys: seq<string>, n: nat, outcome: nat -> BatchOutcome): set<string>
    requires n <= |keys|
  {
    set j | 0 <= j < n && outcome(j / BATCH_SIZE) != NotApplied :: keys[j]
  }

  predicate AllCommit(n: nat, outcome: nat -> BatchOutcome) {
    forall j :: 0 <= j < n ==> outcome(j / BATCH_SIZE) == Applied
  }

  datatype PutOutcome = Stored | Lost | StoredUnacknowledged

  class EtcdRegistry {
    const pathPrefix: string
    const rules: IpRules
    var kv: Store

    constructor (pathPrefix: string, rules: IpRules, kv: Store)
      ensures this.pathPrefix == pathPrefix && this.rules == rules && this.kv == kv
    {
      this.pathPrefix := pathPrefix;
      this.rules := rules;
      this.kv := kv;
    }

    /** Keys that start with a prefix, each once, in an order nothing relies on. */
    method GetKeys(prefix: string) returns (keys: seq<string>)
      ensures NoDuplicates(keys)
      ensures forall k :: k in keys <==> k in kv && HasPrefix(k, prefix)
    {
      keys := [];
      var rest := kv.Keys;
      while rest != {}
        invariant rest <= kv.Keys && NoDuplicates(keys)
        invariant forall k :: k in keys <==> k in kv && k !in rest && HasPrefix(k, prefix)
        decreases |rest|
      {
        var k :| k in rest;
        rest := rest - {k};
        if HasPrefix(k, prefix) {
          keys := keys + [k];
        }
      }
    }

    /** The indices in use under a base, out of a listing of keys. */
    method UsedIndices(base: string, keys: seq<string>) returns (existing: set<int>)
      ensures existing == InUse(base, Elems(keys)) && |existing| <= |keys|
    {
      existing := {};
      for i := 0 to |keys|
        invariant existing == InUse(base, Elems(keys[..i])) && |existing| <= i
      {
        var keyStr := keys[i];
        assert Elems(keys[..i + 1]) == Elems(keys[..i]) + {keyStr};
        InUseOneMore(base, Elems(keys[..i]), keyStr);
        if HasPrefix(keyStr, base + "/") {
          var suffix := keyStr[|base| + 1..];
          if HasPrefix(suffix, "x") {
            var n := Atoi(suffix[1..]);
            if n.Some? {
              existing := existing + {n.value};
            }
          }
        }
      }
      assert keys[..|keys|] == keys;
    }

    /** The least free positive index under the base of a name. It is at most one more than the
        number of stored keys, and the key it gives is not stored. */
    method GetNextIndexedKey(fqdn: string) returns (key: string)
      ensures exists idx: nat :: IsNextKey(pathPrefix, kv, fqdn, key, idx)
      ensures |kv| < MAX_INT ==> key !in kv
    {
      var base := KeyBaseForFqdn(pathPrefix, fqdn);
      var keys := GetKeys(base);
      var existing := UsedIndices(base, keys);
      InUseBelow(base, kv.Keys, Elems(keys));
      SeqCount(keys, kv.Keys);
      var index := LeastFree(existing);
      key := base + "/x" + Itoa(index);
      FreeIndexFreeKey(pathPrefix, fqdn, kv, index);
      forall n: int
        ensures IsTaken(base, kv.Keys, n) <==> n in InUse(base, kv.Keys)
      {
        TakenIsInUse(base, kv.Keys, n);
      }
      assert IsNextKey(pathPrefix, kv, fqdn, key, index);
    }

    /** Stores an intent under a fresh index of its name. */
    method Register(ri: RecordIntent, listFails: bool, put: PutOutcome) returns (ok: bool, ghost leaf: string)
      modifies this
      ensures ok <==> !listFails && put == Stored
      ensures listFails || put == Lost ==> kv == old(kv)
      ensures exists idx :: 1 <= idx <= |old(kv)| + 1 && leaf == "x" + Itoa(idx)
      ensures !listFails && put != Lost ==>
                kv == old(kv)[LeafKey(pathPrefix, ri.record.name, leaf) := Json(MarshalEtcdValue(ri))]
      ensures !listFails && |old(kv)| < MAX_INT ==> LeafKey(pathPrefix, ri.record.name, leaf) !in old(kv)
    {
      leaf := "x" + Itoa(1);
      if listFails {
        return false, leaf;
      }
      var key := GetNextIndexedKey(ri.record.name);
      ghost var idx: nat :| IsNextKey(pathPrefix, kv, ri.record.name, key, idx);
      leaf := "x" + Itoa(idx);
      FreeIndexFreeKey(pathPrefix, ri.record.name, kv, idx);
      if put != Lost {
        kv := kv[key := Json(MarshalEtcdValue(ri))];
      }
      ok := put == Stored;
    }

    /** Deletes the listed keys in batches and goes on after a failed one: exactly the keys of
        applied batches go, and the first failure is reported. */
    method DeleteBatches(toDelete: seq<string>, outcome: nat -> BatchOutcome) returns (firstErr: Option<nat>)
      modifies this
      ensures kv == old(kv) - set j | 0 <= j < |toDelete| && outcome(j / 64) != NotApplied :: toDelete[j]
      ensures kv == old(kv) - Committed(toDelete, |toDelete|, outcome)
      ensures firstErr == None <==> AllCommit(|toDelete|, outcome)
      ensures firstErr == None <==> forall j :: 0 <= j < |toDelete| ==> outcome(j / 64) == Applied
      ensures firstErr.Some? ==>
                outcome(firstErr.value) != Applied && firstErr.value * 64 < |toDelete| &&
                forall b: nat :: b < firstErr.value ==> outcome(b) == Applied
    {
      firstErr := None;
      var i, b := 0, 0;
      while i < |toDelete|
        invariant 0 <= i <= |toDelete|
        invariant i == b * BATCH_SIZE || i == |toDelete| <= b * BATCH_SIZE
        invariant kv == old(kv) - Committed(toDelete, i, outcome)
        invariant firstErr == None <==> AllCommit(i, outcome)
        invariant firstErr == None ==> forall c: nat :: c < b ==> outcome(c) == Applied
        invariant firstErr.Some? ==>
                    outcome(firstErr.value) != Applied && firstErr.value * BATCH_SIZE < |toDelete| &&
                    forall c: nat :: c < firstErr.value ==> outcome(c) == Applied
      {
        var end := i + BATCH_SIZE;
        if end > |toDelete| {
          end := |toDelete|;
        }
        BatchStep(toDelete, i, end, b, outcome);
        if outcome(b) != NotApplied {
          kv := kv - Elems(toDelete[i..end]);
        }
        if outcome(b) != Applied && firstErr == None {
          firstErr := Some(b);
        }
        i, b := end, b + 1;
      }
    }

    /** Finds the matching keys and deletes them. */
    method Remove(ri: RecordIntent, getFails: bool, outcome: nat -> BatchOutcome)
      returns (ok: bool, ghost gone: set<string>)
      modifies this
      ensures gone <= Matching(old(kv), pathPrefix, ri) && kv == old(kv) - gone
      ensures getFails ==> !ok && kv == old(kv)
      ensures !getFails ==>
                exists toDelete: seq<string> ::
                  NoDuplicates(toDelete) && Elems(toDelete) == Matching(old(kv), pathPrefix, ri) &&
                  gone == Committed(toDelete, |toDelete|, outcome) &&
                  (ok <==> AllCommit(|toDelete|, outcome))
      ensures ok ==> gone == Matching(old(kv), pathPrefix, ri)
      ensures forall k :: k in old(kv) && (ok || k !in kv) ==>
                (k !in kv <==> old(IsOf(pathPrefix, k, kv[k], ri)))
    {
      gone := {};
      assert kv - {} == kv;
      if getFails {
        return false, {};
      }
      var base := KeyBaseForFqdn(pathPrefix, ri.record.name);
      var keys := GetKeys(base);
      var toDelete: seq<string> := [];
      for i := 0 to |keys|
        invariant kv == old(kv) && NoDuplicates(toDelete)
        invariant forall k :: k in toDelete <==> k in keys[..i] && k in Matching(kv, pathPrefix, ri)
      {
        var keyStr := keys[i];
        assert keys[..i + 1] == keys[..i] + [keyStr];
        assert keyStr in keys && keyStr !in keys[..i];
        if HasPrefix(keyStr, base + "/") && kv[keyStr].Json? && RecordMatches(kv[keyStr].wire, ri) {
          toDelete := toDelete + [keyStr];
        }
      }
      assert keys[..|keys|] == keys;
      forall k | k in Matching(kv, pathPrefix, ri)
        ensures k in toDelete
      {
        assert HasPrefix(k, base);
      }
      assert Elems(toDelete) == Matching(kv, pathPrefix, ri);
      if toDelete == [] {
        assert AllCommit(0, outcome) && Committed(toDelete, 0, outcome) == {};
        return true, {};
      }
      var firstErr := DeleteBatches(toDelete, outcome);
      ok, gone := firstErr == None, Committed(toDelete, |toDelete|, outcome);
      if ok {
        assert Committed(toDelete, |toDelete|, outcome) == Elems(toDelete);
      }
    }

    /** Reads back every stored record that parses. */
    method List() returns (intents: seq<RecordIntent>)
      ensures
        var seen := Decoded(rules, pathPrefix, kv);
        exists keys :: Enumerates(keys, seen) && Follows(intents, keys, seen)
      ensures exists keys :: ListsAll(rules, pathPrefix, kv, keys, intents)
    {
      intents := [];
      ghost var keys: seq<string> := [];
      var all := GetKeys(pathPrefix);
      ghost var seen := Decoded(rules, pathPrefix, kv);
      for i := 0 to |all|
        invariant Reads(intents, keys, Elems(all[..i]), seen)
      {
        assert Elems(all[..i + 1]) == Elems(all[..i]) + {all[i]};
        assert all[i] in all && all[i] !in all[..i];
        var ri := UnmarshalEtcdValue(rules, all[i], kv[all[i]], pathPrefix);
        ReadsOneMore(intents, keys, Elems(all[..i]), seen, all[i]);
        if ri.Some? {
          intents := intents + [ri.value];
          keys := keys + [all[i]];
        }
      }
      assert all[..|all|] == all;
      assert Enumerates(keys, seen) && Follows(intents, keys, seen);
      ListingByFields(rules, pathPrefix, kv, keys, intents);
    }
  }

  /** The intents are what `seen` holds under those of the given keys it has, each key once. */
  ghost predicate Reads(intents: seq<RecordIntent>, keys: seq<string>, done: set<string>,
          seen: map<string, RecordIntent>) {
    && |intents| == |keys|
    && NoDuplicates(keys)
    && (forall k :: k in keys <==> k in done && k in seen)
    && (forall j :: 0 <= j < |keys| ==> keys[j] in seen && intents[j] == seen[keys[j]])
  }

  lemma ReadsOneMore(intents: seq<RecordIntent>, keys: seq<string>, done: set<string>, seen: map<string, RecordIntent>,
          k: string)
    requires Reads(intents, keys, done, seen) && k !in done
    ensures k in seen ==> Reads(intents + [seen[k]], keys + [k], done + {k}, seen)
    ensures k !in seen ==> Reads(intents, keys, done + {k}, seen)
  {
    AppendNoDuplicates(keys, [k]);
  }

  lemma {:induction false} SeqCount(keys: seq<string>, s: set<string>)
    requires NoDuplicates(keys) && forall k :: k in keys ==> k in s
    ensures |keys| <= |s|
  {
    if keys != [] {
      var init, last := keys[..|keys| - 1], keys[|keys| - 1];
      forall k | k in init
        ensures k in s - {last}
      {
        var i :| 0 <= i < |init| && init[i] == k;
        assert keys[i] != keys[|keys| - 1];
      }
      SeqCount(init, s - {last});
    }
  }

  lemma BatchStep(keys: seq<string>, i: nat, end: nat, b: nat, outcome: nat -> BatchOutcome)
    requires i < end <= |keys| && i == b * BATCH_SIZE && end <= i + BATCH_SIZE
    ensures outcome(b) != NotApplied ==>
              Committed(keys, end, outcome) == Committed(keys, i, outcome) + Elems(keys[i..end])
    ensures outcome(b) == NotApplied ==> Committed(keys, end, outcome) == Committed(keys, i, outcome)
    ensures AllCommit(end, outcome) <==> AllCommit(i, outcome) && outcome(b) == Applied
  {
    assert forall j :: i <= j < end ==> j / BATCH_SIZE == b;
    assert i / BATCH_SIZE == b;
    if outcome(b) != NotApplied {
      forall k | k in Elems(keys[i..end])
        ensures k in Committed(keys, end, outcome)
      {
        var j :| 0 <= j < end - i && keys[i..end][j] == k;
        assert keys[i + j] == k && (i + j) / BATCH_SIZE == b;
      }
      forall k | k in Committed(keys, end, outcome)
        ensures k in Committed(keys, i, outcome) + Elems(keys[i..end])
      {
        var j :| 0 <= j < end && outcome(j / BATCH_SIZE) != NotApplied && keys[j] == k;
        if j >= i {
          assert keys[i..end][j - i] == k;
        }
      }
    }
  }
}
