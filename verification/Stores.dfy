/** The records under the configured prefix as List decodes them: a map from etcd keys to intents. */
module Stores {
  import opened Domain
  import opened DefaultMaps
  import opened Text
  import opened Paths
  import opened Registry
  import opened ReconcilePlan

  type Records = map<string, RecordIntent>

  /** No two keys hold records that conflict; a record stored twice conflicts with itself. */
  predicate NoConflicts(store: Records) {
    forall k, l :: k in store && l in store && k != l ==> !Conflict(store[k].record, store[l].record)
  }

  predicate Supports(store: Records) {
    forall k :: k in store ==> store[k].record.Supported()
  }

  /** Every record sits under a leaf of its own, valid name, where Register puts it. */
  predicate HomedAt(prefix: string, key: string, ri: RecordIntent) {
    && IsValidHostname(ri.record.name)
    && HasPrefix(key, KeyBaseForFqdn(prefix, ri.record.name) + "/")
    && '/' !in key[|KeyBaseForFqdn(prefix, ri.record.name)| + 1..]
  }

  predicate Homed(prefix: string, store: Records) {
    forall k :: k in store ==> HomedAt(prefix, k, store[k])
  }

  predicate Matches(x: RecordIntent, r: RecordIntent) {
    RecordMatches(MarshalEtcdValue(x), r)
  }

  /** The keys that removing r deletes. */
  function Targets(prefix: string, store: Records, r: RecordIntent): set<string> {
    set k | k in store && HasPrefix(k, KeyBaseForFqdn(prefix, r.record.name) + "/") && Matches(store[k], r)
  }

  lemma DecodedFields(rules: IpRules, prefix: string, key: string, raw: Value)
    requires UnmarshalEtcdValue(rules, key, raw, prefix).Some?
    ensures raw.Json? && MarshalEtcdValue(UnmarshalEtcdValue(rules, key, raw, prefix).value) == raw.wire
  {
  }

  /** The registry's matching keys, as far as List can see them, are the targets. */
  lemma TargetsAreMatching(rules: IpRules, prefix: string, kv: Store, r: RecordIntent)
    ensures Targets(prefix, Decoded(rules, prefix, kv), r) == Matching(kv, prefix, r) * Decoded(rules, prefix, kv).Keys
  {
    var seen := Decoded(rules, prefix, kv);
    forall k | k in seen
      ensures kv[k].Json? && (Matches(seen[k], r) <==> RecordMatches(kv[k].wire, r))
    {
      DecodedFields(rules, prefix, k, kv[k]);
    }
  }

  /** Deleting some of the matching keys deletes that many targets from what List sees. */
  lemma SeenAfterRemoval(rules: IpRules, prefix: string, kv: Store, r: RecordIntent, gone: set<string>)
    requires gone <= Matching(kv, prefix, r)
    ensures
      var seen := Decoded(rules, prefix, kv);
      && gone * seen.Keys <= Targets(prefix, seen, r)
      && Decoded(rules, prefix, kv - gone) == seen - (gone * seen.Keys)
      && (gone == Matching(kv, prefix, r) ==> gone * seen.Keys == Targets(prefix, seen, r))
  {
    TargetsAreMatching(rules, prefix, kv, r);
    DeleteDecoded(rules, prefix, kv, gone);
  }

  /** A record stored at its home is a target of its own removal. */
  lemma RemovalHitsItself(prefix: string, store: Records, r: RecordIntent, k: string)
    requires Homed(prefix, store) && k in store && store[k] == r
    ensures k in Targets(prefix, store, r)
  {
  }

  lemma HomeOf(prefix: string, key: string, ri: RecordIntent) returns (leaf: string)
    requires HomedAt(prefix, key, ri)
    ensures '/' !in leaf && key == LeafKey(prefix, ri.record.name, leaf)
  {
    leaf := key[|KeyBaseForFqdn(prefix, ri.record.name)| + 1..];
  }

  /** The value, kind, host and container of r, under its name or a name below. */
  predicate Hits(prefix: string, r: RecordIntent, x: RecordIntent) {
    && Matches(x, r)
    && (x.record.name == r.record.name
        || HasPrefix(KeyBaseForFqdn(prefix, x.record.name), KeyBaseForFqdn(prefix, r.record.name) + "/"))
  }

  /** Exactly what a removal deletes: the records of the removed name and of names that end in a dot and it,
      with the same value, kind, host and container. */
  lemma TargetsExactly(prefix: string, store: Records, r: RecordIntent, k: string)
    requires Homed(prefix, store) && IsValidHostname(r.record.name) && k in store
    ensures k in Targets(prefix, store, r) <==> Hits(prefix, r, store[k])
    ensures k in Targets(prefix, store, r) <==>
            && (store[k].record.name == r.record.name || IsBelow(store[k].record.name, r.record.name))
            && store[k].record.value == r.record.value && store[k].record.kind == r.record.kind
            && store[k].hostname == r.hostname && store[k].containerName == r.containerName
            && (r.containerId == "" || store[k].containerId == r.containerId)
  {
    BaseBelow(prefix, store[k].record.name, r.record.name);
    assert HomedAt(prefix, k, store[k]);
    var leaf := HomeOf(prefix, k, store[k]);
    ValidIsNormal(store[k].record.name);
    ValidIsNormal(r.record.name);
    FoundBelow(prefix, store[k].record.name, leaf, r.record.name);
  }

  /** Everything else a removal hits has a longer base, and the removed record's value, kind,
      host and container. */
  lemma RemovalReach(prefix: string, store: Records, r: RecordIntent, k: string)
    requires Homed(prefix, store) && IsValidHostname(r.record.name)
    requires k in Targets(prefix, store, r)
    ensures
      || store[k].record == r.record
      || |KeyBaseForFqdn(prefix, store[k].record.name)| > |KeyBaseForFqdn(prefix, r.record.name)|
    ensures store[k].record.value == r.record.value && store[k].record.kind == r.record.kind
    ensures store[k].hostname == r.hostname && store[k].containerName == r.containerName
    ensures r.containerId == "" || store[k].containerId == r.containerId
  {
    TargetsExactly(prefix, store, r, k);
  }

  lemma IsTarget(prefix: string, store: Records, r: RecordIntent, k: string)
    requires k in store && HasPrefix(k, KeyBaseForFqdn(prefix, r.record.name) + "/") && Matches(store[k], r)
    ensures k in Targets(prefix, store, r)
  {
  }

  lemma PairIsHomed(prefix: string, r: RecordIntent, other: RecordIntent, k: string, l: string)
    requires k != l && HomedAt(prefix, k, r) && HomedAt(prefix, l, other) && other.record.name != r.record.name
    ensures var store: Records := map[k := r, l := other]; Homed(prefix, store) && NoConflicts(store)
  {
    var store: Records := map[k := r, l := other];
    forall x | x in store
      ensures HomedAt(prefix, x, store[x])
    {
      assert x == k || x == l;
    }
  }

  lemma LongerPath(above: string, part: string, leaf: string)
    ensures HasPrefix(above + "/" + part + "/" + leaf, above + "/")
    ensures part != "" ==> |above + "/" + part + "/" + leaf| > |above + "/" + leaf|
  {
    assert above + "/" + part + "/" + leaf == (above + "/") + (part + "/" + leaf);
  }

  /** A removal is not confined to its name: a record with the same value, kind and owner under a
      name below goes too. */
  lemma RemovalOverreaches(prefix: string, r: RecordIntent, other: RecordIntent, part: string)
    requires IsValidHostname(r.record.name) && IsLabel(part) && |part| + 1 + |r.record.name| <= 255
    requires other == r.(record := Record(part + "." + r.record.name, r.record.kind, r.record.value))
    ensures exists store: Records, k: string, l: string ::
              && Homed(prefix, store) && NoConflicts(store) && k in store && l in store
              && store[k] == r && store[l] == other && {k, l} <= Targets(prefix, store, r)
  {
    var k, l := LeafKey(prefix, r.record.name, "x1"), LeafKey(prefix, other.record.name, "x1");
    BelowIsPrefix(prefix, r.record.name, part);
    LongerPath(KeyBaseForFqdn(prefix, r.record.name), part, "x1");
    RegisteredIsHomed(prefix, r, "x1");
    RegisteredIsHomed(prefix, other, "x1");
    assert |other.record.name| > |r.record.name|;
    var store: Records := map[k := r, l := other];
    PairIsHomed(prefix, r, other, k, l);
    RemovalHitsItself(prefix, store, r, k);
    IsTarget(prefix, store, r, l);
  }

  lemma RegisteredIsHomed(prefix: string, d: RecordIntent, leaf: string)
    requires IsValidHostname(d.record.name) && '/' !in leaf
    ensures HomedAt(prefix, LeafKey(prefix, d.record.name, leaf), d)
  {
    var base := KeyBaseForFqdn(prefix, d.record.name);
    assert LeafKey(prefix, d.record.name, leaf)[|base| + 1..] == leaf;
  }

  /** A listing of a conflict-free store is clean and lists its records. */
  lemma ListingIsClean(store: Records, keys: seq<string>, intents: seq<RecordIntent>)
    requires NoConflicts(store) && Supports(store) && Enumerates(keys, store)
    requires Follows(intents, keys, store)
    ensures CleanList(intents) && Elems(intents) == store.Values
  {
    forall k | k in store
      ensures store[k] in Elems(intents)
    {
      var i :| 0 <= i < |keys| && keys[i] == k;
      assert intents[i] == store[k];
    }
  }

  lemma ValuesClean(store: Records)
    requires NoConflicts(store) && Supports(store)
    ensures Clean(store.Values)
  {
    forall x, y | x in store.Values && y in store.Values && x != y
      ensures !Conflict(x.record, y.record)
    {
      var k :| k in store && store[k] == x;
      var l :| l in store && store[l] == y;
    }
  }
}
