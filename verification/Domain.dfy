/** The values the whole program speaks about: DNS records, the intents that carry them,
    the identity of an intent, and the DNS rules two records can break together. */
module Domain {
  datatype Option<+T> = None | Some(value: T)

  /** A record kind is free text in the source; only three texts are supported. */
  datatype RecordKind = A | AAAA | CNAME | Other(text: string)

  datatype Record = Record(name: string, kind: RecordKind, value: string) {
    predicate IsAddress() {
      kind == A || kind == AAAA
    }

    predicate Supported() {
      !kind.Other?
    }
  }

  type uint32 = x: int | 0 <= x < 0x1_0000_0000

  /** `created` is the container's creation instant; only its order matters. */
  datatype RecordIntent = RecordIntent(
    containerId: string,
    containerName: string,
    created: nat,
    hostname: string,
    force: bool,
    ttl: uint32,
    record: Record) {
    /** The identity the diff works with. The creation instant is not part of it. */
    function Key(): IntentKey {
      IntentKey(containerId, containerName, hostname, force, ttl, record)
    }

    predicate Equal(other: RecordIntent) {
      && containerId == other.containerId
      && containerName == other.containerName
      && hostname == other.hostname
      && force == other.force
      && ttl == other.ttl
      && record == other.record
    }
  }

  datatype IntentKey = IntentKey(
    containerId: string,
    containerName: string,
    hostname: string,
    force: bool,
    ttl: uint32,
    record: Record)

  /** Two records that may not be stored together: a CNAME beside any other supported record
      of its name, or the same address twice in one family. */
  predicate Conflict(a: Record, b: Record) {
    && a.name == b.name
    && ((a.kind == CNAME && (b.kind == CNAME || b.IsAddress()))
        || (b.kind == CNAME && a.IsAddress())
        || (a.IsAddress() && a.kind == b.kind && a.value == b.value))
  }

  /** A listing in which no two entries conflict. */
  predicate ConflictFree(xs: seq<RecordIntent>) {
    forall i, j :: 0 <= i < j < |xs| ==> !Conflict(xs[i].record, xs[j].record)
  }

  /** A store in which no two records conflict. */
  predicate WellFormed(store: set<RecordIntent>) {
    forall x, y :: x in store && y in store && x != y ==> !Conflict(x.record, y.record)
  }

  predicate AllSupported(store: set<RecordIntent>) {
    forall x :: x in store ==> x.record.Supported()
  }

  function Elems<T>(xs: seq<T>): set<T> {
    set x | x in xs
  }

  predicate NoDuplicates<T(==)>(xs: seq<T>) {
    forall i, j :: 0 <= i < j < |xs| ==> xs[i] != xs[j]
  }

  lemma AppendNoDuplicates<T>(xs: seq<T>, ys: seq<T>)
    requires NoDuplicates(xs) && NoDuplicates(ys)
    requires forall x :: x in xs && x in ys ==> false
    ensures NoDuplicates(xs + ys)
  {
    var all := xs + ys;
    forall i, j | 0 <= i < j < |all|
      ensures all[i] != all[j]
    {
      if i < |xs| <= j {
        assert all[i] in xs && all[j] in ys;
      }
    }
  }

  function Keys(store: set<RecordIntent>): set<IntentKey> {
    set x | x in store :: x.Key()
  }

  lemma ConflictFreePair(xs: seq<RecordIntent>, i: nat, j: nat)
    requires ConflictFree(xs) && i < |xs| && j < |xs|
    ensures i != j ==> !Conflict(xs[i].record, xs[j].record)
  {
    assert Conflict(xs[i].record, xs[j].record) == Conflict(xs[j].record, xs[i].record);
  }

  lemma ConflictFreeWellFormed(xs: seq<RecordIntent>)
    requires ConflictFree(xs)
    ensures WellFormed(Elems(xs))
  {
    forall x, y | x in Elems(xs) && y in Elems(xs) && x != y
      ensures !Conflict(x.record, y.record)
    {
      var i :| 0 <= i < |xs| && xs[i] == x;
      var j :| 0 <= j < |xs| && xs[j] == y;
      if i < j {
        assert !Conflict(xs[i].record, xs[j].record);
      } else {
        assert !Conflict(xs[j].record, xs[i].record);
      }
    }
  }
}
