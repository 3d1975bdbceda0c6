/** The index of record intents by name, then kind, then value. */
module NestedRecordMaps {
  import opened Domain
  import opened DefaultMaps

  datatype RecordMap = RecordMap(records: map<string, RecordIntent>)
  datatype KindMap = KindMap(kinds: map<RecordKind, RecordMap>)
  type Index = map<string, KindMap>

  function KindsAt(index: Index, name: string): KindMap {
    if name in index then index[name] else KindMap(map[])
  }

  function LeafOf(kinds: KindMap, kind: RecordKind): map<string, RecordIntent> {
    if kind in kinds.kinds then kinds.kinds[kind].records else map[]
  }

  /** What the three levels say about one whole record. */
  function Read(index: Index, r: Record): Option<RecordIntent> {
    var leaf := LeafOf(KindsAt(index, r.name), r.kind);
    if r.value in leaf then Some(leaf[r.value]) else None
  }

  /** The nested maps mean one flat map on whole records. */
  ghost predicate Flattens(index: Index, flat: map<Record, RecordIntent>) {
    && (forall r: Record :: Read(index, r) == if r in flat then Some(flat[r]) else None)
    && (forall r: Record :: r in flat ==> flat[r].record == r)
  }

  ghost predicate NoEmptyInner(index: Index) {
    && (forall name :: name in index ==> index[name].kinds != map[])
    && (forall name, kind :: name in index && kind in index[name].kinds ==> index[name].kinds[kind].records != map[])
  }

  /** As NoEmptyInner, but the leaf of one name and kind may be empty. */
  ghost predicate NoEmptyBut(index: Index, n: string, k: RecordKind) {
    && (forall name :: name in index ==> index[name].kinds != map[])
    && (forall name, kind :: name in index && kind in index[name].kinds && (name != n || kind != k) ==>
          index[name].kinds[kind].records != map[])
  }

  ghost function AtNameKind(flat: map<Record, RecordIntent>, name: string, kind: RecordKind): set<RecordIntent> {
    set r | r in flat && r.name == name && r.kind == kind :: flat[r]
  }

  ghost function AtName(flat: map<Record, RecordIntent>, name: string): set<RecordIntent> {
    set r | r in flat && r.name == name :: flat[r]
  }

  function WithRecords(index: Index, name: string, kind: RecordKind, records: map<string, RecordIntent>): Index {
    index[name := KindMap(KindsAt(index, name).kinds[kind := RecordMap(records)])]
  }

  function PutInto(index: Index, ri: RecordIntent): Index {
    WithRecords(index, ri.record.name, ri.record.kind,
                LeafOf(KindsAt(index, ri.record.name), ri.record.kind)[ri.record.value := ri])
  }

  lemma WithRecordsNoEmpty(index: Index, name: string, kind: RecordKind, records: map<string, RecordIntent>)
    requires NoEmptyBut(index, name, kind) && records != map[]
    ensures NoEmptyInner(WithRecords(index, name, kind, records))
  {
    assert kind in WithRecords(index, name, kind, records)[name].kinds;
  }

  lemma WithRecordsRead(index: Index, name: string, kind: RecordKind, records: map<string, RecordIntent>, r: Record)
    ensures Read(WithRecords(index, name, kind, records), r) ==
            if r.name == name && r.kind == kind then (if r.value in records then Some(records[r.value]) else None)
            else Read(index, r)
  {
  }

  lemma PutIntoReads(index: Index, flat: map<Record, RecordIntent>, ri: RecordIntent)
    requires Flattens(index, flat)
    ensures Flattens(PutInto(index, ri), flat[ri.record := ri])
  {
    var r := ri.record;
    var records := LeafOf(KindsAt(index, r.name), r.kind)[r.value := ri];
    forall q: Record
      ensures Read(PutInto(index, ri), q) == if q in flat[r := ri] then Some(flat[r := ri][q]) else None
    {
      WithRecordsRead(index, r.name, r.kind, records, q);
      assert Read(index, q) == if q in flat then Some(flat[q]) else None;
    }
  }

  lemma PutIntoFlattens(index: Index, flat: map<Record, RecordIntent>, ri: RecordIntent)
    requires Flattens(index, flat) && NoEmptyBut(index, ri.record.name, ri.record.kind)
    ensures Flattens(PutInto(index, ri), flat[ri.record := ri]) && NoEmptyInner(PutInto(index, ri))
  {
    var r := ri.record;
    var records := LeafOf(KindsAt(index, r.name), r.kind)[r.value := ri];
    assert r.value in records;
    WithRecordsNoEmpty(index, r.name, r.kind, records);
    PutIntoReads(index, flat, ri);
  }

  /** Get(name).Get(kind).Delete(value): the inner map may be left empty. */
  function DropFrom(index: Index, r: Record): Index {
    WithRecords(index, r.name, r.kind, LeafOf(KindsAt(index, r.name), r.kind) - {r.value})
  }

  lemma DropFromNoEmpty(index: Index, gone: Record)
    requires NoEmptyInner(index)
    ensures NoEmptyBut(DropFrom(index, gone), gone.name, gone.kind)
  {
    assert gone.kind in DropFrom(index, gone)[gone.name].kinds;
  }

  lemma DropFromFlattens(index: Index, flat: map<Record, RecordIntent>, gone: Record)
    requires Flattens(index, flat) && NoEmptyInner(index)
    ensures Flattens(DropFrom(index, gone), flat - {gone})
    ensures NoEmptyBut(DropFrom(index, gone), gone.name, gone.kind)
  {
    DropFromNoEmpty(index, gone);
    var leaf := LeafOf(KindsAt(index, gone.name), gone.kind) - {gone.value};
    forall q: Record
      ensures Read(DropFrom(index, gone), q) == if q in flat - {gone} then Some((flat - {gone})[q]) else None
    {
      WithRecordsRead(index, gone.name, gone.kind, leaf, q);
      assert Read(index, q) == if q in flat then Some(flat[q]) else None;
      assert q == gone <==> q.name == gone.name && q.kind == gone.kind && q.value == gone.value;
    }
  }

  lemma LeafIsAtNameKind(index: Index, flat: map<Record, RecordIntent>, name: string, kind: RecordKind)
    requires Flattens(index, flat)
    ensures LeafOf(KindsAt(index, name), kind).Values == AtNameKind(flat, name, kind)
    ensures forall v :: v in LeafOf(KindsAt(index, name), kind) ==>
              LeafOf(KindsAt(index, name), kind)[v].record == Record(name, kind, v)
  {
    var leaf := LeafOf(KindsAt(index, name), kind);
    forall v | v in leaf
      ensures Record(name, kind, v) in flat && flat[Record(name, kind, v)] == leaf[v]
    {
      assert Read(index, Record(name, kind, v)) == Some(leaf[v]);
    }
    forall x | x in AtNameKind(flat, name, kind)
      ensures x in leaf.Values
    {
      var r :| r in flat && r.name == name && r.kind == kind && flat[r] == x;
      assert Read(index, r) == Some(x);
      assert r.value in leaf;
    }
  }

  lemma NamesOfFlat(index: Index, flat: map<Record, RecordIntent>)
    requires Flattens(index, flat) && NoEmptyInner(index)
    ensures forall n :: n in index <==> exists r :: r in flat && r.name == n
    ensures forall r :: r in flat ==> r.kind in KindsAt(index, r.name).kinds
  {
    forall n | n in index
      ensures exists r :: r in flat && r.name == n
    {
      var k :| k in index[n].kinds;
      var v :| v in index[n].kinds[k].records;
      assert Read(index, Record(n, k, v)).Some?;
    }
    forall r | r in flat
      ensures r.name in index && r.kind in KindsAt(index, r.name).kinds
    {
      assert Read(index, r).Some?;
    }
  }

  /** Lists the intents of one inner map, each once. */
  method LeafValues(leaf: map<string, RecordIntent>) returns (values: seq<RecordIntent>)
    requires forall v :: v in leaf ==> leaf[v].record.value == v
    ensures Elems(values) == leaf.Values
    ensures leaf != map[] ==> values != []
    ensures NoDuplicates(values)
  {
    values := [];
    var rest := leaf.Keys;
    while rest != {}
      invariant rest <= leaf.Keys
      invariant forall x :: x in values ==>
                  x.record.value in leaf && x == leaf[x.record.value] && x.record.value !in rest
      invariant forall v :: v in leaf && v !in rest ==> leaf[v] in values
      invariant NoDuplicates(values)
      decreases |rest|
    {
      var v :| v in rest;
      rest := rest - {v};
      values := values + [leaf[v]];
    }
    if v :| v in leaf {
      assert leaf[v] in values;
    }
  }

  ghost function UnderNames(flat: map<Record, RecordIntent>, names: set<string>): set<RecordIntent> {
    set r | r in flat && r.name in names :: flat[r]
  }

  lemma UnderOneMore(flat: map<Record, RecordIntent>, done: set<string>, name: string, values: seq<RecordIntent>,
          more: seq<RecordIntent>)
    requires forall r :: r in flat ==> flat[r].record == r
    requires Elems(values) == UnderNames(flat, done) && Elems(more) == AtName(flat, name) && name !in done
    requires NoDuplicates(values) && NoDuplicates(more)
    ensures Elems(values + more) == UnderNames(flat, done + {name})
    ensures NoDuplicates(values + more)
  {
    assert forall x :: x in values ==> x in UnderNames(flat, done) && x.record.name in done;
    assert forall x :: x in more ==> x in AtName(flat, name) && x.record.name == name;
    AppendNoDuplicates(values, more);
    assert Elems(values + more) == Elems(values) + Elems(more);
    assert UnderNames(flat, done + {name}) == UnderNames(flat, done) + AtName(flat, name);
  }

  lemma AllUnderNames(flat: map<Record, RecordIntent>, done: set<string>)
    requires forall r :: r in flat ==> r.name in done
    ensures UnderNames(flat, done) == flat.Values
  {
  }

  /** The intents of a name whose kind is no longer to be listed, each once. */
  ghost predicate AllBut(flat: map<Record, RecordIntent>, name: string, rest: set<RecordKind>,
          values: seq<RecordIntent>) {
    && NoDuplicates(values)
    && (forall x :: x in values ==> x in AtName(flat, name) && x.record.kind !in rest)
    && (forall r :: r in flat && r.name == name && r.kind !in rest ==> flat[r] in values)
  }

  lemma OneKindMore(flat: map<Record, RecordIntent>, name: string, rest: set<RecordKind>, kind: RecordKind,
          values: seq<RecordIntent>, more: seq<RecordIntent>)
    requires forall r :: r in flat ==> flat[r].record == r
    requires AllBut(flat, name, rest, values) && kind in rest
    requires NoDuplicates(more) && Elems(more) == AtNameKind(flat, name, kind)
    ensures AllBut(flat, name, rest - {kind}, values + more)
  {
    forall x | x in more
      ensures x in AtName(flat, name) && x.record.kind == kind
    {
      assert x in AtNameKind(flat, name, kind);
    }
    forall r | r in flat && r.name == name && r.kind == kind
      ensures flat[r] in more
    {
      assert flat[r] in AtNameKind(flat, name, kind);
    }
    AppendNoDuplicates(values, more);
  }

  lemma NoneLeft(flat: map<Record, RecordIntent>, name: string, values: seq<RecordIntent>)
    requires AllBut(flat, name, {}, values)
    ensures Elems(values) == AtName(flat, name)
  {
    forall x | x in AtName(flat, name)
      ensures x in values
    {
      var r :| r in flat && r.name == name && flat[r] == x;
      assert r.kind !in {};
    }
  }

  function ByRecord(intents: seq<RecordIntent>): map<Record, RecordIntent> {
    if intents == [] then map[]
    else ByRecord(intents[..|intents| - 1])[intents[|intents| - 1].record := intents[|intents| - 1]]
  }

  lemma ByRecordStep(flat: map<Record, RecordIntent>, intents: seq<RecordIntent>, i: nat)
    requires i < |intents|
    ensures flat + ByRecord(intents[..i + 1]) == (flat + ByRecord(intents[..i]))[intents[i].record := intents[i]]
  {
    assert intents[..i + 1][..i] == intents[..i];
  }

  /** Intents taken from a map, indexed again, are the part of the map they were taken from. */
  lemma {:induction false} ByRecordOf(intents: seq<RecordIntent>, flat: map<Record, RecordIntent>)
    requires forall x :: x in intents ==> x.record in flat && flat[x.record] == x
    ensures ByRecord(intents) == map r | r in flat && flat[r] in intents && flat[r].record == r :: flat[r]
  {
    if intents != [] {
      var init, last := intents[..|intents| - 1], intents[|intents| - 1];
      assert intents == init + [last];
      ByRecordOf(init, flat);
    }
  }

  class NestedRecordMap {
    const names: DefaultMap<string, KindMap>
    ghost var flat: map<Record, RecordIntent>

    ghost predicate Valid()
      reads this, names
    {
      Flattens(names.internal, flat) && NoEmptyInner(names.internal)
    }

    constructor ()
      ensures Valid() && fresh(names) && flat == map[]
    {
      names := new DefaultMap();
      flat := map[];
    }

    /** Get(name).Get(kind).Set(value, ri): the two reads create what is missing. */
    method Put(ri: RecordIntent)
      requires Flattens(names.internal, flat) && NoEmptyBut(names.internal, ri.record.name, ri.record.kind)
      modifies this, names
      ensures Valid() && flat == old(flat)[ri.record := ri]
    {
      PutIntoFlattens(names.internal, flat, ri);
      var r := ri.record;
      var kinds := names.Get(r.name, KindMap(map[]));
      var records := LeafOf(kinds, r.kind)[r.value := ri];
      names.Set(r.name, KindMap(kinds.kinds[r.kind := RecordMap(records)]));
      assert names.internal == PutInto(old(names.internal), ri);
      flat := flat[r := ri];
    }

    /** Get(name).Get(kind).Delete(value): may leave that one inner map empty. */
    method Drop(gone: Record)
      requires Valid()
      modifies this, names
      ensures Flattens(names.internal, flat) && NoEmptyBut(names.internal, gone.name, gone.kind)
      ensures flat == old(flat) - {gone}
    {
      DropFromFlattens(names.internal, flat, gone);
      var kinds := names.Get(gone.name, KindMap(map[]));
      var fewer := LeafOf(kinds, gone.kind) - {gone.value};
      names.Set(gone.name, KindMap(kinds.kinds[gone.kind := RecordMap(fewer)]));
      assert names.internal == DropFrom(old(names.internal), gone);
      flat := flat - {gone};
    }

    /** Lists the intents stored for a name and kind; an entry that exists is never empty. */
    method PeekNameKindRecords(name: string, kind: RecordKind) returns (records: seq<RecordIntent>, found: bool)
      requires Valid()
      ensures found <==> records != []
      ensures Elems(records) == AtNameKind(flat, name, kind)
      ensures forall x :: x in Elems(records) <==>
                exists r :: r in flat && r.name == name && r.kind == kind && flat[r] == x
      ensures NoDuplicates(records)
    {
      LeafIsAtNameKind(names.internal, flat, name, kind);
      var kinds := names.Peek(name);
      if kinds == None || kind !in kinds.value.kinds {
        return [], false;
      }
      found := true;
      records := LeafValues(kinds.value.kinds[kind].records);
    }

    method PeekNameKindRecord(r: Record) returns (record: Option<RecordIntent>)
      requires Valid()
      ensures record == if r in flat then Some(flat[r]) else None
    {
      var kinds := names.Peek(r.name);
      assert Read(names.internal, r) == if r in flat then Some(flat[r]) else None;
      if kinds == None || r.kind !in kinds.value.kinds {
        return None;
      }
      var leaf := kinds.value.kinds[r.kind].records;
      return if r.value in leaf then Some(leaf[r.value]) else None;
    }

    method GetAllNames() returns (all: seq<string>)
      requires Valid()
      ensures forall n :: n in all <==> exists r :: r in flat && r.name == n
      ensures NoDuplicates(all)
    {
      NamesOfFlat(names.internal, flat);
      all := names.Keys();
    }

    /** Every stored intent once, level by level. */
    method GetAllValues() returns (values: seq<RecordIntent>)
      requires Valid()
      ensures Elems(values) == flat.Values
      ensures NoDuplicates(values)
    {
      values := [];
      var allNames := names.Keys();
      ghost var done: set<string> := {};
      for i := 0 to |allNames|
        invariant done == Elems(allNames[..i])
        invariant Elems(values) == UnderNames(flat, done)
        invariant NoDuplicates(values)
      {
        var name := allNames[i];
        assert name in allNames && name !in done;
        var more := ValuesUnder(name);
        UnderOneMore(flat, done, name, values, more);
        values := values + more;
        done := done + {name};
        assert allNames[..i + 1] == allNames[..i] + [name];
      }
      assert allNames[..|allNames|] == allNames;
      NamesOfFlat(names.internal, flat);
      AllUnderNames(flat, done);
    }

    /** The two inner loops of GetAllValues. */
    method ValuesUnder(name: string) returns (values: seq<RecordIntent>)
      requires Valid() && name in names.internal
      ensures Elems(values) == AtName(flat, name)
      ensures NoDuplicates(values)
    {
      NamesOfFlat(names.internal, flat);
      values := [];
      var rest := names.internal[name].kinds.Keys;
      while rest != {}
        invariant AllBut(flat, name, rest, values)
        decreases |rest|
      {
        var kind :| kind in rest;
        var more, _ := PeekNameKindRecords(name, kind);
        OneKindMore(flat, name, rest, kind, values, more);
        rest := rest - {kind};
        values := values + more;
      }
      NoneLeft(flat, name, values);
    }

    /** Stores each of the intents in turn. */
    method PutAll(intents: seq<RecordIntent>)
      requires Valid()
      modifies this, names
      ensures Valid() && flat == old(flat) + ByRecord(intents)
    {
      for i := 0 to |intents|
        invariant Valid()
        invariant flat == old(flat) + ByRecord(intents[..i])
      {
        ByRecordStep(old(flat), intents, i);
        Put(intents[i]);
      }
      assert intents[..|intents|] == intents;
    }

    /** The address records of a name, A before AAAA. */
    method AddrRecords(name: string) returns (addresses: seq<RecordIntent>, found: bool)
      requires Valid()
      ensures found <==> addresses != []
      ensures Elems(addresses) == AtNameKind(flat, name, A) + AtNameKind(flat, name, AAAA)
      ensures forall x :: x in Elems(addresses) <==>
                exists r :: r in flat && r.name == name && r.kind in {A, AAAA} && flat[r] == x
    {
      var a, hasA := PeekNameKindRecords(name, A);
      var aaaa, hasAAAA := PeekNameKindRecords(name, AAAA);
      if !hasA && !hasAAAA {
        return [], false;
      }
      addresses, found := a + aaaa, true;
      assert Elems(a + aaaa) == Elems(a) + Elems(aaaa);
    }
  }
}
