/** The fold of one host's own intents into a conflict-free desired set. */
module Filter {
  import opened Domain
  import opened Priority
  import opened NestedRecordMaps

  /** Records that compete for one place: a name has one CNAME, and one intent per address. */
  predicate SameSlot(a: Record, b: Record) {
    a.name == b.name && a.kind == b.kind && (a.kind == CNAME || a.value == b.value)
  }

  /** Input j does not keep input k out of its slot: an earlier rival must be beaten, a later
      one must fail to beat. */
  predicate Yields(xs: seq<RecordIntent>, j: nat, k: nat)
    requires j < |xs| && k < |xs|
  {
    SameSlot(xs[j].record, xs[k].record) ==>
      if j < k then ShouldReplaceExisting(xs[k], xs[j]) else !ShouldReplaceExisting(xs[j], xs[k])
  }

  /** Among the first n inputs, number k holds its slot: it is the first of those no other beats. */
  predicate Champion(xs: seq<RecordIntent>, n: nat, k: nat)
    requires n <= |xs|
  {
    k < n && xs[k].record.Supported() && forall j: nat :: j < n && j != k ==> Yields(xs, j, k)
  }

  predicate IsAddressOf(r: Record, name: string) {
    r.name == name && r.IsAddress()
  }

  predicate IsAliasOf(r: Record, name: string) {
    r.name == name && r.kind == CNAME
  }

  /** Some CNAME of the name beats every address of the name. */
  predicate Aliased(xs: seq<RecordIntent>, name: string) {
    exists k :: 0 <= k < |xs| && IsAliasOf(xs[k].record, name) &&
      forall j :: 0 <= j < |xs| && IsAddressOf(xs[j].record, name) ==> ShouldReplaceExisting(xs[k], xs[j])
  }

  /** What the filter keeps, said without an order of evaluation. */
  predicate Survives(xs: seq<RecordIntent>, k: nat) {
    Champion(xs, |xs|, k) && (xs[k].record.kind == CNAME <==> Aliased(xs, xs[k].record.name))
  }

  /** The input that holds the slot of r once the first n inputs have been folded in. */
  function Holder(xs: seq<RecordIntent>, n: nat, r: Record): (h: Option<nat>)
    requires n <= |xs|
    ensures h.Some? ==> h.value < n && SameSlot(xs[h.value].record, r) && xs[h.value].record.Supported()
  {
    if n == 0 then None
    else
      var h := Holder(xs, n - 1, r);
      if xs[n - 1].record.Supported() && SameSlot(xs[n - 1].record, r)
        && (h == None || ShouldReplaceExisting(xs[n - 1], xs[h.value])) then Some(n - 1)
      else h
  }

  function Occupant(xs: seq<RecordIntent>, n: nat, r: Record): Option<RecordIntent>
    requires n <= |xs|
  {
    var h := Holder(xs, n, r);
    if h.Some? && xs[h.value].record == r then Some(xs[h.value]) else None
  }

  /** The index after n inputs: each slot's holder, stored under its own record. */
  ghost predicate Tracks(flat: map<Record, RecordIntent>, xs: seq<RecordIntent>, n: nat)
    requires n <= |xs|
  {
    forall r: Record :: Occupant(xs, n, r) == if r in flat then Some(flat[r]) else None
  }

  lemma {:induction false} HolderOfSlot(xs: seq<RecordIntent>, n: nat, r: Record, q: Record)
    requires n <= |xs| && SameSlot(r, q)
    ensures Holder(xs, n, r) == Holder(xs, n, q)
  {
    if n > 0 {
      HolderOfSlot(xs, n - 1, r, q);
    }
  }

  /** The holder of a slot is its champion, and only the champion holds it. */
  lemma {:induction false} HolderIsChampion(xs: seq<RecordIntent>, n: nat, r: Record)
    requires n <= |xs|
    ensures Holder(xs, n, r).Some? ==> Champion(xs, n, Holder(xs, n, r).value)
    ensures Holder(xs, n, r) == None ==>
              forall j: nat :: j < n && xs[j].record.Supported() ==> !SameSlot(xs[j].record, r)
  {
    if n > 0 {
      HolderIsChampion(xs, n - 1, r);
      var h, g := Holder(xs, n, r), Holder(xs, n - 1, r);
      if h.Some? {
        forall j: nat | j < n && j != h.value
          ensures Yields(xs, j, h.value)
        {
          if g.Some? && j != g.value && j < n - 1 {
            assert Yields(xs, j, g.value);
          }
        }
      }
    }
  }

  lemma OneHolder(xs: seq<RecordIntent>, k: nat, l: nat)
    requires k < |xs| && l < |xs| && k != l && SameSlot(xs[k].record, xs[l].record)
    ensures !(Yields(xs, k, l) && Yields(xs, l, k))
  {
  }

  lemma ChampionIsHolder(xs: seq<RecordIntent>, n: nat, k: nat)
    requires n <= |xs| && Champion(xs, n, k)
    ensures Holder(xs, n, xs[k].record) == Some(k)
  {
    HolderIsChampion(xs, n, xs[k].record);
    var h := Holder(xs, n, xs[k].record);
    assert h.Some?;
    if h.value != k {
      OneHolder(xs, h.value, k);
    }
  }

  /** What one input does to the index. */
  lemma FoldOne(xs: seq<RecordIntent>, n: nat, flat: map<Record, RecordIntent>)
    requires n < |xs| && Tracks(flat, xs, n)
    ensures
      var x, h := xs[n], Holder(xs, n, xs[n].record);
      Tracks(
        if !x.record.Supported() then flat
        else if h == None then flat[x.record := x]
        else if ShouldReplaceExisting(x, xs[h.value]) then (flat - {xs[h.value].record})[x.record := x]
        else flat, xs, n + 1)
  {
    var x, h := xs[n], Holder(xs, n, xs[n].record);
    var flat' :=
      if !x.record.Supported() then flat
      else if h == None then flat[x.record := x]
      else if ShouldReplaceExisting(x, xs[h.value]) then (flat - {xs[h.value].record})[x.record := x]
      else flat;
    forall r: Record
      ensures Occupant(xs, n + 1, r) == if r in flat' then Some(flat'[r]) else None
    {
      assert Occupant(xs, n, r) == if r in flat then Some(flat[r]) else None;
      if SameSlot(x.record, r) {
        HolderOfSlot(xs, n, x.record, r);
      }
    }
  }

  /** Phase 1 of the filter: deduplicate per slot. */
  method Deduplicate(xs: seq<RecordIntent>, index: NestedRecordMap)
    requires index.Valid() && index.flat == map[]
    modifies index, index.names
    ensures index.Valid() && Tracks(index.flat, xs, |xs|)
  {
    for n := 0 to |xs|
      invariant index.Valid() && Tracks(index.flat, xs, n)
    {
      var ri := xs[n];
      FoldOne(xs, n, index.flat);
      match ri.record.kind
      case A =>
        var existing := index.PeekNameKindRecord(ri.record);
        AddressHolder(index.flat, xs, n);
        if existing == None || ShouldReplaceExisting(ri, existing.value) {
          index.Put(ri);
        }
      case AAAA =>
        var existing := index.PeekNameKindRecord(ri.record);
        AddressHolder(index.flat, xs, n);
        if existing == None || ShouldReplaceExisting(ri, existing.value) {
          index.Put(ri);
        }
      case CNAME =>
        var cnames, found := index.PeekNameKindRecords(ri.record.name, CNAME);
        CnameHolder(index.flat, xs, n, cnames);
        if found {
          var existing := cnames[0];
          if ShouldReplaceExisting(ri, existing) {
            index.Drop(existing.record);
            index.Put(ri);
          }
        } else {
          index.Put(ri);
        }
      case Other(_) =>
    }
  }

  lemma AddressHolder(flat: map<Record, RecordIntent>, xs: seq<RecordIntent>, n: nat)
    requires n < |xs| && Tracks(flat, xs, n) && xs[n].record.IsAddress()
    ensures
      var r, h := xs[n].record, Holder(xs, n, xs[n].record);
      && (r in flat <==> h.Some?)
      && (h.Some? ==> flat[r] == xs[h.value] && (flat - {xs[h.value].record})[r := xs[n]] == flat[r := xs[n]])
  {
    var r := xs[n].record;
    assert Occupant(xs, n, r) == if r in flat then Some(flat[r]) else None;
  }

  lemma CnameHolder(flat: map<Record, RecordIntent>, xs: seq<RecordIntent>, n: nat, cnames: seq<RecordIntent>)
    requires n < |xs| && Tracks(flat, xs, n) && xs[n].record.kind == CNAME
    requires Elems(cnames) == AtNameKind(flat, xs[n].record.name, CNAME)
    ensures
      var h := Holder(xs, n, xs[n].record);
      (cnames != [] <==> h.Some?) && (h.Some? ==> cnames[0] == xs[h.value])
  {
    var x, h := xs[n], Holder(xs, n, xs[n].record);
    if cnames != [] {
      assert cnames[0] in AtNameKind(flat, x.record.name, CNAME);
      var r :| r in flat && r.name == x.record.name && r.kind == CNAME && flat[r] == cnames[0];
      assert Occupant(xs, n, r) == Some(flat[r]);
      HolderOfSlot(xs, n, r, x.record);
    }
    if h.Some? {
      var r := xs[h.value].record;
      HolderOfSlot(xs, n, r, x.record);
      assert Occupant(xs, n, r) == if r in flat then Some(flat[r]) else None;
      assert flat[r] in AtNameKind(flat, x.record.name, CNAME);
    }
  }

  predicate IsCnameOrAddress(r: Record, cname: bool) {
    r.Supported() && (r.kind == CNAME <==> cname)
  }

  /** Phase 2 of the filter: resolve every name. */
  method ResolveAll(index: NestedRecordMap, kept: NestedRecordMap)
    requires index.Valid() && kept.Valid() && index != kept && index.names != kept.names
    requires AtMostOneCname(index.flat) && kept.flat == map[]
    modifies kept, kept.names
    ensures kept.Valid() && kept.flat == KeptOf(index.flat, NamesOf(index.flat))
  {
    var names := index.GetAllNames();
    assert kept.flat == KeptOf(index.flat, {});
    ghost var done: set<string> := {};
    for i := 0 to |names|
      invariant index.Valid() && kept.Valid()
      invariant done == Elems(names[..i])
      invariant kept.flat == KeptOf(index.flat, done)
    {
      ResolveName(index, kept, names[i], done);
      done := done + {names[i]};
      assert names[..i + 1] == names[..i] + [names[i]];
    }
    assert names[..|names|] == names;
    assert done == NamesOf(index.flat);
  }

  ghost function NamesOf(flat: map<Record, RecordIntent>): set<string> {
    set r | r in flat :: r.name
  }

  /** Folds the intents into a conflict-free set: exactly the survivors, each once, in an order
      that depends on map iteration. */
  method FilterRecordIntents(recordIntents: seq<RecordIntent>) returns (out: seq<RecordIntent>)
    ensures forall x :: x in out <==> exists k: nat :: Survives(recordIntents, k) && recordIntents[k] == x
    ensures ConflictFree(out) && AllSupported(Elems(out)) && NoDuplicates(out)
    ensures IsFold(recordIntents, out)
  {
    var index := new NestedRecordMap();
    Deduplicate(recordIntents, index);
    var kept := new NestedRecordMap();
    assert AtMostOneCname(index.flat) by {
      TrackedIsChampion(index.flat, recordIntents);
    }
    ResolveAll(index, kept);
    out := kept.GetAllValues();
    KeptIsSurvivors(index.flat, recordIntents, out);
    SurvivorsConflictFree(recordIntents, out);
    SurvivorsAreFold(recordIntents, out);
  }

  /** What the fold keeps, by force and age: of the inputs for one place the first of those that rank
      highest; and a CNAME of a name if and only if one of its inputs ranks above every address input of
      the name, otherwise an intent for each address. */
  ghost predicate IsFold(xs: seq<RecordIntent>, out: seq<RecordIntent>) {
    && (forall x :: x in out ==> exists k :: 0 <= k < |xs| && xs[k] == x && IsFirstBest(xs, k))
    && (forall name :: KeepsCname(out, name) <==> exists k :: 0 <= k < |xs| && CnameAbove(xs, name, k))
    && (forall a :: a in xs && a.record.kind in {A, AAAA} ==>
          (KeepsRecord(out, a.record) <==> !KeepsCname(out, a.record.name)))
  }

  predicate KeepsCname(out: seq<RecordIntent>, name: string) {
    exists x :: x in out && x.record.name == name && x.record.kind == CNAME
  }

  predicate KeepsRecord(out: seq<RecordIntent>, r: Record) {
    exists x :: x in out && x.record == r
  }

  /** Input k is a CNAME of the name and has force over every address input of it, or the same force and
      an earlier creation. */
  predicate CnameAbove(xs: seq<RecordIntent>, name: string, k: nat)
    requires k < |xs|
  {
    && xs[k].record.name == name && xs[k].record.kind == CNAME
    && forall a :: a in xs && a.record.name == name && a.record.kind in {A, AAAA} ==>
         (xs[k].force && !a.force) || (xs[k].force == a.force && xs[k].created < a.created)
  }

  /** Two records for one place: the CNAMEs of a name, or one address of a name. */
  predicate SamePlace(r: Record, q: Record) {
    (r.name == q.name && r.kind == q.kind == CNAME) || (r == q && r.kind in {A, AAAA})
  }

  /** Input k has force over each input for its place, or the same force and an earlier creation, or the
      same creation too and comes first. */
  predicate IsFirstBest(xs: seq<RecordIntent>, k: nat)
    requires k < |xs|
  {
    && xs[k].record.kind in {A, AAAA, CNAME}
    && forall j :: 0 <= j < |xs| && j != k && SamePlace(xs[j].record, xs[k].record) ==>
         || (xs[k].force && !xs[j].force)
         || (xs[k].force == xs[j].force && xs[k].created < xs[j].created)
         || (xs[k].force == xs[j].force && xs[k].created == xs[j].created && k < j)
  }

  lemma SurvivorIsFirstBest(xs: seq<RecordIntent>, k: nat)
    requires Survives(xs, k)
    ensures IsFirstBest(xs, k)
  {
    forall j: nat | j < |xs| && j != k && SamePlace(xs[j].record, xs[k].record)
      ensures
        || (xs[k].force && !xs[j].force)
        || (xs[k].force == xs[j].force && xs[k].created < xs[j].created)
        || (xs[k].force == xs[j].force && xs[k].created == xs[j].created && k < j)
    {
      assert Yields(xs, j, k);
    }
  }

  lemma AliasedByRank(xs: seq<RecordIntent>, name: string)
    ensures Aliased(xs, name) <==> exists k :: 0 <= k < |xs| && CnameAbove(xs, name, k)
  {
    if Aliased(xs, name) {
      var k: nat :| k < |xs| && IsAliasOf(xs[k].record, name) &&
        forall j :: 0 <= j < |xs| && IsAddressOf(xs[j].record, name) ==> ShouldReplaceExisting(xs[k], xs[j]);
      forall a | a in xs && a.record.name == name && a.record.kind in {A, AAAA}
        ensures ShouldReplaceExisting(xs[k], a)
      {
        var j :| 0 <= j < |xs| && xs[j] == a;
        assert IsAddressOf(xs[j].record, name);
      }
      assert CnameAbove(xs, name, k);
    }
    if k: nat :| k < |xs| && CnameAbove(xs, name, k) {
      forall j | 0 <= j < |xs| && IsAddressOf(xs[j].record, name)
        ensures ShouldReplaceExisting(xs[k], xs[j])
      {
        assert xs[j] in xs;
      }
      assert IsAliasOf(xs[k].record, name);
    }
  }

  lemma KeepsAlias(xs: seq<RecordIntent>, out: seq<RecordIntent>, name: string)
    requires forall x :: x in out <==> exists k: nat :: Survives(xs, k) && xs[k] == x
    ensures KeepsCname(out, name) <==> Aliased(xs, name)
  {
    if Aliased(xs, name) {
      var k: nat :| k < |xs| && IsAliasOf(xs[k].record, name) &&
        forall j :: 0 <= j < |xs| && IsAddressOf(xs[j].record, name) ==> ShouldReplaceExisting(xs[k], xs[j]);
      var c := ChampionOf(xs, k);
      assert Survives(xs, c) && xs[c] in out;
    }
    if x :| x in out && x.record.name == name && x.record.kind == CNAME {
      var k: nat :| Survives(xs, k) && xs[k] == x;
    }
  }

  lemma KeepsAddress(xs: seq<RecordIntent>, out: seq<RecordIntent>, j: nat)
    requires forall x :: x in out <==> exists k: nat :: Survives(xs, k) && xs[k] == x
    requires j < |xs| && xs[j].record.IsAddress()
    ensures KeepsRecord(out, xs[j].record) <==> !Aliased(xs, xs[j].record.name)
  {
    if !Aliased(xs, xs[j].record.name) {
      var c := ChampionOf(xs, j);
      assert Survives(xs, c) && xs[c] in out;
    }
    if x :| x in out && x.record == xs[j].record {
      var k: nat :| Survives(xs, k) && xs[k] == x;
    }
  }

  lemma SurvivorsAreFold(xs: seq<RecordIntent>, out: seq<RecordIntent>)
    requires forall x :: x in out <==> exists k: nat :: Survives(xs, k) && xs[k] == x
    ensures IsFold(xs, out)
  {
    forall x | x in out
      ensures exists k :: 0 <= k < |xs| && xs[k] == x && IsFirstBest(xs, k)
    {
      var k: nat :| Survives(xs, k) && xs[k] == x;
      SurvivorIsFirstBest(xs, k);
    }
    forall name
      ensures KeepsCname(out, name) <==> exists k :: 0 <= k < |xs| && CnameAbove(xs, name, k)
    {
      KeepsAlias(xs, out, name);
      AliasedByRank(xs, name);
    }
    forall a | a in xs && a.record.kind in {A, AAAA}
      ensures KeepsRecord(out, a.record) <==> !KeepsCname(out, a.record.name)
    {
      var j :| 0 <= j < |xs| && xs[j] == a;
      KeepsAddress(xs, out, j);
      KeepsAlias(xs, out, a.record.name);
    }
  }

  /** The one CNAME held for the name beats every address held for it. */
  ghost predicate CnameWins(flat: map<Record, RecordIntent>, name: string) {
    exists c :: c in AtNameKind(flat, name, CNAME) &&
      forall a :: a in AtNameKind(flat, name, A) + AtNameKind(flat, name, AAAA) ==> ShouldReplaceExisting(c, a)
  }

  ghost function KeptOf(flat: map<Record, RecordIntent>, names: set<string>): map<Record, RecordIntent> {
    map r | r in flat && r.name in names && IsCnameOrAddress(r, CnameWins(flat, r.name)) :: flat[r]
  }

  /** Phase 2 of the filter for one name: its CNAME or its addresses, never both. */
  method ResolveName(index: NestedRecordMap, kept: NestedRecordMap, name: string, ghost done: set<string>)
    requires index.Valid() && kept.Valid() && index != kept && index.names != kept.names
    requires AtMostOneCname(index.flat) && kept.flat == KeptOf(index.flat, done)
    modifies kept, kept.names
    ensures kept.Valid() && kept.flat == KeptOf(index.flat, done + {name})
  {
    var aRecs, hasA := index.PeekNameKindRecords(name, A);
    var aaaaRecs, hasAAAA := index.PeekNameKindRecords(name, AAAA);
    var cnameRecs, hasCNAME := index.PeekNameKindRecords(name, CNAME);
    if hasCNAME {
      OnlyCname(index.flat, name, cnameRecs);
    }
    if hasCNAME && !(hasA || hasAAAA) {
      kept.Put(cnameRecs[0]);
      KeepCname(index.flat, name, done, cnameRecs[0]);
    } else if (hasA || hasAAAA) && !hasCNAME {
      kept.PutAll(aRecs);
      kept.PutAll(aaaaRecs);
      KeepAddresses(index.flat, name, done, aRecs, aaaaRecs);
    } else if hasCNAME && (hasA || hasAAAA) {
      var allAddr, _ := index.AddrRecords(name);
      var replace := ShouldReplaceAllExisting(cnameRecs[0], allAddr);
      if replace {
        forall a | a in AtNameKind(index.flat, name, A) + AtNameKind(index.flat, name, AAAA)
          ensures ShouldReplaceExisting(cnameRecs[0], a)
        {
          assert a in Elems(allAddr);
        }
        kept.Put(cnameRecs[0]);
        KeepCname(index.flat, name, done, cnameRecs[0]);
      } else {
        var i :| 0 <= i < |allAddr| && !ShouldReplaceExisting(cnameRecs[0], allAddr[i]);
        assert allAddr[i] in Elems(allAddr);
        kept.PutAll(aRecs);
        kept.PutAll(aaaaRecs);
        KeepAddresses(index.flat, name, done, aRecs, aaaaRecs);
      }
    } else {
      KeepNothing(index.flat, name, done);
    }
  }

  ghost predicate AtMostOneCname(flat: map<Record, RecordIntent>) {
    forall r, q :: r in flat && q in flat && r.kind == CNAME && q.kind == CNAME && r.name == q.name ==> r == q
  }

  lemma OnlyCname(flat: map<Record, RecordIntent>, name: string, cnames: seq<RecordIntent>)
    requires AtMostOneCname(flat) && cnames != [] && Elems(cnames) == AtNameKind(flat, name, CNAME)
    ensures AtNameKind(flat, name, CNAME) == {cnames[0]}
  {
    assert cnames[0] in AtNameKind(flat, name, CNAME);
  }

  lemma KeepCname(flat: map<Record, RecordIntent>, name: string, done: set<string>, c: RecordIntent)
    requires forall r :: r in flat ==> flat[r].record == r
    requires AtNameKind(flat, name, CNAME) == {c}
    requires forall a :: a in AtNameKind(flat, name, A) + AtNameKind(flat, name, AAAA) ==> ShouldReplaceExisting(c, a)
    ensures KeptOf(flat, done)[c.record := c] == KeptOf(flat, done + {name})
  {
    assert c in AtNameKind(flat, name, CNAME);
    assert CnameWins(flat, name);
    var before, after := KeptOf(flat, done), KeptOf(flat, done + {name});
    forall r | r in after
      ensures r in before[c.record := c]
    {
      if r.name == name {
        assert flat[r] in AtNameKind(flat, name, CNAME);
      }
    }
  }

  lemma KeepAddresses(flat: map<Record, RecordIntent>, name: string, done: set<string>, aRecs: seq<RecordIntent>,
          aaaaRecs: seq<RecordIntent>)
    requires forall r :: r in flat ==> flat[r].record == r
    requires Elems(aRecs) == AtNameKind(flat, name, A) && Elems(aaaaRecs) == AtNameKind(flat, name, AAAA)
    requires !CnameWins(flat, name)
    ensures KeptOf(flat, done) + ByRecord(aRecs) + ByRecord(aaaaRecs) == KeptOf(flat, done + {name})
  {
    InFlat(flat, name, A, aRecs);
    InFlat(flat, name, AAAA, aaaaRecs);
    var before, after := KeptOf(flat, done), KeptOf(flat, done + {name});
    assert forall r :: r in after <==> r in before || r in ByRecord(aRecs) || r in ByRecord(aaaaRecs);
  }

  lemma InFlat(flat: map<Record, RecordIntent>, name: string, kind: RecordKind, recs: seq<RecordIntent>)
    requires forall r :: r in flat ==> flat[r].record == r
    requires Elems(recs) == AtNameKind(flat, name, kind)
    ensures ByRecord(recs) == map r | r in flat && r.name == name && r.kind == kind :: flat[r]
  {
    forall x | x in recs
      ensures x.record in flat && flat[x.record] == x && x.record.name == name && x.record.kind == kind
    {
      assert x in AtNameKind(flat, name, kind);
    }
    ByRecordOf(recs, flat);
    forall r | r in flat && r.name == name && r.kind == kind
      ensures flat[r] in recs
    {
      assert flat[r] in AtNameKind(flat, name, kind);
    }
  }

  lemma KeepNothing(flat: map<Record, RecordIntent>, name: string, done: set<string>)
    requires forall r :: r in flat ==> flat[r].record == r
    requires AtNameKind(flat, name, A) == {} && AtNameKind(flat, name, AAAA) == {}
    requires AtNameKind(flat, name, CNAME) == {}
    ensures KeptOf(flat, done) == KeptOf(flat, done + {name})
  {
    assert forall r :: r in flat && r.name == name ==> flat[r] in AtNameKind(flat, name, r.kind);
  }

  lemma TrackedIsChampion(flat: map<Record, RecordIntent>, xs: seq<RecordIntent>)
    requires Tracks(flat, xs, |xs|)
    ensures forall r :: r in flat ==> exists k: nat :: Champion(xs, |xs|, k) && xs[k] == flat[r] && xs[k].record == r
    ensures forall k: nat :: Champion(xs, |xs|, k) ==> xs[k].record in flat && flat[xs[k].record] == xs[k]
    ensures AtMostOneCname(flat)
  {
    forall r | r in flat
      ensures exists k: nat :: Champion(xs, |xs|, k) && xs[k] == flat[r] && xs[k].record == r
    {
      assert Occupant(xs, |xs|, r) == Some(flat[r]);
      HolderIsChampion(xs, |xs|, r);
    }
    forall k: nat | Champion(xs, |xs|, k)
      ensures xs[k].record in flat && flat[xs[k].record] == xs[k]
    {
      ChampionIsHolder(xs, |xs|, k);
      assert Occupant(xs, |xs|, xs[k].record) == Some(xs[k]);
    }
    forall r, q | r in flat && q in flat && r.kind == CNAME && q.kind == CNAME && r.name == q.name
      ensures r == q
    {
      assert Occupant(xs, |xs|, r) == Some(flat[r]) && Occupant(xs, |xs|, q) == Some(flat[q]);
      HolderOfSlot(xs, |xs|, r, q);
    }
  }

  /** A champion is at least as good as every input of its slot: it beats what they beat, and
      whatever beats it beats them. */
  lemma ChampionDominates(xs: seq<RecordIntent>, c: nat, k: nat)
    requires Champion(xs, |xs|, c) && k < |xs| && SameSlot(xs[k].record, xs[c].record)
    ensures forall y :: ShouldReplaceExisting(xs[k], y) ==> ShouldReplaceExisting(xs[c], y)
    ensures forall y :: ShouldReplaceExisting(y, xs[c]) ==> ShouldReplaceExisting(y, xs[k])
  {
    if k != c {
      assert Yields(xs, k, c);
    }
  }

  lemma ChampionOf(xs: seq<RecordIntent>, k: nat) returns (c: nat)
    requires k < |xs| && xs[k].record.Supported()
    ensures Champion(xs, |xs|, c) && SameSlot(xs[c].record, xs[k].record)
  {
    HolderIsChampion(xs, |xs|, xs[k].record);
    c := Holder(xs, |xs|, xs[k].record).value;
  }

  lemma AliasedCnameWins(flat: map<Record, RecordIntent>, xs: seq<RecordIntent>, name: string, k: nat)
    requires Tracks(flat, xs, |xs|)
    requires k < |xs| && IsAliasOf(xs[k].record, name)
    requires forall j :: 0 <= j < |xs| && IsAddressOf(xs[j].record, name) ==> ShouldReplaceExisting(xs[k], xs[j])
    ensures CnameWins(flat, name)
  {
    var c := ChampionOf(xs, k);
    ChampionDominates(xs, c, k);
    TrackedIsChampion(flat, xs);
    assert xs[c] in AtNameKind(flat, name, CNAME);
    forall a | a in AtNameKind(flat, name, A) + AtNameKind(flat, name, AAAA)
      ensures ShouldReplaceExisting(xs[c], a)
    {
      var r :| r in flat && r.name == name && r.IsAddress() && flat[r] == a;
      var j: nat :| Champion(xs, |xs|, j) && xs[j] == flat[r] && xs[j].record == r;
      assert IsAddressOf(xs[j].record, name);
    }
  }

  /** An input address loses to whatever the holder of its slot loses to, and that is in the index. */
  lemma AddressChampion(flat: map<Record, RecordIntent>, xs: seq<RecordIntent>, name: string, j: nat) returns (h: nat)
    requires Tracks(flat, xs, |xs|) && j < |xs| && IsAddressOf(xs[j].record, name)
    ensures h < |xs| && xs[h] in AtNameKind(flat, name, A) + AtNameKind(flat, name, AAAA)
    ensures forall y :: ShouldReplaceExisting(y, xs[h]) ==> ShouldReplaceExisting(y, xs[j])
  {
    TrackedIsChampion(flat, xs);
    h := ChampionOf(xs, j);
    ChampionDominates(xs, h, j);
    assert xs[h].record in flat && flat[xs[h].record] == xs[h];
  }

  lemma CnameWinsAliased(flat: map<Record, RecordIntent>, xs: seq<RecordIntent>, name: string)
    requires Tracks(flat, xs, |xs|) && CnameWins(flat, name)
    ensures Aliased(xs, name)
  {
    TrackedIsChampion(flat, xs);
    var addresses := AtNameKind(flat, name, A) + AtNameKind(flat, name, AAAA);
    var c :| c in AtNameKind(flat, name, CNAME) && forall a :: a in addresses ==> ShouldReplaceExisting(c, a);
    var r :| r in flat && r.name == name && r.kind == CNAME && flat[r] == c;
    var k: nat :| Champion(xs, |xs|, k) && xs[k] == flat[r] && xs[k].record == r;
    forall j: nat | j < |xs| && IsAddressOf(xs[j].record, name)
      ensures ShouldReplaceExisting(xs[k], xs[j])
    {
      var h := AddressChampion(flat, xs, name, j);
      assert xs[h] in addresses;
    }
    assert IsAliasOf(xs[k].record, name);
  }

  lemma AliasedIsCnameWins(flat: map<Record, RecordIntent>, xs: seq<RecordIntent>, name: string)
    requires Tracks(flat, xs, |xs|)
    ensures Aliased(xs, name) <==> CnameWins(flat, name)
  {
    if Aliased(xs, name) {
      var k: nat :| k < |xs| && IsAliasOf(xs[k].record, name) &&
        forall j :: 0 <= j < |xs| && IsAddressOf(xs[j].record, name) ==> ShouldReplaceExisting(xs[k], xs[j]);
      AliasedCnameWins(flat, xs, name, k);
    }
    if CnameWins(flat, name) {
      CnameWinsAliased(flat, xs, name);
    }
  }

  lemma KeptIsSurvivors(flat: map<Record, RecordIntent>, xs: seq<RecordIntent>, out: seq<RecordIntent>)
    requires Tracks(flat, xs, |xs|)
    requires Elems(out) == KeptOf(flat, NamesOf(flat)).Values
    ensures forall x :: x in out <==> exists k: nat :: Survives(xs, k) && xs[k] == x
  {
    TrackedIsChampion(flat, xs);
    var kept := KeptOf(flat, NamesOf(flat));
    assert forall x :: x in out <==> x in kept.Values;
    forall x | x in kept.Values
      ensures exists k: nat :: Survives(xs, k) && xs[k] == x
    {
      var r :| r in kept && kept[r] == x;
      var k: nat :| Champion(xs, |xs|, k) && xs[k] == flat[r] && xs[k].record == r;
      AliasedIsCnameWins(flat, xs, r.name);
      assert Survives(xs, k);
    }
    forall k: nat | Survives(xs, k)
      ensures xs[k] in kept.Values
    {
      AliasedIsCnameWins(flat, xs, xs[k].record.name);
      assert xs[k].record in kept && kept[xs[k].record] == xs[k];
    }
  }

  lemma TwoSurvivors(xs: seq<RecordIntent>, k: nat, l: nat)
    requires Survives(xs, k) && Survives(xs, l) && Conflict(xs[k].record, xs[l].record)
    ensures k == l
  {
    if k != l {
      OneHolder(xs, k, l);
    }
  }

  lemma SurvivorsConflictFree(xs: seq<RecordIntent>, out: seq<RecordIntent>)
    requires NoDuplicates(out)
    requires forall x :: x in out <==> exists k: nat :: Survives(xs, k) && xs[k] == x
    ensures ConflictFree(out) && AllSupported(Elems(out))
  {
    forall i, j | 0 <= i < j < |out|
      ensures !Conflict(out[i].record, out[j].record)
    {
      assert out[i] in out && out[j] in out;
      var k: nat :| Survives(xs, k) && xs[k] == out[i];
      var l: nat :| Survives(xs, l) && xs[l] == out[j];
      if Conflict(xs[k].record, xs[l].record) {
        TwoSurvivors(xs, k, l);
      }
    }
  }

  /** A name with a supported intent keeps at least one. */
  lemma EveryNameKept(xs: seq<RecordIntent>, k: nat)
    requires k < |xs| && xs[k].record.Supported()
    ensures exists l: nat :: Survives(xs, l) && xs[l].record.name == xs[k].record.name
  {
    var name := xs[k].record.name;
    if Aliased(xs, name) {
      var a: nat :| a < |xs| && IsAliasOf(xs[a].record, name) &&
        forall j :: 0 <= j < |xs| && IsAddressOf(xs[j].record, name) ==> ShouldReplaceExisting(xs[a], xs[j]);
      var c := ChampionOf(xs, a);
      assert Survives(xs, c);
    } else {
      var j := k;
      if !xs[k].record.IsAddress() {
        assert IsAliasOf(xs[k].record, name);
        j :| 0 <= j < |xs| && IsAddressOf(xs[j].record, name) && !ShouldReplaceExisting(xs[k], xs[j]);
      }
      var c := ChampionOf(xs, j);
      assert Survives(xs, c);
    }
  }

  /** Filtering what has been filtered keeps everything. */
  lemma FilterIdempotent(xs: seq<RecordIntent>, k: nat)
    requires ConflictFree(xs) && AllSupported(Elems(xs)) && k < |xs|
    ensures Survives(xs, k)
  {
    forall j: nat | j < |xs| && j != k
      ensures !SameSlot(xs[j].record, xs[k].record)
      ensures xs[k].record.kind == CNAME ==> !IsAddressOf(xs[j].record, xs[k].record.name)
      ensures xs[k].record.kind != CNAME ==> !IsAliasOf(xs[j].record, xs[k].record.name)
    {
      assert xs[k] in Elems(xs) && xs[j] in Elems(xs);
      if j < k {
        assert !Conflict(xs[j].record, xs[k].record);
      } else {
        assert !Conflict(xs[k].record, xs[j].record);
      }
    }
    assert xs[k] in Elems(xs);
    if xs[k].record.kind == CNAME {
      assert IsAliasOf(xs[k].record, xs[k].record.name);
    }
  }

  /** What the filter keeps of a list, whatever order it returns it in. */
  function SurvivorsOf(xs: seq<RecordIntent>): set<RecordIntent> {
    set k | 0 <= k < |xs| && Survives(xs, k) :: xs[k]
  }

  predicate BeatsAddresses(s: set<RecordIntent>, c: RecordIntent, name: string) {
    forall a :: a in s && IsAddressOf(a.record, name) ==> ShouldReplaceExisting(c, a)
  }

  /** Said of a set: some CNAME of the name beats every address of the name. */
  predicate AliasedIn(s: set<RecordIntent>, name: string) {
    exists c :: c in s && IsAliasOf(c.record, name) && BeatsAddresses(s, c, name)
  }

  /** Unbeaten in its slot, and of the kind its name keeps. */
  predicate IsWinner(s: set<RecordIntent>, x: RecordIntent) {
    && x in s && x.record.Supported()
    && (forall y :: y in s && SameSlot(y.record, x.record) ==> !ShouldReplaceExisting(y, x))
    && (x.record.kind == CNAME <==> AliasedIn(s, x.record.name))
  }

  /** No slot that is kept has two different winners. */
  predicate NoTiedWinners(s: set<RecordIntent>) {
    forall x, y :: x in s && y in s && IsWinner(s, x) && IsWinner(s, y) && SameSlot(x.record, y.record) ==> x == y
  }

  /** Every order of the same inputs keeps the same. */
  ghost predicate OrderFree(xs: seq<RecordIntent>) {
    forall ys :: multiset(ys) == multiset(xs) ==> SurvivorsOf(ys) == SurvivorsOf(xs)
  }

  lemma AliasedAsSet(xs: seq<RecordIntent>, name: string)
    ensures Aliased(xs, name) <==> AliasedIn(Elems(xs), name)
  {
    assert forall x :: x in Elems(xs) <==> exists j :: 0 <= j < |xs| && xs[j] == x;
    if Aliased(xs, name) {
      var k: nat :| k < |xs| && IsAliasOf(xs[k].record, name) &&
        forall j :: 0 <= j < |xs| && IsAddressOf(xs[j].record, name) ==> ShouldReplaceExisting(xs[k], xs[j]);
      assert xs[k] in Elems(xs) && BeatsAddresses(Elems(xs), xs[k], name);
    }
    if AliasedIn(Elems(xs), name) {
      var c :| c in Elems(xs) && IsAliasOf(c.record, name) && BeatsAddresses(Elems(xs), c, name);
      var k: nat :| k < |xs| && xs[k] == c;
      assert forall j :: 0 <= j < |xs| ==> xs[j] in Elems(xs);
    }
  }

  /** A survivor is a winner. */
  lemma SurvivorWins(xs: seq<RecordIntent>, k: nat)
    requires Survives(xs, k)
    ensures IsWinner(Elems(xs), xs[k])
  {
    AliasedAsSet(xs, xs[k].record.name);
    forall y | y in Elems(xs) && SameSlot(y.record, xs[k].record)
      ensures !ShouldReplaceExisting(y, xs[k])
    {
      var j: nat :| j < |xs| && xs[j] == y;
      assert j != k ==> Yields(xs, j, k);
    }
  }

  /** The slot of a winner has a survivor. */
  lemma WinnerHasSurvivor(xs: seq<RecordIntent>, x: RecordIntent) returns (k: nat)
    requires IsWinner(Elems(xs), x)
    ensures Survives(xs, k) && SameSlot(xs[k].record, x.record)
  {
    var j: nat :| j < |xs| && xs[j] == x;
    k := ChampionOf(xs, j);
    AliasedAsSet(xs, x.record.name);
  }

  /** A winner that is listed first survives, and alone in its slot. */
  lemma FirstWinnerSurvives(xs: seq<RecordIntent>, y: RecordIntent)
    requires xs != [] && IsWinner(Elems(xs), xs[0])
    ensures xs[0] in SurvivorsOf(xs)
    ensures y in SurvivorsOf(xs) && SameSlot(y.record, xs[0].record) ==> y == xs[0]
  {
    forall j: nat | j < |xs| && j != 0
      ensures Yields(xs, j, 0)
    {
      assert xs[j] in Elems(xs);
    }
    AliasedAsSet(xs, xs[0].record.name);
    assert Survives(xs, 0);
    if y in SurvivorsOf(xs) && SameSlot(y.record, xs[0].record) {
      var k: nat :| k < |xs| && Survives(xs, k) && xs[k] == y;
      if k != 0 {
        OneHolder(xs, k, 0);
      }
    }
  }

  /** The same inputs with one of them moved to the front. */
  lemma WithFirst(xs: seq<RecordIntent>, x: RecordIntent) returns (ys: seq<RecordIntent>)
    requires x in xs
    ensures ys != [] && ys[0] == x && multiset(ys) == multiset(xs) && Elems(ys) == Elems(xs)
  {
    var i :| 0 <= i < |xs| && xs[i] == x;
    ys := [xs[i]] + xs[..i] + xs[i + 1..];
    assert xs == xs[..i] + [xs[i]] + xs[i + 1..];
    assert multiset(ys) == multiset(xs);
    SameElements(xs, ys);
  }

  lemma SameElements(xs: seq<RecordIntent>, ys: seq<RecordIntent>)
    requires multiset(xs) == multiset(ys)
    ensures Elems(xs) == Elems(ys)
  {
    forall x
      ensures x in xs <==> x in ys
    {
      assert x in multiset(xs) <==> x in xs;
      assert x in multiset(ys) <==> x in ys;
    }
  }

  /** Lists of the same intents keep the same if no slot has two winners. */
  lemma SameSurvivors(xs: seq<RecordIntent>, ys: seq<RecordIntent>)
    requires Elems(xs) == Elems(ys) && NoTiedWinners(Elems(xs))
    ensures SurvivorsOf(xs) <= SurvivorsOf(ys)
  {
    forall x | x in SurvivorsOf(xs)
      ensures x in SurvivorsOf(ys)
    {
      var k: nat :| k < |xs| && Survives(xs, k) && xs[k] == x;
      SurvivorWins(xs, k);
      var l := WinnerHasSurvivor(ys, x);
      SurvivorWins(ys, l);
      assert ys[l] == x;
    }
  }

  /** The outcome does not depend on the order of the inputs if and only if no kept slot has two
      different winners: ties among those that lose anyway do not matter. */
  lemma OrderFreeExactly(xs: seq<RecordIntent>)
    ensures OrderFree(xs) <==> NoTiedWinners(Elems(xs))
  {
    if NoTiedWinners(Elems(xs)) {
      forall ys | multiset(ys) == multiset(xs)
        ensures SurvivorsOf(ys) == SurvivorsOf(xs)
      {
        SameElements(xs, ys);
        SameSurvivors(xs, ys);
        SameSurvivors(ys, xs);
      }
    }
    if OrderFree(xs) {
      forall x, y | IsWinner(Elems(xs), x) && IsWinner(Elems(xs), y) && SameSlot(x.record, y.record)
        ensures x == y
      {
        TiedWinnersShow(xs, x, y);
      }
    }
  }

  lemma TiedWinnersShow(xs: seq<RecordIntent>, x: RecordIntent, y: RecordIntent)
    requires OrderFree(xs) && IsWinner(Elems(xs), x) && IsWinner(Elems(xs), y) && SameSlot(x.record, y.record)
    ensures x == y
  {
    var xFirst := WithFirst(xs, x);
    var yFirst := WithFirst(xs, y);
    FirstWinnerSurvives(xFirst, x);
    FirstWinnerSurvives(yFirst, x);
    assert SurvivorsOf(xFirst) == SurvivorsOf(xs);
    assert SurvivorsOf(yFirst) == SurvivorsOf(xs);
  }

  /** All the unbeaten intents of the kinds that are kept. */
  function Winners(s: set<RecordIntent>): set<RecordIntent> {
    set x | x in s && IsWinner(s, x)
  }

  /** Without tied winners what is kept is a function of the set of inputs. */
  lemma SurvivorsAreWinners(xs: seq<RecordIntent>)
    requires NoTiedWinners(Elems(xs))
    ensures SurvivorsOf(xs) == Winners(Elems(xs))
  {
    forall x | x in SurvivorsOf(xs)
      ensures x in Winners(Elems(xs))
    {
      var k: nat :| k < |xs| && Survives(xs, k) && xs[k] == x;
      SurvivorWins(xs, k);
    }
    forall x | x in Winners(Elems(xs))
      ensures x in SurvivorsOf(xs)
    {
      var k := WinnerHasSurvivor(xs, x);
      SurvivorWins(xs, k);
      assert xs[k] == x;
    }
  }
}
