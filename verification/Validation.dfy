/** The check each winning record passes before it is added: coexistence and uniqueness rules,
    and the walk that looks for a CNAME cycle. */
module Validation {
  import opened Domain
  import opened Graph

  datatype ValidationError =
    | CnameBesideAddress
    | AddressBesideCname
    | SecondCname
    | DuplicateA
    | DuplicateAAAA
    | CnameCycle

  function CnameLink(r: Record): (string, string) {
    (r.name, r.value)
  }

  /** The alias edges of a store. */
  function LinksOf(store: set<RecordIntent>): Links {
    set x | x in store && x.record.kind == CNAME :: CnameLink(x.record)
  }

  /** The successor map the walk uses: of several CNAMEs for one name the first listed counts. */
  function Forward(existing: seq<RecordIntent>): map<string, string> {
    if existing == [] then
      map[]
    else
      var rest := Forward(existing[..|existing| - 1]);
      var r := existing[|existing| - 1].record;
      if r.kind == CNAME && r.name !in rest then rest[r.name := r.value] else rest
  }

  predicate IsAliasAt(existing: seq<RecordIntent>, name: string, i: nat)
    requires i < |existing|
  {
    existing[i].record.name == name && existing[i].record.kind == CNAME
  }

  /** The successor of a name is the value of the CNAME listed first for it. */
  lemma {:induction false} FirstListedCounts(existing: seq<RecordIntent>, name: string, i: nat)
    requires i < |existing| && IsAliasAt(existing, name, i) && forall j: nat :: j < i ==> !IsAliasAt(existing, name, j)
    ensures name in Forward(existing) && Forward(existing)[name] == existing[i].record.value
  {
    var init := existing[..|existing| - 1];
    if i < |init| {
      forall j: nat | j < i
        ensures !IsAliasAt(init, name, j)
      {
        assert !IsAliasAt(existing, name, j);
      }
      FirstListedCounts(init, name, i);
    } else {
      forall j: nat | j < |init|
        ensures !IsAliasAt(init, name, j)
      {
        assert !IsAliasAt(existing, name, j);
      }
      NoneListed(init, name);
    }
  }

  lemma {:induction false} NoneListed(existing: seq<RecordIntent>, name: string)
    requires forall j: nat :: j < |existing| ==> !IsAliasAt(existing, name, j)
    ensures name !in Forward(existing)
  {
    if existing != [] {
      var init := existing[..|existing| - 1];
      forall j: nat | j < |init|
        ensures !IsAliasAt(init, name, j)
      {
        assert !IsAliasAt(existing, name, j);
      }
      NoneListed(init, name);
      assert !IsAliasAt(existing, name, |existing| - 1);
    }
  }

  ghost predicate ClosesCycle(r: Record, existing: seq<RecordIntent>) {
    r.kind == CNAME && Loops(Pairs(Forward(existing)[r.name := r.value]), r.name)
  }

  ghost predicate Clashes(r: Record, existing: seq<RecordIntent>) {
    exists i :: 0 <= i < |existing| && Conflict(r, existing[i].record)
  }

  predicate HasSameName(r: Record, existing: seq<RecordIntent>, kinds: set<RecordKind>) {
    exists i :: 0 <= i < |existing| && existing[i].record.name == r.name && existing[i].record.kind in kinds
  }

  lemma KeysCount(some: set<string>, m: map<string, string>)
    requires some <= m.Keys
    ensures |some| <= |m|
  {
    assert m.Keys == some + (m.Keys - some);
  }

  /** The walk so far: the names passed are distinct and all have a successor. */
  ghost predicate IsWalk(forward: map<string, string>, trail: seq<string>, seen: set<string>) {
    && IsTrail(Pairs(forward), trail)
    && seen == Elems(trail[..|trail| - 1]) && seen <= forward.Keys
    && |seen| == |trail| - 1 && Distinct(trail[..|trail| - 1])
  }

  lemma WalkOn(forward: map<string, string>, trail: seq<string>, seen: set<string>)
    requires IsWalk(forward, trail, seen)
    requires trail[|trail| - 1] in forward && trail[|trail| - 1] !in seen
    ensures IsWalk(forward, trail + [forward[trail[|trail| - 1]]], seen + {trail[|trail| - 1]})
  {
    var cur := trail[|trail| - 1];
    var longer := trail + [forward[cur]];
    assert longer[..|longer| - 1] == trail == trail[..|trail| - 1] + [cur];
    forall k | 0 <= k < |longer| - 1
      ensures Hop(Pairs(forward), longer, k)
    {
      assert k < |trail| - 1 ==> Hop(Pairs(forward), trail, k);
    }
    assert cur !in trail[..|trail| - 1];
  }

  lemma WalkEnds(forward: map<string, string>, trail: seq<string>, seen: set<string>)
    requires IsWalk(forward, trail, seen)
    ensures trail[|trail| - 1] !in forward ==> !Loops(Pairs(forward), trail[0])
    ensures trail[|trail| - 1] in seen ==> Loops(Pairs(forward), trail[0])
  {
    var cur := trail[|trail| - 1];
    assert trail == trail[..|trail| - 1] + [cur];
    if cur !in forward {
      assert cur !in seen && cur !in trail[..|trail| - 1];
      DeadEndNoLoop(forward, trail);
    }
    if cur in seen {
      var i :| 0 <= i < |trail| - 1 && trail[i] == cur;
      assert !Distinct(trail);
    }
  }

  /** Whether the walk along `forward` from `start` comes back to a name it has seen. It makes no
      more hops than `forward` has entries. */
  method WalkRepeats(forward: map<string, string>, start: string) returns (cycle: bool, ghost hops: nat)
    ensures cycle <==> Loops(Pairs(forward), start)
    ensures hops <= |forward|
  {
    var seen: set<string> := {};
    var cur := start;
    ghost var trail := [start];
    while true
      invariant IsWalk(forward, trail, seen)
      invariant trail[0] == start && trail[|trail| - 1] == cur
      decreases forward.Keys - seen
    {
      KeysCount(seen, forward);
      WalkEnds(forward, trail, seen);
      if cur !in forward {
        return false, |seen|;
      }
      if cur in seen {
        return true, |seen|;
      }
      WalkOn(forward, trail, seen);
      trail := trail + [forward[cur]];
      seen := seen + {cur};
      cur := forward[cur];
    }
  }

  /** Validates a proposed record against the records known so far. The rules are tried in the
      order the source tries them, so the error names the first rule broken. */
  method ValidateRecord(newRI: RecordIntent, existing: seq<RecordIntent>) returns (err: Option<ValidationError>)
    ensures err.None? <==> !Clashes(newRI.record, existing) && !ClosesCycle(newRI.record, existing)
    ensures err == Some(CnameBesideAddress) <==>
            newRI.record.kind == CNAME && HasSameName(newRI.record, existing, {A, AAAA})
    ensures err == Some(AddressBesideCname) <==>
            newRI.record.IsAddress() && HasSameName(newRI.record, existing, {CNAME})
    ensures err == Some(SecondCname) <==>
            && newRI.record.kind == CNAME
            && HasSameName(newRI.record, existing, {CNAME})
            && !HasSameName(newRI.record, existing, {A, AAAA})
    ensures err in {Some(DuplicateA), Some(DuplicateAAAA)} ==>
            (err == Some(DuplicateA) <==> newRI.record.kind == A) && !HasSameName(newRI.record, existing, {CNAME})
    ensures err == Some(CnameCycle) <==>
            !Clashes(newRI.record, existing) && ClosesCycle(newRI.record, existing)
    ensures err.None? || err == Some(CnameCycle) <==>
            forall x :: x in existing && x.record.name == newRI.record.name ==>
              && (newRI.record.kind == CNAME ==> x.record.kind !in {A, AAAA, CNAME})
              && (newRI.record.kind in {A, AAAA} ==> x.record.kind != CNAME && x.record != newRI.record)
  {
    var newR := newRI.record;
    var sameNameCNAME, sameNameAnyAddress := false, false;
    var dupAValue, dupAAAAValue := false, false;
    for i := 0 to |existing|
      invariant sameNameCNAME <==> HasSameName(newR, existing[..i], {CNAME})
      invariant sameNameAnyAddress <==> HasSameName(newR, existing[..i], {A, AAAA})
      invariant dupAValue <==> exists j :: 0 <= j < i && newR.kind == A && existing[j].record == newR
      invariant dupAAAAValue <==> exists j :: 0 <= j < i && newR.kind == AAAA && existing[j].record == newR
    {
      var r := existing[i].record;
      assert existing[..i + 1] == existing[..i] + [existing[i]];
      SameNameExtends(newR, existing, i, {CNAME});
      SameNameExtends(newR, existing, i, {A, AAAA});
      var sameName := r.name == newR.name;
      var sameValue := r.value == newR.value;
      match r.kind
      case A =>
        if sameName {
          sameNameAnyAddress := true;
        }
        if sameName && sameValue && newR.kind == A {
          dupAValue := true;
        }
      case AAAA =>
        if sameName {
          sameNameAnyAddress := true;
        }
        if sameName && sameValue && newR.kind == AAAA {
          dupAAAAValue := true;
        }
      case CNAME =>
        if sameName {
          sameNameCNAME := true;
        }
      case Other(_) =>
    }
    assert existing[..|existing|] == existing;
    ClashIsFlagged(newR, existing);
    ClashByFields(newR, existing);

    if newR.kind == CNAME && sameNameAnyAddress {
      return Some(CnameBesideAddress);
    }
    if newR.IsAddress() && sameNameCNAME {
      return Some(AddressBesideCname);
    }
    if newR.kind == CNAME && sameNameCNAME {
      return Some(SecondCname);
    }
    if newR.kind == A && dupAValue {
      return Some(DuplicateA);
    }
    if newR.kind == AAAA && dupAAAAValue {
      return Some(DuplicateAAAA);
    }

    if newR.kind == CNAME {
      var forward: map<string, string> := map[];
      for i := 0 to |existing|
        invariant forward == Forward(existing[..i])
      {
        assert existing[..i + 1][..i] == existing[..i];
        if existing[i].record.kind == CNAME {
          if existing[i].record.name !in forward {
            forward := forward[existing[i].record.name := existing[i].record.value];
          }
        }
      }
      forward := forward[newR.name := newR.value];
      var cycle, _ := WalkRepeats(forward, newR.name);
      if cycle {
        return Some(CnameCycle);
      }
    }
    return None;
  }

  lemma SameNameExtends(r: Record, existing: seq<RecordIntent>, i: nat, kinds: set<RecordKind>)
    requires i < |existing|
    ensures HasSameName(r, existing[..i + 1], kinds) <==>
            HasSameName(r, existing[..i], kinds)
            || (existing[i].record.name == r.name && existing[i].record.kind in kinds)
  {
    if HasSameName(r, existing[..i], kinds) {
      var j :| 0 <= j < i && existing[..i][j].record.name == r.name && existing[..i][j].record.kind in kinds;
      assert existing[..i + 1][j] == existing[..i][j];
    }
    if existing[i].record.name == r.name && existing[i].record.kind in kinds {
      assert existing[..i + 1][i] == existing[i];
    }
    if HasSameName(r, existing[..i + 1], kinds) {
      var j :| 0 <= j < i + 1
        && existing[..i + 1][j].record.name == r.name && existing[..i + 1][j].record.kind in kinds;
      assert j < i ==> existing[..i][j] == existing[..i + 1][j];
    }
  }

  /** A clash, field by field. */
  lemma ClashByFields(r: Record, existing: seq<RecordIntent>)
    ensures !Clashes(r, existing) <==>
            forall x :: x in existing && x.record.name == r.name ==>
              && (r.kind == CNAME ==> x.record.kind !in {A, AAAA, CNAME})
              && (r.kind in {A, AAAA} ==> x.record.kind != CNAME && x.record != r)
  {
    forall x | x in existing && Conflict(r, x.record)
      ensures Clashes(r, existing)
    {
      var i :| 0 <= i < |existing| && existing[i] == x;
    }
  }

  /** A clash is exactly one of the situations the flags record. */
  lemma ClashIsFlagged(r: Record, existing: seq<RecordIntent>)
    ensures Clashes(r, existing) <==>
            || (r.kind == CNAME && HasSameName(r, existing, {A, AAAA}))
            || (r.IsAddress() && HasSameName(r, existing, {CNAME}))
            || (r.kind == CNAME && HasSameName(r, existing, {CNAME}))
            || (exists j :: 0 <= j < |existing| && r.IsAddress() && existing[j].record == r)
  {
    if i :| 0 <= i < |existing| && Conflict(r, existing[i].record) {
      var e := existing[i].record;
      if r.IsAddress() && e.kind == r.kind {
        assert e == r;
      } else if r.IsAddress() {
        assert e.kind in {CNAME};
      } else {
        assert e.kind in {CNAME} || e.kind in {A, AAAA};
      }
    }
    if r.kind == CNAME && HasSameName(r, existing, {A, AAAA}) {
      var j :| 0 <= j < |existing| && existing[j].record.name == r.name && existing[j].record.kind in {A, AAAA};
      assert Conflict(r, existing[j].record);
    }
    if (r.kind == CNAME || r.IsAddress()) && HasSameName(r, existing, {CNAME}) {
      var j :| 0 <= j < |existing| && existing[j].record.name == r.name && existing[j].record.kind in {CNAME};
      assert Conflict(r, existing[j].record);
    }
    if j :| 0 <= j < |existing| && r.IsAddress() && existing[j].record == r {
      assert Conflict(r, existing[j].record);
    }
  }
}
