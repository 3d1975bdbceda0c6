/** What the tracker holds after any history of calls, said about the history alone. */
module Debounce {
  import opened Domain
  import opened MemoryStates

  /** The calls the engine makes, by their effect. */
  datatype Call =
    | Upserted(id: string, intents: seq<RecordIntent>, status: Status)
    | MarkedRemoved(id: string)
    | Resynced(running: set<string>)

  function After(view: View, call: Call): View {
    match call
    case Upserted(id, intents, status) => view[id := Entry(intents, status, 0)]
    case MarkedRemoved(id) => view - {id}
    case Resynced(running) => Retained(view, running)
  }

  function Replay(h: seq<Call>): View {
    if h == [] then map[] else After(Replay(h[..|h| - 1]), h[|h| - 1])
  }

  predicate Omits(call: Call, id: string) {
    call.Resynced? && id !in call.running
  }

  /** Call number p upserts id, and no later call upserts or removes it. */
  predicate LastUpsert(h: seq<Call>, id: string, p: nat) {
    && p < |h| && h[p].Upserted? && h[p].id == id
    && forall q :: p < q < |h| ==> !((h[q].Upserted? || h[q].MarkedRemoved?) && h[q].id == id)
  }

  /** Between i and j no resync took place. */
  predicate NoResyncBetween(h: seq<Call>, i: nat, j: nat)
    requires j <= |h|
  {
    forall q :: i < q < j ==> !h[q].Resynced?
  }

  /** Two resyncs after p, one right after the other, both omit id. */
  predicate MissedTwice(h: seq<Call>, p: nat, id: string) {
    exists i, j :: p < i < j < |h| && Omits(h[i], id) && Omits(h[j], id) && NoResyncBetween(h, i, j)
  }

  /** The last resync after p, if there was one, omits id. */
  predicate MissedLast(h: seq<Call>, p: nat, id: string) {
    exists i :: p < i < |h| && Omits(h[i], id) && NoResyncBetween(h, i, |h|)
  }

  /** Call p is why id is tracked. */
  predicate KeepsTracked(h: seq<Call>, id: string, p: nat) {
    LastUpsert(h, id, p) && (h[p].status == Running ==> !MissedTwice(h, p, id))
  }

  function EntryFrom(h: seq<Call>, id: string, p: nat): Entry
    requires p < |h| && h[p].Upserted?
  {
    Entry(h[p].intents, h[p].status, if h[p].status == Running && MissedLast(h, p, id) then 1 else 0)
  }

  lemma BetweenPrefix(g: seq<Call>, c: Call, i: nat, j: nat)
    requires j <= |g|
    ensures NoResyncBetween(g + [c], i, j) <==> NoResyncBetween(g, i, j)
  {
    if NoResyncBetween(g + [c], i, j) {
      forall q | i < q < j
        ensures !g[q].Resynced?
      {
        assert (g + [c])[q] == g[q];
      }
    }
  }

  lemma MissedLastStep(g: seq<Call>, c: Call, p: nat, id: string)
    requires p < |g|
    ensures MissedLast(g + [c], p, id) <==> if c.Resynced? then Omits(c, id) else MissedLast(g, p, id)
  {
    var h := g + [c];
    if i :| p < i < |h| && Omits(h[i], id) && NoResyncBetween(h, i, |h|) {
      if i < |g| {
        assert !h[|g|].Resynced?;
        assert NoResyncBetween(h, i, |g|);
        BetweenPrefix(g, c, i, |g|);
        assert Omits(g[i], id) && NoResyncBetween(g, i, |g|);
      }
    }
    if c.Resynced? && Omits(c, id) {
      assert Omits(h[|g|], id) && NoResyncBetween(h, |g|, |h|);
    }
    if !c.Resynced? && MissedLast(g, p, id) {
      var i :| p < i < |g| && Omits(g[i], id) && NoResyncBetween(g, i, |g|);
      assert Omits(h[i], id) && NoResyncBetween(h, i, |h|);
    }
  }

  lemma MissedTwiceStep(g: seq<Call>, c: Call, p: nat, id: string)
    requires p < |g|
    ensures MissedTwice(g + [c], p, id) <==> MissedTwice(g, p, id) || (Omits(c, id) && MissedLast(g, p, id))
  {
    var h := g + [c];
    if i, j :| p < i < j < |h| && Omits(h[i], id) && Omits(h[j], id) && NoResyncBetween(h, i, j) {
      BetweenPrefix(g, c, i, j);
      if j < |g| {
        assert Omits(g[i], id) && Omits(g[j], id) && NoResyncBetween(g, i, j);
      } else {
        assert Omits(g[i], id) && NoResyncBetween(g, i, |g|);
      }
    }
    if i, j :| p < i < j < |g| && Omits(g[i], id) && Omits(g[j], id) && NoResyncBetween(g, i, j) {
      assert Omits(h[i], id) && Omits(h[j], id) && NoResyncBetween(h, i, j);
    }
    if Omits(c, id) && MissedLast(g, p, id) {
      var i :| p < i < |g| && Omits(g[i], id) && NoResyncBetween(g, i, |g|);
      assert Omits(h[i], id) && Omits(h[|g|], id) && NoResyncBetween(h, i, |g|);
    }
  }

  lemma LastUpsertStep(g: seq<Call>, c: Call, id: string, p: nat)
    requires p < |g|
    ensures LastUpsert(g + [c], id, p) <==> LastUpsert(g, id, p) && !((c.Upserted? || c.MarkedRemoved?) && c.id == id)
  {
    var h := g + [c];
    if LastUpsert(h, id, p) {
      assert h[|g|] == c;
      forall q | p < q < |g|
        ensures !((g[q].Upserted? || g[q].MarkedRemoved?) && g[q].id == id)
      {
        assert h[q] == g[q];
      }
    }
  }

  lemma FreshUpsert(g: seq<Call>, c: Call, id: string)
    requires c.Upserted? && c.id == id
    ensures KeepsTracked(g + [c], id, |g|)
    ensures EntryFrom(g + [c], id, |g|) == Entry(c.intents, c.status, 0)
  {
  }

  lemma KeepsTrackedStep(g: seq<Call>, c: Call, id: string, p: nat)
    requires p < |g|
    ensures KeepsTracked(g + [c], id, p) <==>
            && KeepsTracked(g, id, p)
            && !((c.Upserted? || c.MarkedRemoved?) && c.id == id)
            && !(g[p].status == Running && Omits(c, id) && MissedLast(g, p, id))
  {
    LastUpsertStep(g, c, id, p);
    MissedTwiceStep(g, c, p, id);
  }

  /** The history theorem: an id is tracked exactly when, after its last upsert, nothing removed it
      and (for a running container) no two resyncs in a row omitted it; its entry holds the intents
      of that upsert, and its counter says whether the last resync omitted it, so it stays below
      the threshold. */
  lemma {:induction false} TrackedExactly(h: seq<Call>, id: string)
    ensures id in Replay(h) <==> exists p: nat :: KeepsTracked(h, id, p)
    ensures forall p: nat :: KeepsTracked(h, id, p) ==> Replay(h)[id] == EntryFrom(h, id, p)
    ensures id in Replay(h) ==> Replay(h)[id].missed < RESYNC_PRUNE_THRESHOLD
  {
    if h == [] {
    } else {
      var g, c := h[..|h| - 1], h[|h| - 1];
      assert h == g + [c];
      TrackedExactly(g, id);
      if c.Upserted? && c.id == id {
        FreshUpsert(g, c, id);
        forall p: nat | KeepsTracked(h, id, p)
          ensures p == |g|
        {
          if p < |g| {
            KeepsTrackedStep(g, c, id, p);
          }
        }
      } else {
        forall p: nat | KeepsTracked(h, id, p) || (p < |g| && KeepsTracked(g, id, p))
          ensures p < |g|
          ensures KeepsTracked(g, id, p) && id in Replay(g) && Replay(g)[id] == EntryFrom(g, id, p)
          ensures KeepsTracked(h, id, p) <==> id in Replay(h)
          ensures KeepsTracked(h, id, p) ==> Replay(h)[id] == EntryFrom(h, id, p)
        {
          KeepsTrackedStep(g, c, id, p);
          MissedLastStep(g, c, p, id);
        }
        if id in Replay(h) {
          assert id in Replay(g);
          var p: nat :| KeepsTracked(g, id, p);
          assert KeepsTracked(h, id, p);
        }
      }
    }
  }

  /** Hence the desired list after a history: the intents of the last upserts that still count. */
  lemma DesiredExactly(h: seq<Call>, x: RecordIntent)
    ensures Wants(Replay(h), x) <==>
            exists id, p: nat :: KeepsTracked(h, id, p) && h[p].status == Running && x in h[p].intents
  {
    if id :| id in Replay(h) && Replay(h)[id].status == Running && x in Replay(h)[id].intents {
      TrackedExactly(h, id);
      var p: nat :| KeepsTracked(h, id, p);
      assert Replay(h)[id] == EntryFrom(h, id, p);
    }
    if id, p: nat :| KeepsTracked(h, id, p) && h[p].status == Running && x in h[p].intents {
      TrackedExactly(h, id);
      assert Replay(h)[id] == EntryFrom(h, id, p);
    }
  }
}
