/** The debounced tracker of running containers, and what it holds after any history of calls. */
module MemoryStates {
  import opened Domain

  datatype Status = Running | Removed

  datatype Entry = Entry(intents: seq<RecordIntent>, status: Status, missed: nat)

  type View = map<string, Entry>

  const RESYNC_PRUNE_THRESHOLD := 2

  predicate Misses(e: Entry, id: string, running: set<string>) {
    e.status == Running && id !in running
  }

  predicate IsPruned(e: Entry, id: string, running: set<string>) {
    Misses(e, id, running) && e.missed + 1 >= RESYNC_PRUNE_THRESHOLD
  }

  function AfterResync(e: Entry, id: string, running: set<string>): Entry {
    if e.status != Running then e
    else if id in running then e.(missed := 0)
    else e.(missed := e.missed + 1)
  }

  function Retained(view: View, running: set<string>): View {
    map id | id in view && !IsPruned(view[id], id, running) :: AfterResync(view[id], id, running)
  }

  /** One container's entry, without its name and creation instant, which nothing here reads. */
  class ContainerState {
    const intents: seq<RecordIntent>
    const status: Status
    var missedResyncs: nat

    constructor (intents: seq<RecordIntent>, status: Status)
      ensures this.intents == intents && this.status == status && missedResyncs == 0
    {
      this.intents := intents;
      this.status := status;
      this.missedResyncs := 0;
    }

    ghost function Seen(): Entry
      reads this
    {
      Entry(intents, status, missedResyncs)
    }

    /** The loop body of a resync for one entry: its counter moves, and it may be due for pruning. */
    method Observe(id: string, runningIds: set<string>) returns (prune: bool)
      modifies this
      ensures Seen() == AfterResync(old(Seen()), id, runningIds)
      ensures prune <==> IsPruned(old(Seen()), id, runningIds)
    {
      if status != Running {
        return false;
      }
      if id in runningIds {
        missedResyncs := 0;
        return false;
      }
      missedResyncs := missedResyncs + 1;
      prune := missedResyncs >= RESYNC_PRUNE_THRESHOLD;
    }
  }

  /** Half way through a resync: the entries in rest are still to be looked at. */
  function Walked(before: View, rest: set<string>, running: set<string>): View {
    map id | id in before && (id in rest || !IsPruned(before[id], id, running)) ::
      if id in rest then before[id] else AfterResync(before[id], id, running)
  }

  lemma WalkOne(before: View, rest: set<string>, id: string, running: set<string>)
    requires rest <= before.Keys && id in rest
    ensures
      var now, e := Walked(before, rest, running), before[id];
      && id in now && now[id] == e
      && Walked(before, rest - {id}, running) ==
         if IsPruned(e, id, running) then now[id := AfterResync(e, id, running)] - {id}
         else now[id := AfterResync(e, id, running)]
  {
  }

  /** Some running container asks for x. */
  predicate Wants(view: View, x: RecordIntent) {
    exists id :: id in view && view[id].status == Running && x in view[id].intents
  }

  class MemoryState {
    var containers: map<string, ContainerState>

    ghost predicate Valid()
      reads this
    {
      forall i, j :: i in containers && j in containers && i != j ==> containers[i] != containers[j]
    }

    ghost function View(): View
      reads this, containers.Values
    {
      map id | id in containers :: containers[id].Seen()
    }

    constructor ()
      ensures Valid() && View() == map[]
    {
      containers := map[];
    }

    method Upsert(containerId: string, intents: seq<RecordIntent>, status: Status)
      requires Valid()
      modifies this
      ensures Valid() && View() == old(View())[containerId := Entry(intents, status, 0)]
      ensures forall id :: id in containers ==> id == containerId || containers[id] in old(containers.Values)
      ensures fresh(containers.Values - old(containers.Values))
    {
      var cs := new ContainerState(intents, status);
      containers := containers[containerId := cs];
    }

    /** Deletes an entry on an authoritative stop; says whether there was one. */
    method MarkRemoved(containerId: string) returns (removed: bool)
      requires Valid()
      modifies this
      ensures Valid() && View() == old(View()) - {containerId}
      ensures removed <==> containerId in old(View())
      ensures containers.Values <= old(containers.Values)
    {
      if containerId in containers {
        Delete(containerId);
        return true;
      }
      assert View() - {containerId} == View();
      return false;
    }

    /** One resync: counters go up for the absent and back for the present; whoever has missed the
        threshold is dropped. The map shrinks while it is walked. */
    method RetainRunning(runningIds: set<string>) returns (removed: nat)
      requires Valid()
      modifies this, containers.Values
      ensures Valid() && View() == Retained(old(View()), runningIds)
      ensures removed == |old(View())| - |View()|
      ensures containers.Values <= old(containers.Values)
    {
      removed := 0;
      var rest := containers.Keys;
      ghost var before := View();
      while rest != {}
        invariant Valid() && containers.Values <= old(containers.Values) && rest <= before.Keys
        invariant View() == Walked(before, rest, runningIds)
        invariant removed + |View()| == |before|
        decreases |rest|
      {
        var id :| id in rest;
        WalkOne(before, rest, id, runningIds);
        rest := rest - {id};
        var pruned := RetainOne(id, runningIds);
        if pruned {
          removed := removed + 1;
        }
      }
      assert View() == Retained(before, runningIds);
    }

    /** The body of that walk. */
    method RetainOne(id: string, runningIds: set<string>) returns (pruned: bool)
      requires Valid() && id in containers
      modifies this, containers[id]
      ensures Valid() && containers.Values <= old(containers.Values)
      ensures pruned <==> IsPruned(old(View())[id], id, runningIds)
      ensures View() == if pruned then old(View())[id := AfterResync(old(View())[id], id, runningIds)] - {id}
                        else old(View())[id := AfterResync(old(View())[id], id, runningIds)]
      ensures |View()| == if pruned then |old(View())| - 1 else |old(View())|
    {
      pruned := ObserveOne(id, runningIds);
      if pruned {
        Delete(id);
      }
    }

    method Delete(id: string)
      requires Valid() && id in containers
      modifies this
      ensures Valid() && containers.Values <= old(containers.Values)
      ensures View() == old(View()) - {id} && |View()| == |old(View())| - 1
    {
      OneFewer(View(), id);
      containers := containers - {id};
    }

    method ObserveOne(id: string, runningIds: set<string>) returns (prune: bool)
      requires Valid() && id in containers
      modifies containers[id]
      ensures Valid() && View() == old(View())[id := AfterResync(old(View())[id], id, runningIds)]
      ensures |View()| == |old(View())|
      ensures prune <==> IsPruned(old(View())[id], id, runningIds)
    {
      prune := containers[id].Observe(id, runningIds);
      SameSize(View(), old(View()));
    }

    /** Every intent of every running container. */
    method GetAllDesiredRecordIntents() returns (intents: seq<RecordIntent>)
      requires Valid()
      ensures forall x :: x in intents <==> Wants(View(), x)
    {
      intents := [];
      var rest := containers.Keys;
      while rest != {}
        invariant rest <= containers.Keys
        invariant forall x :: x in intents <==>
                    exists id :: id in View() && id !in rest && View()[id].status == Running && x in View()[id].intents
        decreases |rest|
      {
        var id :| id in rest;
        rest := rest - {id};
        if containers[id].status == Running {
          intents := intents + containers[id].intents;
        }
      }
    }
  }

  lemma OneFewer<V>(m: map<string, V>, id: string)
    requires id in m
    ensures |m - {id}| == |m| - 1
  {
    assert (m - {id}).Keys == m.Keys - {id};
  }

  lemma SameSize<V, W>(m: map<string, V>, n: map<string, W>)
    requires m.Keys == n.Keys
    ensures |m| == |n|
  {
    assert |m| == |m.Keys| && |n| == |n.Keys|;
  }
}
