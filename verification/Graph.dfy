/** Alias graphs: a set of (name, target) edges, trails through it, and cycles. */
module Graph {
  type Links = set<(string, string)>

  function Pairs(next: map<string, string>): Links {
    set k | k in next :: (k, next[k])
  }

  predicate Hop(links: Links, p: seq<string>, i: int)
    requires 0 <= i < |p| - 1
  {
    (p[i], p[i + 1]) in links
  }

  predicate IsTrail(links: Links, p: seq<string>) {
    |p| >= 1 && forall i :: 0 <= i < |p| - 1 ==> Hop(links, p, i)
  }

  /** A trail that comes back to the name it set out from. */
  predicate IsCycle(links: Links, p: seq<string>) {
    IsTrail(links, p) && |p| >= 2 && p[0] == p[|p| - 1]
  }

  ghost predicate HasCycle(links: Links) {
    exists p :: IsCycle(links, p)
  }

  predicate Distinct(p: seq<string>) {
    forall i, j :: 0 <= i < j < |p| ==> p[i] != p[j]
  }

  /** Following the links from `start` visits some name twice. */
  ghost predicate Loops(links: Links, start: string) {
    exists p :: IsTrail(links, p) && p[0] == start && !Distinct(p)
  }

  lemma SubTrail(links: Links, p: seq<string>, i: nat, j: nat)
    requires IsTrail(links, p) && i < j <= |p|
    ensures IsTrail(links, p[i..j])
  {
    forall k | 0 <= k < j - i - 1
      ensures Hop(links, p[i..j], k)
    {
      assert Hop(links, p, i + k);
    }
  }

  lemma JoinTrails(links: Links, p: seq<string>, q: seq<string>)
    requires IsTrail(links, p) && IsTrail(links, q) && p[|p| - 1] == q[0]
    ensures IsTrail(links, p + q[1..])
  {
    var r := p + q[1..];
    forall k | 0 <= k < |r| - 1
      ensures Hop(links, r, k)
    {
      if k < |p| - 1 {
        assert Hop(links, p, k);
      } else {
        assert Hop(links, q, k - (|p| - 1));
        assert r[k] == q[k - (|p| - 1)];
      }
    }
  }

  lemma CycleMonotone(small: Links, big: Links)
    requires small <= big && HasCycle(small)
    ensures HasCycle(big)
  {
    var p :| IsCycle(small, p);
    forall i | 0 <= i < |p| - 1
      ensures Hop(big, p, i)
    {
      assert Hop(small, p, i);
    }
    assert IsCycle(big, p);
  }

  lemma LoopHasCycle(links: Links, start: string)
    requires Loops(links, start)
    ensures HasCycle(links)
  {
    var p :| IsTrail(links, p) && p[0] == start && !Distinct(p);
    var i, j :| 0 <= i < j < |p| && p[i] == p[j];
    SubTrail(links, p, i, j + 1);
    assert IsCycle(links, p[i..j + 1]);
  }

  /** A cycle that needs the edge (from, to) can be walked starting at `from`. */
  lemma CycleThroughEdgeLoops(links: Links, from: string, to: string)
    requires !HasCycle(links)
    requires HasCycle(links + {(from, to)})
    ensures Loops(links + {(from, to)}, from)
  {
    var big := links + {(from, to)};
    var c :| IsCycle(big, c);
    if i :| 0 <= i < |c| - 1 && c[i] == from {
      SubTrail(big, c, i, |c|);
      SubTrail(big, c, 0, i + 1);
      assert c[i..|c|] == c[i..] && c[0..i + 1] == c[..i + 1];
      JoinTrails(big, c[i..], c[..i + 1]);
      var p := c[i..] + c[..i + 1][1..];
      assert IsTrail(big, p) && p[0] == from && p[|p| - 1] == from && |p| >= 2;
      assert !Distinct(p);
    } else {
      forall k | 0 <= k < |c| - 1
        ensures Hop(links, c, k)
      {
        assert Hop(big, c, k);
      }
      assert IsCycle(links, c);
      assert false;
    }
  }

  /** On an acyclic graph, adding one edge closes a cycle exactly when the walk that starts at
      the edge's source repeats a name. */
  lemma NewEdgeExact(links: Links, from: string, to: string)
    requires !HasCycle(links)
    ensures HasCycle(links + {(from, to)}) <==> Loops(links + {(from, to)}, from)
  {
    if HasCycle(links + {(from, to)}) {
      CycleThroughEdgeLoops(links, from, to);
    }
    if Loops(links + {(from, to)}, from) {
      LoopHasCycle(links + {(from, to)}, from);
    }
  }

  /** In a graph with one successor per name, two trails from one name agree as far as both go. */
  lemma {:induction false} TrailsAgree(next: map<string, string>, p: seq<string>, q: seq<string>, k: nat)
    requires IsTrail(Pairs(next), p) && IsTrail(Pairs(next), q) && p[0] == q[0]
    requires k < |p| && k < |q|
    ensures p[k] == q[k]
  {
    if k > 0 {
      TrailsAgree(next, p, q, k - 1);
      assert Hop(Pairs(next), p, k - 1) && Hop(Pairs(next), q, k - 1);
    }
  }

  lemma HopHasSuccessor(next: map<string, string>, p: seq<string>, k: nat)
    requires IsTrail(Pairs(next), p) && k < |p| - 1
    ensures p[k] in next
  {
    assert Hop(Pairs(next), p, k);
  }

  /** A walk without repetition that ends where there is no successor proves that no walk from
      its start repeats a name. */
  lemma DeadEndNoLoop(next: map<string, string>, p: seq<string>)
    requires IsTrail(Pairs(next), p) && Distinct(p) && p[|p| - 1] !in next
    ensures !Loops(Pairs(next), p[0])
  {
    if Loops(Pairs(next), p[0]) {
      var q :| IsTrail(Pairs(next), q) && q[0] == p[0] && !Distinct(q);
      if |q| > |p| {
        HopHasSuccessor(next, q, |p| - 1);
        TrailsAgree(next, p, q, |p| - 1);
        assert false;
      } else {
        var i, j :| 0 <= i < j < |q| && q[i] == q[j];
        TrailsAgree(next, p, q, i);
        TrailsAgree(next, p, q, j);
        assert false;
      }
    }
  }
}
