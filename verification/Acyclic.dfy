/** Finite graphs without cycles: they are the ones whose nodes can be ranked along the edges. */
module Acyclic {
  /** The successors of each node. */
  type Edges = map<int, set<int>>

  predicate Edge(e: Edges, from: int, to: int) {
    from in e && to in e[from]
  }

  /** Nodes, each followed by one of its successors. */
  predicate Path(e: Edges, p: seq<int>) {
    |p| == 1 || (|p| > 1 && Path(e, p[..|p| - 1]) && Edge(e, p[|p| - 2], p[|p| - 1]))
  }

  ghost predicate NoCycle(e: Edges) {
    forall p :: Path(e, p) && |p| > 1 ==> p[0] != p[|p| - 1]
  }

  ghost predicate Ranks(e: Edges, rank: int -> nat) {
    forall id, t :: id in e && t in e[id] && t in e ==> rank(t) < rank(id)
  }

  /** Along a path of ranked nodes the rank falls. */
  lemma {:induction false} RankFalls(e: Edges, rank: int -> nat, p: seq<int>)
    requires Ranks(e, rank) && Path(e, p) && |p| > 1 && p[|p| - 1] in e
    ensures rank(p[|p| - 1]) < rank(p[0])
  {
    if |p| > 2 {
      RankFalls(e, rank, p[..|p| - 1]);
    }
  }

  lemma {:induction false} StartsInside(e: Edges, p: seq<int>)
    requires Path(e, p) && |p| > 1
    ensures p[0] in e
  {
    if |p| > 2 {
      StartsInside(e, p[..|p| - 1]);
    }
  }

  lemma RankedHasNoCycle(e: Edges, rank: int -> nat)
    requires Ranks(e, rank)
    ensures NoCycle(e)
  {
    forall p | Path(e, p) && |p| > 1
      ensures p[0] != p[|p| - 1]
    {
      StartsInside(e, p);
      if p[|p| - 1] in e {
        RankFalls(e, rank, p);
      }
    }
  }

  /** A piece of a path is a path. */
  lemma {:induction false} SubPath(e: Edges, p: seq<int>, i: nat, j: nat)
    requires Path(e, p) && i < j <= |p|
    ensures Path(e, p[i..j])
    decreases |p|
  {
    var n := |p| - 1;
    if j <= n {
      SubPath(e, p[..n], i, j);
      assert p[..n][i..j] == p[i..j];
    } else if i < n {
      SubPath(e, p[..n], i, n);
      assert p[..n][i..n] == p[i..n];
      assert p[i..j][..n - i] == p[i..n];
    }
  }

  lemma {:induction false} DistinctFit(p: seq<int>, s: set<int>)
    requires (forall i :: 0 <= i < |p| ==> p[i] in s) && forall i, j :: 0 <= i < j < |p| ==> p[i] != p[j]
    ensures |p| <= |s|
  {
    if p != [] {
      var n := |p| - 1;
      DistinctFit(p[..n], s - {p[n]});
      assert |s - {p[n]}| == |s| - 1;
    }
  }

  ghost predicate HasNext(e: Edges, x: int)
    requires x in e
  {
    exists y :: y in e[x] && y in e
  }

  /** Where every node has a successor there are paths of every length. */
  lemma {:induction false} LongPath(e: Edges, start: int, n: nat) returns (p: seq<int>)
    requires start in e && forall x :: x in e ==> HasNext(e, x)
    ensures |p| == n + 1 && Path(e, p) && forall i :: 0 <= i < |p| ==> p[i] in e
  {
    if n == 0 {
      p := [start];
    } else {
      var q := LongPath(e, start, n - 1);
      assert HasNext(e, q[n - 1]);
      var y :| y in e[q[n - 1]] && y in e;
      p := q + [y];
      assert p[..n] == q;
    }
  }

  /** A path with more nodes than there are goes in a circle. */
  lemma LongPathHasCycle(e: Edges, p: seq<int>)
    requires Path(e, p) && |p| > |e.Keys| && forall i :: 0 <= i < |p| ==> p[i] in e
    ensures !NoCycle(e)
  {
    if forall i, j :: 0 <= i < j < |p| ==> p[i] != p[j] {
      DistinctFit(p, e.Keys);
    } else {
      var i, j :| 0 <= i < j < |p| && p[i] == p[j];
      SubPath(e, p, i, j + 1);
      var cycle := p[i..j + 1];
      assert |cycle| == j + 1 - i && cycle[0] == p[i] && cycle[j - i] == p[j];
      assert Path(e, cycle) && cycle[0] == cycle[|cycle| - 1];
    }
  }

  lemma SomeNode(e: Edges)
    ensures e == map[] || exists x :: x in e
  {
    if forall x :: x !in e {
      assert e.Keys == {};
      assert e == map[];
    }
  }

  lemma SinkExists(e: Edges)
    requires NoCycle(e) && e != map[]
    ensures exists x :: x in e && !HasNext(e, x)
  {
    if forall x :: x in e ==> HasNext(e, x) {
      SomeNode(e);
      var start :| start in e;
      var p := LongPath(e, start, |e.Keys|);
      LongPathHasCycle(e, p);
    }
  }

  lemma {:induction false} FewerEdges(e: Edges, x: int, p: seq<int>)
    requires Path(e - {x}, p)
    ensures Path(e, p)
  {
    if |p| > 1 {
      FewerEdges(e, x, p[..|p| - 1]);
    }
  }

  /** Without cycles the nodes can be ranked: the node without successors first. */
  lemma {:induction false} NoCycleHasRanks(e: Edges) returns (rank: int -> nat)
    requires NoCycle(e)
    ensures Ranks(e, rank)
    decreases |e|
  {
    if e == map[] {
      rank := x => 0;
    } else {
      SinkExists(e);
      var x :| x in e && !HasNext(e, x);
      var rest := e - {x};
      forall p | Path(rest, p)
        ensures Path(e, p)
      {
        FewerEdges(e, x, p);
      }
      assert rest.Keys == e.Keys - {x} && |rest| == |rest.Keys| && |e| == |e.Keys|;
      var above := NoCycleHasRanks(rest);
      rank := y => if y == x then 0 else above(y) + 1;
    }
  }

  // ------------------------------------------------------------------ what can be reached

  ghost predicate Leads(e: Edges, roots: set<int>, p: seq<int>, id: int) {
    Path(e, p) && p[0] in roots && p[|p| - 1] == id
  }

  /** The nodes that some path from the roots leads to. */
  ghost function Reach(e: Edges, roots: set<int>): set<int> {
    set id | id in e && exists p :: Leads(e, roots, p, id)
  }

  lemma ReachHasRoots(e: Edges, roots: set<int>, id: int)
    requires id in roots && id in e
    ensures id in Reach(e, roots)
  {
    assert Leads(e, roots, [id], id);
  }

  lemma ReachIsClosed(e: Edges, roots: set<int>, id: int, t: int)
    requires id in Reach(e, roots) && t in e[id] && t in e
    ensures t in Reach(e, roots)
  {
    var p :| Leads(e, roots, p, id);
    assert (p + [t])[..|p|] == p;
    assert Leads(e, roots, p + [t], t);
  }

  ghost predicate ClosedUnder(e: Edges, roots: set<int>, s: set<int>) {
    && (forall id :: id in roots && id in e ==> id in s)
    && (forall id, t :: id in s && Edge(e, id, t) && t in e ==> t in s)
  }

  lemma {:induction false} LedInside(e: Edges, roots: set<int>, s: set<int>, p: seq<int>)
    requires ClosedUnder(e, roots, s) && Path(e, p) && p[0] in roots && p[|p| - 1] in e
    ensures p[|p| - 1] in s
  {
    if |p| == 1 {
      assert p[0] == p[|p| - 1];
      assert p[0] in e;
      assert p[0] in s;
    } else {
      LedInside(e, roots, s, p[..|p| - 1]);
      assert p[|p| - 2] in s && Edge(e, p[|p| - 2], p[|p| - 1]);
    }
  }

  /** It is the least set that is closed so. */
  lemma ReachIsLeast(e: Edges, roots: set<int>, s: set<int>)
    requires ClosedUnder(e, roots, s)
    ensures Reach(e, roots) <= s
  {
    forall id | id in Reach(e, roots)
      ensures id in s
    {
      var p :| Leads(e, roots, p, id);
      LedInside(e, roots, s, p);
    }
  }
}
