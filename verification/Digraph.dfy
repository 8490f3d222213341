/** Finite directed graphs as adjacency lists, and what it means for one to have no cycle. */
module Digraph {

  type Id = string

  type Graph = map<Id, seq<Id>>

  predicate Edge(g: Graph, a: Id, b: Id) {
    a in g && b in g[a]
  }

  ghost predicate IsWalk(g: Graph, p: seq<Id>) {
    |p| >= 1 && forall i :: 0 <= i < |p| - 1 ==> Edge(g, p[i], p[i + 1])
  }

  ghost predicate WalkBetween(g: Graph, p: seq<Id>, a: Id, b: Id) {
    IsWalk(g, p) && p[0] == a && p[|p| - 1] == b
  }

  /** A closed walk over at least one edge. */
  ghost predicate IsCycle(g: Graph, p: seq<Id>) {
    IsWalk(g, p) && |p| >= 2 && p[0] == p[|p| - 1]
  }

  ghost predicate Acyclic(g: Graph) {
    forall p: seq<Id> :: !IsCycle(g, p)
  }

  ghost predicate Reaches(g: Graph, a: Id, b: Id) {
    exists p: seq<Id> :: WalkBetween(g, p, a, b)
  }

  /** Every edge goes to a smaller rank. */
  ghost predicate Ranks(g: Graph, rank: Id -> nat) {
    forall a, b :: Edge(g, a, b) ==> rank(b) < rank(a)
  }

  // ---------------------------------------------------------------- walks and reachability

  lemma WalkPrepend(g: Graph, a: Id, p: seq<Id>)
    requires IsWalk(g, p) && Edge(g, a, p[0])
    ensures IsWalk(g, [a] + p)
  {
    var q := [a] + p;
    forall i | 0 <= i < |q| - 1 ensures Edge(g, q[i], q[i + 1]) {
      if i > 0 { assert Edge(g, p[i - 1], p[i]); }
    }
  }

  lemma WalkExtend(g: Graph, p: seq<Id>, b: Id)
    requires IsWalk(g, p) && Edge(g, p[|p| - 1], b)
    ensures IsWalk(g, p + [b])
  {
    var q := p + [b];
    forall i | 0 <= i < |q| - 1 ensures Edge(g, q[i], q[i + 1]) {
      if i < |p| - 1 { assert Edge(g, p[i], p[i + 1]); }
    }
  }

  lemma WalkSlice(g: Graph, p: seq<Id>, i: nat, j: nat)
    requires IsWalk(g, p) && i < j <= |p|
    ensures IsWalk(g, p[i..j])
  {
    var q := p[i..j];
    forall k | 0 <= k < |q| - 1 ensures Edge(g, q[k], q[k + 1]) {
      assert Edge(g, p[i + k], p[i + k + 1]);
    }
  }

  lemma ReachesSelf(g: Graph, a: Id)
    ensures Reaches(g, a, a)
  {
    assert WalkBetween(g, [a], a, a);
  }

  lemma ReachesStep(g: Graph, a: Id, b: Id, c: Id)
    requires Edge(g, a, b) && Reaches(g, b, c)
    ensures Reaches(g, a, c)
  {
    var p :| WalkBetween(g, p, b, c);
    WalkPrepend(g, a, p);
    assert WalkBetween(g, [a] + p, a, c);
  }

  // ---------------------------------------------------------------- ranks and cycles

  lemma {:induction false} RankFalls(g: Graph, rank: Id -> nat, p: seq<Id>)
    requires Ranks(g, rank) && IsWalk(g, p)
    ensures rank(p[|p| - 1]) + |p| - 1 <= rank(p[0])
  {
    if |p| > 1 {
      assert Edge(g, p[0], p[1]);
      WalkSlice(g, p, 1, |p|);
      assert p[1..|p|] == p[1..];
      RankFalls(g, rank, p[1..]);
    }
  }

  lemma RankedIsAcyclic(g: Graph, rank: Id -> nat)
    requires Ranks(g, rank)
    ensures Acyclic(g)
  {
    forall p: seq<Id> ensures !IsCycle(g, p) {
      if IsCycle(g, p) { RankFalls(g, rank, p); }
    }
  }

  /** Some entry of a list longer than the set it draws from occurs twice. */
  lemma {:induction false} Pigeonhole(p: seq<Id>, s: set<Id>) returns (i: nat, j: nat)
    requires |p| > |s| && forall k :: 0 <= k < |p| ==> p[k] in s
    ensures i < j < |p| && p[i] == p[j]
  {
    var last := |p| - 1;
    if k :| 0 <= k < last && p[k] == p[last] {
      i, j := k, last;
    } else {
      forall k | 0 <= k < last ensures p[..last][k] in s - {p[last]} {
        assert p[k] in s;
      }
      i, j := Pigeonhole(p[..last], s - {p[last]});
    }
  }

  ghost predicate HasNext(g: Graph, s: set<Id>, a: Id) {
    exists b :: b in s && Edge(g, a, b)
  }

  lemma {:induction false} WalkInside(g: Graph, s: set<Id>, start: Id, n: nat) returns (p: seq<Id>)
    requires forall a :: a in s ==> HasNext(g, s, a)
    requires start in s
    ensures IsWalk(g, p) && |p| == n + 1 && p[0] == start
    ensures forall k :: 0 <= k < |p| ==> p[k] in s
    decreases n
  {
    if n == 0 {
      p := [start];
    } else {
      assert HasNext(g, s, start);
      var next :| next in s && Edge(g, start, next);
      var rest := WalkInside(g, s, next, n - 1);
      WalkPrepend(g, start, rest);
      p := [start] + rest;
    }
  }

  lemma CycleInside(g: Graph, s: set<Id>) returns (c: seq<Id>)
    requires s != {} && forall a :: a in s ==> HasNext(g, s, a)
    ensures IsCycle(g, c)
  {
    var start :| start in s;
    var p := WalkInside(g, s, start, |s|);
    var i, j := Pigeonhole(p, s);
    WalkSlice(g, p, i, j + 1);
    c := p[i..j + 1];
  }

  lemma SinkExists(g: Graph, s: set<Id>) returns (sink: Id)
    requires Acyclic(g) && s != {}
    ensures sink in s && !HasNext(g, s, sink)
  {
    if forall a :: a in s ==> HasNext(g, s, a) {
      var c := CycleInside(g, s);
      assert false;
    }
    sink :| sink in s && !HasNext(g, s, sink);
  }

  /** Ranks by repeatedly taking out a vertex without successors among those left. */
  lemma {:induction false} PeelRanks(g: Graph, left: set<Id>) returns (rank: map<Id, nat>)
    requires Acyclic(g)
    ensures rank.Keys == left
    ensures forall a :: a in left ==> rank[a] > 0
    ensures forall a, b :: a in left && b in left && Edge(g, a, b) ==> rank[b] < rank[a]
    decreases |left|
  {
    if left == {} {
      rank := map[];
    } else {
      var sink := SinkExists(g, left);
      var above := PeelRanks(g, left - {sink});
      rank := map a | a in left :: if a == sink then 1 else above[a] + 1;
      assert forall b :: b in left && Edge(g, sink, b) ==> HasNext(g, left, sink);
    }
  }

  lemma AcyclicIsRanked(g: Graph) returns (rank: Id -> nat)
    requires Acyclic(g)
    ensures Ranks(g, rank)
  {
    var m := PeelRanks(g, g.Keys);
    rank := a => if a in m then m[a] else 0;
  }
}
