/** The coloured depth-first search of tools/registry/validate.go (`findCycle`). */
module FindCycle {
  import opened Common
  import opened Digraph

  /** An unvisited (white) vertex has no colour yet. */
  datatype Color = Gray | Black

  // ---------------------------------------------------------------- sorting ids

  predicate Before(a: Id, b: Id) {
    if a == [] then b != [] else b != [] && (a[0] < b[0] || (a[0] == b[0] && Before(a[1..], b[1..])))
  }

  /** Two ids differ first at k, where a has ended or has the smaller character. */
  predicate DifferAt(a: Id, b: Id, k: nat) {
    k <= |a| && k < |b| && a[..k] == b[..k] && (k == |a| || a[k] < b[k])
  }

  /** The order of strings: by the first place where they differ, a front of a string before the string. */
  lemma {:induction false} BeforeMeans(a: Id, b: Id)
    ensures Before(a, b) <==> exists k: nat :: DifferAt(a, b, k)
    decreases |a|
  {
    if a == [] {
      assert b != [] ==> DifferAt(a, b, 0);
    } else if b != [] {
      BeforeMeans(a[1..], b[1..]);
      if a[0] == b[0] {
        if k: nat :| DifferAt(a[1..], b[1..], k) {
          assert a[..k + 1] == [a[0]] + a[1..][..k] && b[..k + 1] == [b[0]] + b[1..][..k];
          assert DifferAt(a, b, k + 1);
        }
        if k: nat :| DifferAt(a, b, k) {
          assert k > 0;
          assert a[1..][..k - 1] == a[..k][1..] && b[1..][..k - 1] == b[..k][1..];
          assert DifferAt(a[1..], b[1..], k - 1);
        }
      } else {
        assert a[0] < b[0] ==> DifferAt(a, b, 0);
        if k: nat :| DifferAt(a, b, k) {
          assert k > 0 ==> a[..k][0] == b[..k][0];
        }
      }
    }
  }

  lemma {:induction false} BeforeTotal(a: Id, b: Id)
    ensures a == b || Before(a, b) || Before(b, a)
    ensures !(Before(a, b) && Before(b, a))
  {
    if a != [] && b != [] && a[0] == b[0] {
      BeforeTotal(a[1..], b[1..]);
      assert a == [a[0]] + a[1..] && b == [b[0]] + b[1..];
    }
  }

  lemma {:induction false} BeforeTransitive(a: Id, b: Id, c: Id)
    requires !Before(b, a) && !Before(c, b)
    ensures !Before(c, a)
  {
    if a != [] && b != [] && c != [] && a[0] == b[0] == c[0] {
      BeforeTransitive(a[1..], b[1..], c[1..]);
    }
  }

  ghost predicate Sorted(ss: seq<Id>) {
    forall i, j :: 0 <= i < j < |ss| ==> !Before(ss[j], ss[i])
  }

  /** Insertion sort, in place. */
  method SortStrings(ss: array<Id>)
    modifies ss
    ensures Sorted(ss[..]) && multiset(ss[..]) == multiset(old(ss[..]))
  {
    var i := 1;
    while i < ss.Length
      invariant 1 <= i && (ss.Length > 0 ==> i <= ss.Length)
      invariant ss.Length > 0 ==> Sorted(ss[..i])
      invariant multiset(ss[..]) == multiset(old(ss[..]))
    {
      InsertFrom(ss, i);
      i := i + 1;
    }
    assert ss.Length > 0 ==> ss[..i] == ss[..];
  }

  /** Everything above start[i] has moved up by one, from j + 1 to i; what is at j + 1 does not matter. */
  ghost predicate Hole(start: seq<Id>, now: seq<Id>, i: nat, j: int) {
    -1 <= j < i < |start| == |now|
    && (forall k :: 0 <= k <= j || i < k < |now| ==> now[k] == start[k])
    && (forall k :: j + 1 < k <= i ==> now[k] == start[k - 1] && Before(start[i], now[k]))
  }

  lemma HoleDown(start: seq<Id>, now: seq<Id>, i: nat, j: nat)
    requires Hole(start, now, i, j) && Before(start[i], now[j])
    ensures Hole(start, now[j + 1 := now[j]], i, j - 1)
  {
  }

  lemma HoleFilled(start: seq<Id>, now: seq<Id>, i: nat, j: int)
    requires Hole(start, now, i, j) && 0 < i && Sorted(start[..i]) && (j >= 0 ==> !Before(start[i], now[j]))
    ensures Sorted(now[j + 1 := start[i]][..i + 1]) && multiset(now[j + 1 := start[i]]) == multiset(start)
  {
    var filled := now[j + 1 := start[i]];
    SortedAfterInsert(start, filled, i, j + 1, start[i]);
    InsertPermutes(start, filled, i, j + 1);
  }

  method InsertFrom(ss: array<Id>, i: nat)
    requires 1 <= i < ss.Length && Sorted(ss[..i])
    modifies ss
    ensures Sorted(ss[..i + 1]) && multiset(ss[..]) == multiset(old(ss[..]))
  {
    var key := ss[i];
    var j := i - 1;
    ghost var start := ss[..];
    assert start[..i] == ss[..i];
    while j >= 0 && Before(key, ss[j])
      invariant -1 <= j < i && Hole(start, ss[..], i, j)
    {
      HoleDown(start, ss[..], i, j);
      ghost var next := ss[..][j + 1 := ss[j]];
      ss[j + 1] := ss[j];
      assert ss[..] == next;
      j := j - 1;
    }
    HoleFilled(start, ss[..], i, j);
    ghost var filled := ss[..][j + 1 := key];
    ss[j + 1] := key;
    assert ss[..] == filled && ss[..i + 1] == filled[..i + 1];
  }

  lemma InsertPermutes(start: seq<Id>, now: seq<Id>, i: nat, at: nat)
    requires at <= i < |start| == |now| && now[at] == start[i]
    requires forall k :: 0 <= k < at || i < k < |now| ==> now[k] == start[k]
    requires forall k :: at < k <= i ==> now[k] == start[k - 1]
    ensures multiset(now) == multiset(start)
  {
    var a, b, x, c := start[..at], start[at..i], start[i], start[i + 1..];
    assert start == a + b + [x] + c;
    assert now == a + [x] + b + c;
  }

  lemma SortedAfterInsert(start: seq<Id>, now: seq<Id>, i: nat, at: nat, key: Id)
    requires 0 < i < |start| == |now| && at <= i && Sorted(start[..i]) && now[at] == key
    requires forall k :: 0 <= k < at ==> now[k] == start[k]
    requires forall k :: at < k <= i ==> now[k] == start[k - 1] && Before(key, now[k])
    requires at > 0 ==> !Before(key, start[at - 1])
    ensures Sorted(now[..i + 1])
  {
    forall p, q | 0 <= p < q < i + 1 ensures !Before(now[q], now[p]) {
      if q < at {
        assert start[..i][p] == now[p] && start[..i][q] == now[q];
      } else if q == at {
        BeforeTotal(start[at - 1], start[at - 1]);
        if p < at - 1 { assert !Before(start[..i][at - 1], start[..i][p]); }
        BeforeTransitive(now[p], start[at - 1], key);
      } else if p == at {
        BeforeTotal(now[q], key);
      } else {
        var p' := if p < at then p else p - 1;
        assert start[..i][p'] == now[p] && start[..i][q - 1] == now[q];
      }
    }
  }

  // ---------------------------------------------------------------- the search

  ghost predicate Within(g: Graph, universe: set<Id>) {
    g.Keys <= universe && forall a, b :: Edge(g, a, b) ==> b in universe
  }

  ghost predicate InUniverse(color: map<Id, Color>, universe: set<Id>) {
    forall a :: a in color ==> a in universe
  }

  function Neighbors(g: Graph, a: Id): seq<Id> {
    if a in g then g[a] else []
  }

  ghost predicate Colored(path: seq<Id>, color: map<Id, Color>, finished: seq<Id>) {
    && (forall a :: (a in color && color[a] == Gray) <==> a in path)
    && (forall a :: (a in color && color[a] == Black) <==> a in finished)
  }

  ghost predicate LinkedUp(adj: Graph, path: seq<Id>, parent: map<Id, Id>) {
    forall i, j :: 0 <= i < |path| - 1 && j == i + 1 ==>
      Edge(adj, path[i], path[j]) && path[j] in parent && parent[path[j]] == path[i]
  }

  ghost predicate AfterSuccessors(adj: Graph, finished: seq<Id>) {
    forall i, b :: 0 <= i < |finished| && Edge(adj, finished[i], b) ==> b in finished[..i]
  }

  /** The gray vertices are the current path, linked up by `parent`; each black vertex finished
      after all its successors. */
  ghost predicate PathOk(adj: Graph, path: seq<Id>, color: map<Id, Color>, parent: map<Id, Id>, finished: seq<Id>) {
    Distinct(path) && Colored(path, color, finished) && LinkedUp(adj, path, parent) && AfterSuccessors(adj, finished)
  }

  lemma LinkedUpMore(adj: Graph, path: seq<Id>, parent: map<Id, Id>, node: Id)
    requires LinkedUp(adj, path, parent)
    requires path != [] ==>
               Edge(adj, path[|path| - 1], node) && node in parent && parent[node] == path[|path| - 1]
    ensures LinkedUp(adj, path + [node], parent)
  {
    var longer := path + [node];
    forall i, j | 0 <= i < |longer| - 1 && j == i + 1
      ensures Edge(adj, longer[i], longer[j]) && longer[j] in parent && parent[longer[j]] == longer[i]
    {
      if j < |path| { assert Edge(adj, path[i], path[j]); }
    }
  }

  lemma LinkedUpLess(adj: Graph, path: seq<Id>, parent: map<Id, Id>, node: Id)
    requires LinkedUp(adj, path + [node], parent)
    ensures LinkedUp(adj, path, parent)
  {
    var longer := path + [node];
    forall i, j | 0 <= i < |path| - 1 && j == i + 1
      ensures Edge(adj, path[i], path[j]) && path[j] in parent && parent[path[j]] == path[i]
    {
      assert longer[i] == path[i] && longer[j] == path[j];
      assert Edge(adj, longer[i], longer[j]);
    }
  }

  lemma DistinctMore(path: seq<Id>, node: Id)
    requires Distinct(path) && node !in path
    ensures Distinct(path + [node])
  {
  }

  lemma DistinctLess(path: seq<Id>, node: Id)
    requires Distinct(path + [node])
    ensures Distinct(path) && node !in path
  {
    var longer := path + [node];
    forall i | 0 <= i < |path| ensures path[i] != node {
      assert longer[i] != longer[|path|];
    }
    forall i, j | 0 <= i < j < |path| ensures path[i] != path[j] {
      assert longer[i] != longer[j];
    }
  }

  lemma EnterOk(adj: Graph, path: seq<Id>, color: map<Id, Color>, parent: map<Id, Id>, finished: seq<Id>, node: Id)
    requires PathOk(adj, path, color, parent, finished) && node !in color
    requires path != [] ==>
               Edge(adj, path[|path| - 1], node) && node in parent && parent[node] == path[|path| - 1]
    ensures PathOk(adj, path + [node], color[node := Gray], parent, finished)
  {
    assert node !in path && node !in finished;
    DistinctMore(path, node);
    LinkedUpMore(adj, path, parent, node);
    assert Colored(path + [node], color[node := Gray], finished);
  }

  lemma NewParentOk(adj: Graph, path: seq<Id>, color: map<Id, Color>, parent: map<Id, Id>, finished: seq<Id>,
                    child: Id, node: Id)
    requires PathOk(adj, path, color, parent, finished) && child !in color
    ensures PathOk(adj, path, color, parent[child := node], finished)
  {
    assert child !in path;
  }

  lemma AfterSuccessorsMore(adj: Graph, finished: seq<Id>, node: Id)
    requires AfterSuccessors(adj, finished) && forall b :: Edge(adj, node, b) ==> b in finished
    ensures AfterSuccessors(adj, finished + [node])
  {
    var later := finished + [node];
    forall i, b | 0 <= i < |later| && Edge(adj, later[i], b) ensures b in later[..i] {
      if i < |finished| {
        assert later[i] == finished[i] && later[..i] == finished[..i];
      } else {
        assert later[..i] == finished;
      }
    }
  }

  lemma FinishOk(adj: Graph, path: seq<Id>, color: map<Id, Color>, parent: map<Id, Id>, finished: seq<Id>, node: Id)
    requires PathOk(adj, path + [node], color, parent, finished)
    requires forall b :: Edge(adj, node, b) ==> b in finished
    ensures PathOk(adj, path, color[node := Black], parent, finished + [node])
  {
    DistinctLess(path, node);
    LinkedUpLess(adj, path, parent, node);
    AfterSuccessorsMore(adj, finished, node);
    assert (path + [node])[|path|] == node;
    assert Colored(path, color[node := Black], finished + [node]);
  }

  class CycleFinder {
    const adj: Graph
    var color: map<Id, Color>
    var parent: map<Id, Id>
    /** The vertices in the order they turned black. */
    ghost var finished: seq<Id>

    constructor (adj: Graph)
      ensures this.adj == adj && color == map[] && parent == map[] && finished == []
    {
      this.adj := adj;
      color, parent, finished := map[], map[], [];
    }

    ghost predicate Valid(path: seq<Id>)
      reads this
    {
      PathOk(adj, path, color, parent, finished)
    }

    /** Follow `parent` from the end of the path back to the gray vertex `neighbor`. */
    method ClosePath(node: Id, neighbor: Id, ghost path: seq<Id>) returns (cycle: seq<Id>)
      requires Valid(path) && path != [] && path[|path| - 1] == node && neighbor in path
      requires Edge(adj, node, neighbor)
      ensures IsCycle(adj, cycle)
    {
      ghost var at := |path| - 1;
      cycle := [node];
      var cur := node;
      while cur != neighbor
        invariant 0 <= at < |path| && cur == path[at] && cycle == path[at..]
        invariant forall k :: at < k < |path| ==> path[k] != neighbor
        decreases at
      {
        assert at > 0 && Edge(adj, path[at - 1], path[at]);
        if cur !in parent {
          break;
        }
        cur := parent[cur];
        at := at - 1;
        cycle := [cur] + cycle;
      }
      forall i | 0 <= i < |cycle| - 1 ensures Edge(adj, cycle[i], cycle[i + 1]) {
        assert Edge(adj, path[at + i], path[at + i + 1]);
      }
      cycle := cycle + [neighbor];
    }

    method Dfs(node: Id, ghost path: seq<Id>, ghost universe: set<Id>) returns (cycle: seq<Id>)
      requires Valid(path) && Within(adj, universe) && InUniverse(color, universe)
      requires node in universe && node !in color
      requires path != [] ==>
                 Edge(adj, path[|path| - 1], node) && node in parent && parent[node] == path[|path| - 1]
      modifies this
      ensures cycle != [] ==> IsCycle(adj, cycle)
      ensures cycle == [] ==> Valid(path) && node in finished
      ensures cycle == [] ==> old(color.Keys) <= color.Keys && InUniverse(color, universe)
      ensures cycle == [] ==> forall a :: a in old(finished) ==> a in finished
      decreases universe - color.Keys, 0
    {
      EnterOk(adj, path, color, parent, finished, node);
      color := color[node := Gray];
      ghost var longer := path + [node];
      assert node in universe - old(color.Keys) && node !in universe - color.Keys;
      var order := SortedCopy(Neighbors(adj, node));
      assert forall b :: Edge(adj, node, b) <==> b in order;
      cycle := ExploreAll(node, order, longer, universe);
      if |cycle| > 0 {
        return;
      }
      FinishOk(adj, path, color, parent, finished, node);
      color := color[node := Black];
      finished := finished + [node];
    }

    /** The loop over the neighbors. */
    method ExploreAll(node: Id, order: seq<Id>, ghost path: seq<Id>, ghost universe: set<Id>) returns (cycle: seq<Id>)
      requires Valid(path) && Within(adj, universe) && InUniverse(color, universe)
      requires path != [] && path[|path| - 1] == node && forall b :: b in order ==> Edge(adj, node, b)
      modifies this
      ensures cycle != [] ==> IsCycle(adj, cycle)
      ensures cycle == [] ==> Valid(path) && forall b :: b in order ==> b in finished
      ensures cycle == [] ==> old(color.Keys) <= color.Keys && InUniverse(color, universe)
      ensures cycle == [] ==> forall a :: a in old(finished) ==> a in finished
      decreases universe - color.Keys, 2
    {
      cycle := [];
      var i := 0;
      while i < |order|
        invariant 0 <= i <= |order| && cycle == []
        invariant Valid(path) && old(color.Keys) <= color.Keys && InUniverse(color, universe)
        invariant forall k :: 0 <= k < i ==> order[k] in finished
        invariant forall a :: a in old(finished) ==> a in finished
      {
        cycle := Explore(node, order[i], path, universe);
        if |cycle| > 0 {
          return;
        }
        i := i + 1;
      }
    }

    /** One neighbor of the loop: a gray one closes a cycle, a white one is visited. */
    method Explore(node: Id, neighbor: Id, ghost path: seq<Id>, ghost universe: set<Id>) returns (cycle: seq<Id>)
      requires Valid(path) && Within(adj, universe) && InUniverse(color, universe)
      requires path != [] && path[|path| - 1] == node && Edge(adj, node, neighbor)
      modifies this
      ensures cycle != [] ==> IsCycle(adj, cycle)
      ensures cycle == [] ==> Valid(path) && neighbor in finished
      ensures cycle == [] ==> old(color.Keys) <= color.Keys && InUniverse(color, universe)
      ensures cycle == [] ==> forall a :: a in old(finished) ==> a in finished
      decreases universe - color.Keys, 1
    {
      cycle := [];
      if neighbor in color && color[neighbor] == Gray {
        cycle := ClosePath(node, neighbor, path);
        return;
      }
      if neighbor !in color {
        NewParentOk(adj, path, color, parent, finished, neighbor, node);
        parent := parent[neighbor := node];
        cycle := Dfs(neighbor, path, universe);
      }
    }
  }

  method SortedCopy(s: seq<Id>) returns (sorted: seq<Id>)
    ensures Sorted(sorted) && multiset(sorted) == multiset(s)
    ensures forall a :: a in sorted <==> a in s
  {
    var copy := new Id[|s|](i requires 0 <= i < |s| => s[i]);
    assert copy[..] == s;
    SortStrings(copy);
    sorted := copy[..];
    SameMembers(sorted, s);
  }

  lemma SameMembers(s: seq<Id>, t: seq<Id>)
    requires multiset(s) == multiset(t)
    ensures forall a :: a in s <==> a in t
  {
    forall a ensures a in s <==> a in t {
      assert a in s <==> a in multiset(s);
      assert a in t <==> a in multiset(t);
    }
  }

  ghost function FirstIndex(s: seq<Id>, a: Id): (i: nat)
    requires a in s
    ensures i < |s| && s[i] == a && a !in s[..i]
  {
    if s[0] == a then 0
    else
      var i := FirstIndex(s[1..], a) + 1;
      assert s[..i] == [s[0]] + s[1..][..i - 1];
      i
  }

  lemma {:induction false} FirstIndexLeast(s: seq<Id>, a: Id, k: nat)
    requires k < |s| && s[k] == a
    ensures FirstIndex(s, a) <= k
  {
    if s[0] != a { FirstIndexLeast(s[1..], a, k - 1); }
  }

  /** The map's keys, in whatever order iterating over it gives. */
  method Nodes(adj: Graph) returns (nodes: seq<Id>)
    ensures forall a :: a in nodes <==> a in adj
  {
    nodes := [];
    var keys := adj.Keys;
    while keys != {}
      invariant keys <= adj.Keys && forall a :: a in adj <==> a in keys || a in nodes
      decreases keys
    {
      var k :| k in keys;
      keys := keys - {k};
      nodes := nodes + [k];
    }
  }

  /** No cycle is reported exactly when there is none, and what is reported is one. */
  method FindCycle(adj: Graph) returns (cycle: seq<Id>)
    ensures cycle == [] <==> Acyclic(adj)
    ensures cycle != [] ==> IsCycle(adj, cycle)
  {
    var finder := new CycleFinder(adj);
    ghost var universe := adj.Keys + set a, i | a in adj && 0 <= i < |adj[a]| :: adj[a][i];
    var nodes := Nodes(adj);
    var order := SortedCopy(nodes);
    var i := 0;
    while i < |order|
      invariant 0 <= i <= |order|
      invariant finder.adj == adj && finder.Valid([]) && InUniverse(finder.color, universe)
      invariant forall k :: 0 <= k < i ==> order[k] in finder.finished
    {
      assert order[i] in order;
      if order[i] !in finder.color {
        cycle := finder.Dfs(order[i], [], universe);
        if |cycle| > 0 {
          return;
        }
      }
      i := i + 1;
    }
    cycle := [];
    AllFinishedIsAcyclic(adj, finder.finished);
  }

  lemma AllFinishedIsAcyclic(adj: Graph, finished: seq<Id>)
    requires forall a :: a in adj ==> a in finished
    requires forall i, b :: 0 <= i < |finished| && Edge(adj, finished[i], b) ==> b in finished[..i]
    ensures Acyclic(adj)
  {
    var rank: Id -> nat := a => if a in finished then FirstIndex(finished, a) + 1 else 0;
    forall a, b | Edge(adj, a, b) ensures rank(b) < rank(a) {
      var i := FirstIndex(finished, a);
      assert b in finished[..i];
      var k :| 0 <= k < i && finished[k] == b;
      FirstIndexLeast(finished, b, k);
    }
    RankedIsAcyclic(adj, rank);
  }
}
