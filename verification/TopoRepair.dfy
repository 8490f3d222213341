/** The stable depth-first repair of an order (tools/registry/mutators.go, `topoRepairPriority`),
    over an arbitrary graph of "must come after" edges. */
module TopoRepair {
  import opened Common
  import opened Digraph

  /** An unseen id has no mark yet. */
  datatype Mark = OnStack | Emitted

  datatype Dfs = Dfs(state: map<Id, Mark>, out: seq<Id>)

  function Deps(g: Graph, id: Id): seq<Id> {
    if id in g then g[id] else []
  }

  predicate Closed(g: Graph, u: set<Id>) {
    forall a, i :: a in g && 0 <= i < |g[a]| ==> g[a][i] in u
  }

  predicate AllIn(ids: seq<Id>, u: set<Id>) {
    forall i :: 0 <= i < |ids| ==> ids[i] in u
  }

  // ---------------------------------------------------------------- the search as a function

  function Visit(g: Graph, u: set<Id>, id: Id, s: Dfs): (r: Dfs)
    requires Closed(g, u) && id in u && s.state.Keys <= u
    ensures s.state.Keys <= r.state.Keys <= u && id in r.state
    decreases u - s.state.Keys, 0
  {
    if id in s.state then s
    else
      var entered := s.state[id := OnStack];
      assert id in u - s.state.Keys && id !in u - entered.Keys;
      var r := VisitAll(g, u, Deps(g, id), Dfs(entered, s.out));
      Dfs(r.state[id := Emitted], r.out + [id])
  }

  function VisitAll(g: Graph, u: set<Id>, ids: seq<Id>, s: Dfs): (r: Dfs)
    requires Closed(g, u) && AllIn(ids, u) && s.state.Keys <= u
    ensures s.state.Keys <= r.state.Keys <= u
    ensures forall i :: 0 <= i < |ids| ==> ids[i] in r.state
    decreases u - s.state.Keys, |ids|
  {
    if ids == [] then s
    else
      var first := Visit(g, u, ids[0], s);
      VisitAll(g, u, ids[1..], first)
  }

  const START := Dfs(map[], [])

  /** The repaired order. */
  function Repaired(g: Graph, order: seq<Id>): seq<Id>
    requires Closed(g, Members(order))
  {
    VisitAll(g, Members(order), order, START).out
  }

  function Members(s: seq<Id>): set<Id> {
    set i | 0 <= i < |s| :: s[i]
  }

  // ---------------------------------------------------------------- what an order must satisfy

  /** Every id comes after all its dependencies other than itself. */
  ghost predicate Respects(g: Graph, s: seq<Id>) {
    forall p, t :: 0 <= p < |s| && t in Deps(g, s[p]) && t != s[p] ==> t in s[..p]
  }

  /** The dependency graph with self-edges dropped: the ordering check ignores those. */
  function WithoutLoops(g: Graph): (h: Graph)
    ensures forall a, b :: Edge(h, a, b) <==> a != b && Edge(g, a, b)
  {
    map a | a in g :: Drop(g[a], a)
  }

  function Drop(s: seq<Id>, a: Id): (r: seq<Id>)
    ensures forall b :: b in r <==> b in s && b != a
  {
    if s == [] then [] else (if s[0] == a then [] else [s[0]]) + Drop(s[1..], a)
  }

  // ---------------------------------------------------------------- exactly once, on every input

  /** The emitted ids are listed once each. */
  ghost predicate Tidy(s: Dfs) {
    && Distinct(s.out)
    && (forall a :: (a in s.state && s.state[a] == Emitted) <==> a in s.out)
  }

  /** r continues s: old marks and old output stay, every new mark is a finished one. */
  ghost predicate Continues(s: Dfs, r: Dfs) {
    && s.out <= r.out
    && (forall a :: a in s.state ==> a in r.state && r.state[a] == s.state[a])
    && (forall a :: a in r.state && a !in s.state ==> r.state[a] == Emitted)
  }

  lemma ContinuesTransitive(s: Dfs, m: Dfs, r: Dfs)
    requires Continues(s, m) && Continues(m, r)
    ensures Continues(s, r)
  {
  }

  lemma EmitTidy(s: Dfs, r: Dfs, id: Id)
    requires Tidy(r) && id !in s.state && Continues(Dfs(s.state[id := OnStack], s.out), r)
    ensures Tidy(Dfs(r.state[id := Emitted], r.out + [id]))
    ensures Continues(s, Dfs(r.state[id := Emitted], r.out + [id]))
  {
    assert s.state[id := OnStack][id] == OnStack;
    assert r.state[id] == OnStack;
    assert id !in r.out;
    assert forall a :: a in r.out + [id] <==> a in r.out || a == id;
  }

  lemma {:induction false} VisitTidy(g: Graph, u: set<Id>, id: Id, s: Dfs)
    requires Closed(g, u) && id in u && s.state.Keys <= u && Tidy(s)
    ensures Tidy(Visit(g, u, id, s)) && Continues(s, Visit(g, u, id, s))
    decreases u - s.state.Keys, 0
  {
    if id !in s.state {
      var entered := Dfs(s.state[id := OnStack], s.out);
      assert id in u - s.state.Keys && id !in u - entered.state.Keys;
      assert Tidy(entered) by { assert id !in s.out; }
      VisitAllTidy(g, u, Deps(g, id), entered);
      EmitTidy(s, VisitAll(g, u, Deps(g, id), entered), id);
    }
  }

  lemma {:induction false} VisitAllTidy(g: Graph, u: set<Id>, ids: seq<Id>, s: Dfs)
    requires Closed(g, u) && AllIn(ids, u) && s.state.Keys <= u && Tidy(s)
    ensures Tidy(VisitAll(g, u, ids, s)) && Continues(s, VisitAll(g, u, ids, s))
    decreases u - s.state.Keys, |ids|
  {
    if ids != [] {
      VisitTidy(g, u, ids[0], s);
      var first := Visit(g, u, ids[0], s);
      VisitAllTidy(g, u, ids[1..], first);
      ContinuesTransitive(s, first, VisitAll(g, u, ids[1..], first));
    }
  }

  /** Nothing is dropped, added or repeated, whatever cycles the graph has. */
  lemma RepairedOnce(g: Graph, order: seq<Id>)
    requires Closed(g, Members(order))
    ensures Distinct(Repaired(g, order)) && Members(Repaired(g, order)) == Members(order)
  {
    var r := VisitAll(g, Members(order), order, START);
    VisitAllTidy(g, Members(order), order, START);
    forall a ensures a in Members(r.out) <==> a in Members(order) {
      assert a in Members(r.out) <==> a in r.out;
      assert a in r.out <==> a in r.state;
      if a in Members(order) {
        var i :| 0 <= i < |order| && order[i] == a;
      }
    }
  }

  // ---------------------------------------------------------------- dependencies first

  /** Everything on the stack ranks above id. */
  ghost predicate StackAbove(rank: Id -> nat, id: Id, s: Dfs) {
    forall a :: a in s.state && s.state[a] == OnStack ==> rank(a) > rank(id)
  }

  lemma {:induction false} VisitRespects(g: Graph, u: set<Id>, rank: Id -> nat, id: Id, s: Dfs)
    requires Closed(g, u) && id in u && s.state.Keys <= u && Tidy(s) && Respects(g, s.out)
    requires Ranks(WithoutLoops(g), rank) && StackAbove(rank, id, s)
    ensures Respects(g, Visit(g, u, id, s).out) && id in Visit(g, u, id, s).out
    decreases u - s.state.Keys, 0
  {
    VisitTidy(g, u, id, s);
    if id !in s.state {
      var entered := Dfs(s.state[id := OnStack], s.out);
      assert id in u - s.state.Keys && id !in u - entered.state.Keys;
      assert Tidy(entered) by { assert id !in s.out; }
      var r := VisitAll(g, u, Deps(g, id), entered);
      DepsRespect(g, u, rank, id, Deps(g, id), entered);
      EmitRespects(g, r.out, id);
    }
  }

  lemma EmitRespects(g: Graph, out: seq<Id>, id: Id)
    requires Respects(g, out) && forall t :: t in Deps(g, id) && t != id ==> t in out
    ensures Respects(g, out + [id])
  {
    var longer := out + [id];
    forall p, t | 0 <= p < |longer| && t in Deps(g, longer[p]) && t != longer[p] ensures t in longer[..p] {
      if p < |out| {
        assert longer[..p] == out[..p];
      } else {
        assert longer[..p] == out;
      }
    }
  }

  lemma {:induction false} DepsRespect(g: Graph, u: set<Id>, rank: Id -> nat, id: Id, ids: seq<Id>, s: Dfs)
    requires Closed(g, u) && AllIn(ids, u) && s.state.Keys <= u && Tidy(s) && Respects(g, s.out)
    requires Ranks(WithoutLoops(g), rank)
    requires id in s.state && s.state[id] == OnStack
    requires forall a :: a in s.state && s.state[a] == OnStack && a != id ==> rank(a) > rank(id)
    requires forall i :: 0 <= i < |ids| ==> ids[i] == id || Edge(WithoutLoops(g), id, ids[i])
    ensures Respects(g, VisitAll(g, u, ids, s).out)
    ensures forall t :: t in ids && t != id ==> t in VisitAll(g, u, ids, s).out
    decreases u - s.state.Keys, |ids|
  {
    if ids != [] {
      VisitTidy(g, u, ids[0], s);
      var first := Visit(g, u, ids[0], s);
      if ids[0] != id {
        assert Edge(WithoutLoops(g), id, ids[0]);
        VisitRespects(g, u, rank, ids[0], s);
      }
      DepsRespect(g, u, rank, id, ids[1..], first);
      VisitAllTidy(g, u, ids[1..], first);
    }
  }

  lemma {:induction false} RootsRespect(g: Graph, u: set<Id>, rank: Id -> nat, ids: seq<Id>, s: Dfs)
    requires Closed(g, u) && AllIn(ids, u) && s.state.Keys <= u && Tidy(s) && Respects(g, s.out)
    requires Ranks(WithoutLoops(g), rank)
    requires forall a :: a in s.state ==> s.state[a] == Emitted
    ensures Respects(g, VisitAll(g, u, ids, s).out)
    decreases |ids|
  {
    if ids != [] {
      VisitTidy(g, u, ids[0], s);
      VisitRespects(g, u, rank, ids[0], s);
      RootsRespect(g, u, rank, ids[1..], Visit(g, u, ids[0], s));
    }
  }

  lemma PositionRank(g: Graph, s: seq<Id>) returns (rank: Id -> nat)
    requires Distinct(s) && Respects(g, s) && g.Keys <= Members(s)
    ensures Ranks(WithoutLoops(g), rank)
  {
    rank := a => if a in s then Position(s, a) else 0;
    forall a, b | Edge(WithoutLoops(g), a, b) ensures rank(b) < rank(a) {
      assert a in Members(s);
      var p := Position(s, a);
      assert b in s[..p];
      var q :| 0 <= q < p && s[q] == b;
    }
  }

  function Position(s: seq<Id>, a: Id): (i: nat)
    requires a in s
    ensures i < |s| && s[i] == a
  {
    if s[0] == a then 0 else 1 + Position(s[1..], a)
  }

  /** The repair puts dependencies first exactly when that is possible at all. */
  lemma RepairedRespects(g: Graph, order: seq<Id>)
    requires Closed(g, Members(order)) && g.Keys <= Members(order)
    ensures Respects(g, Repaired(g, order)) <==> Acyclic(WithoutLoops(g))
  {
    if Acyclic(WithoutLoops(g)) {
      var rank := AcyclicIsRanked(WithoutLoops(g));
      RootsRespect(g, Members(order), rank, order, START);
    }
    if Respects(g, Repaired(g, order)) {
      RepairedOnce(g, order);
      var rank := PositionRank(g, Repaired(g, order));
      RankedIsAcyclic(WithoutLoops(g), rank);
    }
  }

  // ---------------------------------------------------------------- stability

  ghost predicate Finished(done: seq<Id>, s: Dfs) {
    s.out == done && s.state == map a | a in Members(done) :: Emitted
  }

  /** An id whose dependencies are all out already is put out next. */
  lemma NextStaysPut(g: Graph, u: set<Id>, done: seq<Id>, id: Id, s: Dfs)
    requires Closed(g, u) && id in u && s.state.Keys <= u
    requires Finished(done, s) && id !in done
    requires forall i :: 0 <= i < |Deps(g, id)| ==> Deps(g, id)[i] == id || Deps(g, id)[i] in done
    ensures Finished(done + [id], Visit(g, u, id, s))
  {
    var entered := Dfs(s.state[id := OnStack], s.out);
    assert id in u - s.state.Keys && id !in u - entered.state.Keys;
    SeenSkipped(g, u, Deps(g, id), entered);
    MembersAppend(done, id);
  }

  lemma {:induction false} ValidStaysPut(g: Graph, u: set<Id>, done: seq<Id>, ids: seq<Id>, s: Dfs)
    requires Closed(g, u) && AllIn(ids, u) && s.state.Keys <= u && Finished(done, s)
    requires Distinct(done + ids) && Respects(g, done + ids)
    ensures Finished(done + ids, VisitAll(g, u, ids, s))
    decreases |ids|
  {
    if ids == [] {
      assert done + ids == done;
    } else {
      var id, whole := ids[0], done + ids;
      assert whole[|done|] == id && whole[..|done|] == done;
      NextStaysPut(g, u, done, id, s);
      assert (done + [id]) + ids[1..] == whole;
      ValidStaysPut(g, u, done + [id], ids[1..], Visit(g, u, id, s));
    }
  }

  lemma MembersAppend(s: seq<Id>, a: Id)
    ensures Members(s + [a]) == Members(s) + {a}
  {
    forall b ensures b in Members(s + [a]) <==> b in Members(s) + {a} {
      assert b in Members(s + [a]) <==> b in s + [a];
      assert b in Members(s) <==> b in s;
    }
  }

  lemma {:induction false} SeenSkipped(g: Graph, u: set<Id>, ids: seq<Id>, s: Dfs)
    requires Closed(g, u) && AllIn(ids, u) && s.state.Keys <= u
    requires forall i :: 0 <= i < |ids| ==> ids[i] in s.state
    ensures VisitAll(g, u, ids, s) == s
    decreases |ids|
  {
    if ids != [] { SeenSkipped(g, u, ids[1..], s); }
  }

  /** An order that is already right is returned unchanged. */
  lemma ValidUnchanged(g: Graph, order: seq<Id>)
    requires Closed(g, Members(order)) && Distinct(order) && Respects(g, order)
    ensures Repaired(g, order) == order
  {
    assert [] + order == order;
    ValidStaysPut(g, Members(order), [], order, START);
  }

  // ---------------------------------------------------------------- a leaf that is needed earlier

  lemma LeafVisited(g: Graph, u: set<Id>, c: Id, s: Dfs)
    requires Closed(g, u) && c in u && s.state.Keys <= u && Deps(g, c) == [] && c !in s.state
    ensures Visit(g, u, c, s) == Dfs(s.state[c := Emitted], s.out + [c])
  {
    var entered := Dfs(s.state[c := OnStack], s.out);
    assert c in u - s.state.Keys && c !in u - entered.state.Keys;
    assert VisitAll(g, u, [], entered) == entered;
    assert entered.state[c := Emitted] == s.state[c := Emitted];
  }

  /** Visiting ids that are all marked already, but for a leaf c, puts out c. */
  lemma {:induction false} LeafGathered(g: Graph, u: set<Id>, ids: seq<Id>, c: Id, s: Dfs)
    requires Closed(g, u) && AllIn(ids, u) && s.state.Keys <= u
    requires Deps(g, c) == [] && c in ids && c !in s.state
    requires forall i :: 0 <= i < |ids| ==> ids[i] == c || ids[i] in s.state
    ensures VisitAll(g, u, ids, s) == Dfs(s.state[c := Emitted], s.out + [c])
    decreases |ids|
  {
    if ids[0] == c {
      var after := Visit(g, u, c, s);
      LeafVisited(g, u, c, s);
      SeenSkipped(g, u, ids[1..], after);
    } else {
      LeafGathered(g, u, ids[1..], c, s);
    }
  }

  /** An id that still waits for the leaf c is put out right behind it. */
  lemma LeafFirst(g: Graph, u: set<Id>, done: seq<Id>, c: Id, id: Id, s: Dfs)
    requires Closed(g, u) && id in u && s.state.Keys <= u && Finished(done, s)
    requires c !in done && id !in done && c != id && Deps(g, c) == [] && c in Deps(g, id)
    requires forall i :: 0 <= i < |Deps(g, id)| ==> Deps(g, id)[i] in done + [c, id]
    ensures Finished(done + [c, id], Visit(g, u, id, s))
  {
    var entered := Dfs(s.state[id := OnStack], s.out);
    assert id in u - s.state.Keys && id !in u - entered.state.Keys;
    LeafGathered(g, u, Deps(g, id), c, entered);
    TwoMoreFinished(done, c, id, s);
  }

  lemma TwoMoreFinished(done: seq<Id>, c: Id, id: Id, s: Dfs)
    requires Finished(done, s) && c !in done && id !in done && c != id
    ensures Finished(done + [c, id], Dfs(s.state[id := OnStack][c := Emitted][id := Emitted], s.out + [c] + [id]))
  {
    Associative(done, [c], [id]);
    assert [c] + [id] == [c, id];
    MembersAppend(done, c);
    MembersAppend(done + [c], id);
  }

  lemma MembersSwap(x: seq<Id>, y: seq<Id>, c: Id, b: seq<Id>)
    ensures Members(x + y + [c] + b) == Members(x + [c] + y + b)
  {
    forall a ensures a in Members(x + y + [c] + b) <==> a in Members(x + [c] + y + b) {
      assert a in Members(x + y + [c] + b) <==> a in x + y + [c] + b;
      assert a in Members(x + [c] + y + b) <==> a in x + [c] + y + b;
    }
  }

  /** A leaf is moved forward to just ahead of the first id that needs it, and nothing else moves. */
  lemma LeafLands(g: Graph, x: seq<Id>, y: seq<Id>, c: Id, b: seq<Id>)
    requires Closed(g, Members(x + [c] + y + b)) && Distinct(x + [c] + y + b) && Respects(g, x + [c] + y + b)
    requires Deps(g, c) == [] && (y != [] ==> c in Deps(g, y[0]))
    ensures Closed(g, Members(x + y + [c] + b))
    ensures Repaired(g, x + y + [c] + b) == x + [c] + y + b
  {
    MembersSwap(x, y, c, b);
    if y == [] {
      assert x + y + [c] + b == x + [c] + y + b;
      ValidUnchanged(g, x + [c] + y + b);
    } else {
      LeafMoves(g, Members(x + [c] + y + b), x, y, c, b);
    }
  }

  lemma LeafMoves(g: Graph, u: set<Id>, x: seq<Id>, y: seq<Id>, c: Id, b: seq<Id>)
    requires Closed(g, u) && u == Members(x + [c] + y + b) && Distinct(x + [c] + y + b)
    requires Respects(g, x + [c] + y + b) && Deps(g, c) == [] && y != [] && c in Deps(g, y[0])
    ensures AllIn(x + y + [c] + b, u) && VisitAll(g, u, x + y + [c] + b, START).out == x + [c] + y + b
  {
    PiecesIn(x, y, c, b);
    LeafApart(g, x, y, c, b);
    var s3 := Stages(g, u, x, y);
    LeafTaken(g, u, x, y, c);
    assert c in Members(x + [c] + y) by { assert (x + [c] + y)[|x|] == c; }
    SeenSkipped(g, u, [c], s3);
    ValidStaysPut(g, u, x + [c] + y, b, s3);
    StagesInOrder(g, u, x, y, c, b);
  }

  lemma PiecesIn(x: seq<Id>, y: seq<Id>, c: Id, b: seq<Id>)
    ensures var u := Members(x + [c] + y + b);
            AllIn(x, u) && AllIn(y, u) && c in u && AllIn(b, u) && AllIn(x + y + [c] + b, u)
  {
    var whole := x + [c] + y + b;
    var u := Members(whole);
    forall a | a in whole ensures a in u {
    }
    assert forall a :: a in whole <==> a in x || a == c || a in y || a in b;
  }

  /** The state of the search after x and then y. */
  function Stages(g: Graph, u: set<Id>, x: seq<Id>, y: seq<Id>): Dfs
    requires Closed(g, u) && AllIn(x, u) && AllIn(y, u)
  {
    VisitAll(g, u, y, VisitAll(g, u, x, START))
  }

  lemma LeafTaken(g: Graph, u: set<Id>, x: seq<Id>, y: seq<Id>, c: Id)
    requires Closed(g, u) && AllIn(x, u) && AllIn(y, u) && c in u
    requires Distinct(x) && Respects(g, x) && c !in x && y != [] && y[0] !in x && c != y[0]
    requires Distinct(x + [c] + y) && Respects(g, x + [c] + y)
    requires forall i :: 0 <= i < |Deps(g, y[0])| ==> Deps(g, y[0])[i] in x + [c, y[0]]
    requires Deps(g, c) == [] && c in Deps(g, y[0])
    ensures Finished(x + [c] + y, Stages(g, u, x, y))
  {
    FirstPiece(g, u, x);
    SecondPiece(g, u, x, y, c, VisitAll(g, u, x, START));
  }

  lemma FirstPiece(g: Graph, u: set<Id>, x: seq<Id>)
    requires Closed(g, u) && AllIn(x, u) && Distinct(x) && Respects(g, x)
    ensures Finished(x, VisitAll(g, u, x, START))
  {
    assert [] + x == x;
    ValidStaysPut(g, u, [], x, START);
  }

  lemma SecondPiece(g: Graph, u: set<Id>, x: seq<Id>, y: seq<Id>, c: Id, s: Dfs)
    requires Closed(g, u) && AllIn(y, u) && s.state.Keys <= u && Finished(x, s)
    requires c !in x && y != [] && y[0] !in x && c != y[0]
    requires Distinct(x + [c] + y) && Respects(g, x + [c] + y)
    requires forall i :: 0 <= i < |Deps(g, y[0])| ==> Deps(g, y[0])[i] in x + [c, y[0]]
    requires Deps(g, c) == [] && c in Deps(g, y[0])
    ensures Finished(x + [c] + y, VisitAll(g, u, y, s))
  {
    var done, whole := x + [c, y[0]], x + [c] + y;
    LeafFirst(g, u, x, c, y[0], s);
    HeadTaken(x, c, y);
    RestFollows(g, u, done, whole, y[1..], Visit(g, u, y[0], s));
  }

  lemma HeadTaken(x: seq<Id>, c: Id, y: seq<Id>)
    requires y != []
    ensures var done, whole := x + [c, y[0]], x + [c] + y;
            |whole| == |done| + |y[1..]| && whole[..|done|] == done && whole[|done|..] == y[1..]
  {
  }

  lemma RestFollows(g: Graph, u: set<Id>, done: seq<Id>, whole: seq<Id>, more: seq<Id>, s: Dfs)
    requires Closed(g, u) && AllIn(more, u) && s.state.Keys <= u && Finished(done, s)
    requires |whole| == |done| + |more| && whole[..|done|] == done && whole[|done|..] == more
    requires Distinct(whole) && Respects(g, whole)
    ensures Finished(whole, VisitAll(g, u, more, s))
  {
    assert done + more == whole;
    ValidStaysPut(g, u, done, more, s);
  }

  lemma StagesInOrder(g: Graph, u: set<Id>, x: seq<Id>, y: seq<Id>, c: Id, b: seq<Id>)
    requires Closed(g, u) && AllIn(x, u) && AllIn(y, u) && c in u && AllIn(b, u) && AllIn(x + y + [c] + b, u)
    ensures VisitAll(g, u, x + y + [c] + b, START)
            == VisitAll(g, u, b, VisitAll(g, u, [c], Stages(g, u, x, y)))
  {
    VisitAllSplit(g, u, x + y + [c], b, START);
    VisitAllSplit(g, u, x + y, [c], START);
    VisitAllSplit(g, u, x, y, START);
  }

  /** The pieces of a valid order are valid orders, and the first id behind the leaf waits for nothing else. */
  lemma LeafApart(g: Graph, x: seq<Id>, y: seq<Id>, c: Id, b: seq<Id>)
    requires Distinct(x + [c] + y + b) && Respects(g, x + [c] + y + b) && y != []
    ensures Distinct(x) && Respects(g, x) && c !in x && y[0] !in x && c != y[0]
    ensures Distinct(x + [c] + y) && Respects(g, x + [c] + y)
    ensures forall i :: 0 <= i < |Deps(g, y[0])| ==> Deps(g, y[0])[i] in x + [c, y[0]]
  {
    var whole := x + [c] + y + b;
    PrefixKeeps(g, whole, |x|);
    PrefixKeeps(g, whole, |x| + 1 + |y|);
    assert whole[..|x|] == x && whole[..|x| + 1 + |y|] == x + [c] + y;
    assert whole[|x|] == c && whole[|x| + 1] == y[0] && whole[..|x| + 1] == x + [c];
    assert forall i: nat :: i < |x| ==> whole[i] == x[i];
    forall i | 0 <= i < |Deps(g, y[0])| ensures Deps(g, y[0])[i] in x + [c, y[0]] {
      var t := Deps(g, y[0])[i];
      if t != y[0] { assert t in whole[..|x| + 1]; }
    }
  }

  lemma PrefixKeeps(g: Graph, s: seq<Id>, n: nat)
    requires Distinct(s) && Respects(g, s) && n <= |s|
    ensures Distinct(s[..n]) && Respects(g, s[..n])
  {
    forall p, t | 0 <= p < n && t in Deps(g, s[..n][p]) && t != s[..n][p] ensures t in s[..n][..p] {
      assert s[..n][..p] == s[..p];
    }
  }

  // ---------------------------------------------------------------- twice

  lemma RepairIdempotent(g: Graph, order: seq<Id>)
    requires Closed(g, Members(order)) && g.Keys <= Members(order) && Acyclic(WithoutLoops(g))
    ensures Members(Repaired(g, order)) == Members(order)
    ensures Repaired(g, Repaired(g, order)) == Repaired(g, order)
  {
    RepairedOnce(g, order);
    RepairedRespects(g, order);
    ValidUnchanged(g, Repaired(g, order));
  }

  // ---------------------------------------------------------------- nothing moves without a reason

  lemma {:induction false} VisitReaches(g: Graph, u: set<Id>, id: Id, s: Dfs)
    requires Closed(g, u) && id in u && s.state.Keys <= u
    ensures forall a :: a in Visit(g, u, id, s).out && a !in s.out ==> Reaches(g, id, a)
    decreases u - s.state.Keys, 0
  {
    if id !in s.state {
      var entered := Dfs(s.state[id := OnStack], s.out);
      assert id in u - s.state.Keys && id !in u - entered.state.Keys;
      VisitAllReaches(g, u, Deps(g, id), entered);
      forall a | a in Visit(g, u, id, s).out && a !in s.out ensures Reaches(g, id, a) {
        if a == id {
          ReachesSelf(g, id);
        } else {
          assert a in VisitAll(g, u, Deps(g, id), entered).out;
          var i :| 0 <= i < |Deps(g, id)| && Reaches(g, Deps(g, id)[i], a);
          ReachesStep(g, id, Deps(g, id)[i], a);
        }
      }
    }
  }

  lemma {:induction false} VisitAllReaches(g: Graph, u: set<Id>, ids: seq<Id>, s: Dfs)
    requires Closed(g, u) && AllIn(ids, u) && s.state.Keys <= u
    ensures forall a :: a in VisitAll(g, u, ids, s).out && a !in s.out ==>
              exists i :: 0 <= i < |ids| && Reaches(g, ids[i], a)
    decreases u - s.state.Keys, |ids|
  {
    if ids != [] {
      VisitReaches(g, u, ids[0], s);
      var first := Visit(g, u, ids[0], s);
      VisitAllReaches(g, u, ids[1..], first);
      forall a | a in VisitAll(g, u, ids, s).out && a !in s.out
        ensures exists i :: 0 <= i < |ids| && Reaches(g, ids[i], a)
      {
        if a in first.out {
          assert Reaches(g, ids[0], a);
        } else {
          var i :| 0 <= i < |ids[1..]| && Reaches(g, ids[1..][i], a);
          assert Reaches(g, ids[i + 1], a);
        }
      }
    }
  }

  lemma {:induction false} VisitAllSplit(g: Graph, u: set<Id>, ids: seq<Id>, more: seq<Id>, s: Dfs)
    requires Closed(g, u) && AllIn(ids, u) && AllIn(more, u) && s.state.Keys <= u
    ensures AllIn(ids + more, u)
    ensures VisitAll(g, u, ids + more, s) == VisitAll(g, u, more, VisitAll(g, u, ids, s))
    decreases |ids|
  {
    if ids == [] {
      assert ids + more == more;
    } else {
      assert (ids + more)[0] == ids[0] && (ids + more)[1..] == ids[1..] + more;
      VisitAllSplit(g, u, ids[1..], more, Visit(g, u, ids[0], s));
    }
  }

  /** What comes out ahead of an id has come out by the time that id's root has been visited. */
  lemma EmittedByThen(g: Graph, order: seq<Id>, px: nat, y: Id, qx: nat, qy: nat)
    requires Closed(g, Members(order)) && px < |order| && qy < qx < |Repaired(g, order)|
    requires Repaired(g, order)[qx] == order[px] && Repaired(g, order)[qy] == y
    ensures y in VisitAll(g, Members(order), order[..px + 1], START).out
  {
    var u, head, rest := Members(order), order[..px + 1], order[px + 1..];
    var half := VisitAll(g, u, head, START);
    assert order == head + rest;
    VisitAllSplit(g, u, head, rest, START);
    VisitAllTidy(g, u, head, START);
    VisitAllTidy(g, u, order, START);
    VisitAllTidy(g, u, rest, half);
    var out := Repaired(g, order);
    assert head[px] == order[px] && order[px] in half.out;
    var k :| 0 <= k < |half.out| && half.out[k] == order[px];
    assert out[k] == half.out[k];
    assert k == qx;
    assert half.out[qy] == y;
  }

  /** If x stood before y and no longer does, then y is needed, directly or not, by some id that
      stood at or before x. */
  lemma MovedForReason(g: Graph, order: seq<Id>, px: nat, y: Id, qx: nat, qy: nat) returns (z: nat)
    requires Closed(g, Members(order)) && px < |order| && y in order && y !in order[..px + 1]
    requires qy < qx < |Repaired(g, order)|
    requires Repaired(g, order)[qx] == order[px] && Repaired(g, order)[qy] == y
    ensures z <= px && order[z] != y && Reaches(g, order[z], y)
  {
    EmittedByThen(g, order, px, y, qx, qy);
    var head := order[..px + 1];
    VisitAllReaches(g, Members(order), head, START);
    var i :| 0 <= i < |head| && Reaches(g, head[i], y);
    z := i;
    assert head[z] == order[z] && order[z] in head;
  }

  // ---------------------------------------------------------------- the order in which dependencies are pulled forward

  /** a stands in front of b. */
  ghost predicate Ahead(s: seq<Id>, a: Id, b: Id) {
    exists i, j :: 0 <= i < j < |s| && s[i] == a && s[j] == b
  }

  lemma AheadByPrefix(front: seq<Id>, out: seq<Id>, a: Id, b: Id)
    requires front <= out && a in front && b !in front && b in out
    ensures Ahead(out, a, b)
  {
    var i: nat :| i < |front| && front[i] == a;
    var j: nat :| j < |out| && out[j] == b;
    assert forall k: nat :: k < |front| ==> out[k] == front[k] && front[k] in front;
  }

  /** Visiting a list puts out every id of it that is not on the stack. */
  lemma {:induction false} ListedComeOut(g: Graph, u: set<Id>, ids: seq<Id>, s: Dfs, a: Id)
    requires Closed(g, u) && AllIn(ids, u) && s.state.Keys <= u && Tidy(s)
    requires a in ids && (a in s.state ==> s.state[a] == Emitted)
    ensures a in VisitAll(g, u, ids, s).out
  {
    VisitAllTidy(g, u, ids, s);
    var r := VisitAll(g, u, ids, s);
    assert a in r.state;
    assert r.state[a] == Emitted;
  }

  /** What comes out was out before or is reached from the list. */
  lemma ComesOutReached(g: Graph, u: set<Id>, ids: seq<Id>, s: Dfs, b: Id)
    requires Closed(g, u) && AllIn(ids, u) && s.state.Keys <= u
    requires b !in s.out && forall i :: 0 <= i < |ids| ==> !Reaches(g, ids[i], b)
    ensures b !in VisitAll(g, u, ids, s).out
  {
    VisitAllReaches(g, u, ids, s);
  }

  /** The search when it comes to the root z, whose dependencies nobody ahead of z has pulled forward. */
  lemma RootEntered(g: Graph, order: seq<Id>, p: nat, d: Id, e: Id) returns (s: Dfs)
    requires Closed(g, Members(order)) && p < |order| && d in Deps(g, order[p])
    requires forall x :: x in order[..p] ==> !Reaches(g, x, d) && !Reaches(g, x, e)
    ensures s == VisitAll(g, Members(order), order[..p], START) && Tidy(s) && order[p] !in s.state
    ensures s.state.Keys <= Members(order) && forall a :: a in s.state ==> s.state[a] == Emitted
    ensures e !in s.out
  {
    var u, head, z := Members(order), order[..p], order[p];
    s := VisitAll(g, u, head, START);
    VisitAllTidy(g, u, head, START);
    VisitAllReaches(g, u, head, START);
    forall b | b in s.out ensures exists x :: x in head && Reaches(g, x, b) {
      var i: nat :| i < |head| && Reaches(g, head[i], b);
      assert head[i] in head;
    }
    if z in s.out {
      var x :| x in head && Reaches(g, x, z);
      ReachesOn(g, x, z, d);
      assert false;
    }
  }

  lemma ReachesOn(g: Graph, x: Id, z: Id, d: Id)
    requires Reaches(g, x, z) && d in Deps(g, z)
    ensures Reaches(g, x, d)
  {
    var w :| WalkBetween(g, w, x, z);
    WalkExtend(g, w, d);
    assert WalkBetween(g, w + [d], x, d);
  }

  /** The visit of z begins with its first dependencies. */
  lemma DepsInsideVisit(g: Graph, u: set<Id>, z: Id, n: nat, s: Dfs)
    requires Closed(g, u) && z in u && s.state.Keys <= u && Tidy(s) && z !in s.state && n <= |Deps(g, z)|
    ensures var entered := Dfs(s.state[z := OnStack], s.out);
            Tidy(entered) && VisitAll(g, u, Deps(g, z)[..n], entered).out <= Visit(g, u, z, s).out
  {
    var ds, entered := Deps(g, z), Dfs(s.state[z := OnStack], s.out);
    assert Tidy(entered) by { assert z !in s.out; }
    assert z in u - s.state.Keys && z !in u - entered.state.Keys;
    var half := VisitAll(g, u, ds[..n], entered);
    assert ds == ds[..n] + ds[n..];
    VisitAllSplit(g, u, ds[..n], ds[n..], entered);
    VisitAllTidy(g, u, ds[..n], entered);
    VisitAllTidy(g, u, ds[n..], half);
  }

  /** What the visit of a root puts out stands in front for good. */
  lemma RootInsideRun(g: Graph, order: seq<Id>, p: nat)
    requires Closed(g, Members(order)) && p < |order|
    ensures var u := Members(order);
            Visit(g, u, order[p], VisitAll(g, u, order[..p], START)).out <= Repaired(g, order)
  {
    var u, head, rest := Members(order), order[..p], order[p..];
    var s := VisitAll(g, u, head, START);
    assert order == head + rest && rest[0] == order[p];
    VisitAllSplit(g, u, head, rest, START);
    VisitAllTidy(g, u, head, START);
    VisitTidy(g, u, order[p], s);
    VisitAllTidy(g, u, rest[1..], Visit(g, u, order[p], s));
  }

  /** What is out when the visit of z has gone through its first n dependencies. */
  function Front(g: Graph, u: set<Id>, z: Id, n: nat, s: Dfs): seq<Id>
    requires Closed(g, u) && z in u && s.state.Keys <= u && n <= |Deps(g, z)|
  {
    VisitAll(g, u, Deps(g, z)[..n], Dfs(s.state[z := OnStack], s.out)).out
  }

  lemma FrontStays(g: Graph, order: seq<Id>, p: nat, n: nat, s: Dfs)
    requires Closed(g, Members(order)) && p < |order| && n <= |Deps(g, order[p])|
    requires s == VisitAll(g, Members(order), order[..p], START) && Tidy(s) && order[p] !in s.state
    requires s.state.Keys <= Members(order)
    ensures Front(g, Members(order), order[p], n, s) <= Repaired(g, order)
  {
    DepsInsideVisit(g, Members(order), order[p], n, s);
    RootInsideRun(g, order, p);
  }

  lemma ListedOnce(g: Graph, order: seq<Id>, a: Id)
    requires Closed(g, Members(order)) && a in Members(order)
    ensures a in Repaired(g, order)
  {
    RepairedOnce(g, order);
    assert a in Members(Repaired(g, order));
  }

  /** After the dependencies up to the i-th, that one is out and the j-th is not. */
  lemma PulledFront(g: Graph, u: set<Id>, z: Id, i: nat, j: nat, s: Dfs)
    requires Closed(g, u) && z in u && s.state.Keys <= u && Tidy(s) && z !in s.state
    requires i < j < |Deps(g, z)| && Deps(g, z)[i] != z && Deps(g, z)[j] !in s.out
    requires forall a :: a in s.state ==> s.state[a] == Emitted
    requires forall k :: 0 <= k <= i ==> !Reaches(g, Deps(g, z)[k], Deps(g, z)[j])
    ensures Deps(g, z)[i] in Front(g, u, z, i + 1, s) && Deps(g, z)[j] !in Front(g, u, z, i + 1, s)
  {
    var entered := Dfs(s.state[z := OnStack], s.out);
    var first := Deps(g, z)[..i + 1];
    assert first[i] == Deps(g, z)[i];
    DepsInsideVisit(g, u, z, i + 1, s);
    ListedComeOut(g, u, first, entered, Deps(g, z)[i]);
    ComesOutReached(g, u, first, entered, Deps(g, z)[j]);
  }

  /**
   * Of two dependencies of z, the one declared first comes out first: unless one of them is needed by somebody ranked
   * ahead of z, or the second by a dependency declared no later than the first.
   */
  lemma PulledInOrder(g: Graph, order: seq<Id>, p: nat, i: nat, j: nat)
    requires Closed(g, Members(order)) && p < |order| && i < j < |Deps(g, order[p])|
    requires var ds := Deps(g, order[p]);
             ds[i] != order[p]
             && (forall x :: x in order[..p] ==> !Reaches(g, x, ds[i]) && !Reaches(g, x, ds[j]))
             && (forall k :: 0 <= k <= i ==> !Reaches(g, ds[k], ds[j]))
    ensures Ahead(Repaired(g, order), Deps(g, order[p])[i], Deps(g, order[p])[j])
  {
    var d, e := Deps(g, order[p])[i], Deps(g, order[p])[j];
    var s := RootEntered(g, order, p, d, e);
    var front := FrontOfRoot(g, order, p, i, j, s);
    RepairedAhead(g, order, front, d, e);
  }

  lemma FrontOfRoot(g: Graph, order: seq<Id>, p: nat, i: nat, j: nat, s: Dfs) returns (front: seq<Id>)
    requires Closed(g, Members(order)) && p < |order| && i < j < |Deps(g, order[p])|
    requires s == VisitAll(g, Members(order), order[..p], START) && Tidy(s) && order[p] !in s.state
    requires s.state.Keys <= Members(order) && forall a :: a in s.state ==> s.state[a] == Emitted
    requires Deps(g, order[p])[i] != order[p] && Deps(g, order[p])[j] !in s.out
    requires forall k :: 0 <= k <= i ==> !Reaches(g, Deps(g, order[p])[k], Deps(g, order[p])[j])
    ensures front <= Repaired(g, order) && Deps(g, order[p])[i] in front && Deps(g, order[p])[j] !in front
  {
    var u, z := Members(order), order[p];
    front := Front(g, u, z, i + 1, s);
    assert front <= Repaired(g, order) by { FrontStays(g, order, p, i + 1, s); }
    PulledFront(g, u, z, i, j, s);
  }

  lemma RepairedAhead(g: Graph, order: seq<Id>, front: seq<Id>, d: Id, e: Id)
    requires Closed(g, Members(order)) && front <= Repaired(g, order) && d in front && e !in front
    requires e in Members(order)
    ensures Ahead(Repaired(g, order), d, e)
  {
    ListedOnce(g, order, e);
    AheadByPrefix(front, Repaired(g, order), d, e);
  }

  // ---------------------------------------------------------------- the code

  /** The closure's captured variables: the mark table and the output slice. */
  class Repairer {
    const deps: Graph
    var state: map<Id, Mark>
    var out: seq<Id>

    constructor (deps: Graph)
      ensures this.deps == deps && state == map[] && out == []
    {
      this.deps := deps;
      state, out := map[], [];
    }

    method VisitId(id: Id, ghost u: set<Id>)
      requires Closed(deps, u) && id in u && state.Keys <= u
      modifies this
      ensures Dfs(state, out) == Visit(deps, u, id, Dfs(old(state), old(out)))
      decreases u - state.Keys
    {
      if id in state {
        return;
      }
      state := state[id := OnStack];
      ghost var entered := Dfs(state, out);
      assert id in u - old(state.Keys) && id !in u - entered.state.Keys;
      var ds := Deps(deps, id);
      var i := 0;
      while i < |ds|
        invariant 0 <= i <= |ds|
        invariant entered.state.Keys <= state.Keys && state.Keys <= u
        invariant VisitAll(deps, u, ds, entered) == VisitAll(deps, u, ds[i..], Dfs(state, out))
      {
        assert ds[i..][0] == ds[i] && ds[i..][1..] == ds[i + 1..];
        VisitId(ds[i], u);
        i := i + 1;
      }
      state := state[id := Emitted];
      out := out + [id];
    }
  }

  method TopoRepair(deps: Graph, order: seq<Id>) returns (out: seq<Id>)
    requires Closed(deps, Members(order))
    ensures out == Repaired(deps, order)
  {
    var r := new Repairer(deps);
    ghost var u := Members(order);
    var i := 0;
    while i < |order|
      invariant 0 <= i <= |order|
      invariant r.deps == deps && r.state.Keys <= u
      invariant VisitAll(deps, u, order, START) == VisitAll(deps, u, order[i..], Dfs(r.state, r.out))
    {
      assert order[i..][0] == order[i] && order[i..][1..] == order[i + 1..];
      r.VisitId(order[i], u);
      i := i + 1;
    }
    out := r.out;
  }
}
