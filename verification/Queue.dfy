/** The priority queue (tools/registry/mutators.go, `reconcilePriority`, `topoRepairPriority`;
    tools/registry/validate.go, `validatePriority`). */
module Queue {
  import opened Common
  import opened Digraph
  import opened Items
  import opened Expand
  import opened TopoRepair

  // ---------------------------------------------------------------- what a queue must satisfy

  /** Item x depends on something that stands for t. */
  ghost predicate MustFollow(items: seq<Item>, wanted: set<Id>, x: Id, t: Id) {
    exists i, d :: 0 <= i < |items| && items[i].id == x && d in items[i].dependsOn &&
                   StandsFor(ForestOf(items), wanted, d, t)
  }

  /** Everything an entry must follow, other than itself, is ahead of it. */
  ghost predicate Ordered(items: seq<Item>, wanted: set<Id>, queue: seq<Id>) {
    forall p, t :: 0 <= p < |queue| && MustFollow(items, wanted, queue[p], t) && t in queue && t != queue[p] ==>
      t in queue[..p]
  }

  /** The pullable items once each, dependencies first. */
  ghost predicate ValidQueue(items: seq<Item>, queue: seq<Id>) {
    Distinct(queue) && Members(queue) == PullableIds(items) && Ordered(items, PullableIds(items), queue)
  }

  // ---------------------------------------------------------------- the dependency graph among queued ids

  function DepsOf(f: Forest, queued: set<Id>, dependsOn: seq<Id>): (ds: seq<Id>)
    ensures forall i :: 0 <= i < |ds| ==> ds[i] in queued
  {
    if dependsOn == [] then []
    else
      ExpandFromSound(f, queued, dependsOn[0], {});
      assert forall i :: 0 <= i < |Targets(f, queued, dependsOn[0])| ==>
               Targets(f, queued, dependsOn[0])[i] in ExpandFrom(f, queued, dependsOn[0], {}).out;
      Targets(f, queued, dependsOn[0]) + DepsOf(f, queued, dependsOn[1..])
  }

  function QueueGraph(f: Forest, items: seq<Item>, queued: set<Id>): (g: Graph)
    ensures Closed(g, queued) && g.Keys <= queued
  {
    if items == [] then map[]
    else
      var m, last := QueueGraph(f, items[..|items| - 1], queued), items[|items| - 1];
      if last.id in queued then m[last.id := DepsOf(f, queued, last.dependsOn)] else m
  }

  lemma {:induction false} DepsOfMeaning(f: Forest, queued: set<Id>, dependsOn: seq<Id>, t: Id)
    ensures t in DepsOf(f, queued, dependsOn) <==> exists d :: d in dependsOn && StandsFor(f, queued, d, t)
  {
    if dependsOn != [] {
      DepsOfMeaning(f, queued, dependsOn[1..], t);
      TargetsExact(f, queued, dependsOn[0]);
      if d :| d in dependsOn && StandsFor(f, queued, d, t) {
        if d != dependsOn[0] { assert d in dependsOn[1..]; }
      }
    }
  }

  lemma {:induction false} QueueGraphLookup(f: Forest, items: seq<Item>, queued: set<Id>, i: nat)
    requires UniqueIds(items) && i < |items| && items[i].id in queued
    ensures items[i].id in QueueGraph(f, items, queued)
    ensures QueueGraph(f, items, queued)[items[i].id] == DepsOf(f, queued, items[i].dependsOn)
  {
    var n := |items| - 1;
    if i < n {
      assert items[..n][i] == items[i] && items[i].id != items[n].id;
      QueueGraphLookup(f, items[..n], queued, i);
    }
  }

  lemma {:induction false} QueueGraphKeys(f: Forest, items: seq<Item>, queued: set<Id>, x: Id) returns (i: nat)
    requires x in QueueGraph(f, items, queued)
    ensures i < |items| && items[i].id == x
  {
    var n := |items| - 1;
    if items[n].id == x {
      i := n;
    } else {
      i := QueueGraphKeys(f, items[..n], queued, x);
    }
  }

  /** The graph's edges are the "must follow" pairs. */
  lemma QueueGraphMeaning(items: seq<Item>, queued: set<Id>, x: Id, t: Id)
    requires UniqueIds(items) && x in queued
    ensures t in Deps(QueueGraph(ForestOf(items), items, queued), x) <==> MustFollow(items, queued, x, t)
  {
    var f := ForestOf(items);
    var g := QueueGraph(f, items, queued);
    if t in Deps(g, x) {
      var i := QueueGraphKeys(f, items, queued, x);
      QueueGraphLookup(f, items, queued, i);
      DepsOfMeaning(f, queued, items[i].dependsOn, t);
      var d :| d in items[i].dependsOn && StandsFor(f, queued, d, t);
    }
    if MustFollow(items, queued, x, t) {
      var i, d :| 0 <= i < |items| && items[i].id == x && d in items[i].dependsOn && StandsFor(f, queued, d, t);
      QueueGraphLookup(f, items, queued, i);
      DepsOfMeaning(f, queued, items[i].dependsOn, t);
    }
  }

  lemma RespectsIsOrdered(items: seq<Item>, queue: seq<Id>)
    requires UniqueIds(items)
    ensures Respects(QueueGraph(ForestOf(items), items, Members(queue)), queue)
            <==> Ordered(items, Members(queue), queue)
  {
    var g := QueueGraph(ForestOf(items), items, Members(queue));
    if Respects(g, queue) {
      forall p, t | 0 <= p < |queue| && MustFollow(items, Members(queue), queue[p], t) && t in queue && t != queue[p]
        ensures t in queue[..p]
      {
        QueuedEdge(items, queue, p, t);
      }
    }
    if Ordered(items, Members(queue), queue) {
      forall p, t | 0 <= p < |queue| && t in Deps(g, queue[p]) && t != queue[p] ensures t in queue[..p] {
        QueuedEdge(items, queue, p, t);
      }
    }
  }

  lemma QueuedEdge(items: seq<Item>, queue: seq<Id>, p: nat, t: Id)
    requires UniqueIds(items) && p < |queue|
    ensures t in Deps(QueueGraph(ForestOf(items), items, Members(queue)), queue[p]) <==>
            MustFollow(items, Members(queue), queue[p], t) && t in queue
  {
    assert queue[p] in Members(queue);
    QueueGraphMeaning(items, Members(queue), queue[p], t);
    if MustFollow(items, Members(queue), queue[p], t) { assert t in Members(queue); }
  }

  // ---------------------------------------------------------------- reconciliation

  function Filter(queue: seq<Id>, keep: set<Id>): (r: seq<Id>)
    ensures forall a :: a in r <==> a in queue && a in keep
  {
    if queue == [] then []
    else Filter(queue[..|queue| - 1], keep) + if queue[|queue| - 1] in keep then [queue[|queue| - 1]] else []
  }

  predicate HasId(items: seq<Item>, a: Id) {
    exists i :: 0 <= i < |items| && items[i].id == a
  }

  lemma HasIdSplit(items: seq<Item>, a: Id)
    requires items != []
    ensures HasId(items, a) <==> a == items[|items| - 1].id || HasId(items[..|items| - 1], a)
  {
    var n := |items| - 1;
    if HasId(items, a) {
      var i :| 0 <= i < |items| && items[i].id == a;
      if i < n { assert items[..n][i].id == a; }
    }
    if HasId(items[..n], a) {
      var i :| 0 <= i < n && items[..n][i].id == a;
      assert items[i].id == a;
    }
  }

  /** Pullable ids that are not in the queue yet, in list order. */
  function NewIds(items: seq<Item>, pullable: set<Id>, kept: set<Id>): (r: seq<Id>)
    ensures forall a :: a in r <==> a in pullable && a !in kept && HasId(items, a)
  {
    if items == [] then []
    else
      var n := |items| - 1;
      var before := NewIds(items[..n], pullable, kept);
      assert forall a :: HasId(items, a) <==> a == items[n].id || HasId(items[..n], a) by {
        forall a ensures HasId(items, a) <==> a == items[n].id || HasId(items[..n], a) { HasIdSplit(items, a); }
      }
      before + if items[n].id in pullable && items[n].id !in kept then [items[n].id] else []
  }

  /** The list handed to the repair: what is still pullable in its old order, then the rest. */
  function Combined(items: seq<Item>, canonical: seq<Item>, priority: seq<Id>): seq<Id> {
    var pullable := PullableIds(items);
    var kept := Filter(priority, pullable);
    kept + NewIds(canonical, pullable, Members(kept))
  }

  function Reconciled(items: seq<Item>, canonical: seq<Item>, priority: seq<Id>): seq<Id> {
    var combined := Combined(items, canonical, priority);
    Repaired(QueueGraph(ForestOf(items), items, Members(combined)), combined)
  }

  lemma CombinedMembers(items: seq<Item>, canonical: seq<Item>, priority: seq<Id>)
    requires multiset(canonical) == multiset(items)
    ensures Members(Combined(items, canonical, priority)) == PullableIds(items)
  {
    var pullable, combined := PullableIds(items), Combined(items, canonical, priority);
    forall a ensures a in Members(combined) <==> a in pullable {
      assert a in Members(combined) <==> a in combined;
      var kept := Filter(priority, pullable);
      assert a in Members(kept) <==> a in kept;
      if a in pullable {
        var i :| 0 <= i < |items| && Pullable(items[i]) && items[i].id == a;
        assert items[i] in multiset(canonical);
        var j :| 0 <= j < |canonical| && canonical[j] == items[i];
      }
    }
  }

  /** However stale, duplicated or incomplete the old list was, the result is the pullable ids once
      each; and it is a valid queue exactly when the expanded dependencies of distinct ids do not run
      in a circle. */
  lemma ReconciledIsValid(items: seq<Item>, canonical: seq<Item>, priority: seq<Id>)
    requires multiset(canonical) == multiset(items) && UniqueIds(items)
    ensures Distinct(Reconciled(items, canonical, priority))
    ensures Members(Reconciled(items, canonical, priority)) == PullableIds(items)
    ensures ValidQueue(items, Reconciled(items, canonical, priority)) <==>
            Acyclic(WithoutLoops(QueueGraph(ForestOf(items), items, PullableIds(items))))
  {
    var combined := Combined(items, canonical, priority);
    CombinedMembers(items, canonical, priority);
    var g := QueueGraph(ForestOf(items), items, Members(combined));
    RepairedOnce(g, combined);
    RepairedRespects(g, combined);
    RespectsIsOrdered(items, Repaired(g, combined));
  }

  lemma {:induction false} FilterAll(queue: seq<Id>, keep: set<Id>)
    requires Members(queue) <= keep
    ensures Filter(queue, keep) == queue
  {
    if queue != [] {
      var n := |queue| - 1;
      assert queue[n] in Members(queue) && queue == queue[..n] + [queue[n]];
      assert Members(queue[..n]) <= Members(queue);
      FilterAll(queue[..n], keep);
    }
  }

  lemma NothingIn<T>(s: seq<T>)
    ensures s == [] || exists i :: 0 <= i < |s| && s[i] in s
  {
    if s != [] {
      var a := s[0];
      assert a in s;
    }
  }

  /** Reconciling a queue that is already valid changes nothing. */
  lemma ValidReconciled(items: seq<Item>, canonical: seq<Item>, queue: seq<Id>)
    requires UniqueIds(items) && ValidQueue(items, queue) && multiset(canonical) == multiset(items)
    ensures Reconciled(items, canonical, queue) == queue
  {
    FilterAll(queue, PullableIds(items));
    var added := NewIds(canonical, PullableIds(items), Members(queue));
    NothingIn(added);
    assert Combined(items, canonical, queue) == queue;
    RespectsIsOrdered(items, queue);
    ValidUnchanged(QueueGraph(ForestOf(items), items, Members(queue)), queue);
  }
}
