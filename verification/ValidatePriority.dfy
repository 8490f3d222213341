/** The queue's validator (tools/registry/validate.go, `validatePriority`). */
module ValidatePriority {
  import opened Common
  import opened Digraph
  import opened Items
  import opened Expand
  import opened TopoRepair
  import opened Queue

  datatype PriorityError =
    | Duplicate(id: Id)
    | NotPullable(id: Id)
    | Missing(id: Id)
    | Misordered(id: Id, target: Id, dependency: Id)

  // ---------------------------------------------------------------- what each message means

  ghost predicate Repeated(queue: seq<Id>, a: Id) {
    exists i, j :: 0 <= i < j < |queue| && queue[i] == a && queue[j] == a
  }

  /** The rank the order check uses: a repeated id counts where it stands last. */
  function LastRank(queue: seq<Id>, a: Id): (r: int)
    ensures -1 <= r < |queue|
    ensures r >= 0 ==> queue[r] == a
    ensures r < 0 <==> a !in queue
    ensures forall k :: r < k < |queue| ==> queue[k] != a
  {
    if queue == [] then -1
    else if queue[|queue| - 1] == a then |queue| - 1
    else LastRank(queue[..|queue| - 1], a)
  }

  ghost predicate OutOfOrder(items: seq<Item>, queue: seq<Id>, x: Id, t: Id, d: Id) {
    && x in PullableIds(items) && StandsFor(ForestOf(items), PullableIds(items), d, t)
    && (exists i :: 0 <= i < |items| && items[i].id == x && d in items[i].dependsOn)
    && 0 <= LastRank(queue, x) < LastRank(queue, t)
  }

  ghost predicate Justified(items: seq<Item>, queue: seq<Id>, e: PriorityError) {
    match e
    case Duplicate(a) => Repeated(queue, a)
    case NotPullable(a) => a in queue && a !in PullableIds(items)
    case Missing(a) => a in PullableIds(items) && a !in queue
    case Misordered(x, t, d) => OutOfOrder(items, queue, x, t, d)
  }

  /** Exactly the justified messages are reported. */
  ghost predicate Exact(items: seq<Item>, queue: seq<Id>, errs: seq<PriorityError>) {
    forall e :: e in errs <==> Justified(items, queue, e)
  }

  // ---------------------------------------------------------------- no message means a valid queue

  lemma DistinctNotRepeated(queue: seq<Id>)
    ensures Distinct(queue) <==> forall a :: !Repeated(queue, a)
  {
    if !Distinct(queue) {
      var i, j :| 0 <= i < j < |queue| && queue[i] == queue[j];
      assert Repeated(queue, queue[i]);
    }
  }

  lemma LastRankIsPosition(queue: seq<Id>, p: nat)
    requires Distinct(queue) && p < |queue|
    ensures LastRank(queue, queue[p]) == p
  {
    var r := LastRank(queue, queue[p]);
    assert queue[r] == queue[p];
  }

  lemma OutOfOrderBreaks(items: seq<Item>, queue: seq<Id>, x: Id, t: Id, d: Id)
    requires Distinct(queue) && Members(queue) == PullableIds(items) && OutOfOrder(items, queue, x, t, d)
    ensures !Ordered(items, PullableIds(items), queue)
  {
    var p, q := LastRank(queue, x), LastRank(queue, t);
    assert MustFollow(items, PullableIds(items), queue[p], t) && queue[q] == t;
    assert t !in queue[..p];
  }

  lemma OrderedIffNoneOutOfOrder(items: seq<Item>, queue: seq<Id>)
    requires Distinct(queue) && Members(queue) == PullableIds(items)
    ensures Ordered(items, PullableIds(items), queue) <==> forall x, t, d :: !OutOfOrder(items, queue, x, t, d)
  {
    var wanted := PullableIds(items);
    if Ordered(items, wanted, queue) {
      forall x, t, d ensures !OutOfOrder(items, queue, x, t, d) {
        if OutOfOrder(items, queue, x, t, d) { OutOfOrderBreaks(items, queue, x, t, d); }
      }
    }
    if forall x, t, d :: !OutOfOrder(items, queue, x, t, d) {
      forall p, t | 0 <= p < |queue| && MustFollow(items, wanted, queue[p], t) && t in queue && t != queue[p]
        ensures t in queue[..p]
      {
        var i, d :| 0 <= i < |items| && items[i].id == queue[p] && d in items[i].dependsOn &&
                    StandsFor(ForestOf(items), wanted, d, t);
        assert queue[p] in Members(queue);
        LastRankIsPosition(queue, p);
        assert !OutOfOrder(items, queue, queue[p], t, d);
      }
    }
  }

  lemma ExactMeansValid(items: seq<Item>, queue: seq<Id>, errs: seq<PriorityError>)
    requires Exact(items, queue, errs)
    ensures errs == [] <==> ValidQueue(items, queue)
  {
    DistinctNotRepeated(queue);
    if errs == [] {
      assert forall e :: !Justified(items, queue, e);
      assert forall a :: !Repeated(queue, a) by {
        forall a ensures !Repeated(queue, a) { assert !Justified(items, queue, Duplicate(a)); }
      }
      assert Members(queue) == PullableIds(items) by {
        forall a ensures a in Members(queue) <==> a in PullableIds(items) {
          assert a in Members(queue) <==> a in queue;
          assert !Justified(items, queue, NotPullable(a)) && !Justified(items, queue, Missing(a));
        }
      }
      forall x, t, d ensures !OutOfOrder(items, queue, x, t, d) {
        assert !Justified(items, queue, Misordered(x, t, d));
      }
      OrderedIffNoneOutOfOrder(items, queue);
    }
    if ValidQueue(items, queue) {
      OrderedIffNoneOutOfOrder(items, queue);
      forall e ensures !Justified(items, queue, e) {
        match e
        case NotPullable(a) => assert a in Members(queue) <==> a in queue;
        case Missing(a) => assert a in Members(queue) <==> a in queue;
        case Duplicate(_) =>
        case Misordered(_, _, _) =>
      }
      NothingIn(errs);
    }
  }

  // ---------------------------------------------------------------- the code

  method CheckListed(queue: seq<Id>, pullable: set<Id>) returns (errs: seq<PriorityError>, seen: set<Id>)
    ensures seen == Members(queue)
    ensures forall e :: e in errs <==>
              (e.Duplicate? && Repeated(queue, e.id)) || (e.NotPullable? && e.id in queue && e.id !in pullable)
  {
    errs, seen := [], {};
    for pos := 0 to |queue|
      invariant seen == Members(queue[..pos])
      invariant forall e :: e in errs <==>
                  (e.Duplicate? && Repeated(queue[..pos], e.id)) ||
                  (e.NotPullable? && e.id in queue[..pos] && e.id !in pullable)
    {
      var id := queue[pos];
      assert queue[..pos + 1] == queue[..pos] + [id];
      MembersAppend(queue[..pos], id);
      RepeatedAppend(queue[..pos], id);
      assert id in seen <==> id in queue[..pos];
      if id in seen {
        errs := errs + [Duplicate(id)];
        continue;
      }
      seen := seen + {id};
      if id !in pullable {
        errs := errs + [NotPullable(id)];
      }
    }
    assert queue[..|queue|] == queue;
  }

  lemma RepeatedAppend(queue: seq<Id>, id: Id)
    ensures forall a :: Repeated(queue + [id], a) <==> Repeated(queue, a) || (a == id && id in queue)
  {
    var longer := queue + [id];
    forall a ensures Repeated(longer, a) <==> Repeated(queue, a) || (a == id && id in queue) {
      if Repeated(queue, a) {
        var i, j :| 0 <= i < j < |queue| && queue[i] == a && queue[j] == a;
        assert longer[i] == a && longer[j] == a;
      }
      if a == id && id in queue {
        var i :| 0 <= i < |queue| && queue[i] == id;
        assert longer[i] == a && longer[|queue|] == a;
      }
      if Repeated(longer, a) {
        var i, j :| 0 <= i < j < |longer| && longer[i] == a && longer[j] == a;
        assert queue[i] == a;
        if j < |queue| { assert queue[j] == a; }
      }
    }
  }

  method CheckMissing(pullable: set<Id>, seen: set<Id>) returns (errs: seq<PriorityError>)
    ensures forall e :: e in errs <==> e.Missing? && e.id in pullable && e.id !in seen
  {
    errs := [];
    var left := pullable;
    while left != {}
      invariant left <= pullable
      invariant forall e :: e in errs <==> e.Missing? && e.id in pullable - left && e.id !in seen
      decreases left
    {
      var id :| id in left;
      left := left - {id};
      if id !in seen {
        errs := errs + [Missing(id)];
      }
    }
  }

  /** One item's dependencies against its rank. */
  method CheckItem(f: Forest, pullable: set<Id>, pos: map<Id, nat>, x: Id, on: seq<Id>)
    returns (errs: seq<PriorityError>)
    requires x in pos
    ensures forall e :: e in errs <==>
              e.Misordered? && e.id == x && e.dependency in on && StandsFor(f, pullable, e.dependency, e.target) &&
              e.target in pos && pos[x] < pos[e.target]
  {
    errs := [];
    for k := 0 to |on|
      invariant forall e :: e in errs <==>
                  e.Misordered? && e.id == x && e.dependency in on[..k] &&
                  StandsFor(f, pullable, e.dependency, e.target) && e.target in pos && pos[x] < pos[e.target]
    {
      var dep := on[k];
      assert on[..k + 1] == on[..k] + [dep];
      var seen := new SeenSet();
      var targets := ExpandDepTarget(f, pullable, dep, seen);
      TargetsExact(f, pullable, dep);
      var found := CheckTargets(pos, x, dep, targets);
      errs := errs + found;
    }
    assert on[..|on|] == on;
  }

  method CheckTargets(pos: map<Id, nat>, x: Id, dep: Id, targets: seq<Id>) returns (errs: seq<PriorityError>)
    requires x in pos
    ensures forall e :: e in errs <==>
              e.Misordered? && e.id == x && e.dependency == dep && e.target in targets && e.target in pos &&
              pos[x] < pos[e.target]
  {
    errs := [];
    for k := 0 to |targets|
      invariant forall e :: e in errs <==>
                  e.Misordered? && e.id == x && e.dependency == dep && e.target in targets[..k] && e.target in pos &&
                  pos[x] < pos[e.target]
    {
      var target := targets[k];
      assert targets[..k + 1] == targets[..k] + [target];
      if target !in pos {
        continue;
      }
      if pos[x] < pos[target] {
        errs := errs + [Misordered(x, target, dep)];
      }
    }
    assert targets[..|targets|] == targets;
  }

  method Ranks(queue: seq<Id>) returns (pos: map<Id, nat>)
    ensures forall a :: a in pos <==> a in queue
    ensures forall a :: a in pos ==> pos[a] == LastRank(queue, a)
  {
    pos := map[];
    for i := 0 to |queue|
      invariant forall a :: a in pos <==> a in queue[..i]
      invariant forall a :: a in pos ==> pos[a] == LastRank(queue[..i], a)
    {
      assert queue[..i + 1][..i] == queue[..i];
      assert forall a :: a in queue[..i + 1] <==> a in queue[..i] || a == queue[i];
      pos := pos[queue[i] := i];
    }
    assert queue[..|queue|] == queue;
  }

  method CheckOrder(items: seq<Item>, queue: seq<Id>, pullable: set<Id>) returns (errs: seq<PriorityError>)
    requires pullable == PullableIds(items)
    ensures forall e :: e in errs <==> e.Misordered? && OutOfOrder(items, queue, e.id, e.target, e.dependency)
  {
    var itemKind := ItemKinds(items);
    var children := ChildrenByParent(items);
    var f := Forest(itemKind, children);
    var pos := Ranks(queue);
    errs := [];
    for i := 0 to |items|
      invariant forall e :: e in errs <==>
                  e.Misordered? && e.id in pullable && StandsFor(f, pullable, e.dependency, e.target) &&
                  ItemDepends(items[..i], e.id, e.dependency) &&
                  e.id in pos && e.target in pos && pos[e.id] < pos[e.target]
    {
      DependsAppend(items, i);
      var it := items[i];
      if it.id !in pullable {
        continue;
      }
      if it.id !in pos {
        continue;
      }
      var found := CheckItem(f, pullable, pos, it.id, it.dependsOn);
      errs := errs + found;
    }
    assert items[..|items|] == items;
    forall e ensures e in errs <==> e.Misordered? && OutOfOrder(items, queue, e.id, e.target, e.dependency) {
      if e.Misordered? {
        assert ItemDepends(items, e.id, e.dependency) <==>
               exists i :: 0 <= i < |items| && items[i].id == e.id && e.dependency in items[i].dependsOn;
      }
    }
  }

  predicate ItemDepends(items: seq<Item>, x: Id, d: Id) {
    exists i :: 0 <= i < |items| && items[i].id == x && d in items[i].dependsOn
  }

  lemma DependsAppend(items: seq<Item>, i: nat)
    requires i < |items|
    ensures forall x, d :: ItemDepends(items[..i + 1], x, d) <==>
              ItemDepends(items[..i], x, d) || (x == items[i].id && d in items[i].dependsOn)
  {
    forall x, d
      ensures ItemDepends(items[..i + 1], x, d) <==>
              ItemDepends(items[..i], x, d) || (x == items[i].id && d in items[i].dependsOn)
    {
      if ItemDepends(items[..i], x, d) {
        var k :| 0 <= k < i && items[..i][k].id == x && d in items[..i][k].dependsOn;
        assert items[..i + 1][k] == items[..i][k];
      }
      if x == items[i].id && d in items[i].dependsOn {
        assert items[..i + 1][i] == items[i];
      }
      if ItemDepends(items[..i + 1], x, d) {
        var k :| 0 <= k < i + 1 && items[..i + 1][k].id == x && d in items[..i + 1][k].dependsOn;
        if k < i { assert items[..i][k] == items[k]; }
      }
    }
  }

  /** An empty list means "no queue" and is never wrong; otherwise the messages are exactly the
      justified ones, so none at all means the queue is valid. */
  method ValidatePriority(items: seq<Item>, queue: seq<Id>) returns (errs: seq<PriorityError>)
    ensures queue == [] ==> errs == []
    ensures queue != [] ==> Exact(items, queue, errs)
    ensures errs == [] <==> queue == [] || ValidQueue(items, queue)
  {
    errs := [];
    if |queue| == 0 {
      return;
    }
    var pullable := PullableItems(items);
    var listed, seen := CheckListed(queue, pullable);
    var missing := CheckMissing(pullable, seen);
    var order := CheckOrder(items, queue, pullable);
    errs := listed + missing + order;
    assert forall a :: a in Members(queue) <==> a in queue;
    assert forall e :: e in errs <==> e in listed || e in missing || e in order;
    ExactMeansValid(items, queue, errs);
  }
}
