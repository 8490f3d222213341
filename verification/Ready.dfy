/** Which queued items may be started (tools/registry/priority_cmds.go, `runReady`, `readyList`). */
module Ready {
  import opened CanonicalOrder
  import opened Common
  import opened Digraph
  import opened Items
  import opened Expand
  import opened TopoRepair
  import opened Queue
  import opened Umbrella

  // ---------------------------------------------------------------- readiness

  function StatusMap(items: seq<Item>): map<Id, Status> {
    if items == [] then map[]
    else
      var last := items[|items| - 1];
      StatusMap(items[..|items| - 1])[last.id := last.status]
  }

  predicate HasStatus(items: seq<Item>, id: Id, s: Status) {
    exists i :: 0 <= i < |items| && items[i].id == id && items[i].status == s
  }

  lemma {:induction false} StatusMapMeaning(items: seq<Item>, id: Id)
    requires UniqueIds(items)
    ensures forall s :: (id in StatusMap(items) && StatusMap(items)[id] == s) <==> HasStatus(items, id, s)
  {
    if items != [] {
      var n := |items| - 1;
      var before := items[..n];
      StatusMapMeaning(before, id);
      forall s ensures (id in StatusMap(items) && StatusMap(items)[id] == s) <==> HasStatus(items, id, s) {
        if HasStatus(before, id, s) {
          var i :| 0 <= i < n && before[i].id == id && before[i].status == s;
          assert items[i] == before[i] && items[i].id != items[n].id;
        }
        if items[n].id == id && items[n].status == s {
          assert HasStatus(items, id, s);
        }
        if i :| 0 <= i < |items| && items[i].id == id && items[i].status == s {
          if i < n { assert before[i] == items[i]; }
        }
      }
    }
  }

  predicate DepSatisfied(statuses: map<Id, Status>, questions: seq<Id>, d: Id) {
    if d in questions then false
    else if d !in statuses then true
    else statuses[d] == Done || statuses[d] == Wontfix
  }

  predicate IsReady(pullable: set<Id>, statuses: map<Id, Status>, questions: seq<Id>, it: Item) {
    it.id in pullable && it.status != InProgress &&
    forall k :: 0 <= k < |it.dependsOn| ==> DepSatisfied(statuses, questions, it.dependsOn[k])
  }

  predicate ReadyIn(items: seq<Item>, questions: seq<Id>, it: Item) {
    IsReady(PullableIds(items), StatusMap(items), questions, it)
  }

  // ---------------------------------------------------------------- closed means nothing left below

  ghost predicate ClosedId(items: seq<Item>, id: Id) {
    exists i :: 0 <= i < |items| && items[i].id == id && IsClosed(items[i].status)
  }

  lemma DownEdge(items: seq<Item>, u: Id, c: Id) returns (i: nat, k: nat)
    requires UniqueIds(items) && Edge(Down(ForestOf(items), PullableIds(items)), u, c)
    ensures i < |items| && items[i].id == u && items[i].kind == Umbrella
    ensures KidOf(items, i, k) && items[k].id == c && Derived(items, i)
  {
    KindMapMeaning(items, u);
    ChildMapMeaning(items, u);
    assert HasKind(items, u, Umbrella);
    i :| 0 <= i < |items| && items[i].id == u && items[i].kind == Umbrella;
    assert IsChild(items, u, c);
    k :| 0 <= k < |items| && items[k].parent == u && items[k].id == c;
    assert KidOf(items, i, k);
  }

  lemma SameId(items: seq<Item>, i: nat, j: nat)
    requires UniqueIds(items) && i < |items| && j < |items| && items[i].id == items[j].id
    ensures i == j
  {
  }

  lemma {:induction false} ClosedAlongWalk(items: seq<Item>, p: seq<Id>)
    requires UniqueIds(items) && Settled(items)
    requires IsWalk(Down(ForestOf(items), PullableIds(items)), p) && ClosedId(items, p[0])
    ensures ClosedId(items, p[|p| - 1])
    decreases |p|
  {
    if |p| > 1 {
      var down := Down(ForestOf(items), PullableIds(items));
      assert Edge(down, p[0], p[1]);
      var i, k := DownEdge(items, p[0], p[1]);
      var j :| 0 <= j < |items| && items[j].id == p[0] && IsClosed(items[j].status);
      SameId(items, i, j);
      assert UpToDate(items, i);
      assert KidsClosed(items, i);
      assert ClosedId(items, p[1]);
      WalkSlice(down, p, 1, |p|);
      assert p[1..|p|] == p[1..];
      ClosedAlongWalk(items, p[1..]);
    }
  }

  lemma ClosedNotPullable(items: seq<Item>, t: Id)
    requires UniqueIds(items) && ClosedId(items, t)
    ensures t !in PullableIds(items)
  {
    var j :| 0 <= j < |items| && items[j].id == t && IsClosed(items[j].status);
    forall i | 0 <= i < |items| && Pullable(items[i]) ensures items[i].id != t {
      UniqueApart(items, i, j);
    }
  }

  lemma UniqueApart(items: seq<Item>, i: nat, j: nat)
    requires UniqueIds(items) && i < |items| && j < |items|
    ensures i == j || items[i].id != items[j].id
  {
  }

  lemma PullableHasId(items: seq<Item>, t: Id)
    ensures t in PullableIds(items) ==> HasId(items, t)
  {
  }

  lemma SatisfiedMeaning(items: seq<Item>, questions: seq<Id>, d: Id)
    requires UniqueIds(items)
    ensures DepSatisfied(StatusMap(items), questions, d) <==>
            d !in questions && (HasId(items, d) ==> ClosedId(items, d))
  {
    StatusMapMeaning(items, d);
    StatusMapKeys(items, d);
    if i :| 0 <= i < |items| && items[i].id == d {
      assert HasStatus(items, d, items[i].status);
      if d in StatusMap(items) && IsClosed(StatusMap(items)[d]) {
        var s := StatusMap(items)[d];
        assert HasStatus(items, d, s);
        var j :| 0 <= j < |items| && items[j].id == d && items[j].status == s;
        assert ClosedId(items, d);
      }
      if ClosedId(items, d) {
        var j :| 0 <= j < |items| && items[j].id == d && IsClosed(items[j].status);
        assert HasStatus(items, d, items[j].status);
      }
    }
  }

  lemma {:induction false} StatusMapKeys(items: seq<Item>, id: Id)
    ensures id in StatusMap(items) <==> HasId(items, id)
  {
    if items != [] {
      StatusMapKeys(items[..|items| - 1], id);
      HasIdSplit(items, id);
    }
  }

  lemma SatisfiedHasNoTarget(items: seq<Item>, questions: seq<Id>, d: Id, t: Id)
    requires UniqueIds(items) && Settled(items) && DepSatisfied(StatusMap(items), questions, d)
    ensures !StandsFor(ForestOf(items), PullableIds(items), d, t)
  {
    SatisfiedMeaning(items, questions, d);
    PullableHasId(items, t);
    if StandsFor(ForestOf(items), PullableIds(items), d, t) {
      var down := Down(ForestOf(items), PullableIds(items));
      var p :| WalkBetween(down, p, d, t);
      if HasId(items, d) {
        ClosedAlongWalk(items, p);
        ClosedNotPullable(items, t);
      } else if |p| > 1 {
        assert Edge(down, p[0], p[1]);
        var i, k := DownEdge(items, p[0], p[1]);
      }
    }
  }

  /** Safety: whatever a ready item depends on, however many umbrellas deep, no open work is left there. */
  lemma ReadyIsSafe(items: seq<Item>, questions: seq<Id>, it: Item)
    requires UniqueIds(items) && Settled(items) && ReadyIn(items, questions, it)
    ensures forall d, t :: d in it.dependsOn ==> !StandsFor(ForestOf(items), PullableIds(items), d, t)
  {
    forall d, t | d in it.dependsOn ensures !StandsFor(ForestOf(items), PullableIds(items), d, t) {
      var k :| 0 <= k < |it.dependsOn| && it.dependsOn[k] == d;
      assert DepSatisfied(StatusMap(items), questions, it.dependsOn[k]);
      SatisfiedHasNoTarget(items, questions, d, t);
    }
  }

  // ---------------------------------------------------------------- progress at the head of the queue

  /** An umbrella nobody will ever close: open, and without children. */
  ghost predicate Stuck(items: seq<Item>, u: Id) {
    exists i: nat :: i < |items| && items[i].id == u && items[i].kind == Umbrella && !IsClosed(items[i].status) &&
                     !Derived(items, i)
  }

  ghost predicate LeadsToStuck(items: seq<Item>, d: Id) {
    exists u :: Reaches(Down(ForestOf(items), PullableIds(items)), d, u) && Stuck(items, u)
  }

  /** What a committed registry guarantees, as far as readiness depends on it. */
  ghost predicate Committed(items: seq<Item>, questions: seq<Id>, queue: seq<Id>) {
    && UniqueIds(items) && Settled(items) && AcyclicParents(items)
    && (forall i :: 0 <= i < |items| ==> StillOpen(items[i].status) || IsClosed(items[i].status))
    && (forall i :: 0 <= i < |items| ==> items[i].id !in questions)
    && (forall i, d :: 0 <= i < |items| && d in items[i].dependsOn ==> HasId(items, d) || d in questions)
    && ValidQueue(items, queue)
  }

  lemma {:induction false} OpenHasTarget(items: seq<Item>, rank: Id -> nat, i: nat)
    requires UniqueIds(items) && Settled(items) && KidsRankLower(items, rank)
    requires forall k :: 0 <= k < |items| ==> StillOpen(items[k].status) || IsClosed(items[k].status)
    requires i < |items| && !IsClosed(items[i].status)
    ensures (exists t :: StandsFor(ForestOf(items), PullableIds(items), items[i].id, t)) ||
            LeadsToStuck(items, items[i].id)
    decreases rank(items[i].id)
  {
    var f, wanted := ForestOf(items), PullableIds(items);
    var id := items[i].id;
    ReachesSelf(Down(f, wanted), id);
    if items[i].kind != Umbrella {
      assert Pullable(items[i]);
      assert StandsFor(f, wanted, id, id);
    } else if !Derived(items, i) {
      assert Stuck(items, id);
    } else {
      assert UpToDate(items, i);
      var c: nat :| c < |items| && KidOf(items, i, c) && !IsClosed(items[c].status);
      OpenHasTarget(items, rank, c);
      UmbrellaEdge(items, i, c);
      if t :| StandsFor(f, wanted, items[c].id, t) {
        ReachesStep(Down(f, wanted), id, items[c].id, t);
        assert StandsFor(f, wanted, id, t);
      } else {
        var u :| Reaches(Down(f, wanted), items[c].id, u) && Stuck(items, u);
        ReachesStep(Down(f, wanted), id, items[c].id, u);
      }
    }
  }

  lemma UmbrellaEdge(items: seq<Item>, i: nat, c: nat)
    requires UniqueIds(items) && KidOf(items, i, c) && items[i].kind == Umbrella
    ensures Edge(Down(ForestOf(items), PullableIds(items)), items[i].id, items[c].id)
  {
    var u := items[i].id;
    KindMapMeaning(items, u);
    ChildMapMeaning(items, u);
    assert HasKind(items, u, Umbrella) && IsChild(items, u, items[c].id);
    forall j | 0 <= j < |items| && Pullable(items[j]) ensures items[j].id != u {
      UniqueApart(items, i, j);
    }
  }

  lemma SatisfiedNotStuck(items: seq<Item>, questions: seq<Id>, d: Id)
    requires UniqueIds(items) && Settled(items) && DepSatisfied(StatusMap(items), questions, d)
    ensures !LeadsToStuck(items, d)
  {
    SatisfiedMeaning(items, questions, d);
    if LeadsToStuck(items, d) {
      var down := Down(ForestOf(items), PullableIds(items));
      var u :| Reaches(down, d, u) && Stuck(items, u);
      StuckIsOpen(items, u);
      var p :| WalkBetween(down, p, d, u);
      if HasId(items, d) {
        ClosedAlongWalk(items, p);
      } else if |p| > 1 {
        assert Edge(down, p[0], p[1]);
        var i, k := DownEdge(items, p[0], p[1]);
      }
    }
  }

  lemma StuckIsOpen(items: seq<Item>, u: Id)
    requires UniqueIds(items) && Stuck(items, u)
    ensures HasId(items, u) && !ClosedId(items, u)
  {
    var j: nat :| j < |items| && items[j].id == u && !IsClosed(items[j].status);
    forall i | 0 <= i < |items| && IsClosed(items[i].status) ensures items[i].id != u {
      UniqueApart(items, i, j);
    }
  }

  /** The reasons a caller can look up for the head of the queue to be held back. */
  ghost predicate HeldBack(items: seq<Item>, questions: seq<Id>, head: Item) {
    || head.status == InProgress
    || (exists d :: d in head.dependsOn && d in questions)
    || (exists d :: d in head.dependsOn && LeadsToStuck(items, d))
    || (exists d :: d in head.dependsOn && StandsFor(ForestOf(items), PullableIds(items), d, head.id))
  }

  lemma HeadDependencySatisfied(items: seq<Item>, questions: seq<Id>, queue: seq<Id>, h: nat, d: Id)
    requires Committed(items, questions, queue) && queue != []
    requires h < |items| && items[h].id == queue[0] && d in items[h].dependsOn
    requires d !in questions && !LeadsToStuck(items, d)
    requires !StandsFor(ForestOf(items), PullableIds(items), d, items[h].id)
    ensures DepSatisfied(StatusMap(items), questions, d)
  {
    SatisfiedMeaning(items, questions, d);
    assert HasId(items, d);
    forall t ensures !StandsFor(ForestOf(items), PullableIds(items), d, t) {
      HeadHasNoTarget(items, queue, h, d, t);
    }
    var i :| 0 <= i < |items| && items[i].id == d;
    if !IsClosed(items[i].status) {
      var rank := AcyclicKidsRank(items);
      OpenHasTarget(items, rank, i);
    }
  }

  lemma HeadHasNoTarget(items: seq<Item>, queue: seq<Id>, h: nat, d: Id, t: Id)
    requires ValidQueue(items, queue) && queue != []
    requires h < |items| && items[h].id == queue[0] && d in items[h].dependsOn
    ensures StandsFor(ForestOf(items), PullableIds(items), d, t) ==> t == queue[0]
  {
    if StandsFor(ForestOf(items), PullableIds(items), d, t) {
      assert MustFollow(items, PullableIds(items), queue[0], t);
      assert t in Members(queue) && t in queue;
      assert queue[..0] == [];
    }
  }

  /** Progress: the head of a committed queue is ready exactly when it is not held back. */
  lemma HeadReady(items: seq<Item>, questions: seq<Id>, queue: seq<Id>, h: nat)
    requires Committed(items, questions, queue) && queue != []
    requires h < |items| && items[h].id == queue[0]
    ensures ReadyIn(items, questions, items[h]) <==> !HeldBack(items, questions, items[h])
  {
    var head := items[h];
    assert queue[0] in Members(queue);
    if ReadyIn(items, questions, head) {
      ReadyIsSafe(items, questions, head);
      forall d | d in head.dependsOn ensures d !in questions && !LeadsToStuck(items, d) {
        var k :| 0 <= k < |head.dependsOn| && head.dependsOn[k] == d;
        assert DepSatisfied(StatusMap(items), questions, head.dependsOn[k]);
        SatisfiedNotStuck(items, questions, d);
      }
    }
    if !HeldBack(items, questions, head) {
      forall k | 0 <= k < |head.dependsOn| ensures DepSatisfied(StatusMap(items), questions, head.dependsOn[k]) {
        HeadDependencySatisfied(items, questions, queue, h, head.dependsOn[k]);
      }
    }
  }

  /** The last reason is real: an item that depends on its own umbrella passes every check, heads the
      queue and is never ready, because the umbrella waits for it in turn. */
  lemma OwnUmbrellaBlocks(items: seq<Item>)
    requires items == [Item("i1", Open, [], Umbrella, "agent", NO_PARENT),
                       Item("i1a", Open, ["i1"], OtherKind("leaf"), "agent", "i1")]
    ensures Committed(items, [], ["i1a"]) && items[1].status == Open
    ensures !ReadyIn(items, [], items[1]) && !LeadsToStuck(items, "i1")
  {
    assert "i1"[1..] == "1" && "i1a"[2] == 'a';
    assert |"i1"| == 2 && |"i1a"| == 3;
    assert UniqueIds(items);
    forall i: nat, c: nat ensures KidOf(items, i, c) <==> i == 0 && c == 1 {
    }
    assert KidOf(items, 0, 1) && !KidsClosed(items, 0);
    forall i: nat | i < |items| ensures UpToDate(items, i) {
    }
    OnlyParent(items);
    OnlyEntry(items);
    StatusMapMeaning(items, "i1");
    assert HasStatus(items, "i1", Open);
    assert items[1].dependsOn[0] == "i1";
    assert Derived(items, 0);
    NothingStuck(items);
  }

  lemma NothingStuck(items: seq<Item>)
    requires |items| == 2 && items[0].kind == Umbrella && items[1].kind != Umbrella && Derived(items, 0)
    ensures forall d :: !LeadsToStuck(items, d)
  {
    forall u ensures !Stuck(items, u) {
      if Stuck(items, u) {
        var i: nat :| i < |items| && items[i].id == u && items[i].kind == Umbrella && !Derived(items, i);
      }
    }
  }

  lemma OnlyParent(items: seq<Item>)
    requires |items| == 2 && items[0].parent == NO_PARENT && items[1].parent == items[0].id
    requires items[0].id != items[1].id && items[0].id != NO_PARENT
    ensures AcyclicParents(items)
  {
    var rank: Id -> nat := a => if a == items[0].id then 1 else 0;
    forall a, b | Edge(ChildMap(items), a, b) ensures rank(b) < rank(a) {
      ChildMapMeaning(items, a);
      assert IsChild(items, a, b);
    }
    RankedIsAcyclic(ChildMap(items), rank);
  }

  lemma OnlyEntry(items: seq<Item>)
    requires |items| == 2 && !Pullable(items[0]) && Pullable(items[1])
    ensures ValidQueue(items, [items[1].id])
  {
    var queue := [items[1].id];
    assert PullableIds(items) == {items[1].id};
    assert Members(queue) == {queue[0]};
  }

  // ---------------------------------------------------------------- the code

  method ItemStatuses(items: seq<Item>) returns (statuses: map<Id, Status>)
    ensures statuses == StatusMap(items)
  {
    statuses := map[];
    for i := 0 to |items|
      invariant statuses == StatusMap(items[..i])
    {
      assert items[..i + 1][..i] == items[..i];
      statuses := statuses[items[i].id := items[i].status];
    }
    assert items[..|items|] == items;
  }

  function ById(items: seq<Item>): map<Id, Item> {
    if items == [] then map[]
    else
      var last := items[|items| - 1];
      ById(items[..|items| - 1])[last.id := last]
  }

  /** The ready ids of an order that belong, or do not belong, to owner "pete". */
  function ReadyOf(items: seq<Item>, questions: seq<Id>, order: seq<Id>, pete: bool): seq<Id> {
    if order == [] then []
    else
      var n := |order| - 1;
      var id := order[n];
      ReadyOf(items, questions, order[..n], pete) +
      if id in ById(items) && ReadyIn(items, questions, ById(items)[id]) && (ById(items)[id].owner == "pete") == pete
      then [id] else []
  }

  lemma {:induction false} ByIdMeaning(items: seq<Item>, id: Id)
    requires UniqueIds(items)
    ensures id in ById(items) <==> HasId(items, id)
    ensures forall i :: 0 <= i < |items| && items[i].id == id ==> id in ById(items) && ById(items)[id] == items[i]
  {
    if items != [] {
      var n := |items| - 1;
      HasIdSplit(items, id);
      forall i, j | 0 <= i < j < n ensures items[..n][i].id != items[..n][j].id { UniqueApart(items, i, j); }
      ByIdMeaning(items[..n], id);
      forall i | 0 <= i < |items| && items[i].id == id ensures id in ById(items) && ById(items)[id] == items[i] {
        if i < n {
          assert items[..n][i] == items[i];
          UniqueApart(items, i, n);
        }
      }
    }
  }

  /** The list shows exactly the ready items of the order that have the right kind of owner. */
  lemma {:induction false} ReadyOfMeaning(items: seq<Item>, questions: seq<Id>, order: seq<Id>, pete: bool, i: nat)
    requires UniqueIds(items) && i < |items|
    ensures items[i].id in ReadyOf(items, questions, order, pete)
            <==> items[i].id in order && ReadyIn(items, questions, items[i]) && (items[i].owner == "pete") == pete
    decreases |order|
  {
    if order != [] {
      var n := |order| - 1;
      ReadyOfMeaning(items, questions, order[..n], pete, i);
      ByIdMeaning(items, order[n]);
      assert order == order[..n] + [order[n]];
    }
  }

  /** Open, no umbrella, and every id it depends on is no open question and belongs to nothing that is not closed. */
  ghost predicate MayStart(items: seq<Item>, questions: seq<Id>, it: Item) {
    it.status == Open && it.kind != Umbrella
    && forall d :: d in it.dependsOn ==>
         d !in questions && forall j :: 0 <= j < |items| && items[j].id == d ==> items[j].status in {Done, Wontfix}
  }

  lemma MayStartIsReady(items: seq<Item>, questions: seq<Id>, i: nat)
    requires UniqueIds(items) && i < |items|
    ensures ReadyIn(items, questions, items[i]) <==> MayStart(items, questions, items[i])
  {
    var it := items[i];
    forall j | 0 <= j < |items| && items[j].id == it.id ensures j == i { SameId(items, i, j); }
    assert it.id in PullableIds(items) <==> Pullable(it);
    forall d ensures DepSatisfied(StatusMap(items), questions, d) <==>
                     d !in questions && forall j :: 0 <= j < |items| && items[j].id == d ==>
                                          items[j].status in {Done, Wontfix}
    {
      DepSatisfiedMeaning(items, questions, d);
    }
  }

  lemma DepSatisfiedMeaning(items: seq<Item>, questions: seq<Id>, d: Id)
    requires UniqueIds(items)
    ensures DepSatisfied(StatusMap(items), questions, d) <==>
            d !in questions && forall j :: 0 <= j < |items| && items[j].id == d ==> items[j].status in {Done, Wontfix}
  {
    StatusMapMeaning(items, d);
    assert forall j :: 0 <= j < |items| ==> HasStatus(items, items[j].id, items[j].status);
    if d in StatusMap(items) {
      assert HasStatus(items, d, StatusMap(items)[d]);
      var j: nat :| j < |items| && items[j].id == d && items[j].status == StatusMap(items)[d];
      forall l: nat | l < |items| && items[l].id == d ensures l == j { SameId(items, j, l); }
    }
  }

  /** The id of an item that may be started and has the right kind of owner. */
  ghost predicate Shown(items: seq<Item>, questions: seq<Id>, id: Id, pete: bool) {
    exists i :: 0 <= i < |items| && items[i].id == id && MayStart(items, questions, items[i])
                && (items[i].owner == "pete") == pete
  }

  /** The list shows, in the order they have, exactly the ids of the order that are to be shown. */
  ghost predicate Lists(items: seq<Item>, questions: seq<Id>, order: seq<Id>, pete: bool, out: seq<Id>) {
    Picks(order, id => Shown(items, questions, id, pete), out)
  }

  lemma ShownMeaning(items: seq<Item>, questions: seq<Id>, id: Id, pete: bool)
    requires UniqueIds(items)
    ensures Shown(items, questions, id, pete) <==>
            id in ById(items) && ReadyIn(items, questions, ById(items)[id])
            && (ById(items)[id].owner == "pete") == pete
  {
    ByIdMeaning(items, id);
    if i: nat :| i < |items| && items[i].id == id {
      MayStartIsReady(items, questions, i);
      forall l: nat | l < |items| && items[l].id == id ensures l == i { SameId(items, i, l); }
    }
  }

  lemma {:induction false} ReadyOfPicks(items: seq<Item>, questions: seq<Id>, order: seq<Id>, pete: bool,
                                        shown: Id -> bool) returns (places: seq<nat>)
    requires UniqueIds(items) && forall id :: shown(id) <==> Shown(items, questions, id, pete)
    ensures PicksAt(order, shown, ReadyOf(items, questions, order, pete), places)
    decreases |order|
  {
    places := [];
    if order != [] {
      var n := |order| - 1;
      var before := ReadyOfPicks(items, questions, order[..n], pete, shown);
      ShownMeaning(items, questions, order[n], pete);
      PicksOneMore(order, shown, ReadyOf(items, questions, order[..n], pete), before);
      places := before + (if shown(order[n]) then [n] else []);
    }
  }

  /** On an order without duplicates, one id is shown ahead of another exactly when it stands ahead of it there. */
  ghost predicate SameOrder(out: seq<Id>, order: seq<Id>) {
    forall a, b :: a in out && b in out ==> (Ahead(out, a, b) <==> Ahead(order, a, b))
  }

  lemma ListsSameOrder(items: seq<Item>, questions: seq<Id>, order: seq<Id>, pete: bool, out: seq<Id>)
    requires Lists(items, questions, order, pete, out) && Distinct(order)
    ensures SameOrder(out, order)
  {
    var places :| PicksAt(order, id => Shown(items, questions, id, pete), out, places);
    forall a, b | a in out && b in out ensures Ahead(out, a, b) <==> Ahead(order, a, b) {
      PlacesOrder(order, out, places, a, b);
    }
  }

  lemma PlacesOrder(order: seq<Id>, out: seq<Id>, places: seq<nat>, a: Id, b: Id)
    requires Distinct(order) && |places| == |out| && a in out && b in out
    requires forall i, j :: 0 <= i < j < |places| ==> places[i] < places[j]
    requires forall i :: 0 <= i < |places| ==> places[i] < |order| && out[i] == order[places[i]]
    ensures Ahead(out, a, b) <==> Ahead(order, a, b)
  {
    var i: nat :| i < |out| && out[i] == a;
    var j: nat :| j < |out| && out[j] == b;
    if Ahead(out, a, b) {
      var k, l :| 0 <= k < l < |out| && out[k] == a && out[l] == b;
      assert order[places[k]] == a && order[places[l]] == b;
    }
    if Ahead(order, a, b) {
      var k, l :| 0 <= k < l < |order| && order[k] == a && order[l] == b;
      assert k == places[i] && l == places[j];
      assert i < j;
    }
  }

  /** Items compare as their ids do. */
  function ByItemId(before: (Id, Id) -> bool): (Item, Item) -> bool {
    (x: Item, y: Item) => before(x.id, y.id)
  }

  /** The order ready items are listed in: the queue if there is one, or else the canonical order of the ids. */
  ghost predicate ListingOrder(items: seq<Item>, priority: seq<Id>, before: (Id, Id) -> bool, order: seq<Id>) {
    if priority != [] then order == priority
    else exists sorted ::
           multiset(sorted) == multiset(items) && order == IdsOf(sorted) &&
           (StrictOrder(ByItemId(before)) ==> StablySorted(items, sorted, ByItemId(before)))
  }

  lemma PartsInOrder(items: seq<Item>, questions: seq<Id>, order: seq<Id>)
    requires UniqueIds(items)
    ensures forall pete :: Lists(items, questions, order, pete, ReadyOf(items, questions, order, pete))
    ensures Distinct(order) ==> forall pete :: SameOrder(ReadyOf(items, questions, order, pete), order)
  {
    forall pete
      ensures Lists(items, questions, order, pete, ReadyOf(items, questions, order, pete))
      ensures Distinct(order) ==> SameOrder(ReadyOf(items, questions, order, pete), order)
    {
      var places := ReadyOfPicks(items, questions, order, pete, id => Shown(items, questions, id, pete));
      if Distinct(order) {
        ListsSameOrder(items, questions, order, pete, ReadyOf(items, questions, order, pete));
      }
    }
  }

  /** Pete's ready items first when he is present, not at all otherwise; then everybody else's. */
  method RunReady(items: seq<Item>, questions: seq<Id>, priority: seq<Id>, before: (Id, Id) -> bool, includePete: bool)
    returns (out: seq<Id>, ghost order: seq<Id>, ghost petes: seq<Id>, ghost others: seq<Id>)
    ensures ListingOrder(items, priority, before, order)
    ensures out == (if includePete then petes else []) + others
    ensures petes == ReadyOf(items, questions, order, true) && others == ReadyOf(items, questions, order, false)
    ensures UniqueIds(items) ==>
              Lists(items, questions, order, true, petes) && Lists(items, questions, order, false, others)
    ensures UniqueIds(items) && Distinct(order) ==> SameOrder(petes, order) && SameOrder(others, order)
  {
    var ids := priority;
    if |ids| == 0 {
      var sorted := SortStable(items, ByItemId(before));
      for i := 0 to |sorted|
        invariant ids == IdsOf(sorted)[..i]
      {
        ids := ids + [sorted[i].id];
      }
    }
    order := ids;
    out := ReadyList(items, questions, ids, includePete);
    petes, others := ReadyOf(items, questions, ids, true), ReadyOf(items, questions, ids, false);
    if UniqueIds(items) { PartsInOrder(items, questions, ids); }
  }

  method ReadyList(items: seq<Item>, questions: seq<Id>, order: seq<Id>, includePete: bool) returns (out: seq<Id>)
    ensures out == (if includePete then ReadyOf(items, questions, order, true) else []) +
                   ReadyOf(items, questions, order, false)
  {
    var itemStatus := ItemStatuses(items);
    var pullable := PullableItems(items);
    var byId: map<Id, Item> := map[];
    for i := 0 to |items|
      invariant byId == ById(items[..i])
    {
      assert items[..i + 1][..i] == items[..i];
      byId := byId[items[i].id := items[i]];
    }
    assert items[..|items|] == items;
    var peteReady: seq<Id> := [];
    var agentReady: seq<Id> := [];
    for k := 0 to |order|
      invariant peteReady == ReadyOf(items, questions, order[..k], true)
      invariant agentReady == ReadyOf(items, questions, order[..k], false)
    {
      assert order[..k + 1][..k] == order[..k];
      var id := order[k];
      if id !in byId {
        continue;
      }
      var ready := CheckReady(pullable, itemStatus, questions, byId[id]);
      if !ready {
        continue;
      }
      if byId[id].owner == "pete" {
        peteReady := peteReady + [id];
      } else {
        agentReady := agentReady + [id];
      }
    }
    assert order[..|order|] == order;
    out := (if includePete then peteReady else []) + agentReady;
  }

  method CheckReady(pullable: set<Id>, statuses: map<Id, Status>, questions: seq<Id>, it: Item) returns (ready: bool)
    ensures ready <==> IsReady(pullable, statuses, questions, it)
  {
    if !(it.id in pullable && it.status != InProgress) {
      return false;
    }
    for k := 0 to |it.dependsOn|
      invariant forall j :: 0 <= j < k ==> DepSatisfied(statuses, questions, it.dependsOn[j])
    {
      if !DepSatisfied(statuses, questions, it.dependsOn[k]) {
        return false;
      }
    }
    return true;
  }
}
