/** The `split` command (tools/registry/mutators.go, `runSplit`): promote the parent, add the child, seed its rank,
    commit. */
module SplitCommand {
  import opened Common
  import opened Digraph
  import opened Items
  import opened Expand
  import opened TopoRepair
  import opened Queue
  import opened Umbrella
  import opened Ready
  import opened Split
  import opened Grow
  import opened Commit
  import VP = ValidatePriority

  // ---------------------------------------------------------------- the place of the new child

  /** Rank for a new child: its parent's, else just after the last queued sibling, else none. */
  function Anchor(queue: seq<Id>, parent: Id, siblings: seq<Id>): (at: int)
    ensures -1 <= at <= |queue|
  {
    if parent in queue then Position(queue, parent) else LastSibling(queue, siblings)
  }

  /** Just behind the last sibling in the queue, or -1 if there is none. */
  function LastSibling(queue: seq<Id>, siblings: seq<Id>): (at: int)
    ensures at == -1 || (0 < at <= |queue| && queue[at - 1] in siblings)
    ensures forall k :: 0 <= k < |queue| && at <= k ==> queue[k] !in siblings
  {
    if queue == [] then -1
    else if queue[|queue| - 1] in siblings then |queue|
    else LastSibling(queue[..|queue| - 1], siblings)
  }

  method FindAnchor(queue: seq<Id>, parent: Id, siblings: seq<Id>) returns (anchor: int)
    ensures anchor == Anchor(queue, parent, siblings)
  {
    anchor := -1;
    for i := 0 to |queue|
      invariant anchor == -1 && parent !in queue[..i]
    {
      if queue[i] == parent {
        FirstPosition(queue, parent, i);
        anchor := i;
        break;
      }
    }
    if anchor == -1 {
      assert queue[..|queue|] == queue;
      for i := 0 to |queue|
        invariant -1 <= anchor <= i && anchor == LastSibling(queue[..i], siblings)
      {
        assert queue[..i + 1][..i] == queue[..i];
        for k := 0 to |siblings|
          invariant -1 <= anchor <= i + 1
          invariant anchor == if queue[i] in siblings[..k] then i + 1 else LastSibling(queue[..i], siblings)
        {
          if queue[i] == siblings[k] && i + 1 > anchor {
            anchor := i + 1;
          }
        }
        assert siblings[..|siblings|] == siblings;
      }
    }
  }

  lemma {:induction false} FirstPosition(queue: seq<Id>, a: Id, i: nat)
    requires i < |queue| && queue[i] == a && a !in queue[..i]
    ensures Position(queue, a) == i
  {
    if i > 0 {
      assert queue[0] in queue[..i];
      var rest := queue[1..][..i - 1];
      assert queue[..i] == [queue[0]] + rest;
      FirstPosition(queue[1..], a, i - 1);
    }
  }

  /** The items listed under the parent, in item order. */
  function ChildIds(items: seq<Item>, parent: Id): seq<Id> {
    if items == [] then []
    else
      var n := |items| - 1;
      ChildIds(items[..n], parent) + if items[n].parent == parent then [items[n].id] else []
  }

  method ExistingChildren(items: seq<Item>, parent: Id) returns (siblings: seq<Id>)
    ensures siblings == ChildIds(items, parent)
  {
    siblings := [];
    for i := 0 to |items|
      invariant siblings == ChildIds(items[..i], parent)
    {
      assert items[..i + 1][..i] == items[..i];
      if items[i].parent == parent {
        siblings := siblings + [items[i].id];
      }
    }
    assert items[..|items|] == items;
  }

  /** The queue with the child seeded, before it is reconciled. */
  function Seeded(items: seq<Item>, queue: seq<Id>, pi: nat, child: Item): seq<Id>
    requires pi < |items|
  {
    var at := Anchor(queue, items[pi].id, ChildIds(items, items[pi].id));
    if at < 0 then queue else SeedAt(queue, at, child.id)
  }

  /** The part of the command before the commit. */
  method PromoteAndSeed(reg: Registry, pi: nat, child: Item, ranked: bool)
    requires pi < |reg.items|
    modifies reg`items, reg`priority
    ensures reg.items == SplitItems(old(reg.items), pi, child)
    ensures reg.priority
            == if ranked then Seeded(old(reg.items), old(reg.priority), pi, child) else old(reg.priority)
  {
    var parent := reg.items[pi];
    var siblings := ExistingChildren(reg.items, parent.id);
    reg.items := reg.items[pi := parent.(kind := Kind.Umbrella)];
    reg.items := reg.items + [child];
    if ranked {
      var anchor := FindAnchor(reg.priority, parent.id, siblings);
      if anchor != -1 {
        reg.priority := reg.priority[..anchor] + [child.id] + reg.priority[anchor..];
      }
    }
  }

  // ---------------------------------------------------------------- a split is always accepted

  lemma SplitIsRearranged(items: seq<Item>, questions: seq<Id>, pi: nat, child: Item, sorted: seq<Item>,
                          after: seq<Item>)
    requires FreshChild(items, questions, pi, child) && UniqueIds(items)
    requires multiset(sorted) == multiset(SplitItems(items, pi, child)) && SameBut(sorted, after)
    ensures Rearranged(SplitItems(items, pi, child), sorted, after)
  {
    UniqueSorted(SplitItems(items, pi, child), sorted);
  }

  /** What runs through a split: the state before, the new child, and the sorted and derived list after. */
  ghost predicate SplitRun(items: seq<Item>, questions: seq<Id>, pi: nat, child: Item, sorted: seq<Item>,
                           after: seq<Item>) {
    && UniqueIds(items) && Settled(items)
    && FreshChild(items, questions, pi, child) && Growable(items, pi) && child.id != NO_PARENT
    && Rearranged(SplitItems(items, pi, child), sorted, after) && Settled(after)
  }

  /** Only the split item has become a parent. */
  lemma DerivedBefore(items: seq<Item>, questions: seq<Id>, pi: nat, child: Item, sorted: seq<Item>, after: seq<Item>,
                      a: nat, i: nat)
    requires SplitRun(items, questions, pi, child, sorted, after)
    requires a < |sorted| && i < |items| && i != pi && sorted[a] == items[i] && Derived(sorted, a)
    ensures Derived(items, i) && items[i].status != Wontfix
  {
    var split := SplitItems(items, pi, child);
    var c: nat :| c < |sorted| && KidOf(sorted, a, c);
    assert sorted[c] in multiset(split);
    var j: nat :| j < |split| && split[j] == sorted[c];
    UniqueApart(items, pi, i);
    assert j < |items| && KidOf(items, i, j);
    assert UpToDate(items, i);
  }

  lemma ParentDerived(items: seq<Item>, questions: seq<Id>, pi: nat, child: Item, sorted: seq<Item>, after: seq<Item>,
                      a: nat)
    requires SplitRun(items, questions, pi, child, sorted, after)
    requires a < |sorted| && sorted[a] == SplitItems(items, pi, child)[pi]
    ensures Derived(sorted, a)
  {
    assert SplitItems(items, pi, child)[|items|] == child;
    assert child in multiset(sorted);
    var c: nat :| c < |sorted| && sorted[c] == child;
    assert KidOf(sorted, a, c);
  }

  /** Deriving statuses makes no WONTFIX, and unmakes none but the parent's. */
  lemma WontfixKept(items: seq<Item>, questions: seq<Id>, pi: nat, child: Item, sorted: seq<Item>, after: seq<Item>,
                    a: nat, i: nat)
    requires SplitRun(items, questions, pi, child, sorted, after)
    requires a < |sorted| && i <= |items| && sorted[a] == SplitItems(items, pi, child)[i]
    ensures after[a].status == Wontfix ==> sorted[a].status == Wontfix && i != pi
    ensures sorted[a].status == Wontfix && i != pi ==> after[a].status == Wontfix
    ensures after[a].status == sorted[a].status || after[a].status == Open || after[a].status == Done
  {
    if i == pi {
      ParentDerived(items, questions, pi, child, sorted, after, a);
    }
    if Derived(sorted, a) {
      SameButKids(sorted, after);
      assert UpToDate(after, a);
      if i < |items| && i != pi {
        DerivedBefore(items, questions, pi, child, sorted, after, a, i);
      }
    }
  }

  lemma SplitDependsAcyclic(items: seq<Item>, questions: seq<Id>, pi: nat, child: Item, sorted: seq<Item>,
                            after: seq<Item>)
    requires SplitRun(items, questions, pi, child, sorted, after) && Acyclic(DependsGraph(items))
    ensures Acyclic(DependsGraph(after))
  {
    var split := SplitItems(items, pi, child);
    var rank := AcyclicIsRanked(DependsGraph(items));
    forall x, d | Edge(DependsGraph(after), x, d) ensures rank(d) < rank(x) {
      DependsGraphMeaning(after, x, d);
      var a :| 0 <= a < |after| && after[a].id == x && d in after[a].dependsOn;
      var i := Origin(split, sorted, after, a);
      assert items[i].id == x && d in items[i].dependsOn;
      DependsGraphMeaning(items, x, d);
      assert Edge(DependsGraph(items), x, d);
    }
    RankedIsAcyclic(DependsGraph(after), rank);
  }

  lemma SplitParentsAcyclic(items: seq<Item>, questions: seq<Id>, pi: nat, child: Item, sorted: seq<Item>,
                            after: seq<Item>)
    requires UniqueIds(items) && AcyclicParents(items)
    requires FreshChild(items, questions, pi, child) && Growable(items, pi)
    requires Rearranged(SplitItems(items, pi, child), sorted, after)
    ensures AcyclicParents(after)
  {
    var rank := AcyclicIsRanked(ChildMap(items));
    var longer := (a: Id) => if a == child.id then 0 else rank(a) + 1;
    forall u, c | Edge(ChildMap(after), u, c) ensures longer(c) < longer(u) {
      ChildMapMeaning(after, u);
      ChildAfter(items, questions, pi, child, sorted, after, u, c);
      assert HasId(items, items[pi].id);
      if c != child.id {
        ChildMapMeaning(items, u);
        assert Edge(ChildMap(items), u, c);
        assert u != child.id;
      }
    }
    RankedIsAcyclic(ChildMap(after), longer);
  }

  lemma SplitIdsKept(items: seq<Item>, questions: seq<Id>, pi: nat, child: Item, sorted: seq<Item>, after: seq<Item>)
    requires SplitRun(items, questions, pi, child, sorted, after)
    ensures AllIds(items, questions) <= AllIds(after, questions)
  {
    var split := SplitItems(items, pi, child);
    forall i: nat | i < |items| ensures HasId(after, items[i].id) {
      assert split[i].id == items[i].id;
      var a := Copy(split, sorted, after, i);
    }
  }

  lemma SplitKeepsUmbrella(items: seq<Item>, questions: seq<Id>, pi: nat, child: Item, sorted: seq<Item>,
                           after: seq<Item>, p: Id)
    requires SplitRun(items, questions, pi, child, sorted, after)
    requires p == items[pi].id || (p in KindMap(items) && KindMap(items)[p] == Kind.Umbrella)
    ensures p in StatusMap(after) && p in KindMap(after) && KindMap(after)[p] == Kind.Umbrella
  {
    var split := SplitItems(items, pi, child);
    KindMapMeaning(items, p);
    var j: nat := pi;
    if p != items[pi].id {
      assert HasKind(items, p, Kind.Umbrella);
      j :| j < |items| && items[j].id == p && items[j].kind == Kind.Umbrella;
    }
    var a := Copy(split, sorted, after, j);
    KindMapMeaning(after, p);
    StatusMapMeaning(after, p);
    assert HasKind(after, p, Kind.Umbrella) && HasStatus(after, p, after[a].status);
  }

  lemma SplitNewWontfix(items: seq<Item>, questions: seq<Id>, pi: nat, child: Item, sorted: seq<Item>,
                        after: seq<Item>, d: Id)
    requires SplitRun(items, questions, pi, child, sorted, after)
    requires d in StatusMap(after) && StatusMap(after)[d] == Wontfix
    ensures d in StatusMap(items) && StatusMap(items)[d] == Wontfix
  {
    var split := SplitItems(items, pi, child);
    StatusMapMeaning(after, d);
    assert HasStatus(after, d, Wontfix);
    var b: nat :| b < |after| && after[b].id == d && after[b].status == Wontfix;
    assert sorted[b] in multiset(split);
    var j: nat :| j < |split| && split[j] == sorted[b];
    WontfixKept(items, questions, pi, child, sorted, after, b, j);
    assert items[j].id == d && items[j].status == Wontfix;
    StatusMapMeaning(items, d);
    assert HasStatus(items, d, Wontfix);
  }

  /** A WONTFIX item that depends on another one, as only a WONTFIX item may. */
  predicate Revives(items: seq<Item>, pi: nat) {
    pi < |items| && items[pi].status == Wontfix
    && exists k :: 0 <= k < |items[pi].dependsOn| &&
                   items[pi].dependsOn[k] in StatusMap(items) && StatusMap(items)[items[pi].dependsOn[k]] == Wontfix
  }

  lemma SplitItemSound(items: seq<Item>, questions: seq<Id>, pi: nat, child: Item, sorted: seq<Item>,
                       after: seq<Item>, a: nat)
    requires SplitRun(items, questions, pi, child, sorted, after) && Sound(items, questions) && a < |after|
    requires !Revives(items, pi)
    ensures ItemSound(AllIds(after, questions), StatusMap(after), KindMap(after), after[a])
    ensures after[a].id !in questions
  {
    var split := SplitItems(items, pi, child);
    assert sorted[a] in multiset(split);
    var i: nat :| i < |split| && split[i] == sorted[a];
    WontfixKept(items, questions, pi, child, sorted, after, a, i);
    SplitIdsKept(items, questions, pi, child, sorted, after);
    if i == |items| {
      SplitKeepsUmbrella(items, questions, pi, child, sorted, after, items[pi].id);
    } else {
      assert ItemSound(AllIds(items, questions), StatusMap(items), KindMap(items), items[i]);
      if items[i].parent != NO_PARENT {
        SplitKeepsUmbrella(items, questions, pi, child, sorted, after, items[i].parent);
      }
      forall k | 0 <= k < |after[a].dependsOn|
        ensures var d := after[a].dependsOn[k];
                d in AllIds(after, questions) &&
                (after[a].status == Wontfix || d !in StatusMap(after) || StatusMap(after)[d] != Wontfix)
      {
        var d := items[i].dependsOn[k];
        if d in StatusMap(after) && StatusMap(after)[d] == Wontfix {
          SplitNewWontfix(items, questions, pi, child, sorted, after, d);
        }
      }
    }
  }

  /** The split makes an umbrella of the parent, with a status that follows the open child. */
  lemma RevivedUnsound(items: seq<Item>, questions: seq<Id>, pi: nat, child: Item, sorted: seq<Item>, after: seq<Item>)
    requires SplitRun(items, questions, pi, child, sorted, after) && Sound(items, questions) && Revives(items, pi)
    ensures !Sound(after, questions)
  {
    var split := SplitItems(items, pi, child);
    var k: nat :| k < |items[pi].dependsOn| && items[pi].dependsOn[k] in StatusMap(items) &&
                  StatusMap(items)[items[pi].dependsOn[k]] == Wontfix;
    var d := items[pi].dependsOn[k];
    StatusMapMeaning(items, d);
    assert HasStatus(items, d, Wontfix);
    var j: nat :| j < |items| && items[j].id == d && items[j].status == Wontfix;
    NotItsOwn(items, questions, pi, d);
    assert split[j] == items[j];
    assert split[j] in multiset(sorted) && split[pi] in multiset(sorted);
    var b: nat :| b < |sorted| && sorted[b] == split[j];
    WontfixKept(items, questions, pi, child, sorted, after, b, j);
    StatusMapMeaning(after, d);
    assert HasStatus(after, d, Wontfix);
    var a: nat :| a < |sorted| && sorted[a] == split[pi];
    WontfixKept(items, questions, pi, child, sorted, after, a, pi);
    assert after[a].dependsOn[k] == d;
    assert !ItemSound(AllIds(after, questions), StatusMap(after), KindMap(after), after[a]);
  }

  lemma NotItsOwn(items: seq<Item>, questions: seq<Id>, i: nat, d: Id)
    requires Sound(items, questions) && i < |items| && d in items[i].dependsOn
    ensures d != items[i].id
  {
    DependsGraphMeaning(items, items[i].id, d);
    assert VP.ItemDepends(items, items[i].id, d);
    if d == items[i].id {
      assert IsCycle(DependsGraph(items), [d, d]);
    }
  }

  /** A sound registry stays sound when an item is split, unless that revives one that depends on a WONTFIX item. */
  lemma SplitStaysSound(items: seq<Item>, questions: seq<Id>, pi: nat, child: Item, sorted: seq<Item>, after: seq<Item>)
    requires SplitRun(items, questions, pi, child, sorted, after) && Sound(items, questions)
    ensures Sound(after, questions) <==> !Revives(items, pi)
  {
    if Revives(items, pi) {
      RevivedUnsound(items, questions, pi, child, sorted, after);
    } else {
      forall a: nat | a < |after|
        ensures after[a].id !in questions &&
                ItemSound(AllIds(after, questions), StatusMap(after), KindMap(after), after[a])
      {
        SplitItemSound(items, questions, pi, child, sorted, after, a);
      }
      SplitParentsAcyclic(items, questions, pi, child, sorted, after);
      SplitDependsAcyclic(items, questions, pi, child, sorted, after);
    }
  }

  /** Any item of a registry that an earlier command has committed gets a fresh open leaf without dependencies. */
  ghost predicate CleanSplit(items: seq<Item>, questions: seq<Id>, queue: seq<Id>, pi: nat, child: Item) {
    Committed(items, questions, queue) && Sound(items, questions)
    && FreshChild(items, questions, pi, child) && child.id != NO_PARENT
  }

  /** In a sound registry only umbrellas have children. */
  lemma SoundGrows(items: seq<Item>, questions: seq<Id>, pi: nat)
    requires Sound(items, questions) && pi < |items| && items[pi].id != NO_PARENT
    ensures Growable(items, pi)
  {
    if j: nat :| j < |items| && items[j].parent == items[pi].id {
      assert ItemSound(AllIds(items, questions), StatusMap(items), KindMap(items), items[j]);
      KindMapMeaning(items, items[pi].id);
      assert HasKind(items, items[pi].id, items[pi].kind);
    }
  }

  /** The rank of the child of an unqueued parent, were there nobody waiting for it. */
  function PlaceBehind(queue: seq<Id>, siblings: seq<Id>): (n: nat)
    ensures n <= |queue|
  {
    var at := LastSibling(queue, siblings);
    if at < 0 then |queue| else at
  }

  /**
   * The queue after a split: the child in its parent's place if that was queued; else behind its last queued sibling,
   * or at the end, but not behind anyone who depends on its parent or an umbrella over it.
   */
  ghost function QueueAfter(items: seq<Item>, queue: seq<Id>, pi: nat, id: Id): seq<Id>
    requires pi < |items|
  {
    var parent := items[pi].id;
    if parent in queue then queue[Position(queue, parent) := id]
    else
      SeedAt(queue, Least(PlaceBehind(queue, ChildIds(items, parent)), FirstAbove(items, queue, parent)), id)
  }

  lemma QueuedSplit(items: seq<Item>, questions: seq<Id>, queue: seq<Id>, pi: nat, child: Item, sorted: seq<Item>,
                    after: seq<Item>, canonical: seq<Item>)
    requires CleanSplit(items, questions, queue, pi, child) && items[pi].id in queue
    requires Rearranged(SplitItems(items, pi, child), sorted, after) && multiset(canonical) == multiset(after)
    ensures Reconciled(after, canonical, Seeded(items, queue, pi, child)) == QueueAfter(items, queue, pi, child.id)
    ensures ValidQueue(after, QueueAfter(items, queue, pi, child.id))
  {
    SoundGrows(items, questions, pi);
    QueuedIsLeaf(items, queue, pi);
    var k := Position(queue, items[pi].id);
    SwappedIsValid(items, questions, queue, pi, child, sorted, after, k);
    SplitKeepsPlace(items, questions, queue, pi, child, sorted, after, canonical, k);
  }

  lemma QueuedIsLeaf(items: seq<Item>, queue: seq<Id>, pi: nat)
    requires UniqueIds(items) && ValidQueue(items, queue) && Growable(items, pi) && items[pi].id in queue
    ensures Splittable(items, pi)
  {
    assert items[pi].id in Members(queue);
    var j: nat :| j < |items| && Pullable(items[j]) && items[j].id == items[pi].id;
    UniqueApart(items, j, pi);
  }

  lemma UnqueuedSplit(items: seq<Item>, questions: seq<Id>, queue: seq<Id>, pi: nat, child: Item, sorted: seq<Item>,
                      after: seq<Item>, canonical: seq<Item>)
    requires CleanSplit(items, questions, queue, pi, child) && items[pi].id !in queue
    requires Rearranged(SplitItems(items, pi, child), sorted, after) && multiset(canonical) == multiset(after)
    ensures Reconciled(after, canonical, Seeded(items, queue, pi, child)) == QueueAfter(items, queue, pi, child.id)
    ensures ValidQueue(after, QueueAfter(items, queue, pi, child.id))
  {
    var siblings := ChildIds(items, items[pi].id);
    var at := LastSibling(queue, siblings);
    SoundGrows(items, questions, pi);
    assert items[pi].id !in Members(queue);
    GrownQueue(items, questions, queue, pi, child, sorted, after, canonical, if at < 0 then None else Some(at));
    GrownIsValid(items, questions, queue, pi, child, sorted, after,
                 Least(PlaceBehind(queue, siblings), FirstAbove(items, queue, items[pi].id)));
  }

  /**
   * A further child of an umbrella with queued children goes right behind the last of them. It goes right ahead of
   * that one exactly if that one depends on an umbrella it lies under, as then it must wait for the child.
   */
  lemma PlaceAmongSiblings(items: seq<Item>, questions: seq<Id>, queue: seq<Id>, pi: nat, id: Id, s: nat)
    requires Committed(items, questions, queue) && pi < |items| && items[pi].id != NO_PARENT
    requires items[pi].kind == Kind.Umbrella && LastSibling(queue, ChildIds(items, items[pi].id)) == s + 1
    ensures QueueAfter(items, queue, pi, id)
            == SeedAt(queue, if DependsAbove(items, queue[s], items[pi].id) then s else s + 1, id)
  {
    ChildIdsMeaning(items, items[pi].id);
    BehindSibling(items, questions, queue, pi, s);
    NotPullable(items, pi);
    assert items[pi].id !in Members(queue);
  }

  ghost predicate OwnUmbrella(items: seq<Item>) {
    items == [Item("i1", Open, [], Kind.Umbrella, "agent", NO_PARENT),
              Item("i1a", Open, ["i1"], OtherKind("leaf"), "agent", "i1")]
  }

  /** A child that depends on its own umbrella is overtaken by the next one. */
  lemma NextChildOvertakes(items: seq<Item>, child: Item)
    requires OwnUmbrella(items) && child == Item("i1b", Open, [], OtherKind("leaf"), "agent", "i1")
    ensures CleanSplit(items, [], ["i1a"], 0, child)
    ensures Seeded(items, ["i1a"], 0, child) == ["i1a", "i1b"]
    ensures QueueAfter(items, ["i1a"], 0, "i1b") == ["i1b", "i1a"]
  {
    NextChildIsFresh(items, child);
    OwnUmbrellaPasses(items);
    SeededBehind(items, child);
    DependsOnOwn(items);
    PlaceAmongSiblings(items, [], ["i1a"], 0, "i1b", 0);
  }

  lemma NextChildIsFresh(items: seq<Item>, child: Item)
    requires OwnUmbrella(items) && child == Item("i1b", Open, [], OtherKind("leaf"), "agent", "i1")
    ensures FreshChild(items, [], 0, child) && child.id != NO_PARENT
  {
    assert "i1a"[2] == 'a' && "i1b"[2] == 'b' && |"i1"| == 2;
  }

  lemma SeededBehind(items: seq<Item>, child: Item)
    requires OwnUmbrella(items) && child.id == "i1b"
    ensures LastSibling(["i1a"], ChildIds(items, "i1")) == 1 && Seeded(items, ["i1a"], 0, child) == ["i1a", "i1b"]
  {
    assert |"i1"| == 2;
    OneChild(items);
    assert "i1" !in ["i1a"];
  }

  lemma DependsOnOwn(items: seq<Item>)
    requires OwnUmbrella(items)
    ensures DependsAbove(items, "i1a", "i1")
  {
    ReachesSelf(Down(ForestOf(items), PullableIds(items)), "i1");
    assert items[1].id == "i1a" && "i1" in items[1].dependsOn;
  }

  lemma OneChild(items: seq<Item>)
    requires |items| == 2 && items[1].parent == items[0].id && items[0].parent != items[0].id
    ensures ChildIds(items, items[0].id) == [items[1].id]
  {
    assert items[..1][..0] == [] && items[..1] == [items[0]];
    assert ChildIds(items[..1], items[0].id) == [];
  }

  lemma {:induction false} ChildIdsMeaning(items: seq<Item>, parent: Id)
    requires parent != NO_PARENT
    ensures forall c :: c in ChildIds(items, parent) ==> IsChild(items, parent, c)
  {
    if items != [] {
      var n := |items| - 1;
      ChildIdsMeaning(items[..n], parent);
      forall c | c in ChildIds(items, parent) ensures IsChild(items, parent, c) {
        if c in ChildIds(items[..n], parent) {
          var i :| 0 <= i < n && items[..n][i].parent == parent && items[..n][i].id == c;
          assert items[i].id == c;
        }
      }
    }
  }

  /**
   * The rules of the registry stand against a clean split only if it revives a WONTFIX item that depends on another;
   * and the queue is then the old one with the child in it.
   */
  lemma CleanSplitPasses(items: seq<Item>, questions: seq<Id>, queue: seq<Id>, pi: nat, child: Item,
                         sorted: seq<Item>, after: seq<Item>, canonical: seq<Item>)
    requires CleanSplit(items, questions, queue, pi, child)
    requires multiset(sorted) == multiset(SplitItems(items, pi, child)) && SameBut(sorted, after)
    requires AcyclicParents(sorted) ==> Settled(after)
    requires multiset(canonical) == multiset(after)
    ensures (Sound(after, questions) <==> !Revives(items, pi)) && QueueAcyclic(after)
    ensures Reconciled(after, canonical, Seeded(items, queue, pi, child)) == QueueAfter(items, queue, pi, child.id)
  {
    SplitIsRearranged(items, questions, pi, child, sorted, after);
    SoundGrows(items, questions, pi);
    SplitParentsAcyclic(items, questions, pi, child, sorted, after);
    ChildMapSame(sorted, after);
    SplitStaysSound(items, questions, pi, child, sorted, after);
    if items[pi].id in queue {
      QueuedSplit(items, questions, queue, pi, child, sorted, after, canonical);
    } else {
      UnqueuedSplit(items, questions, queue, pi, child, sorted, after, canonical);
    }
    ReconciledIsValid(after, canonical, Seeded(items, queue, pi, child));
  }

  /** Two given-up items, one depending on the other: splitting that one is refused. */
  lemma RevivedIsRefused(items: seq<Item>, child: Item)
    requires items == [Item("i1", Wontfix, [], OtherKind("leaf"), "agent", NO_PARENT),
                       Item("i2", Wontfix, ["i1"], OtherKind("leaf"), "agent", NO_PARENT)]
    requires child == Item("i2a", Open, [], OtherKind("leaf"), "agent", "i2")
    ensures CleanSplit(items, [], [], 1, child) && Revives(items, 1)
  {
    StatusMapMeaning(items, "i1");
    assert "i1"[1] == '1' && "i2"[1] == '2';
    assert items[0].id == "i1" && items[0].status == Wontfix;
    assert HasStatus(items, "i1", Wontfix);
    assert items[1].dependsOn[0] == "i1";
    var ids := AllIds(items, []);
    assert items[0].id in ids && HasId(items, items[0].id);
    OneDependency(items);
    NoParents(items);
    assert PullableIds(items) == {};
    assert ValidQueue(items, []);
  }

  lemma NoParents(items: seq<Item>)
    requires forall i :: 0 <= i < |items| ==> items[i].parent == NO_PARENT
    ensures AcyclicParents(items)
  {
    var rank: Id -> nat := a => 0;
    forall a, b ensures !Edge(ChildMap(items), a, b) {
      ChildMapMeaning(items, a);
      assert Edge(ChildMap(items), a, b) ==> b in Kids(ChildMap(items), a);
    }
    RankedIsAcyclic(ChildMap(items), rank);
  }

  /** The order of the questions is of no account to the structural rules. */
  lemma SoundAnyOrder(items: seq<Item>, questions: seq<Id>, sorted: seq<Id>)
    requires Sound(items, questions) && multiset(sorted) == multiset(questions)
    ensures Sound(items, sorted)
  {
    forall q ensures q in sorted <==> q in questions { assert q in sorted <==> q in multiset(questions); }
    forall a ensures a in AllIds(items, sorted) <==> a in AllIds(items, questions) {
      assert (exists i :: 0 <= i < |sorted| && sorted[i] == a) <==> a in sorted;
      assert (exists i :: 0 <= i < |questions| && questions[i] == a) <==> a in questions;
    }
  }

  lemma CleanSplitRanked(items: seq<Item>, questions: seq<Id>, queue: seq<Id>, pi: nat, child: Item, orders: IdOrders,
                         sorted: seq<Item>, after: seq<Item>, asked: seq<Id>, now: seq<Id>)
    requires CleanSplit(items, questions, queue, pi, child)
    requires Sorted(SplitItems(items, pi, child), sorted, orders) && SameBut(sorted, after)
    requires AcyclicParents(sorted) ==> Settled(after)
    requires multiset(asked) == multiset(questions)
    requires ReconciledFrom(after, orders, Seeded(items, queue, pi, child), now)
    ensures (Sound(after, asked) <==> !Revives(items, pi)) && QueueAcyclic(after)
    ensures now == QueueAfter(items, queue, pi, child.id)
  {
    var canonical :|
      Sorted(after, canonical, orders) && now == Reconciled(after, canonical, Seeded(items, queue, pi, child));
    CleanSplitPasses(items, questions, queue, pi, child, sorted, after, canonical);
    SoundInOrder(after, questions, asked);
  }

  lemma SoundInOrder(items: seq<Item>, questions: seq<Id>, sorted: seq<Id>)
    requires multiset(sorted) == multiset(questions)
    ensures Sound(items, sorted) <==> Sound(items, questions)
  {
    if Sound(items, questions) { SoundAnyOrder(items, questions, sorted); }
    if Sound(items, sorted) { SoundAnyOrder(items, sorted, questions); }
  }

  /**
   * Promote the parent, add the child, seed its rank, commit. A clean split is written unless some check outside
   * this model objects or it revives a WONTFIX item; it never changes the order of the other entries.
   */
  method RunSplit(reg: Registry, pi: nat, child: Item, orders: IdOrders, ranked: bool, otherFaults: bool)
    returns (outcome: Outcome, ghost sorted: seq<Item>)
    requires pi < |reg.items|
    modifies reg
    ensures Sorted(SplitItems(old(reg.items), pi, child), sorted, orders) && SameBut(sorted, reg.items)
    ensures SortedQuestions(old(reg.questions), reg.questions, orders)
    ensures ranked ==>
              ReconciledFrom(reg.items, orders, Seeded(old(reg.items), old(reg.priority), pi, child), reg.priority)
    ensures !ranked ==> reg.priority == old(reg.priority)
    ensures outcome.Written? <==> Accepted(reg.items, reg.questions, reg.priority, otherFaults)
    ensures outcome.Written? ==>
              outcome == Written(reg.items, reg.questions, if ranked then Some(reg.priority) else None)
    ensures outcome.Written? && ranked ==> Committed(reg.items, reg.questions, reg.priority)
    ensures ranked && CleanSplit(old(reg.items), old(reg.questions), old(reg.priority), pi, child) ==>
              (outcome.Written? <==> !otherFaults && !Revives(old(reg.items), pi)) &&
              reg.priority == QueueAfter(old(reg.items), old(reg.priority), pi, child.id)
  {
    ghost var items, questions, queue := reg.items, reg.questions, reg.priority;
    PromoteAndSeed(reg, pi, child, ranked);
    outcome, sorted := ApplyAndCommit(reg, orders, ranked, otherFaults);
    if ranked && CleanSplit(items, questions, queue, pi, child) {
      CleanSplitRanked(items, questions, queue, pi, child, orders, sorted, reg.items, reg.questions, reg.priority);
    }
  }
}
