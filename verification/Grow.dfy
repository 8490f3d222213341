/** Adding a child to an item that is not queued (tools/registry/mutators.go, `runSplit`): another child of an
    umbrella, or the first of a leaf that is closed. */
module Grow {
  import opened Common
  import opened Digraph
  import opened Items
  import opened Expand
  import opened TopoRepair
  import opened Queue
  import opened Umbrella
  import opened Ready
  import opened Split

  /** The item at pi is not queued, and gets a fresh open child. */
  ghost predicate Unqueued(items: seq<Item>, questions: seq<Id>, pi: nat, child: Item) {
    FreshChild(items, questions, pi, child) && Growable(items, pi) && !Pullable(items[pi])
  }

  // ---------------------------------------------------------------- who comes to wait for the child

  lemma DownIsKid(items: seq<Item>, u: Id, c: Id) returns (i: nat, k: nat)
    requires UniqueIds(items) && Edge(Down(ForestOf(items), PullableIds(items)), u, c)
    ensures KidOf(items, i, k) && items[i].kind == Umbrella && items[i].id == u && items[k].id == c
  {
    KindMapMeaning(items, u);
    ChildMapMeaning(items, u);
    assert HasKind(items, u, Umbrella) && IsChild(items, u, c);
    i :| i < |items| && items[i].id == u && items[i].kind == Umbrella;
    k :| k < |items| && items[k].parent == u && items[k].id == c;
  }

  lemma DownKept(items: seq<Item>, questions: seq<Id>, pi: nat, child: Item, sorted: seq<Item>, after: seq<Item>,
                 u: Id, c: Id)
    requires Unqueued(items, questions, pi, child) && UniqueIds(items)
    requires Rearranged(SplitItems(items, pi, child), sorted, after)
    requires Edge(Down(ForestOf(items), PullableIds(items)), u, c)
    ensures Edge(Down(ForestOf(after), PullableIds(after)), u, c)
  {
    var split := SplitItems(items, pi, child);
    var i, k := DownIsKid(items, u, c);
    var ai := Copy(split, sorted, after, i);
    var ak := Copy(split, sorted, after, k);
    assert KidOf(after, ai, ak);
    UmbrellaEdge(after, ai, ak);
  }

  lemma WalkKept(items: seq<Item>, questions: seq<Id>, pi: nat, child: Item, sorted: seq<Item>, after: seq<Item>,
                 p: seq<Id>)
    requires Unqueued(items, questions, pi, child) && UniqueIds(items)
    requires Rearranged(SplitItems(items, pi, child), sorted, after)
    requires IsWalk(Down(ForestOf(items), PullableIds(items)), p)
    ensures IsWalk(Down(ForestOf(after), PullableIds(after)), p)
  {
    forall k | 0 <= k < |p| - 1 ensures Edge(Down(ForestOf(after), PullableIds(after)), p[k], p[k + 1]) {
      DownKept(items, questions, pi, child, sorted, after, p[k], p[k + 1]);
    }
  }

  /** What leads down to the parent leads on to the child. */
  lemma ReachesChild(items: seq<Item>, questions: seq<Id>, pi: nat, child: Item, sorted: seq<Item>, after: seq<Item>,
                     d: Id)
    requires Unqueued(items, questions, pi, child) && UniqueIds(items)
    requires Rearranged(SplitItems(items, pi, child), sorted, after)
    requires Reaches(Down(ForestOf(items), PullableIds(items)), d, items[pi].id)
    ensures StandsFor(ForestOf(after), PullableIds(after), d, child.id)
  {
    var split, down := SplitItems(items, pi, child), Down(ForestOf(after), PullableIds(after));
    var p :| WalkBetween(Down(ForestOf(items), PullableIds(items)), p, d, items[pi].id);
    WalkKept(items, questions, pi, child, sorted, after, p);
    assert split[pi] == items[pi].(kind := Umbrella) && split[|items|] == child;
    var u := Copy(split, sorted, after, pi);
    var c := Copy(split, sorted, after, |items|);
    assert KidOf(after, u, c);
    UmbrellaEdge(after, u, c);
    WalkExtend(down, p, child.id);
    assert WalkBetween(down, p + [child.id], d, child.id);
    PullableAfter(items, questions, pi, child, sorted, after);
  }

  /** Exactly those that depend on the parent, or on an umbrella over it, must follow the child. */
  lemma ChildFollowed(items: seq<Item>, questions: seq<Id>, pi: nat, child: Item, sorted: seq<Item>, after: seq<Item>,
                      x: Id)
    requires Unqueued(items, questions, pi, child) && UniqueIds(items)
    requires Rearranged(SplitItems(items, pi, child), sorted, after) && DependsAbove(items, x, items[pi].id)
    ensures MustFollow(after, PullableIds(after), x, child.id)
  {
    var i: nat, d :| i < |items| && items[i].id == x && d in items[i].dependsOn &&
                     Reaches(Down(ForestOf(items), PullableIds(items)), d, items[pi].id);
    ReachesChild(items, questions, pi, child, sorted, after, d);
    assert SplitItems(items, pi, child)[i].dependsOn == items[i].dependsOn;
    var a := Copy(SplitItems(items, pi, child), sorted, after, i);
  }

  // ---------------------------------------------------------------- where the child lands

  /** The rank of the first entry that depends on `above` or on an umbrella over it, else the length. */
  ghost function FirstAbove(items: seq<Item>, queue: seq<Id>, above: Id): (n: nat)
    ensures n <= |queue| && (n < |queue| ==> DependsAbove(items, queue[n], above))
    ensures forall p: nat :: p < n ==> !DependsAbove(items, queue[p], above)
  {
    if queue == [] || DependsAbove(items, queue[0], above) then 0 else 1 + FirstAbove(items, queue[1..], above)
  }

  function Least(a: nat, b: nat): nat {
    if a < b then a else b
  }

  lemma InsertedMembers(queue: seq<Id>, n: nat, c: Id)
    requires n <= |queue|
    ensures forall t :: t in SeedAt(queue, n, c) <==> t in queue || t == c
    ensures Members(SeedAt(queue, n, c)) == Members(queue) + {c}
  {
    var longer := SeedAt(queue, n, c);
    forall t ensures t in longer <==> t in queue || t == c {
      if t in queue {
        var j :| 0 <= j < |queue| && queue[j] == t;
        assert longer[if j < n then j else j + 1] == t;
      }
      if t == c { assert longer[n] == c; }
    }
    forall t ensures t in Members(longer) <==> t in Members(queue) + {c} {
      assert t in Members(longer) <==> t in longer;
      assert t in Members(queue) <==> t in queue;
    }
  }

  lemma InsertedDistinct(queue: seq<Id>, n: nat, c: Id)
    requires n <= |queue| && Distinct(queue) && c !in queue
    ensures Distinct(SeedAt(queue, n, c))
  {
  }

  lemma ChildIsNew(items: seq<Item>, questions: seq<Id>, queue: seq<Id>, pi: nat, child: Item)
    requires FreshChild(items, questions, pi, child) && Members(queue) == PullableIds(items)
    ensures child.id !in queue
  {
    PullableHasId(items, child.id);
    assert child.id !in Members(queue);
  }

  /** Where the entry at j goes when one is put in at n. */
  function Shifted(n: nat, j: nat): nat {
    if j < n then j else j + 1
  }

  lemma InsertedAt(queue: seq<Id>, n: nat, c: Id, j: nat, p: nat)
    requires n <= |queue| && j < |queue| && Shifted(n, j) < p <= |queue| + 1
    ensures queue[j] in SeedAt(queue, n, c)[..p]
  {
    var longer := SeedAt(queue, n, c);
    assert longer[..p][Shifted(n, j)] == queue[j];
  }

  lemma InsertedItself(queue: seq<Id>, n: nat, c: Id, p: nat)
    requires n < p <= |queue| + 1
    ensures c in SeedAt(queue, n, c)[..p]
  {
    assert SeedAt(queue, n, c)[..p][n] == c;
  }

  /** What an entry must follow still stands ahead of it when the child comes no later than those that wait for it. */
  lemma GrownFollows(items: seq<Item>, questions: seq<Id>, queue: seq<Id>, pi: nat, child: Item, sorted: seq<Item>,
                     after: seq<Item>, n: nat, q: nat, t: Id)
    requires Committed(items, questions, queue) && Unqueued(items, questions, pi, child)
    requires Rearranged(SplitItems(items, pi, child), sorted, after)
    requires n <= FirstAbove(items, queue, items[pi].id) && q < |queue|
    requires t != queue[q] && (t in queue || t == child.id) && MustFollow(after, PullableIds(after), queue[q], t)
    ensures t in SeedAt(queue, n, child.id)[..Shifted(n, q)]
  {
    FollowsAfter(items, questions, pi, child, sorted, after, queue[q], t);
    if t == child.id {
      InsertedItself(queue, n, t, Shifted(n, q));
    } else {
      var j :| 0 <= j < |queue| && queue[j] == t;
      QueuedAhead(items, queue, q, j);
      InsertedAt(queue, n, child.id, j, Shifted(n, q));
    }
  }

  /** The entry that has moved to p. */
  lemma Unshifted(queue: seq<Id>, n: nat, c: Id, p: nat) returns (q: nat)
    requires n <= |queue| && p < |SeedAt(queue, n, c)| && p != n
    ensures q < |queue| && SeedAt(queue, n, c)[p] == queue[q] && Shifted(n, q) == p
  {
    q := if p < n then p else p - 1;
  }

  lemma GrownOrdered(items: seq<Item>, questions: seq<Id>, queue: seq<Id>, pi: nat, child: Item, sorted: seq<Item>,
                     after: seq<Item>, n: nat)
    requires Committed(items, questions, queue) && Unqueued(items, questions, pi, child)
    requires Rearranged(SplitItems(items, pi, child), sorted, after)
    requires n <= FirstAbove(items, queue, items[pi].id)
    ensures Ordered(after, PullableIds(after), SeedAt(queue, n, child.id))
  {
    var longer := SeedAt(queue, n, child.id);
    InsertedMembers(queue, n, child.id);
    forall p, t | 0 <= p < |longer| && MustFollow(after, PullableIds(after), longer[p], t) && t in longer
      && t != longer[p]
      ensures t in longer[..p]
    {
      if p == n {
        FollowsAfter(items, questions, pi, child, sorted, after, child.id, t);
        assert false;
      } else {
        var q := Unshifted(queue, n, child.id, p);
        GrownFollows(items, questions, queue, pi, child, sorted, after, n, q, t);
      }
    }
  }

  lemma GrownIsValid(items: seq<Item>, questions: seq<Id>, queue: seq<Id>, pi: nat, child: Item, sorted: seq<Item>,
                     after: seq<Item>, n: nat)
    requires Committed(items, questions, queue) && Unqueued(items, questions, pi, child)
    requires Rearranged(SplitItems(items, pi, child), sorted, after)
    requires n <= FirstAbove(items, queue, items[pi].id)
    ensures ValidQueue(after, SeedAt(queue, n, child.id))
  {
    ChildIsNew(items, questions, queue, pi, child);
    InsertedDistinct(queue, n, child.id);
    InsertedMembers(queue, n, child.id);
    PullableAfter(items, questions, pi, child, sorted, after);
    NotPullable(items, pi);
    GrownOrdered(items, questions, queue, pi, child, sorted, after, n);
  }

  lemma NotPullable(items: seq<Item>, i: nat)
    requires UniqueIds(items) && i < |items| && !Pullable(items[i])
    ensures items[i].id !in PullableIds(items)
  {
    forall j: nat | j < |items| && Pullable(items[j]) ensures items[j].id != items[i].id {
      UniqueApart(items, i, j);
    }
  }

  /** The child has no dependencies of its own. */
  lemma ChildIsLeaf(items: seq<Item>, questions: seq<Id>, pi: nat, child: Item, sorted: seq<Item>, after: seq<Item>)
    requires Unqueued(items, questions, pi, child) && UniqueIds(items)
    requires forall i, d :: 0 <= i < |items| && d in items[i].dependsOn ==> HasId(items, d) || d in questions
    requires Rearranged(SplitItems(items, pi, child), sorted, after) && child.id in PullableIds(after)
    ensures Deps(QueueGraph(ForestOf(after), after, PullableIds(after)), child.id) == []
  {
    var deps := Deps(QueueGraph(ForestOf(after), after, PullableIds(after)), child.id);
    if deps != [] {
      var t := deps[0];
      assert t in deps;
      QueueGraphMeaning(after, PullableIds(after), child.id, t);
      FollowsAfter(items, questions, pi, child, sorted, after, child.id, t);
      assert false;
    }
  }

  /** What the repair needs to know of the graph: it is in order with the child at n, and the child is a leaf of it. */
  lemma GrownGraph(items: seq<Item>, questions: seq<Id>, queue: seq<Id>, pi: nat, child: Item, sorted: seq<Item>,
                   after: seq<Item>, n: nat)
    requires Committed(items, questions, queue) && Unqueued(items, questions, pi, child)
    requires Rearranged(SplitItems(items, pi, child), sorted, after)
    requires n <= FirstAbove(items, queue, items[pi].id)
    ensures var g, longer := QueueGraph(ForestOf(after), after, PullableIds(after)), SeedAt(queue, n, child.id);
            Members(longer) == PullableIds(after) && Distinct(longer) && Respects(g, longer)
            && Deps(g, child.id) == []
  {
    GrownIsValid(items, questions, queue, pi, child, sorted, after, n);
    RespectsIsOrdered(after, SeedAt(queue, n, child.id));
    InsertedMembers(queue, n, child.id);
    ChildIsLeaf(items, questions, pi, child, sorted, after);
  }

  /** Wherever the child is seeded, repairing moves it just ahead of the first entry that waits for it, if at all. */
  lemma SeededLands(items: seq<Item>, questions: seq<Id>, queue: seq<Id>, pi: nat, child: Item, sorted: seq<Item>,
                    after: seq<Item>, a: nat)
    requires Committed(items, questions, queue) && Unqueued(items, questions, pi, child)
    requires Rearranged(SplitItems(items, pi, child), sorted, after) && a <= |queue|
    ensures var seeded := SeedAt(queue, a, child.id);
            Members(seeded) == PullableIds(after)
            && Repaired(QueueGraph(ForestOf(after), after, Members(seeded)), seeded)
               == SeedAt(queue, Least(a, FirstAbove(items, queue, items[pi].id)), child.id)
  {
    var n := Least(a, FirstAbove(items, queue, items[pi].id));
    GrownGraph(items, questions, queue, pi, child, sorted, after, n);
    if n < a {
      WaitsInGraph(items, questions, queue, pi, child, sorted, after, n);
    }
    InsertedLands(QueueGraph(ForestOf(after), after, PullableIds(after)), queue, n, a, child.id);
  }

  /** A leaf put in at a goes forward to n, where the first entry stands that needs it. */
  lemma InsertedLands(g: Graph, queue: seq<Id>, n: nat, a: nat, c: Id)
    requires n <= a <= |queue| && Closed(g, Members(SeedAt(queue, n, c)))
    requires Distinct(SeedAt(queue, n, c)) && Respects(g, SeedAt(queue, n, c))
    requires Deps(g, c) == [] && (n < a ==> c in Deps(g, queue[n]))
    ensures Members(SeedAt(queue, a, c)) == Members(SeedAt(queue, n, c))
    ensures Repaired(g, SeedAt(queue, a, c)) == SeedAt(queue, n, c)
  {
    var x, y, b := queue[..n], queue[n..a], queue[a..];
    CutTwice(queue, n, a, c);
    MembersSwap(x, y, c, b);
    LeafLands(g, x, y, c, b);
  }

  lemma CutTwice(queue: seq<Id>, n: nat, a: nat, c: Id)
    requires n <= a <= |queue|
    ensures SeedAt(queue, n, c) == queue[..n] + [c] + queue[n..a] + queue[a..]
    ensures SeedAt(queue, a, c) == queue[..n] + queue[n..a] + [c] + queue[a..]
  {
  }

  lemma WaitsInGraph(items: seq<Item>, questions: seq<Id>, queue: seq<Id>, pi: nat, child: Item, sorted: seq<Item>,
                     after: seq<Item>, n: nat)
    requires Committed(items, questions, queue) && Unqueued(items, questions, pi, child)
    requires Rearranged(SplitItems(items, pi, child), sorted, after)
    requires n < |queue| && DependsAbove(items, queue[n], items[pi].id)
    ensures child.id in Deps(QueueGraph(ForestOf(after), after, PullableIds(after)), queue[n])
  {
    ChildFollowed(items, questions, pi, child, sorted, after, queue[n]);
    PullableAfter(items, questions, pi, child, sorted, after);
    NotPullable(items, pi);
    assert queue[n] in Members(queue);
    QueueGraphMeaning(after, PullableIds(after), queue[n], child.id);
  }

  // ---------------------------------------------------------------- the reconciled queue

  lemma {:induction false} NewIdsDistinct(items: seq<Item>, pullable: set<Id>, kept: set<Id>)
    requires UniqueIds(items)
    ensures Distinct(NewIds(items, pullable, kept))
  {
    if items != [] {
      var n := |items| - 1;
      NewIdsDistinct(items[..n], pullable, kept);
      forall j | 0 <= j < n ensures items[..n][j].id != items[n].id {
        UniqueApart(items, j, n);
      }
      assert items[n].id !in NewIds(items[..n], pullable, kept);
    }
  }

  lemma OnlyOne(s: seq<Id>, c: Id)
    requires Distinct(s) && forall t :: t in s <==> t == c
    ensures s == [c]
  {
    assert c in s;
    assert |s| < 2 || s[0] != s[1];
    assert forall i: nat :: i < |s| ==> s[i] in s && s[i] == c;
  }

  /** A queue that lists what is pullable needs nothing added. */
  lemma FullCombined(after: seq<Item>, canonical: seq<Item>, queue: seq<Id>)
    requires Members(queue) == PullableIds(after)
    ensures Combined(after, canonical, queue) == queue
  {
    FilterAll(queue, PullableIds(after));
    NothingIn(NewIds(canonical, PullableIds(after), Members(queue)));
  }

  /** Without a place of its own the child is added at the end. */
  lemma TailCombined(after: seq<Item>, canonical: seq<Item>, queue: seq<Id>, c: Id)
    requires UniqueIds(after) && multiset(canonical) == multiset(after)
    requires PullableIds(after) == Members(queue) + {c} && c !in queue
    ensures Combined(after, canonical, queue) == queue + [c]
  {
    var pullable := PullableIds(after);
    var added := NewIds(canonical, pullable, Members(queue));
    FilterAll(queue, pullable);
    UniqueSorted(after, canonical);
    NewIdsDistinct(canonical, pullable, Members(queue));
    assert c !in Members(queue);
    var i: nat :| i < |after| && Pullable(after[i]) && after[i].id == c;
    assert after[i] in multiset(canonical);
    assert HasId(canonical, c);
    OnlyOne(added, c);
  }

  /** The list the command leaves for the reconciliation: with the child at the anchor, if there is one. */
  function SeededFrom(queue: seq<Id>, at: Option<nat>, c: Id): seq<Id>
    requires at.Some? ==> at.value <= |queue|
  {
    if at.Some? then SeedAt(queue, at.value, c) else queue
  }

  lemma SeededCombined(after: seq<Item>, canonical: seq<Item>, queue: seq<Id>, c: Id, at: Option<nat>)
    requires UniqueIds(after) && multiset(canonical) == multiset(after) && (at.Some? ==> at.value <= |queue|)
    requires var place := if at.Some? then at.value else |queue|;
             Members(SeedAt(queue, place, c)) == PullableIds(after) && c !in queue
    ensures Combined(after, canonical, SeededFrom(queue, at, c))
            == SeedAt(queue, if at.Some? then at.value else |queue|, c)
  {
    if at.Some? {
      FullCombined(after, canonical, SeedAt(queue, at.value, c));
    } else {
      InsertedMembers(queue, |queue|, c);
      TailCombined(after, canonical, queue, c);
      assert SeedAt(queue, |queue|, c) == queue + [c];
    }
  }

  /**
   * The queue after an unqueued item got a child: the child stands where it was seeded (at the end without an anchor),
   * or ahead of the first entry that depends on its parent or an umbrella over it. Nothing else moves.
   */
  lemma GrownQueue(items: seq<Item>, questions: seq<Id>, queue: seq<Id>, pi: nat, child: Item, sorted: seq<Item>,
                   after: seq<Item>, canonical: seq<Item>, at: Option<nat>)
    requires Committed(items, questions, queue) && Unqueued(items, questions, pi, child)
    requires Rearranged(SplitItems(items, pi, child), sorted, after) && multiset(canonical) == multiset(after)
    requires at.Some? ==> at.value <= |queue|
    ensures var place := if at.Some? then at.value else |queue|;
            Reconciled(after, canonical, SeededFrom(queue, at, child.id))
            == SeedAt(queue, Least(place, FirstAbove(items, queue, items[pi].id)), child.id)
  {
    var place := if at.Some? then at.value else |queue|;
    SeededLands(items, questions, queue, pi, child, sorted, after, place);
    ChildIsNew(items, questions, queue, pi, child);
    SeededCombined(after, canonical, queue, child.id, at);
  }

  /**
   * Nobody ranked ahead of a queued child of the umbrella waits for the umbrella; so a further child seeded right
   * behind the last one stays there, unless that one depends on an umbrella it lies under.
   */
  lemma BehindSibling(items: seq<Item>, questions: seq<Id>, queue: seq<Id>, pi: nat, s: nat)
    requires Committed(items, questions, queue) && pi < |items| && items[pi].kind == Umbrella
    requires s < |queue| && IsChild(items, items[pi].id, queue[s])
    ensures var first := FirstAbove(items, queue, items[pi].id);
            first >= s && (first == s <==> DependsAbove(items, queue[s], items[pi].id))
  {
    var first := FirstAbove(items, queue, items[pi].id);
    if first < s {
      AboveFollows(items, queue, pi, first, s);
      QueuedAhead(items, queue, first, s);
      assert false;
    }
  }

  lemma AboveFollows(items: seq<Item>, queue: seq<Id>, pi: nat, p: nat, s: nat)
    requires UniqueIds(items) && pi < |items| && items[pi].kind == Umbrella
    requires p < |queue| && s < |queue| && queue[s] in PullableIds(items)
    requires IsChild(items, items[pi].id, queue[s]) && DependsAbove(items, queue[p], items[pi].id)
    ensures MustFollow(items, PullableIds(items), queue[p], queue[s])
  {
    var down := Down(ForestOf(items), PullableIds(items));
    var i: nat, d :| i < |items| && items[i].id == queue[p] && d in items[i].dependsOn &&
                     Reaches(down, d, items[pi].id);
    var k: nat :| k < |items| && items[k].parent == items[pi].id && items[k].id == queue[s];
    assert KidOf(items, pi, k);
    UmbrellaEdge(items, pi, k);
    var w :| WalkBetween(down, w, d, items[pi].id);
    WalkExtend(down, w, queue[s]);
    assert WalkBetween(down, w + [queue[s]], d, queue[s]);
    assert StandsFor(ForestOf(items), PullableIds(items), d, queue[s]);
  }
}
