/** Splitting a queued leaf (tools/registry/mutators.go, `runSplit`): the leaf becomes an umbrella and
    its first child takes its place in the queue. */
module Split {
  import opened Common
  import opened Digraph
  import opened Items
  import opened Expand
  import opened TopoRepair
  import opened Queue
  import opened Umbrella
  import opened Ready

  /** The new child is a fresh open leaf without dependencies of its own. */
  ghost predicate FreshChild(items: seq<Item>, questions: seq<Id>, pi: nat, child: Item) {
    && pi < |items| && items[pi].id != NO_PARENT && child.parent == items[pi].id
    && !HasId(items, child.id) && child.id !in questions
    && (forall j :: 0 <= j < |items| ==> items[j].parent != child.id)
    && child.status == Open && child.kind != Umbrella && child.dependsOn == []
  }

  /** The leaf at pi is queued and has no children yet. */
  ghost predicate Splittable(items: seq<Item>, pi: nat) {
    && pi < |items| && Pullable(items[pi])
    && (forall j :: 0 <= j < |items| ==> items[j].parent != items[pi].id)
  }

  /** The item at pi may take children: it has none yet, or is an umbrella. */
  ghost predicate Growable(items: seq<Item>, pi: nat) {
    pi < |items|
    && (items[pi].kind == Umbrella || forall j :: 0 <= j < |items| ==> items[j].parent != items[pi].id)
  }

  /** The item list right after the split, before sorting and status derivation. */
  function SplitItems(items: seq<Item>, pi: nat, child: Item): seq<Item>
    requires pi < |items|
  {
    items[pi := items[pi].(kind := Umbrella)] + [child]
  }

  /** The list after sorting (`sorted`, any order) and status derivation (`after`). */
  ghost predicate Rearranged(split: seq<Item>, sorted: seq<Item>, after: seq<Item>) {
    UniqueIds(after) && multiset(sorted) == multiset(split) && SameBut(sorted, after)
  }

  lemma Twice<T>(s: seq<T>, i: nat, j: nat)
    requires i < j < |s| && s[i] == s[j]
    ensures multiset(s)[s[i]] >= 2
  {
    assert s == s[..j] + s[j..];
    assert s[i] in s[..j] && s[i] in s[j..];
  }

  lemma TwoPlaces<T>(s: seq<T>, x: T) returns (i: nat, j: nat)
    requires multiset(s)[x] >= 2
    ensures i < j < |s| && s[i] == s[j] == x
  {
    assert x in multiset(s);
    var k :| 0 <= k < |s| && s[k] == x;
    assert s == s[..k] + [s[k]] + s[k + 1..];
    if x in multiset(s[..k]) {
      i :| 0 <= i < k && s[i] == x;
      j := k;
    } else {
      assert x in multiset(s[k + 1..]);
      var m :| 0 <= m < |s| - k - 1 && s[k + 1..][m] == x;
      i, j := k, k + 1 + m;
    }
  }

  lemma UniqueSorted(items: seq<Item>, sorted: seq<Item>)
    requires multiset(sorted) == multiset(items) && UniqueIds(items)
    ensures UniqueIds(sorted)
  {
    forall i: nat, j: nat | i < j < |sorted| ensures sorted[i].id != sorted[j].id {
      assert sorted[i] in multiset(items) && sorted[j] in multiset(items);
      if sorted[i] == sorted[j] {
        Twice(sorted, i, j);
        var a, b := TwoPlaces(items, sorted[i]);
      } else {
        var a :| 0 <= a < |items| && items[a] == sorted[i];
        var b :| 0 <= b < |items| && items[b] == sorted[j];
        UniqueApart(items, a, b);
      }
    }
  }

  predicate SameItem(before: Item, after: Item) {
    after == before.(status := after.status) && (before.kind != Umbrella ==> after == before)
  }

  lemma Origin(split: seq<Item>, sorted: seq<Item>, after: seq<Item>, a: nat) returns (i: nat)
    requires Rearranged(split, sorted, after) && a < |after|
    ensures i < |split| && SameItem(split[i], after[a])
  {
    assert sorted[a] in multiset(split);
    i :| 0 <= i < |split| && split[i] == sorted[a];
  }

  lemma Copy(split: seq<Item>, sorted: seq<Item>, after: seq<Item>, i: nat) returns (a: nat)
    requires Rearranged(split, sorted, after) && i < |split|
    ensures a < |after| && SameItem(split[i], after[a])
  {
    assert split[i] in multiset(sorted);
    a :| 0 <= a < |sorted| && sorted[a] == split[i];
  }

  // ---------------------------------------------------------------- children and kinds after the split

  lemma ChildAfter(items: seq<Item>, questions: seq<Id>, pi: nat, child: Item, sorted: seq<Item>, after: seq<Item>,
                   u: Id, c: Id)
    requires FreshChild(items, questions, pi, child) && Growable(items, pi) && UniqueIds(items)
    requires Rearranged(SplitItems(items, pi, child), sorted, after) && IsChild(after, u, c)
    ensures (u == items[pi].id && c == child.id) || (IsChild(items, u, c) && HasId(items, c))
  {
    var split := SplitItems(items, pi, child);
    var a :| 0 <= a < |after| && after[a].parent == u && after[a].id == c;
    var i := Origin(split, sorted, after, a);
    if i < |items| {
      assert items[i].parent == u && items[i].id == c;
    }
  }

  lemma UmbrellaAfter(items: seq<Item>, questions: seq<Id>, pi: nat, child: Item, sorted: seq<Item>, after: seq<Item>,
                      u: Id)
    requires FreshChild(items, questions, pi, child) && Growable(items, pi) && UniqueIds(items)
    requires Rearranged(SplitItems(items, pi, child), sorted, after) && HasKind(after, u, Umbrella)
    ensures u == items[pi].id || HasKind(items, u, Umbrella)
  {
    var split := SplitItems(items, pi, child);
    var a :| 0 <= a < |after| && after[a].id == u && after[a].kind == Umbrella;
    var i := Origin(split, sorted, after, a);
    if i < |items| && i != pi {
      assert items[i].id == u && items[i].kind == Umbrella;
    }
  }

  lemma PullableAfter(items: seq<Item>, questions: seq<Id>, pi: nat, child: Item, sorted: seq<Item>, after: seq<Item>)
    requires FreshChild(items, questions, pi, child) && Growable(items, pi) && UniqueIds(items)
    requires Rearranged(SplitItems(items, pi, child), sorted, after)
    ensures PullableIds(after) == PullableIds(items) - {items[pi].id} + {child.id}
  {
    var split := SplitItems(items, pi, child);
    forall t ensures t in PullableIds(after) <==> t in PullableIds(items) - {items[pi].id} + {child.id} {
      if t in PullableIds(after) {
        var a :| 0 <= a < |after| && Pullable(after[a]) && after[a].id == t;
        var i := Origin(split, sorted, after, a);
        if i < |items| {
          assert Pullable(items[i]) && items[i].id == t;
          UniqueApart(items, i, pi);
        }
      }
      if t in PullableIds(items) - {items[pi].id} {
        var i :| 0 <= i < |items| && Pullable(items[i]) && items[i].id == t;
        assert split[i] == items[i];
        var a := Copy(split, sorted, after, i);
        assert Pullable(after[a]);
      }
      if t == child.id {
        assert split[|items|] == child;
        var a := Copy(split, sorted, after, |items|);
        assert Pullable(after[a]);
      }
    }
  }

  // ---------------------------------------------------------------- what an edge stands for after the split

  lemma DownAfter(items: seq<Item>, questions: seq<Id>, pi: nat, child: Item, sorted: seq<Item>, after: seq<Item>,
                  u: Id, c: Id)
    requires FreshChild(items, questions, pi, child) && Growable(items, pi) && UniqueIds(items)
    requires Rearranged(SplitItems(items, pi, child), sorted, after)
    requires Edge(Down(ForestOf(after), PullableIds(after)), u, c)
    ensures u != child.id
    ensures if c == child.id then u == items[pi].id else Edge(Down(ForestOf(items), PullableIds(items)), u, c)
  {
    KindMapMeaning(after, u);
    ChildMapMeaning(after, u);
    assert HasKind(after, u, Umbrella) && IsChild(after, u, c);
    ChildAfter(items, questions, pi, child, sorted, after, u, c);
    UmbrellaAfter(items, questions, pi, child, sorted, after, u);
    if c != child.id {
      var k :| 0 <= k < |items| && items[k].parent == u && items[k].id == c;
      assert HasKind(items, u, Umbrella) by {
        if u == items[pi].id { assert items[k].parent == items[pi].id; }
      }
      var i :| 0 <= i < |items| && items[i].id == u && items[i].kind == Umbrella;
      assert KidOf(items, i, k);
      UmbrellaEdge(items, i, k);
    }
  }

  /** A walk down that ends below the split item was there before; one to the child passes through its parent. */
  lemma {:induction false} WalkBack(items: seq<Item>, questions: seq<Id>, pi: nat, child: Item, sorted: seq<Item>,
                                    after: seq<Item>, p: seq<Id>)
    requires FreshChild(items, questions, pi, child) && Growable(items, pi) && UniqueIds(items)
    requires Rearranged(SplitItems(items, pi, child), sorted, after)
    requires IsWalk(Down(ForestOf(after), PullableIds(after)), p) && p[0] != child.id
    ensures var t := p[|p| - 1];
            Reaches(Down(ForestOf(items), PullableIds(items)), p[0], if t == child.id then items[pi].id else t)
    decreases |p|
  {
    var down, downAfter := Down(ForestOf(items), PullableIds(items)), Down(ForestOf(after), PullableIds(after));
    ReachesSelf(down, p[0]);
    if |p| > 1 {
      assert Edge(downAfter, p[0], p[1]);
      DownAfter(items, questions, pi, child, sorted, after, p[0], p[1]);
      if p[1] == child.id {
        if |p| > 2 {
          assert Edge(downAfter, p[1], p[2]);
          DownAfter(items, questions, pi, child, sorted, after, p[1], p[2]);
        }
      } else {
        WalkSlice(downAfter, p, 1, |p|);
        assert p[1..|p|] == p[1..];
        WalkBack(items, questions, pi, child, sorted, after, p[1..]);
        var t := p[|p| - 1];
        ReachesStep(down, p[0], p[1], if t == child.id then items[pi].id else t);
      }
    }
  }

  // ---------------------------------------------------------------- the queue after the split

  /** Item x depends on the item `above` or on an umbrella over it. */
  ghost predicate DependsAbove(items: seq<Item>, x: Id, above: Id) {
    exists i, d :: 0 <= i < |items| && items[i].id == x && d in items[i].dependsOn &&
                   Reaches(Down(ForestOf(items), PullableIds(items)), d, above)
  }

  /** What a dependency stands for it stood for before, but for the child, which hangs from its parent. */
  lemma TargetBefore(items: seq<Item>, questions: seq<Id>, pi: nat, child: Item, sorted: seq<Item>, after: seq<Item>,
                     d: Id, t: Id)
    requires FreshChild(items, questions, pi, child) && Growable(items, pi) && UniqueIds(items) && d != child.id
    requires Rearranged(SplitItems(items, pi, child), sorted, after)
    requires StandsFor(ForestOf(after), PullableIds(after), d, t)
    ensures if t == child.id then Reaches(Down(ForestOf(items), PullableIds(items)), d, items[pi].id)
            else StandsFor(ForestOf(items), PullableIds(items), d, t)
  {
    var p :| WalkBetween(Down(ForestOf(after), PullableIds(after)), p, d, t);
    WalkBack(items, questions, pi, child, sorted, after, p);
    PullableAfter(items, questions, pi, child, sorted, after);
  }

  lemma DependencyBefore(items: seq<Item>, questions: seq<Id>, pi: nat, child: Item, sorted: seq<Item>,
                         after: seq<Item>, a: nat, d: Id) returns (i: nat)
    requires FreshChild(items, questions, pi, child)
    requires forall i, d :: 0 <= i < |items| && d in items[i].dependsOn ==> HasId(items, d) || d in questions
    requires Rearranged(SplitItems(items, pi, child), sorted, after) && a < |after| && d in after[a].dependsOn
    ensures i < |items| && items[i].id == after[a].id && d in items[i].dependsOn
    ensures after[a].id != child.id && d != child.id
  {
    i := Origin(SplitItems(items, pi, child), sorted, after, a);
    assert i < |items| && items[i].id == after[a].id && d in items[i].dependsOn;
    assert HasId(items, items[i].id);
    assert HasId(items, d) || d in questions;
  }

  /** What must come ahead of an entry had to before; only the child is new, for those that depend above it. */
  lemma FollowsAfter(items: seq<Item>, questions: seq<Id>, pi: nat, child: Item, sorted: seq<Item>, after: seq<Item>,
                     x: Id, t: Id)
    requires FreshChild(items, questions, pi, child) && Growable(items, pi) && UniqueIds(items)
    requires forall i, d :: 0 <= i < |items| && d in items[i].dependsOn ==> HasId(items, d) || d in questions
    requires Rearranged(SplitItems(items, pi, child), sorted, after) && MustFollow(after, PullableIds(after), x, t)
    ensures x != child.id
    ensures if t == child.id then DependsAbove(items, x, items[pi].id) else MustFollow(items, PullableIds(items), x, t)
  {
    var a, d :| 0 <= a < |after| && after[a].id == x && d in after[a].dependsOn &&
                StandsFor(ForestOf(after), PullableIds(after), d, t);
    var i := DependencyBefore(items, questions, pi, child, sorted, after, a, d);
    TargetBefore(items, questions, pi, child, sorted, after, d, t);
  }

  lemma FollowsBefore(items: seq<Item>, questions: seq<Id>, queue: seq<Id>, pi: nat, child: Item, sorted: seq<Item>,
                      after: seq<Item>, x: Id, t: Id)
    requires Committed(items, questions, queue)
    requires FreshChild(items, questions, pi, child) && Splittable(items, pi)
    requires Rearranged(SplitItems(items, pi, child), sorted, after) && MustFollow(after, PullableIds(after), x, t)
    ensures x != child.id
    ensures MustFollow(items, PullableIds(items), x, if t == child.id then items[pi].id else t)
  {
    FollowsAfter(items, questions, pi, child, sorted, after, x, t);
    if t == child.id {
      assert items[pi].id in PullableIds(items);
      var i, d :| 0 <= i < |items| && items[i].id == x && d in items[i].dependsOn &&
                  Reaches(Down(ForestOf(items), PullableIds(items)), d, items[pi].id);
      assert StandsFor(ForestOf(items), PullableIds(items), d, items[pi].id);
    }
  }

  /** The swapped queue lists what is pullable after the split, once each. */
  lemma SwappedMembers(items: seq<Item>, questions: seq<Id>, queue: seq<Id>, pi: nat, child: Item,
                       sorted: seq<Item>, after: seq<Item>, k: nat)
    requires Committed(items, questions, queue)
    requires FreshChild(items, questions, pi, child) && Splittable(items, pi)
    requires Rearranged(SplitItems(items, pi, child), sorted, after) && k < |queue| && queue[k] == items[pi].id
    ensures Distinct(queue[k := child.id]) && Members(queue[k := child.id]) == PullableIds(after)
  {
    var swapped := queue[k := child.id];
    PullableAfter(items, questions, pi, child, sorted, after);
    PullableHasId(items, child.id);
    assert child.id !in Members(queue);
    assert forall j :: 0 <= j < |queue| ==> queue[j] in Members(queue);
    forall t ensures t in Members(swapped) <==> t in PullableIds(after) {
      if t in Members(swapped) {
        var j :| 0 <= j < |swapped| && swapped[j] == t;
        if j != k { assert queue[j] in Members(queue) && queue[j] != queue[k]; }
      }
      if t in PullableIds(after) && t != child.id {
        assert t in Members(queue);
        var j :| 0 <= j < |queue| && queue[j] == t;
        assert swapped[j] == t;
      }
      if t == child.id { assert swapped[k] == t; }
    }
  }

  /** What must come ahead of an entry of the swapped queue does. */
  lemma SwappedFollows(items: seq<Item>, questions: seq<Id>, queue: seq<Id>, pi: nat, child: Item,
                       sorted: seq<Item>, after: seq<Item>, k: nat, p: nat, t: Id)
    requires Committed(items, questions, queue)
    requires FreshChild(items, questions, pi, child) && Splittable(items, pi)
    requires Rearranged(SplitItems(items, pi, child), sorted, after) && k < |queue| && queue[k] == items[pi].id
    requires p < |queue| && t in queue[k := child.id] && t != queue[k := child.id][p]
    requires MustFollow(after, PullableIds(after), queue[k := child.id][p], t)
    ensures t in queue[k := child.id][..p]
  {
    var swapped := queue[k := child.id];
    FollowsBefore(items, questions, queue, pi, child, sorted, after, swapped[p], t);
    var i :| 0 <= i < |swapped| && swapped[i] == t;
    var before := if i == k then queue[k] else t;
    PullableHasId(items, child.id);
    assert child.id !in Members(queue);
    assert i != k ==> queue[i] in Members(queue);
    assert p != k && swapped[p] == queue[p];
    assert MustFollow(items, PullableIds(items), queue[p], before);
    QueuedAhead(items, queue, p, i);
    assert swapped[i] == swapped[..p][i];
  }

  /** What an entry of a valid queue must follow stands ahead of it. */
  lemma QueuedAhead(items: seq<Item>, queue: seq<Id>, p: nat, i: nat)
    requires ValidQueue(items, queue) && p < |queue| && i < |queue| && i != p
    requires MustFollow(items, PullableIds(items), queue[p], queue[i])
    ensures i < p
  {
    assert queue[i] in queue && queue[i] != queue[p];
    assert queue[i] in queue[..p];
    var j :| 0 <= j < p && queue[j] == queue[i];
  }

  /** Swapping the child in for its parent keeps the queue valid. */
  lemma SwappedIsValid(items: seq<Item>, questions: seq<Id>, queue: seq<Id>, pi: nat, child: Item,
                       sorted: seq<Item>, after: seq<Item>, k: nat)
    requires Committed(items, questions, queue)
    requires FreshChild(items, questions, pi, child) && Splittable(items, pi)
    requires Rearranged(SplitItems(items, pi, child), sorted, after) && k < |queue| && queue[k] == items[pi].id
    ensures ValidQueue(after, queue[k := child.id])
  {
    var swapped := queue[k := child.id];
    SwappedMembers(items, questions, queue, pi, child, sorted, after, k);
    forall p, t | 0 <= p < |swapped| && MustFollow(after, PullableIds(after), swapped[p], t) && t in swapped
      && t != swapped[p]
      ensures t in swapped[..p]
    {
      SwappedFollows(items, questions, queue, pi, child, sorted, after, k, p, t);
    }
  }

  lemma {:induction false} FilterAppend(a: seq<Id>, b: seq<Id>, keep: set<Id>)
    ensures Filter(a + b, keep) == Filter(a, keep) + Filter(b, keep)
  {
    if b == [] {
      assert a + b == a;
    } else {
      var n := |b| - 1;
      assert (a + b)[..|a + b| - 1] == a + b[..n];
      FilterAppend(a, b[..n], keep);
    }
  }

  /** Where the code puts the child before reconciling: just ahead of its parent. */
  function SeedAt(queue: seq<Id>, k: nat, id: Id): seq<Id>
    requires k <= |queue|
  {
    queue[..k] + [id] + queue[k..]
  }

  /** Reconciling the seeded queue only drops the parent: nothing else moves. */
  lemma SplitKeepsPlace(items: seq<Item>, questions: seq<Id>, queue: seq<Id>, pi: nat, child: Item, sorted: seq<Item>,
                        after: seq<Item>, canonical: seq<Item>, k: nat)
    requires Committed(items, questions, queue)
    requires FreshChild(items, questions, pi, child) && Splittable(items, pi)
    requires Rearranged(SplitItems(items, pi, child), sorted, after) && multiset(canonical) == multiset(after)
    requires k < |queue| && queue[k] == items[pi].id
    ensures Reconciled(after, canonical, SeedAt(queue, k, child.id)) == queue[k := child.id]
  {
    var keep, swapped := PullableIds(after), queue[k := child.id];
    PullableAfter(items, questions, pi, child, sorted, after);
    SwappedIsValid(items, questions, queue, pi, child, sorted, after, k);
    SeededFilters(queue, k, child.id, keep);
    FilterAll(swapped, keep);
    ValidReconciled(after, canonical, swapped);
    assert Combined(after, canonical, SeedAt(queue, k, child.id)) == Combined(after, canonical, swapped);
  }

  lemma SeededFilters(queue: seq<Id>, k: nat, id: Id, keep: set<Id>)
    requires k < |queue| && queue[k] !in keep
    ensures Filter(SeedAt(queue, k, id), keep) == Filter(queue[k := id], keep)
  {
    var a, b := queue[..k] + [id], queue[k + 1..];
    assert queue[k := id] == a + b;
    assert SeedAt(queue, k, id) == a + ([queue[k]] + b);
    FilterDrops(a, queue[k], b, keep);
  }

  lemma FilterDrops(a: seq<Id>, x: Id, b: seq<Id>, keep: set<Id>)
    requires x !in keep
    ensures Filter(a + ([x] + b), keep) == Filter(a + b, keep)
  {
    FilterAppend(a, [x] + b, keep);
    FilterAppend([x], b, keep);
    FilterAppend(a, b, keep);
    assert Filter([x], keep) == [];
  }

  /** Whoever depended on the parent stays gated: the umbrella is open while the child is. */
  lemma DependentsStayGated(items: seq<Item>, questions: seq<Id>, pi: nat, child: Item, sorted: seq<Item>,
                            after: seq<Item>, x: nat)
    requires FreshChild(items, questions, pi, child) && UniqueIds(items)
    requires Rearranged(SplitItems(items, pi, child), sorted, after) && Settled(after)
    requires x < |after| && items[pi].id in after[x].dependsOn
    ensures !ReadyIn(after, questions, after[x])
  {
    var split := SplitItems(items, pi, child);
    assert split[pi] == items[pi].(kind := Umbrella) && split[|items|] == child;
    var u := Copy(split, sorted, after, pi);
    var c := Copy(split, sorted, after, |items|);
    assert KidOf(after, u, c) && Derived(after, u);
    assert UpToDate(after, u);
    assert !IsClosed(after[u].status);
    var k :| 0 <= k < |after[x].dependsOn| && after[x].dependsOn[k] == items[pi].id;
    SatisfiedMeaning(after, questions, items[pi].id);
    forall j | 0 <= j < |after| && IsClosed(after[j].status) ensures after[j].id != items[pi].id {
      UniqueApart(after, j, u);
    }
    assert HasId(after, items[pi].id);
  }
}
