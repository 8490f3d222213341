/** The order of the reconciled queue (tools/registry/mutators.go, `reconcilePriority`, `topoRepairPriority`): ranks
    are kept but for dependencies, and those are pulled forward in the order in which they are declared. */
module QueueOrder {
  import opened Common
  import opened Digraph
  import opened Items
  import opened Expand
  import opened TopoRepair
  import opened Queue
  import opened Umbrella

  // ---------------------------------------------------------------- who needs whom

  /** Every id of the chain must follow the next. */
  ghost predicate NeedChain(items: seq<Item>, w: seq<Id>) {
    |w| >= 1 && forall i :: 0 <= i < |w| - 1 ==> MustFollow(items, PullableIds(items), w[i], w[i + 1])
  }

  /** x must follow y, directly or through others; everybody needs himself. */
  ghost predicate Needs(items: seq<Item>, x: Id, y: Id) {
    exists w :: NeedChain(items, w) && w[0] == x && w[|w| - 1] == y
  }

  lemma ReachesNeeds(items: seq<Item>, x: Id, y: Id)
    requires UniqueIds(items) && Reaches(QueueGraph(ForestOf(items), items, PullableIds(items)), x, y)
    ensures Needs(items, x, y)
  {
    var wanted := PullableIds(items);
    var g := QueueGraph(ForestOf(items), items, wanted);
    var w :| WalkBetween(g, w, x, y);
    forall i | 0 <= i < |w| - 1 ensures MustFollow(items, wanted, w[i], w[i + 1]) {
      assert Edge(g, w[i], w[i + 1]);
      assert w[i] in wanted;
      QueueGraphMeaning(items, wanted, w[i], w[i + 1]);
    }
    assert NeedChain(items, w);
  }

  // ---------------------------------------------------------------- the list that is repaired

  /**
   * a ranks ahead of b before the repair: ids that were in the queue by their old ranks, ahead of the others; those by
   * the canonical order.
   */
  predicate RanksAhead(canonical: seq<Item>, priority: seq<Id>, a: Id, b: Id) {
    if a in priority then b in priority ==> Position(priority, a) < Position(priority, b)
    else
      b !in priority && a in IdsOf(canonical) && b in IdsOf(canonical)
      && Position(IdsOf(canonical), a) < Position(IdsOf(canonical), b)
  }

  lemma {:induction false} PositionInFront(s: seq<Id>, t: seq<Id>, a: Id)
    requires a in s + t
    ensures Position(s + t, a) == if a in s then Position(s, a) else |s| + Position(t, a)
  {
    if s == [] {
      assert s + t == t;
    } else if s[0] != a {
      assert (s + t)[1..] == s[1..] + t;
      PositionInFront(s[1..], t, a);
    }
  }

  lemma {:induction false} FilterKeepsRanks(queue: seq<Id>, keep: set<Id>, a: Id, b: Id)
    requires a in queue && b in queue && a in keep && b in keep
    ensures Position(Filter(queue, keep), a) < Position(Filter(queue, keep), b) <==>
            Position(queue, a) < Position(queue, b)
  {
    var n := |queue| - 1;
    var front, last := queue[..n], queue[n];
    var kept := Filter(front, keep);
    assert queue == front + [last];
    PositionInFront(front, [last], a);
    PositionInFront(front, [last], b);
    if last in keep {
      PositionInFront(kept, [last], a);
      PositionInFront(kept, [last], b);
    } else {
      assert Filter(queue, keep) == kept;
    }
    if a in front && b in front {
      FilterKeepsRanks(front, keep, a, b);
    }
  }

  lemma {:induction false} NewIdsInOrder(items: seq<Item>, pullable: set<Id>, kept: set<Id>, a: Id, b: Id)
    requires a in NewIds(items, pullable, kept) && b in NewIds(items, pullable, kept)
    ensures a in IdsOf(items) && b in IdsOf(items)
    ensures Position(NewIds(items, pullable, kept), a) < Position(NewIds(items, pullable, kept), b) <==>
            Position(IdsOf(items), a) < Position(IdsOf(items), b)
  {
    var n := |items| - 1;
    var front, before, last := IdsOf(items[..n]), NewIds(items[..n], pullable, kept), items[n].id;
    assert IdsOf(items) == front + [last];
    IdsOfMeaning(items[..n], a);
    IdsOfMeaning(items[..n], b);
    assert (a in before <==> a in front) && (b in before <==> b in front);
    PositionInFront(front, [last], a);
    PositionInFront(front, [last], b);
    if a in before && b in before {
      NewIdsInOrder(items[..n], pullable, kept, a, b);
    }
    if last in pullable && last !in kept {
      assert NewIds(items, pullable, kept) == before + [last];
      PositionInFront(before, [last], a);
      PositionInFront(before, [last], b);
    } else {
      assert NewIds(items, pullable, kept) == before;
    }
  }

  lemma IdsOfMeaning(items: seq<Item>, a: Id)
    ensures a in IdsOf(items) <==> HasId(items, a)
  {
    if HasId(items, a) {
      var i :| 0 <= i < |items| && items[i].id == a;
      assert IdsOf(items)[i] == a;
    }
  }

  lemma CombinedRanks(items: seq<Item>, canonical: seq<Item>, priority: seq<Id>, a: Id, b: Id)
    requires multiset(canonical) == multiset(items) && a in PullableIds(items) && b in PullableIds(items)
    ensures var combined := Combined(items, canonical, priority);
            a in combined && b in combined
            && (Position(combined, a) < Position(combined, b) <==> RanksAhead(canonical, priority, a, b))
  {
    var wanted := PullableIds(items);
    var kept := Filter(priority, wanted);
    var added := NewIds(canonical, wanted, Members(kept));
    InCombined(items, canonical, priority, a);
    InCombined(items, canonical, priority, b);
    PositionInFront(kept, added, a);
    PositionInFront(kept, added, b);
    if a in priority && b in priority {
      FilterKeepsRanks(priority, wanted, a, b);
    } else if a !in priority && b !in priority {
      NewIdsInOrder(canonical, wanted, Members(kept), a, b);
    }
  }

  lemma InCombined(items: seq<Item>, canonical: seq<Item>, priority: seq<Id>, a: Id)
    requires multiset(canonical) == multiset(items) && a in PullableIds(items)
    ensures var kept := Filter(priority, PullableIds(items));
            (a in kept <==> a in priority)
            && (a !in priority ==> a in NewIds(canonical, PullableIds(items), Members(kept)))
            && a in Combined(items, canonical, priority)
  {
    CombinedMembers(items, canonical, priority);
    var kept := Filter(priority, PullableIds(items));
    assert a in Members(Combined(items, canonical, priority));
    assert a in Members(kept) <==> a in kept;
  }

  /** Those in front of the first place of z are those that rank ahead of it. */
  lemma FrontRanksAhead(items: seq<Item>, canonical: seq<Item>, priority: seq<Id>, z: Id, x: Id)
    requires multiset(canonical) == multiset(items) && z in PullableIds(items)
    requires z in Combined(items, canonical, priority)
    requires var combined := Combined(items, canonical, priority); x in combined[..Position(combined, z)]
    ensures x in PullableIds(items) && RanksAhead(canonical, priority, x, z)
  {
    var combined := Combined(items, canonical, priority);
    var p := Position(combined, z);
    CombinedMembers(items, canonical, priority);
    assert combined == combined[..p] + combined[p..];
    assert x in combined && x in Members(combined);
    PositionInFront(combined[..p], combined[p..], x);
    CombinedRanks(items, canonical, priority, x, z);
  }

  // ---------------------------------------------------------------- ranks are kept

  /** Nobody who ranks ahead of z needs t. */
  ghost predicate NotNeededAhead(items: seq<Item>, canonical: seq<Item>, priority: seq<Id>, z: Id, t: Id) {
    forall x :: x in PullableIds(items) && RanksAhead(canonical, priority, x, z) ==> !Needs(items, x, t)
  }

  /** Nobody up to a, in the order before the repair, needs b. */
  ghost predicate NotNeededUpTo(items: seq<Item>, canonical: seq<Item>, priority: seq<Id>, a: Id, b: Id) {
    NotNeededAhead(items, canonical, priority, a, b) && !Needs(items, a, b)
  }

  /**
   * a stays ahead of b, which ranks behind it, unless b is needed by a or by somebody who ranks ahead of a: every entry
   * keeps its rank but for a dependency that is pulled forward.
   */
  lemma KeepsRank(items: seq<Item>, canonical: seq<Item>, priority: seq<Id>, a: Id, b: Id)
    requires UniqueIds(items) && multiset(canonical) == multiset(items)
    requires a in PullableIds(items) && b in PullableIds(items) && a != b && RanksAhead(canonical, priority, a, b)
    requires NotNeededUpTo(items, canonical, priority, a, b)
    ensures Ahead(Reconciled(items, canonical, priority), a, b)
  {
    var combined := Combined(items, canonical, priority);
    var g := QueueGraph(ForestOf(items), items, Members(combined));
    CombinedMembers(items, canonical, priority);
    CombinedRanks(items, canonical, priority, a, b);
    var p := Position(combined, a);
    NotInFront(combined, p, b);
    forall z | z in combined[..p + 1] ensures !Reaches(g, z, b) {
      UpToRank(items, canonical, priority, a, z);
      NotReached(items, z, b);
    }
    if !Ahead(Repaired(g, combined), a, b) {
      Overtakes(g, combined, p, b);
    }
  }

  lemma UpToRank(items: seq<Item>, canonical: seq<Item>, priority: seq<Id>, a: Id, z: Id)
    requires multiset(canonical) == multiset(items) && a in PullableIds(items)
    requires a in Combined(items, canonical, priority)
    requires var combined := Combined(items, canonical, priority); z in combined[..Position(combined, a) + 1]
    ensures z in PullableIds(items) && (z == a || RanksAhead(canonical, priority, z, a))
  {
    var combined := Combined(items, canonical, priority);
    var p := Position(combined, a);
    assert combined[..p + 1] == combined[..p] + [a];
    if z != a {
      FrontRanksAhead(items, canonical, priority, a, z);
    }
  }

  lemma NotInFront(s: seq<Id>, p: nat, b: Id)
    requires b in s && p < Position(s, b)
    ensures b !in s[..p + 1]
  {
    assert s == s[..p + 1] + s[p + 1..];
    PositionInFront(s[..p + 1], s[p + 1..], b);
  }

  /** If b comes out no later than the entry at p, behind which it stood, then somebody up to there needs it. */
  lemma Overtakes(g: Graph, order: seq<Id>, p: nat, b: Id)
    requires Closed(g, Members(order)) && p < |order| && b in order && b !in order[..p + 1]
    requires !Ahead(Repaired(g, order), order[p], b)
    ensures exists z :: z in order[..p + 1] && Reaches(g, z, b)
  {
    var out := Repaired(g, order);
    ListedOnce(g, order, order[p]);
    ListedOnce(g, order, b);
    var qx: nat :| qx < |out| && out[qx] == order[p];
    var qy: nat :| qy < |out| && out[qy] == b;
    assert order[..p + 1][p] == order[p];
    var z := MovedForReason(g, order, p, b, qx, qy);
    assert order[..p + 1][z] == order[z];
  }

  // ---------------------------------------------------------------- dependencies in declared order

  lemma {:induction false} DepsOfSplit(f: Forest, queued: set<Id>, on: seq<Id>, k: nat)
    requires k <= |on|
    ensures DepsOf(f, queued, on) == DepsOf(f, queued, on[..k]) + DepsOf(f, queued, on[k..])
    decreases k
  {
    if k > 0 {
      SplitSlices(on, k);
      DepsOfSplit(f, queued, on[1..], k - 1);
      Associative(Targets(f, queued, on[0]), DepsOf(f, queued, on[1..][..k - 1]), DepsOf(f, queued, on[k..]));
    }
  }

  /** The targets of the k-th dependency stand behind those of the ones declared before it. */
  lemma DepsOfAt(f: Forest, queued: set<Id>, on: seq<Id>, k: nat)
    requires k < |on|
    ensures DepsOf(f, queued, on)
            == DepsOf(f, queued, on[..k]) + Targets(f, queued, on[k]) + DepsOf(f, queued, on[k + 1..])
  {
    DepsOfSplit(f, queued, on, k);
    assert on[k..][0] == on[k] && on[k..][1..] == on[k + 1..];
    Associative(DepsOf(f, queued, on[..k]), Targets(f, queued, on[k]), DepsOf(f, queued, on[k + 1..]));
  }

  /** Nothing that one of the first k dependencies stands for needs t. */
  ghost predicate NotNeededBefore(items: seq<Item>, on: seq<Id>, k: nat, t: Id) {
    forall l: nat, x :: l < k && l < |on| && StandsFor(ForestOf(items), PullableIds(items), on[l], x) ==>
      !Needs(items, x, t)
  }

  /** Nothing else that d stands for needs t. */
  ghost predicate NotNeededBeside(items: seq<Item>, d: Id, t: Id) {
    forall x :: StandsFor(ForestOf(items), PullableIds(items), d, x) && x != t ==> !Needs(items, x, t)
  }

  /** Two places in the list of z's dependencies. */
  lemma ListedInOrder(items: seq<Item>, canonical: seq<Item>, priority: seq<Id>, iz: nat, i: nat, j: nat,
                      t1: Id, t2: Id)
    requires UniqueIds(items) && multiset(canonical) == multiset(items) && iz < |items| && Pullable(items[iz])
    requires var ds := DepsOf(ForestOf(items), PullableIds(items), items[iz].dependsOn);
             i < j < |ds| && ds[i] == t1 && ds[j] == t2 && forall k :: 0 <= k <= i ==> !Needs(items, ds[k], t2)
    requires t1 != items[iz].id
    requires NotNeededAhead(items, canonical, priority, items[iz].id, t1)
    requires NotNeededAhead(items, canonical, priority, items[iz].id, t2)
    ensures Ahead(Reconciled(items, canonical, priority), t1, t2)
  {
    var wanted, z := PullableIds(items), items[iz].id;
    var combined := Combined(items, canonical, priority);
    var g, ds := QueueGraph(ForestOf(items), items, wanted), DepsOf(ForestOf(items), wanted, items[iz].dependsOn);
    CombinedMembers(items, canonical, priority);
    InCombined(items, canonical, priority, z);
    QueueGraphLookup(ForestOf(items), items, wanted, iz);
    var p := Position(combined, z);
    forall x | x in combined[..p] ensures !Reaches(g, x, t1) && !Reaches(g, x, t2) {
      FrontRanksAhead(items, canonical, priority, z, x);
      NotReached(items, x, t1);
      NotReached(items, x, t2);
    }
    forall k | 0 <= k <= i ensures !Reaches(g, ds[k], t2) {
      NotReached(items, ds[k], t2);
    }
    PulledInOrder(g, combined, p, i, j);
  }

  lemma NotReached(items: seq<Item>, x: Id, y: Id)
    requires UniqueIds(items) && !Needs(items, x, y)
    ensures !Reaches(QueueGraph(ForestOf(items), items, PullableIds(items)), x, y)
  {
    if Reaches(QueueGraph(ForestOf(items), items, PullableIds(items)), x, y) {
      ReachesNeeds(items, x, y);
    }
  }

  /** Some place of t among the targets of the k-th dependency, in the list of all. */
  lemma TargetPlace(items: seq<Item>, on: seq<Id>, k: nat, t: Id) returns (i: nat)
    requires k < |on| && StandsFor(ForestOf(items), PullableIds(items), on[k], t)
    ensures var f, wanted := ForestOf(items), PullableIds(items);
            |DepsOf(f, wanted, on[..k])| <= i < |DepsOf(f, wanted, on[..k + 1])| <= |DepsOf(f, wanted, on)|
            && DepsOf(f, wanted, on)[i] == t
            && DepsOf(f, wanted, on)[..|DepsOf(f, wanted, on[..k + 1])|] == DepsOf(f, wanted, on[..k + 1])
  {
    var f, wanted := ForestOf(items), PullableIds(items);
    TargetsExact(f, wanted, on[k]);
    var m: nat :| m < |Targets(f, wanted, on[k])| && Targets(f, wanted, on[k])[m] == t;
    DepsOfAt(f, wanted, on, k);
    DepsOfSplit(f, wanted, on, k + 1);
    DepsOfAt(f, wanted, on[..k + 1], k);
    assert on[..k + 1][..k] == on[..k] && on[..k + 1][k + 1..] == [];
    i := |DepsOf(f, wanted, on[..k])| + m;
  }

  lemma {:induction false} DepsOfGrows(f: Forest, queued: set<Id>, on: seq<Id>, k: nat, n: nat)
    requires k <= n <= |on|
    ensures |DepsOf(f, queued, on[..k])| <= |DepsOf(f, queued, on[..n])|
  {
    DepsOfSplit(f, queued, on[..n], k);
    assert on[..n][..k] == on[..k];
  }

  /** What is listed for the first k dependencies one of them stands for. */
  lemma ListedFor(f: Forest, wanted: set<Id>, on: seq<Id>, k: nat, t: Id) returns (n: nat)
    requires k <= |on| && t in DepsOf(f, wanted, on[..k])
    ensures n < k && StandsFor(f, wanted, on[n], t)
  {
    DepsOfMeaning(f, wanted, on[..k], t);
    var d :| d in on[..k] && StandsFor(f, wanted, d, t);
    n :| n < |on[..k]| && on[..k][n] == d;
  }

  /** The k1-th dependency of the item at iz stands for t1, a later one for t2, and nobody needs them earlier. */
  ghost predicate DeclaredAhead(items: seq<Item>, canonical: seq<Item>, priority: seq<Id>, iz: nat, k1: nat, k2: nat,
                                t1: Id, t2: Id) {
    iz < |items| && Pullable(items[iz]) && k1 < k2 < |items[iz].dependsOn| && t1 != items[iz].id
    && StandsFor(ForestOf(items), PullableIds(items), items[iz].dependsOn[k1], t1)
    && StandsFor(ForestOf(items), PullableIds(items), items[iz].dependsOn[k2], t2)
    && NotNeededAhead(items, canonical, priority, items[iz].id, t1)
    && NotNeededAhead(items, canonical, priority, items[iz].id, t2)
    && NotNeededBefore(items, items[iz].dependsOn, k1 + 1, t2)
  }

  /**
   * Of two dependencies of an item, what the first declared stands for is put out ahead of what the second stands for:
   * unless somebody who ranks ahead of the item needs one of them, or a target declared up to the first needs the
   * second.
   */
  lemma DeclaredInOrder(items: seq<Item>, canonical: seq<Item>, priority: seq<Id>, iz: nat, k1: nat, k2: nat,
                        t1: Id, t2: Id)
    requires UniqueIds(items) && multiset(canonical) == multiset(items)
    requires DeclaredAhead(items, canonical, priority, iz, k1, k2, t1, t2)
    ensures Ahead(Reconciled(items, canonical, priority), t1, t2)
  {
    var f, wanted, on := ForestOf(items), PullableIds(items), items[iz].dependsOn;
    var ds := DepsOf(f, wanted, on);
    var i := TargetPlace(items, on, k1, t1);
    var j := TargetPlace(items, on, k2, t2);
    DepsOfGrows(f, wanted, on, k1 + 1, k2);
    forall k | 0 <= k <= i ensures !Needs(items, ds[k], t2) {
      var first := DepsOf(f, wanted, on[..k1 + 1]);
      assert ds[..|first|][k] == ds[k];
      assert ds[k] in first;
      var n := ListedFor(f, wanted, on, k1 + 1, ds[k]);
    }
    ListedInOrder(items, canonical, priority, iz, i, j, t1, t2);
  }

  // ---------------------------------------------------------------- children of an umbrella in item order

  /** The children of a parent are listed as their items are. */
  lemma {:induction false} KidsInItemOrder(items: seq<Item>, i: nat, j: nat)
    requires i < j < |items| && items[i].parent == items[j].parent != NO_PARENT
    ensures Ahead(Kids(ChildMap(items), items[i].parent), items[i].id, items[j].id)
  {
    var n := |items| - 1;
    var u := items[i].parent;
    var before := Kids(ChildMap(items[..n]), u);
    if j < n {
      assert items[..n][i] == items[i] && items[..n][j] == items[j];
      KidsInItemOrder(items[..n], i, j);
      var p, q :| 0 <= p < q < |before| && before[p] == items[i].id && before[q] == items[j].id;
      assert Kids(ChildMap(items), u)[p] == items[i].id && Kids(ChildMap(items), u)[q] == items[j].id;
    } else {
      ChildMapMeaning(items[..n], u);
      assert items[..n][i] == items[i];
      assert IsChild(items[..n], u, items[i].id);
      var p: nat :| p < |before| && before[p] == items[i].id;
      var kids := Kids(ChildMap(items), u);
      assert kids == before + [items[n].id];
      assert kids[p] == items[i].id && kids[|before|] == items[j].id;
    }
  }

  lemma {:induction false} ExpandAllSplit(f: Forest, wanted: set<Id>, ids: seq<Id>, seen: set<Id>, k: nat)
    requires k <= |ids|
    ensures var first := ExpandAll(f, wanted, ids[..k], seen);
            ExpandAll(f, wanted, ids, seen).out == first.out + ExpandAll(f, wanted, ids[k..], first.seen).out
    decreases k
  {
    if k > 0 {
      var one := ExpandFrom(f, wanted, ids[0], seen);
      SplitSlices(ids, k);
      ExpandAllSplit(f, wanted, ids[1..], one.seen, k - 1);
      var first := ExpandAll(f, wanted, ids[1..][..k - 1], one.seen);
      Associative(one.out, first.out, ExpandAll(f, wanted, ids[k..], first.seen).out);
    }
  }

  /** Wanted children stand in the expansion where they are listed. */
  lemma WantedKidsListed(f: Forest, wanted: set<Id>, kids: seq<Id>, seen: set<Id>, p: nat, q: nat)
    returns (i: nat, j: nat)
    requires p < q < |kids| && kids[p] in wanted && kids[q] in wanted
    ensures var out := ExpandAll(f, wanted, kids, seen).out;
            i < j < |out| && out[i] == kids[p] && out[j] == kids[q]
            && out[..i] == ExpandAll(f, wanted, kids[..p], seen).out
  {
    ExpandAllSplit(f, wanted, kids, seen, q);
    ExpandAllSplit(f, wanted, kids[..q], seen, p);
    assert kids[..q][..p] == kids[..p] && kids[..q][p..][0] == kids[p] && kids[q..][0] == kids[q];
    i := |ExpandAll(f, wanted, kids[..p], seen).out|;
    j := |ExpandAll(f, wanted, kids[..q], seen).out|;
  }

  lemma {:induction false} KidsDistinct(items: seq<Item>, u: Id)
    requires UniqueIds(items)
    ensures Distinct(Kids(ChildMap(items), u))
  {
    if items != [] {
      var n := |items| - 1;
      KidsDistinct(items[..n], u);
      ChildMapMeaning(items[..n], u);
      assert !IsChild(items[..n], u, items[n].id);
    }
  }

  /** Steps down go from a parent to its child. */
  lemma DownIsParent(items: seq<Item>, v: Id, j: nat)
    requires UniqueIds(items) && j < |items|
    requires Edge(Down(ForestOf(items), PullableIds(items)), v, items[j].id)
    ensures v == items[j].parent && Edge(ChildMap(items), v, items[j].id)
  {
    ChildMapMeaning(items, v);
    assert IsChild(items, v, items[j].id);
  }

  lemma DownRanks(items: seq<Item>, rank: Id -> nat)
    requires UniqueIds(items) && Ranks(ChildMap(items), rank)
    ensures Ranks(Down(ForestOf(items), PullableIds(items)), rank)
  {
    var down := Down(ForestOf(items), PullableIds(items));
    forall a, b | Edge(down, a, b) ensures rank(b) < rank(a) {
      assert Edge(ChildMap(items), a, b);
    }
  }

  /** On acyclic parents a child of u is not below another child of u. */
  lemma NotBelowSibling(items: seq<Item>, kid: Id, j: nat)
    requires UniqueIds(items) && AcyclicParents(items) && j < |items| && kid != items[j].id
    requires kid in Kids(ChildMap(items), items[j].parent)
    ensures !Reaches(Down(ForestOf(items), PullableIds(items)), kid, items[j].id)
  {
    var down := Down(ForestOf(items), PullableIds(items));
    var rank := AcyclicIsRanked(ChildMap(items));
    DownRanks(items, rank);
    assert Edge(ChildMap(items), items[j].parent, kid);
    if w :| WalkBetween(down, w, kid, items[j].id) {
      BelowParent(items, rank, w, j);
    }
  }

  /** A walk down to an item comes by its parent. */
  lemma BelowParent(items: seq<Item>, rank: Id -> nat, w: seq<Id>, j: nat)
    requires UniqueIds(items) && Ranks(Down(ForestOf(items), PullableIds(items)), rank) && j < |items|
    requires w != [] && w[0] != items[j].id
    requires WalkBetween(Down(ForestOf(items), PullableIds(items)), w, w[0], items[j].id)
    ensures rank(items[j].parent) <= rank(w[0])
  {
    var down, n := Down(ForestOf(items), PullableIds(items)), |w| - 1;
    assert n > 0 && Edge(down, w[n - 1], w[n]);
    DownIsParent(items, w[n - 1], j);
    WalkSlice(down, w, 0, n);
    RankFalls(down, rank, w[0..n]);
  }

  /** The expansion of an umbrella lists its pullable children in item order, the second not before the first. */
  lemma SiblingTargets(items: seq<Item>, i: nat, j: nat) returns (m: nat, n: nat)
    requires UniqueIds(items) && AcyclicParents(items) && i < j < |items| && Pullable(items[i]) && Pullable(items[j])
    requires items[i].parent == items[j].parent != NO_PARENT && HasKind(items, items[i].parent, Umbrella)
    ensures var out := Targets(ForestOf(items), PullableIds(items), items[i].parent);
            m < n < |out| && out[m] == items[i].id && out[n] == items[j].id && items[j].id !in out[..m + 1]
  {
    var f, wanted, u := ForestOf(items), PullableIds(items), items[i].parent;
    var kids := Kids(ChildMap(items), u);
    OwnExpansion(items, u);
    KidsInItemOrder(items, i, j);
    KidsDistinct(items, u);
    var p: nat, q: nat :| p < q < |kids| && kids[p] == items[i].id && kids[q] == items[j].id;
    m, n := KidsTargets(items, i, j, kids, p, q);
  }

  lemma KidsTargets(items: seq<Item>, i: nat, j: nat, kids: seq<Id>, p: nat, q: nat) returns (m: nat, n: nat)
    requires UniqueIds(items) && AcyclicParents(items) && i < j < |items| && Pullable(items[i]) && Pullable(items[j])
    requires kids == Kids(ChildMap(items), items[j].parent) && Distinct(kids)
    requires p < q < |kids| && kids[p] == items[i].id && kids[q] == items[j].id
    ensures var out := ExpandAll(ForestOf(items), PullableIds(items), kids, {items[j].parent}).out;
            m < n < |out| && out[m] == items[i].id && out[n] == items[j].id && items[j].id !in out[..m + 1]
  {
    var f, wanted, u := ForestOf(items), PullableIds(items), items[j].parent;
    m, n := WantedKidsListed(f, wanted, kids, {u}, p, q);
    var out := ExpandAll(f, wanted, kids, {u}).out;
    assert items[j].id !in kids[..p] by {
      assert forall x: nat :: x < p ==> kids[..p][x] == kids[x] != kids[q];
    }
    NotAmongFirst(items, kids, p, j);
    assert out[..m + 1] == out[..m] + [items[i].id];
  }

  lemma OwnExpansion(items: seq<Item>, u: Id)
    requires UniqueIds(items) && HasKind(items, u, Umbrella)
    ensures Targets(ForestOf(items), PullableIds(items), u)
            == ExpandAll(ForestOf(items), PullableIds(items), Kids(ChildMap(items), u), {u}).out
  {
    KindMapMeaning(items, u);
    UmbrellaNotPullable(items, u);
    assert {} + {u} == {u};
  }

  lemma UmbrellaNotPullable(items: seq<Item>, u: Id)
    requires UniqueIds(items) && HasKind(items, u, Umbrella)
    ensures u !in PullableIds(items)
  {
    var k: nat :| k < |items| && items[k].id == u && items[k].kind == Umbrella;
    forall l: nat | l < |items| && Pullable(items[l]) ensures items[l].id != u {
      assert l < k ==> items[l].id != items[k].id;
      assert k < l ==> items[k].id != items[l].id;
    }
  }

  lemma NotAmongFirst(items: seq<Item>, kids: seq<Id>, p: nat, j: nat)
    requires UniqueIds(items) && AcyclicParents(items) && j < |items| && p <= |kids|
    requires kids == Kids(ChildMap(items), items[j].parent) && items[j].id !in kids[..p]
    ensures items[j].id !in ExpandAll(ForestOf(items), PullableIds(items), kids[..p], {items[j].parent}).out
  {
    var f, wanted, u := ForestOf(items), PullableIds(items), items[j].parent;
    ExpandAllSound(f, wanted, kids[..p], {u});
    forall k: nat | k < p ensures !StandsFor(f, wanted, kids[..p][k], items[j].id) {
      assert kids[..p][k] == kids[k] && kids[k] in kids[..p];
      NotBelowSibling(items, kids[k], j);
    }
  }

  /** The items at i and j are pullable children of the umbrella in the k-th dependency of the item at iz. */
  ghost predicate SiblingAhead(items: seq<Item>, canonical: seq<Item>, priority: seq<Id>, iz: nat, k: nat, i: nat,
                               j: nat) {
    iz < |items| && Pullable(items[iz]) && k < |items[iz].dependsOn| && i < j < |items|
    && Pullable(items[i]) && Pullable(items[j]) && items[i].id != items[iz].id
    && items[iz].dependsOn[k] == items[i].parent == items[j].parent != NO_PARENT
    && HasKind(items, items[i].parent, Umbrella)
    && NotNeededAhead(items, canonical, priority, items[iz].id, items[i].id)
    && NotNeededAhead(items, canonical, priority, items[iz].id, items[j].id)
    && NotNeededBefore(items, items[iz].dependsOn, k, items[j].id)
    && NotNeededBeside(items, items[iz].dependsOn[k], items[j].id)
  }

  /** Two pullable children of an umbrella that an item depends on come out in item order, under the same provisos. */
  lemma SiblingsInOrder(items: seq<Item>, canonical: seq<Item>, priority: seq<Id>, iz: nat, k: nat, i: nat, j: nat)
    requires UniqueIds(items) && AcyclicParents(items) && multiset(canonical) == multiset(items)
    requires SiblingAhead(items, canonical, priority, iz, k, i, j)
    ensures Ahead(Reconciled(items, canonical, priority), items[i].id, items[j].id)
  {
    var m, n := SiblingTargets(items, i, j);
    OwnInOrder(items, canonical, priority, iz, k, m, n, items[i].id, items[j].id);
  }

  /** The targets of one dependency come out as its expansion lists them. */
  lemma OwnInOrder(items: seq<Item>, canonical: seq<Item>, priority: seq<Id>, iz: nat, k: nat, m: nat, n: nat,
                   t1: Id, t2: Id)
    requires UniqueIds(items) && multiset(canonical) == multiset(items) && iz < |items| && Pullable(items[iz])
    requires k < |items[iz].dependsOn| && t1 != items[iz].id
    requires var own := Targets(ForestOf(items), PullableIds(items), items[iz].dependsOn[k]);
             m < n < |own| && own[m] == t1 && own[n] == t2 && t2 !in own[..m + 1]
    requires NotNeededAhead(items, canonical, priority, items[iz].id, t1)
    requires NotNeededAhead(items, canonical, priority, items[iz].id, t2)
    requires NotNeededBefore(items, items[iz].dependsOn, k, t2)
    requires NotNeededBeside(items, items[iz].dependsOn[k], t2)
    ensures Ahead(Reconciled(items, canonical, priority), t1, t2)
  {
    var i, j := OwnPlaces(items, items[iz].dependsOn, k, m, n, t1, t2);
    ListedInOrder(items, canonical, priority, iz, i, j, t1, t2);
  }

  lemma OwnPlaces(items: seq<Item>, on: seq<Id>, k: nat, m: nat, n: nat, t1: Id, t2: Id) returns (i: nat, j: nat)
    requires k < |on| && NotNeededBefore(items, on, k, t2) && NotNeededBeside(items, on[k], t2)
    requires var own := Targets(ForestOf(items), PullableIds(items), on[k]);
             m < n < |own| && own[m] == t1 && own[n] == t2 && t2 !in own[..m + 1]
    ensures var ds := DepsOf(ForestOf(items), PullableIds(items), on);
            i < j < |ds| && ds[i] == t1 && ds[j] == t2 && forall l :: 0 <= l <= i ==> !Needs(items, ds[l], t2)
  {
    var f, wanted := ForestOf(items), PullableIds(items);
    i, j := OwnPlace(f, wanted, on, k, m), OwnPlace(f, wanted, on, k, n);
    var ds := DepsOf(f, wanted, on);
    forall l: nat | l <= i ensures !Needs(items, ds[l], t2) {
      NoneNeeds(items, on, k, m, l, t2);
    }
  }

  function OwnPlace(f: Forest, queued: set<Id>, on: seq<Id>, k: nat, m: nat): (i: nat)
    requires k < |on| && m < |Targets(f, queued, on[k])|
    ensures i == |DepsOf(f, queued, on[..k])| + m
    ensures i < |DepsOf(f, queued, on)| && DepsOf(f, queued, on)[i] == Targets(f, queued, on[k])[m]
  {
    DepsOfAt(f, queued, on, k);
    |DepsOf(f, queued, on[..k])| + m
  }

  lemma NoneNeeds(items: seq<Item>, on: seq<Id>, k: nat, m: nat, l: nat, t: Id)
    requires k < |on| && m < |Targets(ForestOf(items), PullableIds(items), on[k])|
    requires l <= |DepsOf(ForestOf(items), PullableIds(items), on[..k])| + m
    requires t !in Targets(ForestOf(items), PullableIds(items), on[k])[..m + 1]
    requires NotNeededBefore(items, on, k, t) && NotNeededBeside(items, on[k], t)
    ensures var ds := DepsOf(ForestOf(items), PullableIds(items), on);
            l < |ds| && !Needs(items, ds[l], t)
  {
    var f, wanted := ForestOf(items), PullableIds(items);
    var ds, before, own := DepsOf(f, wanted, on), DepsOf(f, wanted, on[..k]), Targets(f, wanted, on[k]);
    DepsOfAt(f, wanted, on, k);
    if l < |before| {
      assert ds[l] == before[l] && before[l] in before;
      var d := ListedFor(f, wanted, on, k, ds[l]);
    } else {
      TargetsExact(f, wanted, on[k]);
      assert ds[l] == own[l - |before|] == own[..m + 1][l - |before|];
      assert ds[l] in own && ds[l] in own[..m + 1];
    }
  }

  // ---------------------------------------------------------------- what a reconciled queue keeps

  ghost predicate RanksKept(items: seq<Item>, canonical: seq<Item>, priority: seq<Id>, queue: seq<Id>) {
    forall a, b ::
      (a in PullableIds(items) && b in PullableIds(items) && a != b && RanksAhead(canonical, priority, a, b)
       && NotNeededUpTo(items, canonical, priority, a, b)) ==> Ahead(queue, a, b)
  }

  ghost predicate DeclaredOrderKept(items: seq<Item>, canonical: seq<Item>, priority: seq<Id>, queue: seq<Id>) {
    forall iz: nat, k1: nat, k2: nat, t1, t2 ::
      DeclaredAhead(items, canonical, priority, iz, k1, k2, t1, t2) ==> Ahead(queue, t1, t2)
  }

  ghost predicate SiblingOrderKept(items: seq<Item>, canonical: seq<Item>, priority: seq<Id>, queue: seq<Id>) {
    forall iz: nat, k: nat, i: nat, j: nat ::
      SiblingAhead(items, canonical, priority, iz, k, i, j) ==> Ahead(queue, items[i].id, items[j].id)
  }

  /** Ranks are kept, dependencies come out as declared, and the children of an umbrella in the order of the items. */
  lemma ReconciledOrder(items: seq<Item>, canonical: seq<Item>, priority: seq<Id>)
    requires UniqueIds(items) && multiset(canonical) == multiset(items)
    ensures RanksKept(items, canonical, priority, Reconciled(items, canonical, priority))
    ensures DeclaredOrderKept(items, canonical, priority, Reconciled(items, canonical, priority))
    ensures AcyclicParents(items) ==>
              SiblingOrderKept(items, canonical, priority, Reconciled(items, canonical, priority))
  {
    var queue := Reconciled(items, canonical, priority);
    forall a, b | a in PullableIds(items) && b in PullableIds(items) && a != b
                  && RanksAhead(canonical, priority, a, b) && NotNeededUpTo(items, canonical, priority, a, b)
      ensures Ahead(queue, a, b)
    {
      KeepsRank(items, canonical, priority, a, b);
    }
    forall iz: nat, k1: nat, k2: nat, t1, t2 | DeclaredAhead(items, canonical, priority, iz, k1, k2, t1, t2)
      ensures Ahead(queue, t1, t2)
    {
      DeclaredInOrder(items, canonical, priority, iz, k1, k2, t1, t2);
    }
    if AcyclicParents(items) {
      forall iz: nat, k: nat, i: nat, j: nat | SiblingAhead(items, canonical, priority, iz, k, i, j)
        ensures Ahead(queue, items[i].id, items[j].id)
      {
        SiblingsInOrder(items, canonical, priority, iz, k, i, j);
      }
    }
  }
}
