/** Statuses of umbrellas follow from their children (tools/registry/mutators.go,
    `deriveUmbrellaStatuses`). */
module Umbrella {
  import opened Digraph
  import opened Items

  /** Position c holds a child of the item at position i. */
  predicate KidOf(items: seq<Item>, i: nat, c: nat) {
    i < |items| && c < |items| && items[c].parent != NO_PARENT && items[c].parent == items[i].id
  }

  predicate Derived(items: seq<Item>, i: nat) {
    i < |items| && items[i].kind == Umbrella && exists c: nat :: c < |items| && KidOf(items, i, c)
  }

  predicate KidsClosed(items: seq<Item>, i: nat) {
    forall c: nat :: c < |items| && KidOf(items, i, c) ==> IsClosed(items[c].status)
  }

  function Want(items: seq<Item>, i: nat): Status {
    if KidsClosed(items, i) then Done else Open
  }

  ghost predicate UpToDate(items: seq<Item>, i: nat) {
    i < |items| && Derived(items, i) ==> items[i].status == Want(items, i)
  }

  /** Every umbrella with children is DONE if all of them are DONE or WONTFIX, and OPEN otherwise. */
  ghost predicate Settled(items: seq<Item>) {
    forall i: nat :: i < |items| ==> UpToDate(items, i)
  }

  /** The same in the fields of the items. */
  lemma UpToDateMeans(items: seq<Item>, i: nat)
    requires i < |items|
    ensures UpToDate(items, i) <==>
            (items[i].kind == Umbrella && items[i].id != ""
             && (exists k :: 0 <= k < |items| && items[k].parent == items[i].id) ==>
               items[i].status
               == if forall k :: 0 <= k < |items| && items[k].parent == items[i].id ==>
                                   items[k].status in {Done, Wontfix}
                  then Done else Open)
  {
    if items[i].id != "" {
      assert forall k: nat :: k < |items| ==> (KidOf(items, i, k) <==> items[k].parent == items[i].id);
    }
  }

  /** Only statuses of umbrellas with children may differ. */
  ghost predicate SameBut(before: seq<Item>, after: seq<Item>) {
    && |after| == |before|
    && (forall i :: 0 <= i < |before| ==> after[i] == before[i].(status := after[i].status))
    && (forall i: nat :: i < |before| && !Derived(before, i) ==> after[i] == before[i])
  }

  ghost predicate AcyclicParents(items: seq<Item>) {
    Acyclic(ChildMap(items))
  }

  lemma SameButKids(before: seq<Item>, after: seq<Item>)
    requires SameBut(before, after)
    ensures forall i: nat, c: nat :: KidOf(before, i, c) <==> KidOf(after, i, c)
    ensures forall i: nat :: Derived(before, i) <==> Derived(after, i)
  {
    forall i: nat ensures Derived(before, i) <==> Derived(after, i) {
      if Derived(before, i) {
        var c: nat :| c < |before| && KidOf(before, i, c);
        assert KidOf(after, i, c);
      }
      if Derived(after, i) {
        var c: nat :| c < |after| && KidOf(after, i, c);
        assert KidOf(before, i, c);
      }
    }
  }

  // ---------------------------------------------------------------- the statuses everything converges to

  /** Children rank below their parent, position by position. */
  ghost predicate KidsRankLower(items: seq<Item>, rank: Id -> nat) {
    forall i: nat, c: nat :: KidOf(items, i, c) ==> rank(items[c].id) < rank(items[i].id)
  }

  lemma AcyclicKidsRank(items: seq<Item>) returns (rank: Id -> nat)
    requires AcyclicParents(items)
    ensures KidsRankLower(items, rank)
  {
    rank := AcyclicIsRanked(ChildMap(items));
    forall i: nat, c: nat | KidOf(items, i, c) ensures rank(items[c].id) < rank(items[i].id) {
      ChildMapMeaning(items, items[i].id);
      assert IsChild(items, items[i].id, items[c].id);
      assert Edge(ChildMap(items), items[i].id, items[c].id);
    }
  }

  ghost function Final(items: seq<Item>, rank: Id -> nat, i: nat): Status
    requires i < |items| && KidsRankLower(items, rank)
    decreases rank(items[i].id)
  {
    if !Derived(items, i) then items[i].status
    else if forall c: nat :: c < |items| && KidOf(items, i, c) ==> IsClosed(Final(items, rank, c)) then Done
    else Open
  }

  /** Two settled outcomes of the same list agree. */
  lemma {:induction false} SettledIsFinal(base: seq<Item>, rank: Id -> nat, items: seq<Item>, i: nat)
    requires KidsRankLower(base, rank) && SameBut(base, items) && Settled(items) && i < |base|
    ensures items[i].status == Final(base, rank, i)
    decreases rank(base[i].id)
  {
    SameButKids(base, items);
    assert UpToDate(items, i);
    if Derived(base, i) {
      forall c: nat | c < |base| && KidOf(base, i, c) ensures items[c].status == Final(base, rank, c) {
        SettledIsFinal(base, rank, items, c);
      }
      assert KidsClosed(items, i) <==>
             forall c: nat :: c < |base| && KidOf(base, i, c) ==> IsClosed(Final(base, rank, c));
    }
  }

  lemma SettledUnique(base: seq<Item>, a: seq<Item>, b: seq<Item>)
    requires AcyclicParents(base) && SameBut(base, a) && Settled(a) && SameBut(base, b) && Settled(b)
    ensures a == b
  {
    var rank := AcyclicKidsRank(base);
    forall i | 0 <= i < |base| ensures a[i] == b[i] {
      SettledIsFinal(base, rank, a, i);
      SettledIsFinal(base, rank, b, i);
    }
  }

  // ---------------------------------------------------------------- progress of the passes

  /** The positions in `good`, and everything below them, already have their final status. */
  ghost predicate Good(base: seq<Item>, rank: Id -> nat, items: seq<Item>, good: set<nat>)
    requires KidsRankLower(base, rank)
  {
    && SameBut(base, items)
    && (forall i :: i in good ==> i < |base| && items[i].status == Final(base, rank, i))
    && (forall i: nat, c: nat :: i in good && KidOf(base, i, c) ==> c in good)
  }

  /** The list after position i has been brought up to date. */
  function Refreshed(items: seq<Item>, i: nat): seq<Item>
    requires i < |items|
  {
    items[i := items[i].(status := Want(items, i))]
  }

  lemma RefreshedSame(base: seq<Item>, items: seq<Item>, i: nat)
    requires SameBut(base, items) && i < |items| && Derived(items, i)
    ensures SameBut(base, Refreshed(items, i))
  {
    SameButKids(base, items);
  }

  lemma WantIsFinal(base: seq<Item>, rank: Id -> nat, items: seq<Item>, good: set<nat>, i: nat)
    requires KidsRankLower(base, rank) && Good(base, rank, items, good) && i < |items| && Derived(items, i)
    requires forall c: nat :: KidOf(base, i, c) ==> c in good
    ensures Want(items, i) == Final(base, rank, i)
  {
    SameButKids(base, items);
    assert KidsClosed(items, i) <==>
           forall c: nat :: c < |base| && KidOf(base, i, c) ==> IsClosed(Final(base, rank, c));
  }

  /** Updating a position whose children are all good makes it good; no update spoils a good one. */
  lemma GoodStays(base: seq<Item>, rank: Id -> nat, items: seq<Item>, good: set<nat>, i: nat)
    requires KidsRankLower(base, rank) && Good(base, rank, items, good) && i < |items| && Derived(items, i)
    ensures Good(base, rank, Refreshed(items, i), good)
  {
    RefreshedSame(base, items, i);
    if i in good {
      WantIsFinal(base, rank, items, good, i);
    }
  }

  lemma OneMoreGood(base: seq<Item>, rank: Id -> nat, items: seq<Item>, good: set<nat>, i: nat)
    requires KidsRankLower(base, rank) && Good(base, rank, items, good) && i < |base|
    requires items[i].status == Final(base, rank, i) && forall c: nat :: KidOf(base, i, c) ==> c in good
    ensures Good(base, rank, items, good + {i})
  {
  }

  lemma UpdateKeepsGood(base: seq<Item>, rank: Id -> nat, items: seq<Item>, good: set<nat>, i: nat)
    requires KidsRankLower(base, rank) && Good(base, rank, items, good) && i < |items| && Derived(items, i)
    ensures Good(base, rank, Refreshed(items, i), good)
    ensures (forall c: nat :: KidOf(base, i, c) ==> c in good) ==> Good(base, rank, Refreshed(items, i), good + {i})
  {
    GoodStays(base, rank, items, good, i);
    if forall c: nat :: KidOf(base, i, c) ==> c in good {
      WantIsFinal(base, rank, items, good, i);
      OneMoreGood(base, rank, Refreshed(items, i), good, i);
    }
  }

  lemma SkipKeepsGood(base: seq<Item>, rank: Id -> nat, items: seq<Item>, good: set<nat>, i: nat)
    requires KidsRankLower(base, rank) && Good(base, rank, items, good) && i < |items| && !Derived(items, i)
    requires forall c: nat :: KidOf(base, i, c) ==> c in good
    ensures Good(base, rank, items, good + {i})
  {
    SameButKids(base, items);
    OneMoreGood(base, rank, items, good, i);
  }

  /** With acyclic parents, `good` is a good set; without, it says nothing. */
  ghost predicate Tracked(base: seq<Item>, rank: Id -> nat, items: seq<Item>, good: set<nat>) {
    KidsRankLower(base, rank) ==> Good(base, rank, items, good)
  }

  lemma TrackSkip(base: seq<Item>, rank: Id -> nat, items: seq<Item>, known: set<nat>, next: nat, i: nat)
    requires SameBut(base, items) && Tracked(base, rank, items, known) && i < |items| && !Derived(items, i)
    requires forall c: nat :: KidOf(base, next, c) ==> c in known
    ensures Tracked(base, rank, items, if next == i then known + {i} else known)
  {
    if KidsRankLower(base, rank) && next == i {
      SkipKeepsGood(base, rank, items, known, i);
    }
  }

  lemma TrackUpdate(base: seq<Item>, rank: Id -> nat, items: seq<Item>, known: set<nat>, next: nat, i: nat)
    requires SameBut(base, items) && Tracked(base, rank, items, known) && i < |items| && Derived(items, i)
    requires forall c: nat :: KidOf(base, next, c) ==> c in known
    ensures Tracked(base, rank, Refreshed(items, i), if next == i then known + {i} else known)
  {
    if KidsRankLower(base, rank) {
      UpdateKeepsGood(base, rank, items, known, i);
    }
  }

  /** Unless all positions are good, there is one whose children all are. */
  lemma NextGood(base: seq<Item>, rank: Id -> nat, good: set<nat>) returns (next: nat)
    requires KidsRankLower(base, rank) && exists i: nat :: i < |base| && i !in good
    ensures next < |base| && next !in good && forall c: nat :: KidOf(base, next, c) ==> c in good
  {
    var i: nat :| i < |base| && i !in good;
    next := Lowest(base, rank, good, i);
  }

  lemma {:induction false} Lowest(base: seq<Item>, rank: Id -> nat, good: set<nat>, i: nat) returns (next: nat)
    requires KidsRankLower(base, rank) && i < |base| && i !in good
    ensures next < |base| && next !in good && forall c: nat :: KidOf(base, next, c) ==> c in good
    decreases rank(base[i].id)
  {
    if c: nat :| KidOf(base, i, c) && c !in good {
      next := Lowest(base, rank, good, c);
    } else {
      next := i;
    }
  }

  lemma AllGoodIsSettled(base: seq<Item>, rank: Id -> nat, items: seq<Item>, good: set<nat>)
    requires KidsRankLower(base, rank) && Good(base, rank, items, good)
    requires forall i: nat :: i < |base| ==> i in good
    ensures Settled(items)
  {
    SameButKids(base, items);
    forall i: nat | i < |items| && Derived(items, i) ensures UpToDate(items, i) {
      WantIsFinal(base, rank, items, good, i);
    }
  }

  lemma {:induction false} GoodCount(good: set<nat>, n: nat)
    requires forall i :: i in good ==> i < n
    ensures |good| <= n
    ensures |good| == n ==> forall i: nat :: i < n ==> i in good
  {
    if n > 0 {
      GoodCount(good - {n - 1}, n - 1);
    }
  }

  // ---------------------------------------------------------------- the table of children

  predicate Listed(children: map<Id, seq<nat>>, p: Id, c: nat) {
    p in children && c in children[p]
  }

  /** The table of the first k items: each listed parent's children, by position. */
  ghost predicate KidsUpTo(items: seq<Item>, k: nat, children: map<Id, seq<nat>>)
    requires k <= |items|
  {
    && (forall p :: p in children ==> children[p] != [])
    && (forall p: Id, c: nat ::
          Listed(children, p, c) <==> c < k && items[c].parent != NO_PARENT && items[c].parent == p)
  }

  function WithKid(children: map<Id, seq<nat>>, p: Id, k: nat): map<Id, seq<nat>> {
    children[p := (if p in children then children[p] else []) + [k]]
  }

  lemma AddKid(items: seq<Item>, k: nat, children: map<Id, seq<nat>>)
    requires k < |items| && KidsUpTo(items, k, children)
    ensures KidsUpTo(items, k + 1, if items[k].parent != NO_PARENT
            then WithKid(children, items[k].parent, k) else children)
  {
    var p := items[k].parent;
    if p != NO_PARENT {
      var after := WithKid(children, p, k);
      forall q: Id, c: nat
        ensures Listed(after, q, c) <==> c < k + 1 && items[c].parent != NO_PARENT && items[c].parent == q
      {
        assert Listed(children, q, c) <==> c < k && items[c].parent != NO_PARENT && items[c].parent == q;
        assert Listed(after, q, c) <==> Listed(children, q, c) || (q == p && c == k);
      }
    }
  }

  /** The table lists exactly the children of each position. */
  ghost predicate ChildrenMatch(base: seq<Item>, children: map<Id, seq<nat>>) {
    && (forall p :: p in children ==> children[p] != [])
    && (forall i: nat, c: nat :: i < |base| ==> (Listed(children, base[i].id, c) <==> KidOf(base, i, c)))
  }

  lemma MatchDerived(base: seq<Item>, items: seq<Item>, children: map<Id, seq<nat>>, i: nat)
    requires SameBut(base, items) && ChildrenMatch(base, children) && i < |items|
    ensures Derived(items, i) <==> items[i].kind == Umbrella && items[i].id in children
    ensures forall c: nat :: Listed(children, items[i].id, c) <==> KidOf(items, i, c)
  {
    SameButKids(base, items);
    if items[i].id in children {
      assert Listed(children, items[i].id, children[items[i].id][0]);
    }
    if Derived(items, i) {
      var c: nat :| c < |items| && KidOf(items, i, c);
      assert Listed(children, base[i].id, c);
    }
  }

  ghost predicate CleanUpTo(items: seq<Item>, n: nat) {
    forall k: nat :: k < n ==> UpToDate(items, k)
  }

  lemma CleanStep(items: seq<Item>, i: nat)
    requires i < |items|
    ensures CleanUpTo(items, i) && (Derived(items, i) ==> items[i].status == Want(items, i)) ==> CleanUpTo(items, i + 1)
  {
  }

  // ---------------------------------------------------------------- the code

  /** Positions of the children of each parent id. */
  method KidPositions(items: seq<Item>) returns (children: map<Id, seq<nat>>)
    ensures ChildrenMatch(items, children)
  {
    children := map[];
    for k := 0 to |items|
      invariant KidsUpTo(items, k, children)
    {
      AddKid(items, k, children);
      var p := items[k].parent;
      if p != NO_PARENT {
        children := children[p := (if p in children then children[p] else []) + [k]];
      }
    }
  }

  method AllClosed(items: seq<Item>, i: nat, kids: seq<nat>) returns (allClosed: bool)
    requires i < |items| && forall c: nat :: c in kids <==> KidOf(items, i, c)
    ensures allClosed <==> KidsClosed(items, i)
  {
    allClosed := true;
    for k := 0 to |kids|
      invariant allClosed <==> forall j :: 0 <= j < k ==> KidOf(items, i, kids[j]) && IsClosed(items[kids[j]].status)
    {
      assert kids[k] in kids;
      if items[kids[k]].status != Done && items[kids[k]].status != Wontfix {
        allClosed := false;
      }
    }
    if allClosed {
      forall c: nat | c < |items| && KidOf(items, i, c) ensures IsClosed(items[c].status) {
        assert c in kids;
        var j :| 0 <= j < |kids| && kids[j] == c;
      }
    } else {
      var j :| 0 <= j < |kids| && !(KidOf(items, i, kids[j]) && IsClosed(items[kids[j]].status));
      assert kids[j] in kids;
    }
  }

  /** One pass over the items, in list order, each update visible to the next.  In the proof, `good`
      is a set of positions known to have their final status, and `next` one whose children are. */
  method Pass(reg: Registry, children: map<Id, seq<nat>>, ghost base: seq<Item>, ghost rank: Id -> nat,
              ghost good: set<nat>, ghost next: nat)
    returns (changed: bool)
    requires SameBut(base, reg.items) && ChildrenMatch(base, children)
    requires Tracked(base, rank, reg.items, good)
    requires forall c: nat :: KidOf(base, next, c) ==> c in good
    modifies reg`items
    ensures SameBut(base, reg.items)
    ensures !changed ==> reg.items == old(reg.items) && Settled(reg.items)
    ensures Tracked(base, rank, reg.items, if next < |base| then good + {next} else good)
  {
    changed := false;
    ghost var start := reg.items;
    for i := 0 to |reg.items|
      invariant |reg.items| == |base| && SameBut(base, reg.items)
      invariant !changed ==> reg.items == start && CleanUpTo(start, i)
      invariant Tracked(base, rank, reg.items, if next < i then good + {next} else good)
    {
      ghost var known := if next < i then good + {next} else good;
      MatchDerived(base, reg.items, children, i);
      if reg.items[i].kind != Umbrella || reg.items[i].id !in children || |children[reg.items[i].id]| == 0 {
        TrackSkip(base, rank, reg.items, known, next, i);
        CleanStep(reg.items, i);
        continue;
      }
      var allClosed := AllClosed(reg.items, i, children[reg.items[i].id]);
      var want := if allClosed then Done else Open;
      RefreshedSame(base, reg.items, i);
      TrackUpdate(base, rank, reg.items, known, next, i);
      CleanStep(reg.items, i);
      if reg.items[i].status != want {
        reg.items := reg.items[i := reg.items[i].(status := want)];
        changed := true;
      } else {
        assert Refreshed(reg.items, i) == reg.items;
      }
    }
  }

  /** On acyclic parents the passes end settled; whatever the parents, nothing else changes. */
  method DeriveUmbrellaStatuses(reg: Registry)
    modifies reg`items
    ensures SameBut(old(reg.items), reg.items)
    ensures AcyclicParents(old(reg.items)) ==> Settled(reg.items)
  {
    ghost var base := reg.items;
    var children := KidPositions(reg.items);
    ghost var rank: Id -> nat := a => 0;
    if AcyclicParents(base) {
      rank := AcyclicKidsRank(base);
    }
    ghost var good: set<nat> := {};
    var pass := 0;
    while pass <= |reg.items|
      invariant pass <= |base| + 1 && SameBut(base, reg.items) && ChildrenMatch(base, children)
      invariant Tracked(base, rank, reg.items, good)
      invariant KidsRankLower(base, rank) ==> |good| >= pass || forall i: nat :: i < |base| ==> i in good
      decreases |base| + 1 - pass
    {
      ghost var next := |base|;
      if KidsRankLower(base, rank) && exists i: nat :: i < |base| && i !in good {
        next := NextGood(base, rank, good);
        SmallerSet(good, good + {next});
      }
      var changed := Pass(reg, children, base, rank, good, next);
      if !changed {
        return;
      }
      if next < |base| { good := good + {next}; }
      pass := pass + 1;
    }
    if KidsRankLower(base, rank) {
      GoodCount(good, |base|);
      AllGoodIsSettled(base, rank, reg.items, good);
    }
  }

  lemma SmallerSet(a: set<nat>, b: set<nat>)
    requires a < b
    ensures |a| < |b|
  {
    var x :| x in b && x !in a;
    assert a <= b - {x};
    SubsetCard(a, b - {x});
  }

  lemma {:induction false} SubsetCard(a: set<nat>, b: set<nat>)
    requires a <= b
    ensures |a| <= |b|
  {
    if a != {} {
      var x :| x in a;
      SubsetCard(a - {x}, b - {x});
    }
  }
}
