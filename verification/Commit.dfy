/** The end of every mutation (tools/registry/mutators.go, `applyAndCommit`): sort, derive, reconcile,
    validate.  What gets through leaves the registry in the state that `Ready` and `Split` rely on. */
module Commit {
  import opened CanonicalOrder
  import opened Common
  import opened Digraph
  import opened Items
  import opened Expand
  import opened TopoRepair
  import opened Queue
  import opened Reconcile
  import opened Umbrella
  import opened Ready
  import VP = ValidatePriority
  import FC = FindCycle

  // ---------------------------------------------------------------- parent chains

  /** Later items win, as when a map is filled in list order. */
  function ParentMap(items: seq<Item>): map<Id, Id> {
    if items == [] then map[]
    else
      var m, last := ParentMap(items[..|items| - 1]), items[|items| - 1];
      if last.parent != NO_PARENT then m[last.id := last.parent] else m
  }

  function ParentGraph(parentOf: map<Id, Id>): Graph {
    map a | a in parentOf :: [parentOf[a]]
  }

  /** Going up from cur meets an id seen before. */
  predicate ChainCycles(parentOf: map<Id, Id>, cur: Id, seen: set<Id>)
    decreases parentOf.Values - seen
  {
    if cur !in parentOf then false
    else if parentOf[cur] in seen then true
    else
      assert parentOf[cur] in parentOf.Values - seen;
      ChainCycles(parentOf, parentOf[cur], seen + {parentOf[cur]})
  }

  lemma {:induction false} CycleFound(parentOf: map<Id, Id>, cur: Id, seen: set<Id>)
    requires ChainCycles(parentOf, cur, seen)
    requires forall s :: s in seen ==> Reaches(ParentGraph(parentOf), s, cur)
    ensures !Acyclic(ParentGraph(parentOf))
    decreases parentOf.Values - seen
  {
    var g, p := ParentGraph(parentOf), parentOf[cur];
    assert Edge(g, cur, p);
    if p in seen {
      var w :| WalkBetween(g, w, p, cur);
      WalkExtend(g, w, p);
      assert IsCycle(g, w + [p]);
    } else {
      assert p in parentOf.Values - seen;
      forall s | s in seen + {p} ensures Reaches(g, s, p) {
        if s == p {
          ReachesSelf(g, p);
        } else {
          var w :| WalkBetween(g, w, s, cur);
          WalkExtend(g, w, p);
          assert WalkBetween(g, w + [p], s, p);
        }
      }
      CycleFound(parentOf, p, seen + {p});
    }
  }

  lemma {:induction false} NeverLeaves(parentOf: map<Id, Id>, inside: set<Id>, cur: Id, seen: set<Id>)
    requires cur in inside && forall a :: a in inside ==> a in parentOf && parentOf[a] in inside
    ensures ChainCycles(parentOf, cur, seen)
    decreases parentOf.Values - seen
  {
    if parentOf[cur] !in seen {
      assert parentOf[cur] in parentOf.Values - seen;
      NeverLeaves(parentOf, inside, parentOf[cur], seen + {parentOf[cur]});
    }
  }

  /** Some chain cycles exactly when the parent relation has a cycle. */
  lemma ChainsFindCycles(parentOf: map<Id, Id>)
    ensures Acyclic(ParentGraph(parentOf)) <==> forall a :: a in parentOf ==> !ChainCycles(parentOf, a, {a})
  {
    var g := ParentGraph(parentOf);
    forall a ensures ChainCycles(parentOf, a, {a}) ==> !Acyclic(g) {
      if ChainCycles(parentOf, a, {a}) {
        ReachesSelf(g, a);
        CycleFound(parentOf, a, {a});
      }
    }
    if c :| IsCycle(g, c) {
      var inside := set i | 0 <= i < |c| :: c[i];
      forall a | a in inside ensures a in parentOf && parentOf[a] in inside {
        var i :| 0 <= i < |c| && c[i] == a;
        var k := if i == |c| - 1 then 0 else i;
        assert Edge(g, c[k], c[k + 1]);
      }
      assert c[0] in inside;
      NeverLeaves(parentOf, inside, c[0], {c[0]});
    }
  }

  lemma {:induction false} ParentMapMeaning(items: seq<Item>, c: Id, p: Id)
    requires UniqueIds(items)
    ensures (c in ParentMap(items) && ParentMap(items)[c] == p) <==> IsChild(items, p, c)
    ensures c in ParentMap(items) ==> HasId(items, c)
  {
    if items != [] {
      var n := |items| - 1;
      var before := items[..n];
      ParentMapMeaning(before, c, p);
      HasIdSplit(items, c);
      if IsChild(before, p, c) {
        var i :| 0 <= i < n && before[i].parent == p && before[i].id == c;
        assert items[i] == before[i] && items[i].id != items[n].id;
      }
      if items[n].parent == p && items[n].id == c && p != NO_PARENT {
        assert IsChild(items, p, c);
      }
      if i :| p != NO_PARENT && 0 <= i < |items| && items[i].parent == p && items[i].id == c {
        if i < n { assert before[i] == items[i]; }
      }
      forall i | 0 <= i < n ensures before[i].id != items[n].id {
        UniqueApart(items, i, n);
      }
    }
  }

  function Backwards(p: seq<Id>): seq<Id> {
    seq(|p|, i requires 0 <= i < |p| => p[|p| - 1 - i])
  }

  lemma ReversedCycle(g: Graph, h: Graph, c: seq<Id>)
    requires IsCycle(g, c) && forall a, b :: Edge(g, a, b) ==> Edge(h, b, a)
    ensures IsCycle(h, Backwards(c))
  {
    var r := Backwards(c);
    forall i | 0 <= i < |r| - 1 ensures Edge(h, r[i], r[i + 1]) {
      var k := |c| - 2 - i;
      assert Edge(g, c[k], c[k + 1]);
    }
  }

  lemma ParentsUpAndDown(items: seq<Item>)
    requires UniqueIds(items)
    ensures Acyclic(ParentGraph(ParentMap(items))) <==> AcyclicParents(items)
  {
    var up, down := ParentGraph(ParentMap(items)), ChildMap(items);
    forall a, b ensures Edge(up, a, b) <==> Edge(down, b, a) {
      ParentMapMeaning(items, a, b);
      ChildMapMeaning(items, b);
      assert Edge(down, b, a) <==> a in Kids(ChildMap(items), b);
    }
    if c :| IsCycle(up, c) { ReversedCycle(up, down, c); }
    if c :| IsCycle(down, c) { ReversedCycle(down, up, c); }
  }

  // ---------------------------------------------------------------- structural soundness

  function DependsGraph(items: seq<Item>): Graph {
    if items == [] then map[]
    else
      var m, last := DependsGraph(items[..|items| - 1]), items[|items| - 1];
      if last.dependsOn != [] then m[last.id := (if last.id in m then m[last.id] else []) + last.dependsOn] else m
  }

  lemma {:induction false} DependsGraphMeaning(items: seq<Item>, a: Id, b: Id)
    ensures Edge(DependsGraph(items), a, b) <==> VP.ItemDepends(items, a, b)
  {
    if items != [] {
      var n := |items| - 1;
      assert items[..n + 1] == items;
      DependsGraphMeaning(items[..n], a, b);
      VP.DependsAppend(items, n);
    }
  }

  /** The rules one item must keep, given everybody's ids, statuses and kinds. */
  predicate ItemSound(ids: set<Id>, statuses: map<Id, Status>, kinds: map<Id, Kind>, it: Item) {
    && it.id != NO_PARENT
    && (StillOpen(it.status) || IsClosed(it.status))
    && (forall k :: 0 <= k < |it.dependsOn| ==>
          it.dependsOn[k] in ids &&
          (it.status == Wontfix || it.dependsOn[k] !in statuses || statuses[it.dependsOn[k]] != Wontfix))
    && (it.parent == NO_PARENT || (it.parent in statuses && it.parent in kinds && kinds[it.parent] == Umbrella))
  }

  function AllIds(items: seq<Item>, questions: seq<Id>): set<Id> {
    (set i | 0 <= i < |items| && items[i].id != NO_PARENT :: items[i].id) +
    (set i | 0 <= i < |questions| && questions[i] != NO_PARENT :: questions[i])
  }

  /** The structural part of the validator's invariants. */
  ghost predicate Sound(items: seq<Item>, questions: seq<Id>) {
    && UniqueIds(items)
    && (forall i :: 0 <= i < |items| ==> items[i].id !in questions)
    && (forall i :: 0 <= i < |items| ==>
          ItemSound(AllIds(items, questions), StatusMap(items), KindMap(items), items[i]))
    && AcyclicParents(items)
    && Acyclic(DependsGraph(items))
  }

  /** The rules of one item, by the items themselves. */
  ghost predicate KeepsRules(items: seq<Item>, questions: seq<Id>, it: Item) {
    && it.id != "" && it.status in {Open, InProgress, Done, Wontfix}
    && (forall d :: d in it.dependsOn ==> d != "" && (d in questions || HasId(items, d)))
    && (forall j :: 0 <= j < |items| && items[j].id in it.dependsOn && items[j].status == Wontfix ==>
          it.status == Wontfix)
    && (it.parent != "" ==> exists j :: 0 <= j < |items| && items[j].id == it.parent && items[j].kind == Umbrella)
  }

  lemma DependenciesMean(items: seq<Item>, questions: seq<Id>, d: Id)
    requires UniqueIds(items)
    ensures d in AllIds(items, questions) <==> d != "" && (d in questions || HasId(items, d))
    ensures d in StatusMap(items) && StatusMap(items)[d] == Wontfix <==>
            exists j :: 0 <= j < |items| && items[j].id == d && items[j].status == Wontfix
  {
    StatusMapMeaning(items, d);
    assert d in StatusMap(items) && StatusMap(items)[d] == Wontfix <==> HasStatus(items, d, Wontfix);
  }

  lemma ParentMeans(items: seq<Item>, p: Id)
    requires UniqueIds(items)
    ensures p in StatusMap(items) && p in KindMap(items) && KindMap(items)[p] == Umbrella <==>
            exists j :: 0 <= j < |items| && items[j].id == p && items[j].kind == Umbrella
  {
    KindMapMeaning(items, p);
    StatusMapMeaning(items, p);
    assert p in KindMap(items) && KindMap(items)[p] == Umbrella <==> HasKind(items, p, Umbrella);
    if j :| 0 <= j < |items| && items[j].id == p && items[j].kind == Umbrella {
      assert HasStatus(items, p, items[j].status);
    }
  }

  lemma ItemSoundMeans(items: seq<Item>, questions: seq<Id>, it: Item)
    requires UniqueIds(items)
    ensures ItemSound(AllIds(items, questions), StatusMap(items), KindMap(items), it) <==>
            KeepsRules(items, questions, it)
  {
    var ids, statuses := AllIds(items, questions), StatusMap(items);
    ParentMeans(items, it.parent);
    if ItemSound(ids, statuses, KindMap(items), it) {
      forall d | d in it.dependsOn
        ensures d != "" && (d in questions || HasId(items, d))
        ensures it.status == Wontfix || !(d in statuses && statuses[d] == Wontfix)
      {
        var k: nat :| k < |it.dependsOn| && it.dependsOn[k] == d;
        DependenciesMean(items, questions, d);
      }
      forall j | 0 <= j < |items| && items[j].id in it.dependsOn && items[j].status == Wontfix
        ensures it.status == Wontfix
      {
        DependenciesMean(items, questions, items[j].id);
      }
    }
    if KeepsRules(items, questions, it) {
      forall k | 0 <= k < |it.dependsOn|
        ensures it.dependsOn[k] in ids
        ensures it.status == Wontfix || it.dependsOn[k] !in statuses || statuses[it.dependsOn[k]] != Wontfix
      {
        DependenciesMean(items, questions, it.dependsOn[k]);
        assert it.dependsOn[k] in it.dependsOn;
      }
    }
  }

  /** The rules in full: what the maps stand for is said by the items themselves. */
  lemma SoundMeans(items: seq<Item>, questions: seq<Id>)
    ensures Sound(items, questions) <==>
            UniqueIds(items) && (forall i :: 0 <= i < |items| ==> items[i].id !in questions)
            && (forall i :: 0 <= i < |items| ==> KeepsRules(items, questions, items[i]))
            && AcyclicParents(items) && Acyclic(DependsGraph(items))
  {
    if UniqueIds(items) {
      forall i | 0 <= i < |items|
        ensures ItemSound(AllIds(items, questions), StatusMap(items), KindMap(items), items[i]) <==>
                KeepsRules(items, questions, items[i])
      {
        ItemSoundMeans(items, questions, items[i]);
      }
    }
  }

  lemma SoundDependencies(items: seq<Item>, questions: seq<Id>)
    requires Sound(items, questions)
    ensures forall i, d :: 0 <= i < |items| && d in items[i].dependsOn ==> HasId(items, d) || d in questions
  {
    forall i, d | 0 <= i < |items| && d in items[i].dependsOn ensures HasId(items, d) || d in questions {
      var k :| 0 <= k < |items[i].dependsOn| && items[i].dependsOn[k] == d;
      assert items[i].dependsOn[k] in AllIds(items, questions);
    }
  }

  // ---------------------------------------------------------------- the code of the validator

  method UniqueCheck(items: seq<Item>, questions: seq<Id>) returns (ok: bool)
    ensures ok <==> UniqueIds(items) && forall i :: 0 <= i < |items| ==> items[i].id !in questions
  {
    ok := true;
    var seen: set<Id> := {};
    for i := 0 to |items|
      invariant forall a :: a in seen <==> HasId(items[..i], a)
      invariant ok <==> UniqueIds(items[..i]) && forall k :: 0 <= k < i ==> items[k].id !in questions
    {
      HasIdAppend(items, i);
      UniqueAppend(items, i);
      if items[i].id in seen || items[i].id in questions {
        ok := false;
      }
      seen := seen + {items[i].id};
    }
    assert items[..|items|] == items;
  }

  lemma HasIdAppend(items: seq<Item>, i: nat)
    requires i < |items|
    ensures forall a :: HasId(items[..i + 1], a) <==> HasId(items[..i], a) || a == items[i].id
  {
    forall a ensures HasId(items[..i + 1], a) <==> HasId(items[..i], a) || a == items[i].id {
      HasIdSplit(items[..i + 1], a);
      assert items[..i + 1][..i] == items[..i];
    }
  }

  lemma UniqueAppend(items: seq<Item>, i: nat)
    requires i < |items|
    ensures UniqueIds(items[..i + 1]) <==> UniqueIds(items[..i]) && !HasId(items[..i], items[i].id)
  {
    var longer, before := items[..i + 1], items[..i];
    if UniqueIds(before) && !HasId(before, items[i].id) {
      forall a, b | 0 <= a < b < |longer| ensures longer[a].id != longer[b].id {
        if b < i { assert before[a].id != before[b].id; } else { assert before[a] == longer[a]; }
      }
    }
    if UniqueIds(longer) {
      forall a, b | 0 <= a < b < |before| ensures before[a].id != before[b].id {
        assert longer[a].id != longer[b].id;
      }
      forall a | 0 <= a < |before| ensures before[a].id != items[i].id {
        assert longer[a].id != longer[i].id;
      }
    }
  }

  method CheckItem(ids: set<Id>, statuses: map<Id, Status>, kinds: map<Id, Kind>, it: Item) returns (ok: bool)
    ensures ok <==> ItemSound(ids, statuses, kinds, it)
  {
    ok := it.id != NO_PARENT;
    match it.status {
      case Unrecognized(_) => ok := false;
      case _ =>
    }
    for k := 0 to |it.dependsOn|
      invariant ok <==>
                it.id != NO_PARENT && (StillOpen(it.status) || IsClosed(it.status)) &&
                forall j :: 0 <= j < k ==>
                  it.dependsOn[j] in ids &&
                  (it.status == Wontfix || it.dependsOn[j] !in statuses || statuses[it.dependsOn[j]] != Wontfix)
    {
      var dep := it.dependsOn[k];
      if dep !in ids {
        ok := false;
      } else if it.status != Wontfix {
        if dep in statuses && statuses[dep] == Wontfix {
          ok := false;
        }
      }
    }
    if it.parent != NO_PARENT {
      if it.parent !in statuses {
        ok := false;
      } else if !(it.parent in kinds && kinds[it.parent] == Umbrella) {
        ok := false;
      }
    }
  }

  method ParentCycleCheck(items: seq<Item>) returns (ok: bool)
    requires UniqueIds(items)
    ensures ok <==> AcyclicParents(items)
  {
    var parentOf: map<Id, Id> := map[];
    for i := 0 to |items|
      invariant parentOf == ParentMap(items[..i])
    {
      assert items[..i + 1][..i] == items[..i];
      if items[i].parent != NO_PARENT {
        parentOf := parentOf[items[i].id := items[i].parent];
      }
    }
    assert items[..|items|] == items;
    ok := true;
    for i := 0 to |items|
      invariant ok <==> forall k :: 0 <= k < i ==> !ChainCycles(parentOf, items[k].id, {items[k].id})
    {
      var cycles := ClimbParents(parentOf, items[i].id);
      if cycles {
        ok := false;
      }
    }
    ChainsFindCycles(parentOf);
    ParentsUpAndDown(items);
    forall a | a in parentOf ensures exists k :: 0 <= k < |items| && items[k].id == a {
      ParentMapMeaning(items, a, parentOf[a]);
    }
    assert ok <==> forall a :: a in parentOf ==> !ChainCycles(parentOf, a, {a});
  }

  method ClimbParents(parentOf: map<Id, Id>, id: Id) returns (cycles: bool)
    ensures cycles <==> ChainCycles(parentOf, id, {id})
  {
    var seen := {id};
    var cur := id;
    while cur in parentOf
      invariant ChainCycles(parentOf, id, {id}) <==> ChainCycles(parentOf, cur, seen)
      decreases parentOf.Values - seen
    {
      var p := parentOf[cur];
      if p in seen {
        return true;
      }
      assert p in parentOf.Values - seen;
      seen := seen + {p};
      cur := p;
    }
    return false;
  }

  method DependencyCycleCheck(items: seq<Item>) returns (ok: bool)
    ensures ok <==> Acyclic(DependsGraph(items))
  {
    var adj: Graph := map[];
    for i := 0 to |items|
      invariant adj == DependsGraph(items[..i])
    {
      assert items[..i + 1][..i] == items[..i];
      if |items[i].dependsOn| > 0 {
        adj := adj[items[i].id := (if items[i].id in adj then adj[items[i].id] else []) + items[i].dependsOn];
      }
    }
    assert items[..|items|] == items;
    var cycle := FC.FindCycle(adj);
    ok := |cycle| == 0;
  }

  /** The structural checks find fault exactly with unsound registries. */
  method ValidateStructure(items: seq<Item>, questions: seq<Id>) returns (ok: bool)
    ensures ok <==> Sound(items, questions)
  {
    var statuses := ItemStatuses(items);
    var kinds := ItemKinds(items);
    var ids := AllIds(items, questions);
    var unique := UniqueCheck(items, questions);
    if !unique {
      return false;
    }
    ok := true;
    for i := 0 to |items|
      invariant ok <==> forall k :: 0 <= k < i ==> ItemSound(ids, statuses, kinds, items[k])
    {
      var fine := CheckItem(ids, statuses, kinds, items[i]);
      if !fine {
        ok := false;
      }
    }
    var parents := ParentCycleCheck(items);
    var depends := DependencyCycleCheck(items);
    ok := ok && parents && depends;
  }

  // ---------------------------------------------------------------- sorting

  lemma {:induction false} ChildMapSame(before: seq<Item>, after: seq<Item>)
    requires |before| == |after|
    requires forall i :: 0 <= i < |before| ==> before[i].id == after[i].id && before[i].parent == after[i].parent
    ensures ChildMap(before) == ChildMap(after)
  {
    if before != [] {
      ChildMapSame(before[..|before| - 1], after[..|after| - 1]);
    }
  }

  // ---------------------------------------------------------------- the pipeline

  /** The registry as written to disk, if it was; the queue only when there is a priority file. */
  datatype Outcome = Rejected | Written(items: seq<Item>, questions: seq<Id>, priority: Option<seq<Id>>)

  /** The canonical orders of item ids and of question ids. */
  datatype IdOrders = IdOrders(items: (Id, Id) -> bool, questions: (Id, Id) -> bool)

  ghost predicate Sorted(items: seq<Item>, sorted: seq<Item>, orders: IdOrders) {
    multiset(sorted) == multiset(items) &&
    (StrictOrder(ByItemId(orders.items)) ==> StablySorted(items, sorted, ByItemId(orders.items)))
  }

  ghost predicate SortedQuestions(questions: seq<Id>, sorted: seq<Id>, orders: IdOrders) {
    multiset(sorted) == multiset(questions) &&
    (StrictOrder(orders.questions) ==> StablySorted(questions, sorted, orders.questions))
  }

  /** The expanded dependencies of the queued ids do not run in a circle. */
  ghost predicate QueueAcyclic(items: seq<Item>) {
    Acyclic(WithoutLoops(QueueGraph(ForestOf(items), items, PullableIds(items))))
  }

  /** What the queue is after reconciling, some canonical order of the items being walked for the new ids. */
  ghost predicate ReconciledFrom(items: seq<Item>, orders: IdOrders, was: seq<Id>, now: seq<Id>) {
    exists canonical :: Sorted(items, canonical, orders) && now == Reconciled(items, canonical, was)
  }

  /** The validators have nothing against the registry, and no check outside this model either. */
  ghost predicate Accepted(items: seq<Item>, questions: seq<Id>, priority: seq<Id>, otherFaults: bool) {
    !otherFaults && Sound(items, questions) && (priority == [] || ValidQueue(items, priority))
  }

  /** Sort items and questions, derive the umbrellas, reconcile the queue if it is kept in a file. */
  method Prepare(reg: Registry, orders: IdOrders, ranked: bool) returns (ghost sorted: seq<Item>)
    modifies reg
    ensures Sorted(old(reg.items), sorted, orders) && SameBut(sorted, reg.items)
    ensures AcyclicParents(sorted) ==> Settled(reg.items)
    ensures SortedQuestions(old(reg.questions), reg.questions, orders)
    ensures ranked ==> ReconciledFrom(reg.items, orders, old(reg.priority), reg.priority)
    ensures !ranked ==> reg.priority == old(reg.priority)
  {
    var ordered := SortStable(reg.items, ByItemId(orders.items));
    sorted := ordered;
    reg.items := ordered;
    var questions := SortStable(reg.questions, orders.questions);
    reg.questions := questions;
    DeriveUmbrellaStatuses(reg);
    if ranked {
      var canonical := SortStable(reg.items, ByItemId(orders.items));
      ReconcilePriority(reg, canonical);
      assert Sorted(reg.items, canonical, orders);
    }
  }

  /** All messages together: the structural ones and, when there is a queue, those about it. */
  method Validate(reg: Registry, otherFaults: bool) returns (ok: bool)
    ensures ok <==> Accepted(reg.items, reg.questions, reg.priority, otherFaults)
  {
    var sound := ValidateStructure(reg.items, reg.questions);
    var faults: seq<VP.PriorityError> := [];
    if |reg.priority| > 0 {
      faults := VP.ValidatePriority(reg.items, reg.priority);
    }
    ok := !otherFaults && sound && |faults| == 0;
  }

  /**
   * The end of every command. `otherFaults` stands for the checks this model leaves out (id grammar, text lengths,
   * pull requests); `ranked` says whether there is a priority file.
   */
  method ApplyAndCommit(reg: Registry, orders: IdOrders, ranked: bool, otherFaults: bool)
    returns (outcome: Outcome, ghost sorted: seq<Item>)
    modifies reg
    ensures Sorted(old(reg.items), sorted, orders) && SameBut(sorted, reg.items)
    ensures AcyclicParents(sorted) ==> Settled(reg.items)
    ensures SortedQuestions(old(reg.questions), reg.questions, orders)
    ensures ranked ==> ReconciledFrom(reg.items, orders, old(reg.priority), reg.priority)
    ensures !ranked ==> reg.priority == old(reg.priority)
    ensures outcome.Written? <==> Accepted(reg.items, reg.questions, reg.priority, otherFaults)
    ensures ranked ==>
              (outcome.Written? <==> !otherFaults && Sound(reg.items, reg.questions) && QueueAcyclic(reg.items))
    ensures outcome.Written? ==>
              outcome == Written(reg.items, reg.questions, if ranked then Some(reg.priority) else None)
    ensures outcome.Written? && ranked ==> Committed(reg.items, reg.questions, reg.priority)
  {
    sorted := Prepare(reg, orders, ranked);
    var ok := Validate(reg, otherFaults);
    if ranked && Sound(reg.items, reg.questions) {
      SoundIsSettled(sorted, reg.items, reg.questions);
      RankedMeansCommitted(reg.items, reg.questions, orders, old(reg.priority), reg.priority);
    }
    if !ok {
      return Rejected, sorted;
    }
    return Written(reg.items, reg.questions, if ranked then Some(reg.priority) else None), sorted;
  }

  lemma SoundIsSettled(sorted: seq<Item>, items: seq<Item>, questions: seq<Id>)
    requires SameBut(sorted, items) && Sound(items, questions) && (AcyclicParents(sorted) ==> Settled(items))
    ensures Settled(items)
  {
    ChildMapSame(sorted, items);
  }

  lemma RankedMeansCommitted(items: seq<Item>, questions: seq<Id>, orders: IdOrders, was: seq<Id>, queue: seq<Id>)
    requires Sound(items, questions) && Settled(items) && ReconciledFrom(items, orders, was, queue)
    ensures QueueAcyclic(items) <==> queue == [] || ValidQueue(items, queue)
    ensures QueueAcyclic(items) <==> Committed(items, questions, queue)
  {
    var canonical :| Sorted(items, canonical, orders) && queue == Reconciled(items, canonical, was);
    PassesMeanCommitted(items, questions, canonical, was);
  }

  lemma PassesMeanCommitted(items: seq<Item>, questions: seq<Id>, canonical: seq<Item>, was: seq<Id>)
    requires Sound(items, questions) && Settled(items) && multiset(canonical) == multiset(items)
    ensures var queue := Reconciled(items, canonical, was);
            (QueueAcyclic(items) <==> Committed(items, questions, queue)) &&
            (QueueAcyclic(items) <==> queue == [] || ValidQueue(items, queue))
  {
    SoundDependencies(items, questions);
    ReconciledIsValid(items, canonical, was);
    var queue := Reconciled(items, canonical, was);
    if queue == [] {
      assert Members(queue) == {};
      assert ValidQueue(items, queue);
    }
  }

  /** The registry whose head is held back by its own umbrella passes the structural checks as well. */
  lemma OwnUmbrellaPasses(items: seq<Item>)
    requires items == [Item("i1", Open, [], Kind.Umbrella, "agent", NO_PARENT),
                       Item("i1a", Open, ["i1"], OtherKind("leaf"), "agent", "i1")]
    ensures Sound(items, []) && QueueAcyclic(items) && Committed(items, [], ["i1a"])
    ensures !ReadyIn(items, [], items[1])
  {
    OwnUmbrellaBlocks(items);
    var ids := AllIds(items, []);
    assert items[0].id in ids && items[1].id in ids;
    StatusMapMeaning(items, "i1");
    KindMapMeaning(items, "i1");
    assert HasStatus(items, "i1", Open) && HasKind(items, "i1", Kind.Umbrella);
    assert items[1].dependsOn == ["i1"];
    OneDependency(items);
    OwnUmbrellaQueue(items);
  }

  lemma OneDependency(items: seq<Item>)
    requires |items| == 2 && items[0].dependsOn == [] && items[1].dependsOn == [items[0].id]
    requires items[0].id != items[1].id
    ensures Acyclic(DependsGraph(items))
  {
    var rank: Id -> nat := a => if a == items[1].id then 1 else 0;
    forall a, b | Edge(DependsGraph(items), a, b) ensures rank(b) < rank(a) {
      DependsGraphMeaning(items, a, b);
    }
    RankedIsAcyclic(DependsGraph(items), rank);
  }

  /** A valid queue has no circle but self-loops behind it. */
  lemma OwnUmbrellaQueue(items: seq<Item>)
    requires UniqueIds(items) && ValidQueue(items, ["i1a"])
    ensures QueueAcyclic(items)
  {
    ValidReconciled(items, items, ["i1a"]);
    ReconciledIsValid(items, items, ["i1a"]);
  }
}
