/** The code that keeps the queue in order (tools/registry/mutators.go, `reconcilePriority`, `topoRepairPriority`). */
module Reconcile {
  import opened Digraph
  import opened Items
  import opened Expand
  import opened TopoRepair
  import opened Queue
  import opened Umbrella
  import opened QueueOrder

  method ExpandDeps(f: Forest, inQueue: set<Id>, on: seq<Id>) returns (ds: seq<Id>)
    ensures ds == DepsOf(f, inQueue, on)
  {
    ds := [];
    for k := 0 to |on|
      invariant DepsOf(f, inQueue, on) == ds + DepsOf(f, inQueue, on[k..])
    {
      var seen := new SeenSet();
      var targets := ExpandDepTarget(f, inQueue, on[k], seen);
      assert on[k..][0] == on[k] && on[k..][1..] == on[k + 1..];
      ds := ds + targets;
    }
  }

  method TopoRepairPriority(items: seq<Item>, order: seq<Id>) returns (out: seq<Id>)
    ensures out == Repaired(QueueGraph(ForestOf(items), items, Members(order)), order)
  {
    var inQueue := Members(order);
    var itemKind := ItemKinds(items);
    var children := ChildrenByParent(items);
    var f := Forest(itemKind, children);
    var deps: Graph := map[];
    for i := 0 to |items|
      invariant deps == QueueGraph(f, items[..i], inQueue)
    {
      assert items[..i + 1][..i] == items[..i];
      if items[i].id !in inQueue {
        continue;
      }
      var ds := ExpandDeps(f, inQueue, items[i].dependsOn);
      deps := deps[items[i].id := ds];
    }
    assert items[..|items|] == items;
    out := TopoRepair.TopoRepair(deps, order);
  }

  /** `canonical` is what `sortedItems` gives, in whichever order it sorts. */
  method ReconcilePriority(reg: Registry, canonical: seq<Item>)
    requires multiset(canonical) == multiset(reg.items)
    modifies reg`priority
    ensures reg.priority == Reconciled(reg.items, canonical, old(reg.priority))
    ensures UniqueIds(reg.items) ==> RanksKept(reg.items, canonical, old(reg.priority), reg.priority)
    ensures UniqueIds(reg.items) ==> DeclaredOrderKept(reg.items, canonical, old(reg.priority), reg.priority)
    ensures UniqueIds(reg.items) && AcyclicParents(reg.items) ==>
              SiblingOrderKept(reg.items, canonical, old(reg.priority), reg.priority)
  {
    var pullable := PullableItems(reg.items);
    var kept: seq<Id> := [];
    var inKept: set<Id> := {};
    var ranked := reg.priority;
    for i := 0 to |ranked|
      invariant kept == Filter(ranked[..i], pullable) && inKept == Members(kept)
    {
      assert ranked[..i + 1][..i] == ranked[..i];
      var id := ranked[i];
      if id in pullable {
        MembersAppend(kept, id);
        kept := kept + [id];
        inKept := inKept + {id};
      }
    }
    assert ranked[..|ranked|] == ranked;
    var newIds: seq<Id> := [];
    for i := 0 to |canonical|
      invariant newIds == NewIds(canonical[..i], pullable, inKept)
    {
      assert canonical[..i + 1][..i] == canonical[..i];
      if canonical[i].id in pullable && canonical[i].id !in inKept {
        newIds := newIds + [canonical[i].id];
      }
    }
    assert canonical[..|canonical|] == canonical;
    var repaired := TopoRepairPriority(reg.items, kept + newIds);
    reg.priority := repaired;
    if UniqueIds(reg.items) { ReconciledOrder(reg.items, canonical, ranked); }
  }
}
