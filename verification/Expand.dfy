/** Dependencies on umbrellas stand for the open leaves below them
    (tools/registry/validate.go, `expandDepTarget`). */
module Expand {
  import opened Digraph
  import opened Items

  datatype Forest = Forest(kinds: map<Id, Kind>, children: map<Id, seq<Id>>)

  function ForestOf(items: seq<Item>): Forest {
    Forest(KindMap(items), ChildMap(items))
  }

  predicate IsUmbrella(f: Forest, id: Id) {
    id in f.kinds && f.kinds[id] == Umbrella
  }

  // ---------------------------------------------------------------- what an edge stands for

  /** The steps an expansion may take: from an umbrella that is not itself wanted to a child. */
  function Down(f: Forest, wanted: set<Id>): Graph {
    map u | u in f.kinds && IsUmbrella(f, u) && u !in wanted :: Kids(f.children, u)
  }

  /** Target t must precede whoever depends on dep. */
  ghost predicate StandsFor(f: Forest, wanted: set<Id>, dep: Id, t: Id) {
    t in wanted && Reaches(Down(f, wanted), dep, t)
  }

  // ---------------------------------------------------------------- the recursion as a function

  datatype Expansion = Expansion(out: seq<Id>, seen: set<Id>)

  function ExpandFrom(f: Forest, wanted: set<Id>, dep: Id, seen: set<Id>): (r: Expansion)
    ensures seen <= r.seen
    decreases f.kinds.Keys - seen, 0
  {
    if dep in wanted then Expansion([dep], seen)
    else if !IsUmbrella(f, dep) then Expansion([], seen)
    else if dep in seen then Expansion([], seen)
    else
      assert dep in f.kinds.Keys - seen && dep !in f.kinds.Keys - (seen + {dep});
      ExpandAll(f, wanted, Kids(f.children, dep), seen + {dep})
  }

  function ExpandAll(f: Forest, wanted: set<Id>, ids: seq<Id>, seen: set<Id>): (r: Expansion)
    ensures seen <= r.seen
    decreases f.kinds.Keys - seen, |ids|
  {
    if ids == [] then Expansion([], seen)
    else
      var first := ExpandFrom(f, wanted, ids[0], seen);
      var rest := ExpandAll(f, wanted, ids[1..], first.seen);
      Expansion(first.out + rest.out, rest.seen)
  }

  function Targets(f: Forest, wanted: set<Id>, dep: Id): seq<Id> {
    ExpandFrom(f, wanted, dep, {}).out
  }

  // ---------------------------------------------------------------- nothing but targets

  lemma {:induction false} ExpandFromSound(f: Forest, wanted: set<Id>, dep: Id, seen: set<Id>)
    ensures forall t :: t in ExpandFrom(f, wanted, dep, seen).out ==> StandsFor(f, wanted, dep, t)
    decreases f.kinds.Keys - seen, 0
  {
    if dep in wanted {
      ReachesSelf(Down(f, wanted), dep);
    } else if IsUmbrella(f, dep) && dep !in seen {
      assert dep in f.kinds.Keys - seen && dep !in f.kinds.Keys - (seen + {dep});
      var kids := Kids(f.children, dep);
      ExpandAllSound(f, wanted, kids, seen + {dep});
      assert ExpandFrom(f, wanted, dep, seen).out == ExpandAll(f, wanted, kids, seen + {dep}).out;
      forall t | t in ExpandFrom(f, wanted, dep, seen).out ensures StandsFor(f, wanted, dep, t) {
        var i :| 0 <= i < |kids| && StandsFor(f, wanted, kids[i], t);
        assert Edge(Down(f, wanted), dep, kids[i]);
        ReachesStep(Down(f, wanted), dep, kids[i], t);
      }
    }
  }

  lemma {:induction false} ExpandAllSound(f: Forest, wanted: set<Id>, ids: seq<Id>, seen: set<Id>)
    ensures forall t :: t in ExpandAll(f, wanted, ids, seen).out ==>
              exists i :: 0 <= i < |ids| && StandsFor(f, wanted, ids[i], t)
    decreases f.kinds.Keys - seen, |ids|
  {
    if ids != [] {
      var first := ExpandFrom(f, wanted, ids[0], seen);
      ExpandFromSound(f, wanted, ids[0], seen);
      ExpandAllSound(f, wanted, ids[1..], first.seen);
      forall t | t in ExpandAll(f, wanted, ids, seen).out
        ensures exists i :: 0 <= i < |ids| && StandsFor(f, wanted, ids[i], t)
      {
        if t in first.out {
          assert StandsFor(f, wanted, ids[0], t);
        } else {
          var i :| 0 <= i < |ids[1..]| && StandsFor(f, wanted, ids[1..][i], t);
          assert StandsFor(f, wanted, ids[i + 1], t);
        }
      }
    }
  }

  // ---------------------------------------------------------------- every target

  /** Vertex x is accounted for: listed if wanted, looked into if an umbrella. */
  predicate Handled(f: Forest, wanted: set<Id>, x: Id, out: seq<Id>, seen: set<Id>) {
    if x in wanted then x in out else IsUmbrella(f, x) ==> x in seen
  }

  /** Umbrellas looked into since `before` have all their children accounted for. */
  ghost predicate ChildrenHandled(f: Forest, wanted: set<Id>, before: set<Id>, r: Expansion) {
    forall u, c :: u in r.seen && u !in before && Edge(Down(f, wanted), u, c) ==> Handled(f, wanted, c, r.out, r.seen)
  }

  lemma {:induction false} ExpandFromComplete(f: Forest, wanted: set<Id>, dep: Id, seen: set<Id>)
    ensures var r := ExpandFrom(f, wanted, dep, seen);
            Handled(f, wanted, dep, r.out, r.seen) && ChildrenHandled(f, wanted, seen, r)
    decreases f.kinds.Keys - seen, 0
  {
    if dep !in wanted && IsUmbrella(f, dep) && dep !in seen {
      assert dep in f.kinds.Keys - seen && dep !in f.kinds.Keys - (seen + {dep});
      ExpandAllComplete(f, wanted, Kids(f.children, dep), seen + {dep});
    }
  }

  lemma {:induction false} ExpandAllComplete(f: Forest, wanted: set<Id>, ids: seq<Id>, seen: set<Id>)
    ensures var r := ExpandAll(f, wanted, ids, seen);
            ChildrenHandled(f, wanted, seen, r) && forall c :: c in ids ==> Handled(f, wanted, c, r.out, r.seen)
    decreases f.kinds.Keys - seen, |ids|
  {
    if ids != [] {
      var first := ExpandFrom(f, wanted, ids[0], seen);
      ExpandFromComplete(f, wanted, ids[0], seen);
      ExpandAllComplete(f, wanted, ids[1..], first.seen);
      var r := ExpandAll(f, wanted, ids, seen);
      forall u, c | u in r.seen && u !in seen && Edge(Down(f, wanted), u, c)
        ensures Handled(f, wanted, c, r.out, r.seen)
      {
        if u in first.seen { assert Handled(f, wanted, c, first.out, first.seen); }
      }
      forall c | c in ids ensures Handled(f, wanted, c, r.out, r.seen) {
        if c != ids[0] { assert c in ids[1..]; }
      }
    }
  }

  lemma {:induction false} HandledAlongWalk(f: Forest, wanted: set<Id>, dep: Id, p: seq<Id>, r: Expansion)
    requires Handled(f, wanted, dep, r.out, r.seen) && ChildrenHandled(f, wanted, {}, r)
    requires IsWalk(Down(f, wanted), p) && p[0] == dep
    ensures Handled(f, wanted, p[|p| - 1], r.out, r.seen)
    decreases |p|
  {
    if |p| > 1 {
      assert Edge(Down(f, wanted), p[0], p[1]);
      WalkSlice(Down(f, wanted), p, 1, |p|);
      assert p[1..|p|] == p[1..];
      HandledAlongWalk(f, wanted, p[1], p[1..], r);
    }
  }

  /** The expansion lists exactly the ids the edge stands for, even over a cycle of parents. */
  lemma TargetsExact(f: Forest, wanted: set<Id>, dep: Id)
    ensures forall t :: t in Targets(f, wanted, dep) <==> StandsFor(f, wanted, dep, t)
  {
    ExpandFromSound(f, wanted, dep, {});
    ExpandFromComplete(f, wanted, dep, {});
    forall t | StandsFor(f, wanted, dep, t) ensures t in Targets(f, wanted, dep) {
      var p :| WalkBetween(Down(f, wanted), p, dep, t);
      HandledAlongWalk(f, wanted, dep, p, ExpandFrom(f, wanted, dep, {}));
    }
  }

  // ---------------------------------------------------------------- the code

  /** The `seen` map, shared by the calls of one expansion. */
  class SeenSet {
    var ids: set<Id>

    constructor ()
      ensures ids == {}
    {
      ids := {};
    }
  }

  method ExpandDepTarget(f: Forest, pullable: set<Id>, dep: Id, seen: SeenSet) returns (out: seq<Id>)
    modifies seen
    ensures Expansion(out, seen.ids) == ExpandFrom(f, pullable, dep, old(seen.ids))
    decreases f.kinds.Keys - seen.ids
  {
    if dep in pullable {
      return [dep];
    }
    if !(dep in f.kinds && f.kinds[dep] == Umbrella) {
      return [];
    }
    if dep in seen.ids {
      return [];
    }
    seen.ids := seen.ids + {dep};
    ghost var entered := seen.ids;
    assert dep in f.kinds.Keys - old(seen.ids) && dep !in f.kinds.Keys - entered;
    var kids := Kids(f.children, dep);
    out := [];
    var i := 0;
    while i < |kids|
      invariant 0 <= i <= |kids| && entered <= seen.ids
      invariant var rest := ExpandAll(f, pullable, kids[i..], seen.ids);
                ExpandAll(f, pullable, kids, entered) == Expansion(out + rest.out, rest.seen)
    {
      var more := ExpandDepTarget(f, pullable, kids[i], seen);
      out := out + more;
      i := i + 1;
    }
  }
}
