/** Registry items and the lookups built from them (tools/registry/model.go, validate.go). */
module Items {
  import opened Digraph

  datatype Status = Open | InProgress | Done | Wontfix | Unrecognized(text: string)

  datatype Kind = Umbrella | OtherKind(text: string)

  /** The fields of an item that the queue depends on. */
  datatype Item = Item(id: Id, status: Status, dependsOn: seq<Id>, kind: Kind, owner: string, parent: Id)

  const NO_PARENT: Id := ""

  /** The in-memory registry: the commands overwrite its fields and its items' fields in place. */
  class Registry {
    var items: seq<Item>
    var questions: seq<Id>
    var priority: seq<Id>

    constructor (items: seq<Item>, questions: seq<Id>, priority: seq<Id>)
      ensures this.items == items && this.questions == questions && this.priority == priority
    {
      this.items, this.questions, this.priority := items, questions, priority;
    }
  }

  predicate StillOpen(s: Status) {
    s == Open || s == InProgress
  }

  predicate IsClosed(s: Status) {
    s == Done || s == Wontfix
  }

  predicate Pullable(it: Item) {
    StillOpen(it.status) && it.kind != Umbrella
  }

  ghost predicate UniqueIds(items: seq<Item>) {
    forall i, j :: 0 <= i < j < |items| ==> items[i].id != items[j].id
  }

  // ---------------------------------------------------------------- lookups, as functions of the list

  function IdsOf(items: seq<Item>): seq<Id> {
    seq(|items|, i requires 0 <= i < |items| => items[i].id)
  }

  function PullableIds(items: seq<Item>): set<Id> {
    set i | 0 <= i < |items| && Pullable(items[i]) :: items[i].id
  }

  /** Later items win, as when a map is filled in list order. */
  function KindMap(items: seq<Item>): map<Id, Kind> {
    if items == [] then map[]
    else
      var last := items[|items| - 1];
      KindMap(items[..|items| - 1])[last.id := last.kind]
  }

  function ChildMap(items: seq<Item>): map<Id, seq<Id>> {
    if items == [] then map[]
    else
      var m, last := ChildMap(items[..|items| - 1]), items[|items| - 1];
      if last.parent != NO_PARENT then m[last.parent := Kids(m, last.parent) + [last.id]] else m
  }

  function Kids(children: map<Id, seq<Id>>, p: Id): seq<Id> {
    if p in children then children[p] else []
  }

  /** Item c is listed under parent p. */
  predicate IsChild(items: seq<Item>, p: Id, c: Id) {
    p != NO_PARENT && exists i :: 0 <= i < |items| && items[i].parent == p && items[i].id == c
  }

  predicate HasKind(items: seq<Item>, id: Id, k: Kind) {
    exists i :: 0 <= i < |items| && items[i].id == id && items[i].kind == k
  }

  lemma {:induction false} KindMapMeaning(items: seq<Item>, id: Id)
    requires UniqueIds(items)
    ensures forall k :: (id in KindMap(items) && KindMap(items)[id] == k) <==> HasKind(items, id, k)
  {
    if items != [] {
      var n := |items| - 1;
      var before := items[..n];
      KindMapMeaning(before, id);
      forall k ensures (id in KindMap(items) && KindMap(items)[id] == k) <==> HasKind(items, id, k) {
        if HasKind(before, id, k) {
          var i :| 0 <= i < n && before[i].id == id && before[i].kind == k;
          assert items[i] == before[i] && items[i].id != items[n].id;
        }
        if items[n].id == id && items[n].kind == k {
          assert HasKind(items, id, k);
        }
        if i :| 0 <= i < |items| && items[i].id == id && items[i].kind == k {
          if i < n { assert before[i] == items[i]; }
        }
      }
    }
  }

  lemma {:induction false} ChildMapMeaning(items: seq<Item>, p: Id)
    ensures forall c :: c in Kids(ChildMap(items), p) <==> IsChild(items, p, c)
  {
    if items != [] {
      var n := |items| - 1;
      var before := items[..n];
      ChildMapMeaning(before, p);
      forall c ensures c in Kids(ChildMap(items), p) <==> IsChild(items, p, c) {
        if IsChild(before, p, c) {
          var i :| 0 <= i < n && before[i].parent == p && before[i].id == c;
          assert items[i] == before[i];
        }
        if i :| p != NO_PARENT && 0 <= i < |items| && items[i].parent == p && items[i].id == c {
          if i < n { assert before[i] == items[i]; }
        }
      }
    }
  }

  // ---------------------------------------------------------------- lookups, as the code fills them

  method PullableItems(items: seq<Item>) returns (out: set<Id>)
    ensures out == PullableIds(items)
    ensures forall a :: a in out <==> exists i :: 0 <= i < |items| && items[i].id == a && items[i].kind != Umbrella
                                                  && (items[i].status == Open || items[i].status == InProgress)
  {
    out := {};
    for i := 0 to |items|
      invariant out == PullableIds(items[..i])
    {
      assert items[..i + 1] == items[..i] + [items[i]];
      PullableAppend(items[..i], items[i]);
      if (items[i].status == Open || items[i].status == InProgress) && items[i].kind != Umbrella {
        out := out + {items[i].id};
      }
    }
    assert items[..|items|] == items;
  }

  lemma PullableAppend(items: seq<Item>, it: Item)
    ensures PullableIds(items + [it]) == PullableIds(items) + if Pullable(it) then {it.id} else {}
  {
    var more := items + [it];
    forall a ensures a in PullableIds(more) <==> a in PullableIds(items) || (Pullable(it) && a == it.id) {
      if a in PullableIds(items) {
        var i :| 0 <= i < |items| && Pullable(items[i]) && items[i].id == a;
        assert more[i] == items[i];
      }
      if Pullable(it) && a == it.id { assert more[|items|] == it; }
    }
  }

  method ItemKinds(items: seq<Item>) returns (kinds: map<Id, Kind>)
    ensures kinds == KindMap(items)
  {
    kinds := map[];
    for i := 0 to |items|
      invariant kinds == KindMap(items[..i])
    {
      kinds := kinds[items[i].id := items[i].kind];
      assert items[..i + 1][..i] == items[..i];
    }
    assert items[..|items|] == items;
  }

  method ChildrenByParent(items: seq<Item>) returns (out: map<Id, seq<Id>>)
    ensures out == ChildMap(items)
  {
    out := map[];
    for i := 0 to |items|
      invariant out == ChildMap(items[..i])
    {
      var it := items[i];
      if it.parent != NO_PARENT {
        out := out[it.parent := Kids(out, it.parent) + [it.id]];
      }
      assert items[..i + 1][..i] == items[..i];
    }
    assert items[..|items|] == items;
  }
}
