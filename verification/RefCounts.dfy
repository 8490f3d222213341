/** The reference counts of the ZX0 block pool, on values: what `allocate` and `assign` do to the heap. */
module RefCounts {
  import opened Common

  datatype Opt<B> = Null | Ref(b: B)

  /** What a block records besides its chain pointer. */
  datatype Data = Data(bits: int, index: int, offset: int)

  /**
   * order: the blocks ever handed out; chain, data, refs: their fields; ghosts: the list at ghost_root, which
   * holds blocks to be used again; slots: the pointers the caller keeps (the arrays of optimize).
   */
  datatype State<B(==)> = State(order: seq<B>, chain: map<B, Opt<B>>, data: map<B, Data>, refs: map<B, int>,
                   ghosts: seq<B>, slots: seq<Opt<B>>)

  predicate IsRef<B(==)>(o: Opt<B>, b: B) { o == Ref(b) }

  function One(p: bool): nat { if p then 1 else 0 }

  /** How many blocks of the list point to b. */
  function InChains<B(==)>(order: seq<B>, chain: map<B, Opt<B>>, b: B): nat
    requires forall x :: x in order ==> x in chain
  {
    if order == [] then 0
    else InChains(order[..|order| - 1], chain, b) + One(IsRef(chain[order[|order| - 1]], b))
  }

  function InSlots<B(==)>(slots: seq<Opt<B>>, b: B): nat {
    if slots == [] then 0 else InSlots(slots[..|slots| - 1], b) + One(IsRef(slots[|slots| - 1], b))
  }

  predicate Known<B(==)>(s: State<B>, o: Opt<B>) {
    o.Ref? ==> o.b in s.order
  }

  /** Every pointer leads to a block that was handed out, every such block has its fields. */
  ghost predicate WellFormed<B>(s: State<B>) {
    Distinct(s.order)
    && (forall x :: x in s.order ==> x in s.chain && x in s.data && x in s.refs && Known(s, s.chain[x]))
    && (forall i: nat :: i < |s.slots| ==> Known(s, s.slots[i]))
    && (forall x :: x in s.ghosts ==> x in s.order)
  }

  function Count<B(==)>(s: State<B>, b: B): nat
    requires forall x :: x in s.order ==> x in s.chain
  {
    InChains(s.order, s.chain, b) + InSlots(s.slots, b)
  }

  /** The counts are exact, and the ghost list holds distinct blocks nothing points to. */
  ghost predicate Inv<B>(s: State<B>) {
    WellFormed(s)
    && (forall b :: b in s.order ==> s.refs[b] == Count(s, b))
    && Distinct(s.ghosts)
    && (forall b :: b in s.ghosts ==> s.refs[b] == 0)
  }

  // ---------------------------------------------------------------- the two operations

  /** --o->references, and onto the ghost list when that was the last. */
  function Release<B(==)>(s: State<B>, o: Opt<B>): State<B>
    requires o.Ref? ==> o.b in s.refs
  {
    match o
    case Null => s
    case Ref(b) =>
      var n := s.refs[b] - 1;
      s.(refs := s.refs[b := n], ghosts := if n == 0 then [b] + s.ghosts else s.ghosts)
  }

  function Retain<B(==)>(s: State<B>, o: Opt<B>): State<B>
    requires o.Ref? ==> o.b in s.refs
  {
    match o
    case Null => s
    case Ref(b) => s.(refs := s.refs[b := s.refs[b] + 1])
  }

  /** The block `allocate` returns: the first ghost, or else the next of the dead array. */
  function Chosen<B(==)>(s: State<B>, unused: B): B {
    if s.ghosts == [] then unused else s.ghosts[0]
  }

  /** The ghost list without the chosen block, whose hold on its chain is given up. */
  function Recycled<B(==)>(s: State<B>): State<B>
    requires s.ghosts != [] ==>
               s.ghosts[0] in s.chain && (s.chain[s.ghosts[0]].Ref? ==> s.chain[s.ghosts[0]].b in s.refs)
  {
    if s.ghosts == [] then s
    else Release(s.(ghosts := s.ghosts[1..]), s.chain[s.ghosts[0]])
  }

  /** The fields of p set for a new use, its new chain counted. */
  ghost function Filled<B>(s: State<B>, p: B, d: Data, chain: Opt<B>): State<B>
    requires chain.Ref? ==> chain.b in s.refs
  {
    var s1 := Retain(s, chain);
    s1.(order := if p in s1.order then s1.order else s1.order + [p],
        chain := s1.chain[p := chain], data := s1.data[p := d], refs := s1.refs[p := 0])
  }

  /** allocate(bits, index, offset, chain) */
  ghost function Allocate<B>(s: State<B>, unused: B, d: Data, chain: Opt<B>): State<B>
    requires WellFormed(s) && Known(s, chain)
  {
    Filled(Recycled(s), Chosen(s, unused), d, chain)
  }

  /** assign(&slots[i], chain) */
  ghost function Assign<B>(s: State<B>, i: nat, chain: B): State<B>
    requires WellFormed(s) && i < |s.slots| && chain in s.order
  {
    var s1 := Release(Retain(s, Ref(chain)), s.slots[i]);
    s1.(slots := s.slots[i := Ref(chain)])
  }

  lemma RecycledKeeps<B>(s: State<B>, chain: Opt<B>)
    requires WellFormed(s) && Known(s, chain)
    ensures Recycled(s).order == s.order && Recycled(s).slots == s.slots && (chain.Ref? ==> chain.b in Recycled(s).refs)
  {
  }

  /** Filling is setting the data, counting the chain, linking the block -- in that order. */
  lemma FilledInSteps<B>(s: State<B>, p: B, d: Data, chain: Opt<B>)
    requires chain.Ref? ==> chain.b in s.refs
    ensures var s1 := Retain(s.(data := s.data[p := d]), chain);
            Filled(s, p, d, chain)
            == s1.(order := if p in s1.order then s1.order else s1.order + [p],
                   chain := s1.chain[p := chain], refs := s1.refs[p := 0])
  {
  }

  lemma FillAppends<B>(s: State<B>, p: B, d: Data, chain: Opt<B>)
    requires chain.Ref? ==> chain.b in s.refs
    ensures var n := Filled(s, p, d, chain);
            n.slots == s.slots && n.ghosts == s.ghosts && forall x :: x in n.order ==> x in s.order || x == p
  {
  }

  // ---------------------------------------------------------------- counting

  lemma {:induction false} ChainsWithUpdate<B>(order: seq<B>, chain: map<B, Opt<B>>, x: B, v: Opt<B>, b: B)
    requires Distinct(order) && forall y :: y in order ==> y in chain
    ensures InChains(order, chain[x := v], b)
            == if x in order then InChains(order, chain, b) - One(IsRef(chain[x], b)) + One(IsRef(v, b))
               else InChains(order, chain, b)
  {
    if order != [] {
      var n := |order| - 1;
      ChainsWithUpdate(order[..n], chain, x, v, b);
      assert order == order[..n] + [order[n]];
    }
  }

  lemma {:induction false} SlotsWithUpdate<B>(slots: seq<Opt<B>>, i: nat, v: Opt<B>, b: B)
    requires i < |slots|
    ensures InSlots(slots[i := v], b) == InSlots(slots, b) - One(IsRef(slots[i], b)) + One(IsRef(v, b))
  {
    var n := |slots| - 1;
    if i < n {
      SlotsWithUpdate(slots[..n], i, v, b);
      assert slots[i := v][..n] == slots[..n][i := v];
    } else {
      assert slots[i := v][..n] == slots[..n];
    }
  }

  lemma {:induction false} ChainsSeen<B>(order: seq<B>, chain: map<B, Opt<B>>, x: B, b: B)
    requires (forall y :: y in order ==> y in chain) && x in order && IsRef(chain[x], b)
    ensures InChains(order, chain, b) > 0
  {
    var n := |order| - 1;
    if order[n] != x {
      assert order == order[..n] + [order[n]];
      ChainsSeen(order[..n], chain, x, b);
    }
  }

  lemma {:induction false} SlotsSeen<B>(slots: seq<Opt<B>>, i: nat, b: B)
    requires i < |slots| && IsRef(slots[i], b)
    ensures InSlots(slots, b) > 0
  {
    if i < |slots| - 1 {
      SlotsSeen(slots[..|slots| - 1], i, b);
    }
  }

  /** Nothing points to a block outside `order`. */
  lemma {:induction false} ChainsUnseen<B>(order: seq<B>, chain: map<B, Opt<B>>, b: B)
    requires forall y :: y in order ==> y in chain && !IsRef(chain[y], b)
    ensures InChains(order, chain, b) == 0
  {
    if order != [] {
      ChainsUnseen(order[..|order| - 1], chain, b);
    }
  }

  lemma {:induction false} SlotsUnseen<B>(slots: seq<Opt<B>>, b: B)
    requires forall i: nat :: i < |slots| ==> !IsRef(slots[i], b)
    ensures InSlots(slots, b) == 0
  {
    if slots != [] {
      SlotsUnseen(slots[..|slots| - 1], b);
    }
  }

  // ---------------------------------------------------------------- what the operations keep

  /** A ghost block is pointed to by nothing. */
  lemma GhostsUnseen<B>(s: State<B>, g: B)
    requires Inv(s) && g in s.ghosts
    ensures forall x :: x in s.order ==> !IsRef(s.chain[x], g)
    ensures forall i: nat :: i < |s.slots| ==> !IsRef(s.slots[i], g)
  {
    forall x | x in s.order ensures !IsRef(s.chain[x], g) {
      if IsRef(s.chain[x], g) { ChainsSeen(s.order, s.chain, x, g); }
    }
    forall i: nat | i < |s.slots| ensures !IsRef(s.slots[i], g) {
      if IsRef(s.slots[i], g) { SlotsSeen(s.slots, i, g); }
    }
  }

  /** The callers' duty: the new chain is not a ghost, nor about to become one when the chosen block lets go of it. */
  predicate SafeChain<B(==)>(s: State<B>, chain: Opt<B>)
    requires forall x :: x in s.ghosts ==> x in s.chain
    requires Known(s, chain) && forall x :: x in s.order ==> x in s.refs
  {
    chain.Ref? ==>
      chain.b !in s.ghosts && !(s.ghosts != [] && s.chain[s.ghosts[0]] == chain && s.refs[chain.b] == 1)
  }

  predicate HeldByRoot<B(==)>(s: State<B>, b: B) {
    exists i: nat :: i < |s.slots| && s.slots[i] == Ref(b)
  }

  /** A block that a slot points to is always safe to chain to. */
  lemma RootsAreSafe<B>(s: State<B>, b: B)
    requires Inv(s) && HeldByRoot(s, b)
    ensures b in s.order && SafeChain(s, Ref(b))
  {
    var i: nat :| i < |s.slots| && s.slots[i] == Ref(b);
    assert Known(s, s.slots[i]);
    SlotsSeen(s.slots, i, b);
    if s.ghosts != [] && s.chain[s.ghosts[0]] == Ref(b) {
      ChainsSeen(s.order, s.chain, s.ghosts[0], b);
    }
  }

  // ---------------------------------------------------------------- allocate

  /** When the ghost list is empty, the block the dead array offers was never handed out. */
  predicate Offered<B(==)>(s: State<B>, unused: B) {
    s.ghosts == [] ==> unused !in s.order
  }

  lemma AllocatedIsWellFormed<B>(s: State<B>, unused: B, d: Data, chain: Opt<B>)
    requires Inv(s) && Known(s, chain) && Offered(s, unused)
    ensures WellFormed(Allocate(s, unused, d, chain))
  {
    var s' := Allocate(s, unused, d, chain);
    forall i: nat | i < |s'.slots| ensures Known(s', s'.slots[i]) { assert Known(s, s.slots[i]); }
    forall x | x in s'.order
      ensures x in s'.chain && x in s'.data && x in s'.refs && Known(s', s'.chain[x])
    {
      assert x in s.order ==> Known(s, s.chain[x]);
    }
    GhostsAfter(s, unused, d, chain);
  }

  lemma GhostsAfter<B>(s: State<B>, unused: B, d: Data, chain: Opt<B>)
    requires Inv(s) && Known(s, chain) && Offered(s, unused)
    ensures forall x :: x in Allocate(s, unused, d, chain).ghosts ==> x in s.order
  {
    if s.ghosts != [] {
      assert Known(s, s.chain[s.ghosts[0]]);
    }
  }

  lemma NewIsUnseen<B>(s: State<B>, b: B)
    requires WellFormed(s) && b !in s.order
    ensures Count(s, b) == 0
  {
    ChainsUnseen(s.order, s.chain, b);
    forall i: nat | i < |s.slots| ensures !IsRef(s.slots[i], b) { assert Known(s, s.slots[i]); }
    SlotsUnseen(s.slots, b);
  }

  lemma DeadCounts<B>(s: State<B>, unused: B, d: Data, chain: Opt<B>, b: B)
    requires Inv(s) && Known(s, chain) && unused !in s.order && s.ghosts == [] && (b in s.order || b == unused)
    ensures var s' := Allocate(s, unused, d, chain);
            s'.order == s.order + [unused] && s'.chain == s.chain[unused := chain]
            && s'.refs[b] == (if b == unused then 0 else s.refs[b] + One(IsRef(chain, b)))
            && Count(s', b) == (if b == unused then 0 else Count(s, b) + One(IsRef(chain, b)))
  {
    var s' := Allocate(s, unused, d, chain);
    NewIsUnseen(s, unused);
    assert s'.order[..|s'.order| - 1] == s.order;
    ChainsWithUpdate(s.order, s.chain, unused, chain, b);
  }

  lemma AllocatedFromDead<B>(s: State<B>, unused: B, d: Data, chain: Opt<B>)
    requires Inv(s) && Known(s, chain) && Offered(s, unused) && s.ghosts == []
    ensures Inv(Allocate(s, unused, d, chain))
  {
    var s' := Allocate(s, unused, d, chain);
    AllocatedIsWellFormed(s, unused, d, chain);
    forall b | b in s'.order ensures s'.refs[b] == Count(s', b) {
      DeadCounts(s, unused, d, chain, b);
    }
  }

  /** The counts after a recycling allocation, whatever the chain argument. */
  lemma RecycledCounts<B>(s: State<B>, unused: B, d: Data, chain: Opt<B>, b: B)
    requires Inv(s) && Known(s, chain) && s.ghosts != [] && b in s.order
    ensures var s' := Allocate(s, unused, d, chain);
            var p := s.ghosts[0];
            Count(s', b) == Count(s, b) - One(IsRef(s.chain[p], b)) + One(IsRef(chain, b))
            && (b != p ==> s'.refs[b] == s.refs[b] - One(IsRef(s.chain[p], b)) + One(IsRef(chain, b)))
  {
    ChainsWithUpdate(s.order, s.chain, s.ghosts[0], chain, b);
  }

  /** The ghost list after a safe recycling allocation. */
  lemma RecycledGhosts<B>(s: State<B>, unused: B, d: Data, chain: Opt<B>)
    requires Inv(s) && Known(s, chain) && s.ghosts != [] && SafeChain(s, chain)
    ensures var s' := Allocate(s, unused, d, chain);
            Distinct(s'.ghosts) && forall b :: b in s'.ghosts ==> s'.refs[b] == 0
  {
    var p := s.ghosts[0];
    GhostsUnseen(s, p);
    if s.chain[p].Ref? { ChainsSeen(s.order, s.chain, p, s.chain[p].b); }
  }

  lemma AllocatedFromGhosts<B>(s: State<B>, unused: B, d: Data, chain: Opt<B>)
    requires Inv(s) && Known(s, chain) && Offered(s, unused) && s.ghosts != [] && SafeChain(s, chain)
    ensures Inv(Allocate(s, unused, d, chain))
  {
    var s' := Allocate(s, unused, d, chain);
    GhostsUnseen(s, s.ghosts[0]);
    AllocatedIsWellFormed(s, unused, d, chain);
    RecycledGhosts(s, unused, d, chain);
    forall b | b in s'.order ensures s'.refs[b] == Count(s', b) { RecycledCounts(s, unused, d, chain, b); }
  }

  lemma UnsafeBreaks<B>(s: State<B>, unused: B, d: Data, chain: Opt<B>)
    requires Inv(s) && Known(s, chain) && s.ghosts != [] && !SafeChain(s, chain)
    ensures !Inv(Allocate(s, unused, d, chain))
  {
    var s' := Allocate(s, unused, d, chain);
    var p := s.ghosts[0];
    GhostsUnseen(s, p);
    RecycledCounts(s, unused, d, chain, chain.b);
    if chain.b == p {
      assert s'.refs[p] == 0 && Count(s', p) == 1;
    } else if chain.b in s.ghosts {
      GhostsUnseen(s, chain.b);
      assert s.ghosts == [p] + s.ghosts[1..];
      assert chain.b in s.ghosts[1..];
      assert s'.refs[chain.b] == 1;
    } else {
      assert s'.ghosts == [chain.b] + s.ghosts[1..];
      assert s'.refs[chain.b] == 1;
    }
  }

  /** An allocation keeps the pool sound exactly when its chain argument is safe. */
  lemma AllocateKeepsInv<B>(s: State<B>, unused: B, d: Data, chain: Opt<B>)
    requires Inv(s) && Known(s, chain) && Offered(s, unused)
    ensures Inv(Allocate(s, unused, d, chain)) <==> SafeChain(s, chain)
  {
    if s.ghosts == [] {
      AllocatedFromDead(s, unused, d, chain);
    } else if SafeChain(s, chain) {
      AllocatedFromGhosts(s, unused, d, chain);
    } else {
      UnsafeBreaks(s, unused, d, chain);
    }
  }

  /** The block returned was not in use: no pointer led to it, and none of the others changed but in its count. */
  lemma AllocateFindsUnused<B>(s: State<B>, unused: B, d: Data, chain: Opt<B>)
    requires Inv(s) && Known(s, chain) && SafeChain(s, chain) && Offered(s, unused)
    ensures var s' := Allocate(s, unused, d, chain);
            var p := Chosen(s, unused);
            p in s'.order && p !in s'.ghosts && s'.chain[p] == chain && s'.data[p] == d
            && !IsRef(chain, p)
            && (forall x :: x in s.order ==> !IsRef(s.chain[x], p))
            && (forall i: nat :: i < |s.slots| ==> !IsRef(s.slots[i], p))
            && (forall x :: x in s.order && x != p ==> s'.chain[x] == s.chain[x] && s'.data[x] == s.data[x])
            && s'.slots == s.slots && forall x :: x in s.order ==> x in s'.order
  {
    if s.ghosts == [] {
      forall i: nat | i < |s.slots| ensures !IsRef(s.slots[i], unused) { assert Known(s, s.slots[i]); }
    } else {
      var p := s.ghosts[0];
      GhostsUnseen(s, p);
      if s.chain[p].Ref? { ChainsSeen(s.order, s.chain, p, s.chain[p].b); }
    }
  }

  // ---------------------------------------------------------------- assign

  lemma AssignedCounts<B>(s: State<B>, i: nat, chain: B, b: B)
    requires Inv(s) && i < |s.slots| && chain in s.order && b in s.order
    ensures var s' := Assign(s, i, chain);
            s'.refs[b] == s.refs[b] + One(b == chain) - One(IsRef(s.slots[i], b)) && s'.refs[b] == Count(s', b)
  {
    SlotsWithUpdate(s.slots, i, Ref(chain), b);
    assert Known(s, s.slots[i]);
  }

  /** An assignment keeps the pool sound exactly when it does not store a ghost. */
  lemma AssignKeepsInv<B>(s: State<B>, i: nat, chain: B)
    requires Inv(s) && i < |s.slots| && chain in s.order
    ensures Inv(Assign(s, i, chain)) <==> chain !in s.ghosts
  {
    var s' := Assign(s, i, chain);
    var o := s.slots[i];
    assert Known(s, o);
    forall b | b in s'.order ensures s'.refs[b] == Count(s', b) { AssignedCounts(s, i, chain, b); }
    if o.Ref? {
      SlotsSeen(s.slots, i, o.b);
    }
    if chain in s.ghosts {
      AssignedCounts(s, i, chain, chain);
      assert chain in s'.ghosts && s'.refs[chain] == 1;
    } else {
      forall b | b in s'.ghosts ensures s'.refs[b] == 0 { AssignedCounts(s, i, chain, b); }
      forall j: nat | j < |s'.slots| ensures Known(s', s'.slots[j]) { assert j != i ==> Known(s, s.slots[j]); }
    }
  }

  // ---------------------------------------------------------------- the lists the slots stand for

  /** A chain as a value. */
  datatype List = Nil | Cons(d: Data, tail: List)

  /** Following the chain pointers from o reads off the list l. */
  predicate Holds<B(==)>(s: State<B>, o: Opt<B>, l: List)
    requires forall x :: x in s.order ==> x in s.chain && x in s.data
    decreases l
  {
    match l
    case Nil => o.Null?
    case Cons(d, tail) => o.Ref? && o.b in s.order && s.data[o.b] == d && Holds(s, s.chain[o.b], tail)
  }

  predicate Pinned<B(==)>(s: State<B>, o: Opt<B>) {
    o.Ref? ==> o.b in s.refs && s.refs[o.b] > 0
  }

  lemma ChainsArePinned<B>(s: State<B>, x: B)
    requires Inv(s) && x in s.order
    ensures Pinned(s, s.chain[x])
  {
    assert Known(s, s.chain[x]);
    if s.chain[x].Ref? { ChainsSeen(s.order, s.chain, x, s.chain[x].b); }
  }

  lemma SlotsArePinned<B>(s: State<B>, i: nat)
    requires Inv(s) && i < |s.slots|
    ensures Known(s, s.slots[i]) && Pinned(s, s.slots[i])
  {
    assert Known(s, s.slots[i]);
    if s.slots[i].Ref? { SlotsSeen(s.slots, i, s.slots[i].b); }
  }

  /** An allocation alters no chain that anything points to. */
  lemma {:induction false} AllocateKeepsLists<B>(s: State<B>, unused: B, d: Data, chain: Opt<B>, o: Opt<B>, l: List)
    requires Inv(s) && Known(s, chain) && SafeChain(s, chain) && Offered(s, unused)
    requires Pinned(s, o) && Holds(s, o, l)
    ensures Inv(Allocate(s, unused, d, chain)) && Holds(Allocate(s, unused, d, chain), o, l)
    decreases l
  {
    AllocateKeepsInv(s, unused, d, chain);
    if l.Cons? {
      AllocateFindsUnused(s, unused, d, chain);
      ChainsArePinned(s, o.b);
      AllocateKeepsLists(s, unused, d, chain, s.chain[o.b], l.tail);
    }
  }

  lemma {:induction false} AssignKeepsLists<B>(s: State<B>, i: nat, chain: B, o: Opt<B>, l: List)
    requires Inv(s) && i < |s.slots| && chain in s.order && Holds(s, o, l)
    ensures Holds(Assign(s, i, chain), o, l)
    decreases l
  {
    if l.Cons? {
      AssignKeepsLists(s, i, chain, s.chain[o.b], l.tail);
    }
  }

  // ---------------------------------------------------------------- whole runs

  /**
   * The calls optimize makes. Extend: assign(&slots[to], allocate(.., slots[from])), from an empty chain when
   * there is no `from`. Copy: assign(&slots[to], slots[from]).
   */
  datatype Op = Extend(to: nat, from: Opt<nat>, d: Data) | Copy(to: nat, source: nat)

  /** The slots exist, and no null pointer is assigned. */
  predicate Applicable(lists: seq<List>, op: Op) {
    match op
    case Extend(to, from, _) => to < |lists| && (from.Ref? ==> from.b < |lists|)
    case Copy(to, source) => to < |lists| && source < |lists| && lists[source].Cons?
  }

  /** What a call means when every slot holds an immutable list. */
  function Meaning(lists: seq<List>, op: Op): seq<List>
    requires Applicable(lists, op)
  {
    match op
    case Extend(to, from, d) => lists[to := Cons(d, if from.Ref? then lists[from.b] else Nil)]
    case Copy(to, source) => lists[to := lists[source]]
  }

  function FromSlot<B(==)>(s: State<B>, from: Opt<nat>): Opt<B>
    requires from.Ref? ==> from.b < |s.slots|
  {
    if from.Ref? then s.slots[from.b] else Null
  }

  /** The pool stands for the lists. */
  ghost predicate Stands<B>(s: State<B>, lists: seq<List>) {
    Inv(s) && |s.slots| == |lists| && forall i: nat :: i < |lists| ==> Holds(s, s.slots[i], lists[i])
  }

  lemma ChainIsSafe<B>(s: State<B>, from: Opt<nat>)
    requires Inv(s) && (from.Ref? ==> from.b < |s.slots|)
    ensures Known(s, FromSlot(s, from)) && SafeChain(s, FromSlot(s, from)) && Pinned(s, FromSlot(s, from))
  {
    if from.Ref? {
      SlotsArePinned(s, from.b);
      if s.slots[from.b].Ref? { RootsAreSafe(s, s.slots[from.b].b); }
    }
  }

  /** The call does not run into a null pointer. */
  ghost predicate CanCall<B>(s: State<B>, op: Op) {
    Inv(s)
    && match op
       case Extend(to, from, _) => to < |s.slots| && (from.Ref? ==> from.b < |s.slots|)
       case Copy(to, source) => to < |s.slots| && source < |s.slots| && s.slots[source].Ref?
  }

  /** assign(&slots[to], allocate(.., chain)) */
  ghost function AssignNew<B>(s: State<B>, unused: B, to: nat, d: Data, chain: Opt<B>): State<B>
    requires Inv(s) && Known(s, chain) && SafeChain(s, chain) && Offered(s, unused) && to < |s.slots|
  {
    AllocateKeepsInv(s, unused, d, chain);
    AllocateFindsUnused(s, unused, d, chain);
    Assign(Allocate(s, unused, d, chain), to, Chosen(s, unused))
  }

  /** One call; `unused` is the block the dead array offers. */
  ghost function Call<B>(s: State<B>, op: Op, unused: B): State<B>
    requires CanCall(s, op) && Offered(s, unused)
  {
    match op
    case Extend(to, from, d) =>
      ChainIsSafe(s, from);
      AssignNew(s, unused, to, d, FromSlot(s, from))
    case Copy(to, source) =>
      SlotsArePinned(s, source);
      Assign(s, to, s.slots[source].b)
  }

  lemma AssignStands<B>(s: State<B>, lists: seq<List>, to: nat, p: B, l: List)
    requires Stands(s, lists) && to < |lists| && p in s.order && p !in s.ghosts && Holds(s, Ref(p), l)
    ensures Stands(Assign(s, to, p), lists[to := l])
  {
    var s' := Assign(s, to, p);
    AssignKeepsInv(s, to, p);
    forall i: nat | i < |lists| ensures Holds(s', s'.slots[i], lists[to := l][i]) {
      if i == to {
        AssignKeepsLists(s, to, p, Ref(p), l);
      } else {
        AssignKeepsLists(s, to, p, s.slots[i], lists[i]);
      }
    }
  }

  lemma AllocateStands<B>(s: State<B>, lists: seq<List>, unused: B, d: Data, from: Opt<nat>)
    requires Stands(s, lists) && (from.Ref? ==> from.b < |lists|) && Offered(s, unused)
    ensures Known(s, FromSlot(s, from))
    ensures var s' := Allocate(s, unused, d, FromSlot(s, from));
            Stands(s', lists) && Holds(s', Ref(Chosen(s, unused)), Cons(d, if from.Ref? then lists[from.b] else Nil))
  {
    var chain := FromSlot(s, from);
    var s' := Allocate(s, unused, d, chain);
    ChainIsSafe(s, from);
    AllocateKeepsInv(s, unused, d, chain);
    AllocateFindsUnused(s, unused, d, chain);
    forall i: nat | i < |lists| ensures Holds(s', s'.slots[i], lists[i]) {
      SlotsArePinned(s, i);
      AllocateKeepsLists(s, unused, d, chain, s.slots[i], lists[i]);
    }
  }

  lemma AllocateOrder<B>(s: State<B>, unused: B, d: Data, chain: Opt<B>)
    requires WellFormed(s) && Known(s, chain)
    ensures forall x :: x in Allocate(s, unused, d, chain).order ==> x in s.order || x == Chosen(s, unused)
  {
    RecycledKeeps(s, chain);
    FillAppends(Recycled(s), Chosen(s, unused), d, chain);
  }

  lemma AllocatedIsNew<B>(s: State<B>, unused: B, d: Data, chain: Opt<B>)
    requires Inv(s) && Known(s, chain) && SafeChain(s, chain) && Offered(s, unused)
    ensures var s', p := Allocate(s, unused, d, chain), Chosen(s, unused);
            p in s'.order && p !in s'.ghosts && forall x :: x in s'.order ==> x in s.order || x == p
  {
    AllocateFindsUnused(s, unused, d, chain);
    AllocateOrder(s, unused, d, chain);
  }

  /** What the steps of an allocation make of a sound state is what `Allocate` says, and sound. */
  lemma AllocatedInSteps<B>(was: State<B>, now: State<B>, p: B, d: Data, chain: Opt<B>)
    requires Inv(was) && Known(was, chain) && SafeChain(was, chain) && Offered(was, p) && p == Chosen(was, p)
    requires chain.Ref? ==> chain.b in Recycled(was).refs
    requires now == Filled(Recycled(was), p, d, chain)
    ensures now == Allocate(was, p, d, chain) && Inv(now) && p in now.order && p !in now.ghosts
  {
    AllocateKeepsInv(was, p, d, chain);
    AllocatedIsNew(was, p, d, chain);
  }

  lemma CopiedIsHeld<B>(s: State<B>, lists: seq<List>, source: nat)
    requires Stands(s, lists) && source < |lists| && lists[source].Cons?
    ensures s.slots[source].Ref? && s.slots[source].b in s.order && s.slots[source].b !in s.ghosts
    ensures Holds(s, s.slots[source], lists[source])
  {
    assert Holds(s, s.slots[source], lists[source]);
    SlotsArePinned(s, source);
  }

  lemma ExtendStands<B>(s: State<B>, lists: seq<List>, op: Op, unused: B)
    requires Stands(s, lists) && Applicable(lists, op) && Offered(s, unused) && op.Extend?
    ensures CanCall(s, op) && Stands(Call(s, op, unused), Meaning(lists, op))
  {
    var chain := FromSlot(s, op.from);
    AllocateStands(s, lists, unused, op.d, op.from);
    ChainIsSafe(s, op.from);
    AllocateFindsUnused(s, unused, op.d, chain);
    AssignStands(Allocate(s, unused, op.d, chain), lists, op.to, Chosen(s, unused),
                 Cons(op.d, if op.from.Ref? then lists[op.from.b] else Nil));
  }

  /** Only the offered block can be new after a call. */
  lemma CallOrder<B>(s: State<B>, op: Op, unused: B)
    requires CanCall(s, op) && Offered(s, unused)
    ensures forall x :: x in Call(s, op, unused).order ==> x in s.order || x == unused
  {
    if op.Extend? {
      ChainIsSafe(s, op.from);
      AllocateOrder(s, unused, op.d, FromSlot(s, op.from));
    }
  }

  /** One call on the pool does to the lists what it means, and the pool stays sound. */
  lemma CallStands<B>(s: State<B>, lists: seq<List>, op: Op, unused: B)
    requires Stands(s, lists) && Applicable(lists, op) && Offered(s, unused)
    ensures CanCall(s, op) && Stands(Call(s, op, unused), Meaning(lists, op))
  {
    if op.Extend? {
      ExtendStands(s, lists, op, unused);
    } else {
      CopiedIsHeld(s, lists, op.source);
      AssignStands(s, lists, op.to, s.slots[op.source].b, lists[op.source]);
    }
  }

  /** Every call of the run is applicable when its turn comes. */
  predicate AllApplicable(lists: seq<List>, ops: seq<Op>)
    decreases |ops|
  {
    ops == [] || (Applicable(lists, ops[0]) && AllApplicable(Meaning(lists, ops[0]), ops[1..]))
  }

  function MeaningOf(lists: seq<List>, ops: seq<Op>): seq<List>
    requires AllApplicable(lists, ops)
    decreases |ops|
  {
    if ops == [] then lists else MeaningOf(Meaning(lists, ops[0]), ops[1..])
  }

  /** Enough blocks for the run, none handed out yet. */
  ghost predicate Supplies<B>(s: State<B>, supply: seq<B>, n: nat) {
    |supply| == n && Distinct(supply) && forall i: nat :: i < n ==> supply[i] !in s.order
  }

  lemma SuppliesRest<B>(s: State<B>, supply: seq<B>, n: nat, s1: State<B>)
    requires n > 0 && Supplies(s, supply, n)
    requires forall x :: x in s1.order ==> x in s.order || x == supply[0]
    ensures Supplies(s1, supply[1..], n - 1)
  {
    forall i: nat | i < n - 1 ensures supply[1..][i] !in s1.order {
      assert supply[1..][i] == supply[i + 1];
    }
  }

  /** s' is the pool after the calls. */
  ghost predicate Runs<B>(s: State<B>, ops: seq<Op>, supply: seq<B>, s': State<B>)
    requires |ops| == |supply|
    decreases |ops|
  {
    if ops == [] then s' == s
    else CanCall(s, ops[0]) && supply[0] !in s.order && Runs(Call(s, ops[0], supply[0]), ops[1..], supply[1..], s')
  }

  /**
   * Over any run the pool implements immutable lists: no call meets a null pointer, the counts stay exact, and
   * in the end every slot stands for exactly the list its calls built, whatever was recycled in between.
   */
  lemma {:induction false} RunStands<B>(s: State<B>, lists: seq<List>, ops: seq<Op>, supply: seq<B>)
    returns (s': State<B>)
    requires Stands(s, lists) && AllApplicable(lists, ops) && Supplies(s, supply, |ops|)
    ensures Runs(s, ops, supply, s') && Stands(s', MeaningOf(lists, ops))
    decreases |ops|
  {
    if ops == [] {
      s' := s;
    } else {
      CallStands(s, lists, ops[0], supply[0]);
      var s1 := Call(s, ops[0], supply[0]);
      CallOrder(s, ops[0], supply[0]);
      SuppliesRest(s, supply, |ops|, s1);
      s' := RunStands(s1, Meaning(lists, ops[0]), ops[1..], supply[1..]);
    }
  }

  /** The pool at the start: nothing handed out, every slot null (calloc). */
  function Start<B>(n: nat): State<B> {
    State([], map[], map[], map[], [], seq(n, _ => Null))
  }

  lemma StartStands<B>(n: nat)
    ensures Stands(Start<B>(n), seq(n, _ => Nil))
  {
    forall b: B | b in Start<B>(n).order ensures false {}
  }

  /** Two calls on one slot: a block, and a second one that takes the slot over. */
  function UnheldOps(d: Data): seq<Op> {
    [Extend(0, Null, d), Extend(0, Null, d)]
  }

  function OneBlock(d: Data): State<nat> {
    State([1], map[1 := Null], map[1 := d], map[1 := 1], [], [Ref(1)])
  }

  /** After them block 1 is a ghost: whoever kept a pointer to it holds it no longer. */
  function UnheldState(d: Data): State<nat> {
    State([1, 2], map[1 := Null, 2 := Null], map[1 := d, 2 := d], map[1 := 0, 2 := 1], [1], [Ref(2)])
  }

  lemma EmptyAllocates(d: Data)
    ensures WellFormed(Start<nat>(1))
    ensures Allocate(Start<nat>(1), 1, d, Null) == OneBlock(d).(refs := map[1 := 0], slots := [Null])
  {
  }

  lemma FirstCall(d: Data)
    ensures CanCall(Start<nat>(1), Extend(0, Null, d)) && Call(Start<nat>(1), Extend(0, Null, d), 1) == OneBlock(d)
  {
    StartStands<nat>(1);
    EmptyAllocates(d);
    assert [Null][0 := Ref(1)] == [Ref(1)];
  }

  lemma OneAllocates(d: Data)
    ensures WellFormed(OneBlock(d))
    ensures Allocate(OneBlock(d), 2, d, Null) == UnheldState(d).(refs := map[1 := 1, 2 := 0], slots := [Ref(1)],
            ghosts := [])
  {
  }

  lemma SecondCall(d: Data)
    requires CanCall(OneBlock(d), Extend(0, Null, d))
    ensures Call(OneBlock(d), Extend(0, Null, d), 2) == UnheldState(d)
  {
    OneAllocates(d);
    assert [Ref(1)][0 := Ref(2)] == [Ref(2)];
  }

  lemma TwoCallsStand(d: Data)
    ensures Inv(Start<nat>(1)) && Inv(OneBlock(d)) && Inv(UnheldState(d))
  {
    var op := Extend(0, Null, d);
    StartStands<nat>(1);
    CallStands(Start<nat>(1), seq(1, _ => Nil), op, 1);
    FirstCall(d);
    CallStands(OneBlock(d), Meaning(seq(1, _ => Nil), op), op, 2);
    SecondCall(d);
  }

  lemma RunStep<B>(s: State<B>, op: Op, ops: seq<Op>, b: B, supply: seq<B>, s': State<B>)
    requires |ops| == |supply| && CanCall(s, op) && b !in s.order && Runs(Call(s, op, b), ops, supply, s')
    ensures Runs(s, [op] + ops, [b] + supply, s')
  {
    assert ([op] + ops)[1..] == ops && ([b] + supply)[1..] == supply;
  }

  lemma SecondRuns(d: Data)
    ensures Runs(OneBlock(d), [Extend(0, Null, d)], [2], UnheldState(d))
  {
    var op := Extend(0, Null, d);
    TwoCallsStand(d);
    SecondCall(d);
    RunStep(OneBlock(d), op, [], 2, [], UnheldState(d));
    assert [op] + [] == [op] && [2] + [] == [2];
  }

  lemma UnheldRun(d: Data)
    ensures Runs(Start<nat>(1), UnheldOps(d), [1, 2], UnheldState(d))
  {
    var op := Extend(0, Null, d);
    FirstCall(d);
    SecondRuns(d);
    assert UnheldOps(d) == [op] + [op] && [1, 2] == [1] + [2];
    RunStep(Start<nat>(1), op, [op], 1, [2], UnheldState(d));
  }

  lemma UnheldIsUnsafe(d: Data)
    ensures WellFormed(UnheldState(d)) && Known(UnheldState(d), Ref(1)) && !SafeChain(UnheldState(d), Ref(1))
    ensures Offered(UnheldState(d), 9) && !HeldByRoot(UnheldState(d), 1)
  {
  }

  /** The duty is needed: after a run of two calls, an allocation chained to a block no slot holds breaks the counts. */
  lemma UnheldChainBreaks(d: Data)
    ensures Runs(Start<nat>(1), UnheldOps(d), [1, 2], UnheldState(d)) && Inv(UnheldState(d))
    ensures 9 !in UnheldState(d).order && !HeldByRoot(UnheldState(d), 1)
    ensures !Inv(Allocate(UnheldState(d), 9, d, Ref(1)))
  {
    UnheldRun(d);
    TwoCallsStand(d);
    UnheldIsUnsafe(d);
    AllocateKeepsInv(UnheldState(d), 9, d, Ref(1));
  }
}
