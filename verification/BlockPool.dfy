/** memory.c of the ZX0 compressor: blocks with reference counts, freed lazily through a ghost list. */
module BlockPool {
  import opened RefCounts

  class Block {
    var chain: Block?
    var ghostChain: Block?
    var bits: int
    var index: int
    var offset: int
    var references: int

    constructor ()
    {
      chain, ghostChain, bits, index, offset, references := null, null, 0, 0, 0, 0;
    }
  }

  const QTY_BLOCKS := 10000

  function Pointer(b: Block?): Opt<Block> {
    if b == null then Null else var block: Block := b; Ref(block)
  }

  /** The block at i, or null past the end of the list. */
  function At(blocks: seq<Block>, i: nat): Block? {
    if i < |blocks| then blocks[i] else null
  }

  /** The globals of memory.c, together with the pointers its caller keeps. */
  class Pool {
    var ghostRoot: Block?
    var deadArray: array<Block>
    var deadArraySize: nat
    const slots: array<Block?>
    ghost var heap: State<Block>
    ghost var repr: set<object>

    ghost predicate FieldsMatch()
      reads this, heap.order
    {
      forall b :: b in heap.order ==>
        b in heap.refs && b in heap.chain && b in heap.data
        && b.references == heap.refs[b] && Pointer(b.chain) == heap.chain[b]
        && Data(b.bits, b.index, b.offset) == heap.data[b]
    }

    /** ghostRoot leads through all the ghosts, in order. */
    ghost predicate GhostsLinked()
      reads this, heap.ghosts
    {
      ghostRoot == At(heap.ghosts, 0)
      && forall i: nat :: i < |heap.ghosts| ==> heap.ghosts[i].ghostChain == At(heap.ghosts, i + 1)
    }

    ghost predicate DeadApart()
      reads this`deadArray, this`deadArraySize, this`heap, deadArray
    {
      deadArraySize <= deadArray.Length
      && (forall i: nat :: i < deadArraySize ==> deadArray[i] !in heap.order)
      && (forall i: nat, j: nat :: i < j < deadArraySize ==> deadArray[i] != deadArray[j])
    }

    ghost predicate SlotsMatch()
      reads this, slots
    {
      |heap.slots| == slots.Length && forall i: nat :: i < slots.Length ==> heap.slots[i] == Pointer(slots[i])
    }

    /** All that belongs to the pool. */
    ghost predicate Owned()
      reads this, deadArray
    {
      {this, slots, deadArray} <= repr && (deadArray as object) != (slots as object)
      && (forall b :: b in heap.order ==> b in repr)
      && (forall i: nat :: i < deadArraySize && i < deadArray.Length ==> deadArray[i] in repr)
    }

    /** The pointers and fields agree with the heap they stand for. */
    ghost predicate Shape()
      reads this, deadArray, slots, heap.order, heap.ghosts
    {
      Owned() && FieldsMatch() && GhostsLinked() && DeadApart() && SlotsMatch()
    }

    ghost predicate Valid()
      reads this, repr
    {
      this in repr && deadArray in repr && Owned() && Inv(heap) && Shape()
    }

    constructor (slotCount: nat)
      ensures Valid() && heap == Start(slotCount) && slots.Length == slotCount && fresh(repr)
    {
      ghostRoot, deadArraySize := null, 0;
      deadArray := new Block[0];
      slots := new Block?[slotCount](_ => null);
      heap := Start(slotCount);
      repr := {this, slots, deadArray};
      new;
      StartStands<Block>(slotCount);
    }

    /** --b->references, and onto the ghost list when that was the last. */
    method Drop(b: Block)
      requires b in heap.order && b !in heap.ghosts && Shape()
      modifies b`references, b`ghostChain, this`ghostRoot, this`heap
      ensures heap == Release(old(heap), Pointer(b)) && Shape() && unchanged(slots, this`repr)
    {
      b.references := b.references - 1;
      if b.references == 0 {
        b.ghostChain := ghostRoot;
        ghostRoot := b;
      }
      heap := Release(heap, Pointer(b));
    }

    /** malloc of a new dead array; its blocks are new and all different. */
    method Refill()
      requires Valid() && deadArraySize == 0
      modifies this`deadArray, this`deadArraySize, this`repr
      ensures Valid() && deadArraySize == 10000 && fresh(repr - old(repr))
      ensures forall i: nat :: i < deadArraySize ==> fresh(deadArray[i])
      ensures forall i: nat, j: nat :: i < j < deadArraySize ==> deadArray[i] != deadArray[j]
    {
      var first := new Block();
      var blocks := new Block[QTY_BLOCKS](_ => first);
      var n := 1;
      while n < QTY_BLOCKS
        invariant 1 <= n <= QTY_BLOCKS
        invariant fresh(blocks)
        invariant forall i: nat :: i < QTY_BLOCKS ==> fresh(blocks[i])
        invariant forall i: nat, j: nat :: i < j < n ==> blocks[i] != blocks[j]
        invariant forall i: nat :: n <= i < QTY_BLOCKS ==> blocks[i] == first
        modifies blocks
      {
        var b := new Block();
        blocks[n] := b;
        n := n + 1;
      }
      deadArray := blocks;
      deadArraySize := QTY_BLOCKS;
      repr := repr + {blocks} + set i: nat | i < QTY_BLOCKS :: blocks[i];
    }

    /** Takes the head of the ghost list off it. */
    method TakeGhost() returns (ptr: Block)
      requires Valid() && ghostRoot != null
      modifies this`ghostRoot, this`heap, heap.order`references, heap.order`ghostChain
      ensures old(heap).ghosts != [] && ptr == old(heap).ghosts[0]
      ensures heap == Recycled(old(heap)) && Shape()
    {
      ptr := ghostRoot;
      ghostRoot := ptr.ghostChain;
      heap := heap.(ghosts := heap.ghosts[1..]);
      var chain := ptr.chain;
      if chain != null {
        assert Known(old(heap), old(heap).chain[ptr]);
        ChainsSeen(old(heap).order, old(heap).chain, ptr, chain);
        Drop(chain);
      }
    }

    /** Takes the last dead block, from a new dead array if the old one is used up. */
    method TakeDead() returns (ptr: Block)
      requires Valid()
      modifies this`deadArray, this`deadArraySize, this`repr
      ensures Valid() && ptr !in heap.order && ptr in repr && fresh(repr - old(repr))
      ensures forall i: nat :: i < deadArraySize ==> deadArray[i] != ptr
    {
      if deadArraySize == 0 {
        Refill();
      }
      deadArraySize := deadArraySize - 1;
      ptr := deadArray[deadArraySize];
    }

    /** The block's data; nothing points to it yet. */
    method SetData(ptr: Block, bits: int, index: int, offset: int)
      requires Shape()
      modifies ptr`bits, ptr`index, ptr`offset, this`heap
      ensures Shape()
      ensures Data(ptr.bits, ptr.index, ptr.offset) == Data(bits, index, offset)
      ensures heap == old(heap).(data := old(heap).data[ptr := Data(bits, index, offset)])
    {
      ptr.bits, ptr.index, ptr.offset := bits, index, offset;
      heap := heap.(data := heap.data[ptr := Data(bits, index, offset)]);
    }

    /** chain->references++ */
    method Hold(chain: Block)
      requires Shape() && chain in heap.order
      modifies chain`references, this`heap
      ensures Shape() && heap == Retain(old(heap), Pointer(chain)) && unchanged(slots, this`repr)
    {
      chain.references := chain.references + 1;
      heap := Retain(heap, Pointer(chain));
    }

    /** The block's chain pointer and its count, which starts at 0. */
    method Link(ptr: Block, chain: Block?)
      requires Shape() && ptr in repr && forall i: nat :: i < deadArraySize ==> deadArray[i] != ptr
      requires ptr in heap.data && Data(ptr.bits, ptr.index, ptr.offset) == heap.data[ptr]
      modifies ptr`chain, ptr`references, this`heap
      ensures Shape()
      ensures heap == old(heap).(order := if ptr in old(heap).order then old(heap).order else old(heap).order + [ptr],
                                 chain := old(heap).chain[ptr := Pointer(chain)], refs := old(heap).refs[ptr := 0])
    {
      ptr.chain := chain;
      ptr.references := 0;
      heap := heap.(chain := heap.chain[ptr := Pointer(chain)], refs := heap.refs[ptr := 0]);
      Admit(ptr);
    }

    /** A block with all its fields counts as handed out. */
    ghost method Admit(ptr: Block)
      requires Shape() && ptr in repr && forall i: nat :: i < deadArraySize ==> deadArray[i] != ptr
      requires ptr in heap.refs && ptr in heap.chain && ptr in heap.data
      requires ptr.references == heap.refs[ptr] && Pointer(ptr.chain) == heap.chain[ptr]
      requires Data(ptr.bits, ptr.index, ptr.offset) == heap.data[ptr]
      modifies this`heap
      ensures Shape()
      ensures heap == old(heap).(order := if ptr in old(heap).order then old(heap).order else old(heap).order + [ptr])
    {
      heap := heap.(order := if ptr in heap.order then heap.order else heap.order + [ptr]);
    }

    /** Sets all fields of a block just taken. */
    method Fill(ptr: Block, bits: int, index: int, offset: int, chain: Block?)
      requires Shape() && ptr in repr
      requires chain != null ==> chain in heap.order && chain in heap.refs
      requires forall i: nat :: i < deadArraySize ==> deadArray[i] != ptr
      modifies ptr`bits, ptr`index, ptr`offset, ptr`chain, ptr`references, heap.order, this`heap
      ensures Shape() && heap == Filled(old(heap), ptr, Data(bits, index, offset), Pointer(chain))
      ensures unchanged(slots)
    {
      FillAppends(heap, ptr, Data(bits, index, offset), Pointer(chain));
      FilledInSteps(heap, ptr, Data(bits, index, offset), Pointer(chain));
      SetData(ptr, bits, index, offset);
      if chain != null {
        Hold(chain);
      }
      Link(ptr, chain);
    }

    /** The head of the ghost list, or else a dead block. */
    method Take() returns (ptr: Block)
      requires Valid()
      modifies this, heap.order
      ensures Shape() && heap == Recycled(old(heap)) && ptr == Chosen(old(heap), ptr) && Offered(old(heap), ptr)
      ensures ptr in repr && fresh(repr - old(repr)) && unchanged(slots)
      ensures forall i: nat :: i < deadArraySize ==> deadArray[i] != ptr
    {
      if ghostRoot != null {
        ptr := TakeGhost();
      } else {
        ptr := TakeDead();
      }
    }

    /** A block taken and filled, before what is right about the counts is argued. */
    method TakeFilled(bits: int, index: int, offset: int, chain: Block?) returns (ptr: Block)
      requires Valid() && Known(heap, Pointer(chain))
      modifies repr
      ensures Shape() && unchanged(slots) && fresh(repr - old(repr))
      ensures ptr == Chosen(old(heap), ptr) && Offered(old(heap), ptr)
      ensures chain != null ==> chain in Recycled(old(heap)).refs
      ensures heap == Filled(Recycled(old(heap)), ptr, Data(bits, index, offset), Pointer(chain))
    {
      RecycledKeeps(heap, Pointer(chain));
      ptr := Take();
      Fill(ptr, bits, index, offset, chain);
    }

    /** allocate */
    method Allocate(bits: int, index: int, offset: int, chain: Block?) returns (ptr: Block)
      requires Valid() && Known(heap, Pointer(chain)) && SafeChain(heap, Pointer(chain))
      modifies repr
      ensures Valid() && unchanged(slots) && fresh(repr - old(repr))
      ensures ptr == Chosen(old(heap), ptr) && Offered(old(heap), ptr)
      ensures heap == RefCounts.Allocate(old(heap), ptr, Data(bits, index, offset), Pointer(chain))
      ensures ptr in heap.order && ptr !in heap.ghosts
    {
      ptr := TakeFilled(bits, index, offset, chain);
      AllocatedInSteps(old(heap), heap, ptr, Data(bits, index, offset), Pointer(chain));
    }

    /** slots[i] = chain */
    method SetSlot(i: nat, chain: Block)
      requires i < slots.Length && Shape()
      modifies slots, this`heap
      ensures Shape()
      ensures heap == old(heap).(slots := old(heap).slots[i := Pointer(chain)])
      ensures slots[..] == old(slots[..])[i := chain]
    {
      slots[i] := chain;
      heap := heap.(slots := heap.slots[i := Pointer(chain)]);
    }

    /** --o->references for what a slot held, if anything. */
    method LetGo(o: Block?)
      requires Shape() && (o != null ==> o in heap.order && o !in heap.ghosts)
      modifies heap.order`references, heap.order`ghostChain, this`ghostRoot, this`heap
      ensures (o != null ==> o in old(heap).refs) && heap == Release(old(heap), Pointer(o))
      ensures Shape() && unchanged(slots, this`repr)
    {
      if o != null {
        Drop(o);
      }
    }

    /** assign(&slots[i], chain) */
    method Assign(i: nat, chain: Block)
      requires Valid() && i < slots.Length && chain in heap.order && chain !in heap.ghosts
      modifies repr
      ensures repr == old(repr) && Valid() && heap == RefCounts.Assign(old(heap), i, chain)
      ensures slots[..] == old(slots[..])[i := chain]
    {
      ghost var was := slots[..];
      SlotsArePinned(heap, i);
      Hold(chain);
      LetGo(slots[i]);
      assert slots[..] == was;
      SetSlot(i, chain);
      AssignKeepsInv(old(heap), i, chain);
    }

    /** assign(&slots[to], allocate(.., chain)) */
    method AssignNew(to: nat, d: Data, chain: Block?) returns (ghost ptr: Block)
      requires Valid() && to < slots.Length && Known(heap, Pointer(chain)) && SafeChain(heap, Pointer(chain))
      modifies repr
      ensures Valid() && Offered(old(heap), ptr) && fresh(repr - old(repr))
      ensures heap == RefCounts.AssignNew(old(heap), ptr, to, d, Pointer(chain))
    {
      var p := Allocate(d.bits, d.index, d.offset, chain);
      ptr := p;
      Assign(to, p);
    }

    /** assign(&slots[to], allocate(.., slots[from])), or with no chain: the slot's list grows by one block. */
    method Extend(to: nat, from: Opt<nat>, d: Data, ghost lists: seq<List>)
      requires Valid() && Stands(heap, lists) && Applicable(lists, Op.Extend(to, from, d))
      modifies repr
      ensures Valid() && Stands(heap, Meaning(lists, Op.Extend(to, from, d))) && fresh(repr - old(repr))
    {
      ChainIsSafe(heap, from);
      var chain: Block? := null;
      if from.Ref? {
        chain := slots[from.b];
      }
      ghost var ptr := AssignNew(to, d, chain);
      CallStands(old(heap), lists, Op.Extend(to, from, d), ptr);
    }

    /** assign(&slots[to], slots[source]) */
    method Copy(to: nat, source: nat, ghost lists: seq<List>)
      requires Valid() && Stands(heap, lists) && Applicable(lists, Op.Copy(to, source))
      modifies repr
      ensures Valid() && Stands(heap, Meaning(lists, Op.Copy(to, source))) && repr == old(repr)
    {
      CopiedIsHeld(heap, lists, source);
      var chain := slots[source];
      AssignStands(heap, lists, to, chain, lists[source]);
      Assign(to, chain);
    }

    /** Any run of the calls that optimize makes: the pool stands for the immutable lists the calls mean. */
    method Run(ops: seq<Op>, ghost lists: seq<List>)
      requires Valid() && Stands(heap, lists) && AllApplicable(lists, ops)
      modifies repr
      ensures Valid() && Stands(heap, MeaningOf(lists, ops)) && fresh(repr - old(repr))
    {
      ghost var now := lists;
      assert ops[0..] == ops;
      for i := 0 to |ops|
        invariant Valid() && Stands(heap, now) && fresh(repr - old(repr))
        invariant AllApplicable(now, ops[i..]) && MeaningOf(now, ops[i..]) == MeaningOf(lists, ops)
      {
        assert ops[i..][0] == ops[i] && ops[i..][1..] == ops[i + 1..];
        match ops[i] {
          case Extend(to, from, d) => Extend(to, from, d, now);
          case Copy(to, source) => Copy(to, source, now);
        }
        now := Meaning(now, ops[i]);
      }
    }
  }
}
