# Proofs about the aarch64 toolchain, the work-item registry and their helpers

This project states and proves properties of the parts of the repository where a small slip would be
expensive and hard to see: the priority queue of the work-item registry, the logical-immediate codec and the
instruction overlay, the generator of the unrolled SHA-256 block, the `.tbn` container with its expression
bytecode, the Huffman and byte-pair coders, and the reference-counted block pool of ZX0.

Code that updates state is modelled by methods and classes with the same loops and the same fields; each is
proved against a specification function or property, and the lemmas are about those.

| part | files |
|---|---|
| Shared | `Common`, `CanonicalOrder` |
| Registry queue | `Digraph`, `FindCycle`, `Items`, `Expand`, `TopoRepair`, `Umbrella`, `Queue`, `QueueOrder`, `Reconcile`, `ValidatePriority`, `Ready`, `Split`, `Grow`, `Commit`, `SplitCommand` |
| Logical immediates | `LogicalImm` |
| Instruction overlay, bitfield aliases | `BitFields`, `Overlay`, `OverlayNumbers`, `Bitfield` |
| Unrolled SHA-256 | `Z80`, `Z80Words`, `Z80Macros`, `Z80Sigma`, `Sha256`, `Progress`, `Z80Program`, `Sha256Unrolled` |
| `.tbn` container | `Bytes`, `StableSort`, `Tables`, `HeaderTables`, `EditorRegion`, `Records`, `TbnFile`, `Layout`, `FileLayout` |
| Expression bytecode | `ExprCode`, `ExprLaws` |
| Compression | `Huffman`, `Bpe` |
| ZX0 block pool | `RefCounts`, `BlockPool` |

## Main results

- Huffman lengths are optimal among all decodable length tables, and use up the code space exactly.
- A logical immediate is encoded exactly when some field decodes to it, and then decodes back; no two fields
  decode to one value. Two of the encoder's four error returns cannot happen.
- The eight generated SHA-256 phases, run as emitted Z80 lines by a program counter over memory, are the 64 rounds of
  section 6.2.2 of FIPS 180-4, in a number of instructions that is the same for all inputs.
- Every registry that gets written and has a priority file holds each pullable item once in it, in an order that
  respects the expanded dependencies, and with statuses that agree with the children.
- Giving any item of such a registry a fresh open child is accepted by the modelled rules, with one exception, and
  where the child lands in the queue is determined exactly; no two other entries change their order.
- The block pool, over any run of calls and down to its pointers and fields, behaves like immutable lists held in
  slots.
- Byte-pair compression is undone by its pair table and replacement bytes; the table alone suffices exactly when the
  data keeps clear of as many of the highest bytes as there are pairs.
- The repair of the queue keeps ranks: an entry is overtaken only by what it, or something ranked ahead of it, needs;
  the dependencies of an item come out in the order they are declared in, and those an umbrella stands for in the order
  of the items. The ready list keeps the order of the queue.
- A `.tbn` file reads back what was written: names and records as given, labels, locals and globals in their
  one sorted order, the sidecar in stable anchor order. `ReadFile` accepts exactly the files of a layout that is
  described byte by byte on its own, and the records written are the shortest of that layout.
- Every operator of the expression bytecode gives the one value that a law about the integers or their bits allows, in
  both evaluators and on the operands of any sub-expressions.
- Every overlay slot folds a value exactly when some field decodes to it, the folded word then decodes to it, and
  folding what a word decodes to gives that word back. What a word decodes to is said again on the word as a number.

## Where the code does not do what one expects

Each of these is proved by a concrete input, together with the exact condition under which the expected statement
holds.

- A head-of-queue item that depends on the umbrella it is itself a child of passes every check and is never
  ready (`Commit.OwnUmbrellaPasses`; `Ready.HeadReady` gives the exact condition). `validatePriority` does not
  see it because an item is never ranked before itself.
- For the same reason a queue can be valid although the expanded dependencies contain a self-loop; validity
  after repair is equivalent to the absence of any *other* cycle (`Queue.ReconciledIsValid`).
- The alias decoder accepts 32-bit bitfield words whose `immr` or `imms` is 32 or more, which are undefined
  (`Bitfield.UndefinedAgrees`, `Bitfield.OverlooksWideShift`).
- `Eval` panics on a unary operator with an empty stack, where `EvalConst` only fails. That happens exactly when the
  first byte of the code is NEG, NOT or a relocation operator (`ExprCode.PanicsExactly`, `ExprCode.LoneNegPanics`).
- A sidecar row with a negative anchor is not read back (`EditorRegion.SidecarSurvives`), and neither is a
  record with a payload of 65536 bytes or more (`Records.RecordSurvives`).
- The byte-pair table that `bpeCompress` returns does not say which bytes stand for its pairs. Taking them to be 255,
  254 and so on downward gives the data back exactly when no data byte is that high (`Bpe.TableDecodes`); otherwise
  two inputs can have the same table and the same output (`Bpe.TableAloneIsAmbiguous`).
- `allocate` with a chain that no slot holds can break the counts, after as few as two calls
  (`RefCounts.UnheldChainBreaks`; the exact condition is in `RefCounts.AllocateKeepsInv`).
- Splitting a WONTFIX item that depends on another WONTFIX item is refused: the open child turns it into an open
  umbrella, which may not depend on a WONTFIX item. A split of any other item is accepted
  (`SplitCommand.SplitStaysSound`, `SplitCommand.RevivedIsRefused`).
- A further child of an umbrella is seeded right behind the last queued one. If that one depends on an umbrella it lies
  under, and only then, the repair moves the new child ahead of it (`SplitCommand.PlaceAmongSiblings`,
  `SplitCommand.NextChildOvertakes`).
- A comment in `decodeBitMasks` says that element length 0 is allowed; the code rejects it, because its run is
  then always all ones. The model follows the code.

## Model

| member | source | states |
|---|---|---|
| Huffman.BuildHuffmanTable | tools/comment-bench/main.go:491-530 | a symbol has length 0 exactly when its frequency is 0; one used symbol gets length 1; with two or more, no decodable length table needs fewer bits in total, and the Kraft sum is exactly 1, however ties are sorted |
| Huffman.Walk | tools/comment-bench/main.go:518-528 | writes each leaf's depth at its symbol and touches nothing else |
| Huffman.SortByFreq | tools/comment-bench/main.go:508-511 | some ascending permutation |
| Huffman.MergeStep | tools/comment-bench/main.go:512-515 | any length assignment that fits can be turned, at no greater cost, into one for the list with the two lightest merged |
| Huffman.LowerBoundMerge | tools/comment-bench/main.go:512-515 | a lower bound for the merged weights plus the merged weight is one for the weights before |
| Huffman.InvariantStep | tools/comment-bench/main.go:507-516 | sorting and merging keeps the forest's sums equal to the table's and its lower bound valid |
| Huffman.DepthsGiveSums | tools/comment-bench/main.go:518-528 | depths of a tree cost what the merges cost and have Kraft sum 1 |
| Huffman.SingleTreeOptimal | tools/comment-bench/main.go:507-529 | the depths in the last remaining tree are optimal |
| Huffman.LeavesAreUsed | tools/comment-bench/main.go:493-498 | the last tree has every used symbol as a leaf exactly once |
| LogicalImm.EncodeLogicalImm | tools/aarch64enc/slots_logical.go:20-114 | for every 64-bit value and both widths: succeeds exactly when some field decodes to the value, the result decodes to it (masked to 32 bits for W), and only the first and last error can occur, the first exactly when the bits of the width are all alike |
| LogicalImm.DecodeBitMasks | tools/aarch64dec/slots_logical.go:61-117 | the loops compute the rotated run, replicated; rejection exactly as coded |
| LogicalImm.FindElementSize | tools/aarch64enc/slots_logical.go:30-39 | the size found tiles the whole value and cannot be halved |
| LogicalImm.FindRotation | tools/aarch64enc/slots_logical.go:67-79 | finds a rotation to a run in the low bits exactly when there is one |
| LogicalImm.RunHalvesDiffer | tools/aarch64enc/slots_logical.go:30-39 | a proper run, however rotated, has different halves, so the search stops at its size |
| LogicalImm.SizeIsForced | tools/aarch64enc/slots_logical.go:30-54 | if the value is any replicated rotated run, the size found is that run's |
| LogicalImm.Pack | tools/aarch64enc/slots_logical.go:81-113 | the size mark and ones - 1, and N, immr and imms shifted into place, put together by OR, are the packed field of the rotation that undoes the one found |
| LogicalImm.PackDecodes | tools/aarch64enc/slots_logical.go:81-113 | the packed N, immr and imms decode to the run they were made for |
| LogicalImm.DecodedIsRun | tools/aarch64dec/slots_logical.go:84-116 | whatever decodes is a replicated rotated run that is neither empty nor full |
| LogicalImm.NoRotationNotEncodable | tools/aarch64enc/slots_logical.go:77-79 | the "not a single ones-run" error is given only for values no field decodes to |
| LogicalImm.UniformNotEncodable | tools/aarch64enc/slots_logical.go:26-28 | no field decodes to all zeros or all ones |
| LogicalImm.DecodedIsPacked | tools/aarch64dec/slots_logical.go:62-101 | a field that decodes is the packing of a run, its imms naming the element size |
| LogicalImm.DecodeIsInjective | tools/aarch64dec/slots_logical.go:89-95 | no two fields decode to the same value: rejecting immr outside the element leaves one encoding each |
| Digraph.AcyclicIsRanked | tools/registry/validate.go:420-422 | a graph without cycles has a rank that every edge lowers |
| Digraph.RankedIsAcyclic | tools/registry/validate.go:420-422 | and conversely |
| FindCycle.FindCycle | tools/registry/validate.go:423-483 | returns nothing exactly for acyclic graphs, and otherwise a closed walk along real edges |
| FindCycle.CycleFinder.Dfs | tools/registry/validate.go:441-473 | the grey nodes are the current stack, linked by `parent`; finished nodes come after all their neighbours |
| FindCycle.CycleFinder.Explore | tools/registry/validate.go:446-470 | one neighbor: a grey one closes a cycle, a white one is finished or yields a cycle, a black one stays finished |
| FindCycle.CycleFinder.ClosePath | tools/registry/validate.go:447-462 | following `parent` from the node reaches the grey neighbor and yields a cycle; the early `break` is never taken |
| FindCycle.EnterOk | tools/registry/validate.go:442 | entering a node keeps the stack, colour and parent invariant |
| FindCycle.FinishOk | tools/registry/validate.go:471 | so does blackening a node whose neighbours are all finished |
| FindCycle.AllFinishedIsAcyclic | tools/registry/validate.go:475-482 | a finishing order over all nodes proves the graph acyclic |
| FindCycle.BeforeMeans | tools/registry/validate.go:486-496 | the order of ids is by their first different character, a front of an id ahead of the id |
| FindCycle.SortStrings | tools/registry/validate.go:486-496 | in-place insertion sort: ascending permutation |
| Items.PullableItems | tools/registry/validate.go:501-509 | exactly the ids of open or in-progress items that are not umbrellas |
| Items.ChildrenByParent | tools/registry/validate.go:512-520 | the children listed under each parent |
| Items.ChildMapMeaning | tools/registry/validate.go:512-520 | an id is listed under a parent exactly when some item names that parent |
| Expand.ExpandDepTarget | tools/registry/validate.go:536-552 | result and growth of `seen` are those of the expansion function, also on parent cycles |
| Expand.TargetsExact | tools/registry/validate.go:522-552 | a dependency stands for exactly the pullable ids reachable from it down through umbrellas, on any parent relation |
| TopoRepair.RepairedOnce | tools/registry/mutators.go:105-167 | every queued id is emitted exactly once, with cycles and duplicates too |
| TopoRepair.RepairedRespects | tools/registry/mutators.go:137-167 | the result puts every id after its dependencies exactly when the graph has no cycle other than self-loops |
| TopoRepair.ValidUnchanged | tools/registry/mutators.go:161-166 | an order that is already valid is returned as it is |
| TopoRepair.RepairIdempotent | tools/registry/mutators.go:145-167 | repairing twice is repairing once, without cycles |
| TopoRepair.MovedForReason | tools/registry/mutators.go:161-166 | on every input: if x stood before y and ends after it, y is reachable from some id ranked at or before x |
| TopoRepair.PulledInOrder | tools/registry/mutators.go:145-167 | of two dependencies of an id, the one listed first is emitted first, unless an id ranked ahead reaches one of them or a dependency listed up to the first reaches the second |
| TopoRepair.Repairer.VisitId | tools/registry/mutators.go:146-159 | the recursive visit with its mutable state is the specification's visit |
| TopoRepair.TopoRepair | tools/registry/mutators.go:161-166 | the loop over roots computes the repaired order |
| Umbrella.DeriveUmbrellaStatuses | tools/registry/mutators.go:282-320 | changes only statuses of umbrellas with children; on acyclic parents the bounded passes end with each such umbrella DONE if all children are closed, OPEN otherwise |
| Umbrella.UpToDateMeans | tools/registry/mutators.go:282-320 | an umbrella is settled if it has no child, or is DONE when all its children are DONE or WONTFIX and OPEN when one is not |
| Umbrella.Pass | tools/registry/mutators.go:282-320 | one in-place pass, in any item order, settles at least the next umbrella whose children are all settled, and unsettles none; a pass without change means everything is settled |
| Umbrella.SettledUnique | tools/registry/mutators.go:282-320 | on acyclic parents there is only one settled outcome, so item order does not matter |
| Queue.QueueGraphMeaning | tools/registry/mutators.go:118-135 | the graph that the repair sorts is the expanded dependency relation between queued ids |
| Reconcile.TopoRepairPriority | tools/registry/mutators.go:108-167 | builds that graph, dependencies in declared order, and repairs the order by it |
| Reconcile.ReconcilePriority | tools/registry/mutators.go:49-83 | the stored queue becomes the reconciled one, in place; ranks are kept, dependencies come out as declared, and an umbrella's children in the order of the items, each with the exact provisos |
| QueueOrder.KeepsRank | tools/registry/mutators.go:161-166 | an id stays ahead of one that ranked behind it (by old rank, or canonical order for new ids) unless it, or somebody who ranked ahead of it, needs that one |
| QueueOrder.DeclaredInOrder | tools/registry/mutators.go:118-135 | what an earlier dependency of an item stands for comes out ahead of what a later one stands for, unless it is needed by somebody who ranked ahead of the item, or what is declared up to the earlier one needs the later |
| QueueOrder.SiblingsInOrder | tools/registry/validate.go:536-552 | the pullable children of an umbrella that an item depends on come out in the order of the items, with the same provisos |
| Queue.ReconciledIsValid | tools/registry/mutators.go:49-83 | from any stored list, the pullable ids once each; valid exactly when the expanded graph has no cycle besides self-loops |
| Queue.ValidReconciled | tools/registry/mutators.go:49-83 | a valid queue is left as it is |
| ValidatePriority.ValidatePriority | tools/registry/validate.go:563-651 | reports exactly the justified errors (all four kinds), so none means a valid queue |
| ValidatePriority.CheckOrder | tools/registry/validate.go:614-648 | a misordering is reported exactly for each item, dependency and target ranked the wrong way round |
| ValidatePriority.OrderedIffNoneOutOfOrder | tools/registry/validate.go:614-648 | on a complete list without duplicates, no misordering means topological order |
| ValidatePriority.ExactMeansValid | tools/registry/validate.go:554-562 | a report is empty exactly for a valid queue |
| Ready.ReadyIsSafe | tools/registry/priority_cmds.go:82-126 | with settled statuses, no pullable leaf is left under any dependency of a ready item |
| Ready.HeadReady | tools/registry/priority_cmds.go:122-126 | the head of a committed queue is ready exactly unless it is in progress, depends on an open question, on an umbrella with a childless open umbrella at or below it, or on one that it lies under itself |
| Ready.OwnUmbrellaBlocks | tools/registry/priority_cmds.go:122-126 | a committed registry whose open head is never ready, because it depends on its own umbrella |
| Commit.OwnUmbrellaPasses | tools/registry/validate.go:614-648 | that registry passes the structural checks and the queue checks |
| Ready.RunReady | tools/registry/priority_cmds.go:47-154 | Pete's ready items first if he is present, then everybody else's; each part shows exactly the ids to be shown, at rising places of the queue (or of the canonical order), so on a list without duplicates an id is shown ahead of another exactly when it stands ahead of it |
| Ready.MayStartIsReady | tools/registry/priority_cmds.go:79-129 | ready means open, no umbrella, and no dependency on an open question or on an item that is not DONE or WONTFIX |
| Ready.ReadyOfPicks | tools/registry/priority_cmds.go:136-154 | the places of the shown ids rise, and are all the places of ids that are to be shown |
| Ready.ListsSameOrder | tools/registry/priority_cmds.go:136-154 | so their order is that of the listing |
| Ready.ReadyOfMeaning | tools/registry/priority_cmds.go:136-154 | the list holds exactly the ready items of the order that have the right kind of owner |
| Ready.CheckReady | tools/registry/priority_cmds.go:82-126 | pullable, not in progress, every dependency satisfied |
| Split.SplitKeepsPlace | tools/registry/mutators.go:727-780 | reconciling after a split of a queued leaf gives the same queue with the child in its parent's place |
| Split.SwappedIsValid | tools/registry/mutators.go:727-780 | that queue is valid for the items after the split |
| Split.DependentsStayGated | tools/registry/mutators.go:756-766 | nobody who depended on the split item is ready afterwards |
| Commit.ApplyAndCommit | tools/registry/mutators.go:199-262 | sorts items and questions stably, derives, reconciles if there is a priority file; writes exactly when the validators accept the result, which for a kept queue means soundness and no cycle besides self-loops in the expanded graph; what is then written is committed |
| Commit.Prepare | tools/registry/mutators.go:200-215 | the state that gets validated: sorted, derived, and reconciled only when ranked |
| Commit.Validate | tools/registry/mutators.go:217-228 | accepts exactly sound registries whose queue is absent or valid |
| Commit.PassesMeanCommitted | tools/registry/mutators.go:211-228 | the validators pass exactly in the committed states |
| CanonicalOrder.SortStable | tools/registry/gen.go:159-179 | a permutation, and a stable sort whenever the comparison is a strict weak order |
| CanonicalOrder.Insert | tools/registry/gen.go:159-179 | puts one more element into a stably sorted list |
| Commit.ValidateStructure | tools/registry/validate.go:153-389 | accepts exactly the structurally sound registries |
| Commit.SoundMeans | tools/registry/validate.go:153-389 | the structural rules in full, said of the items themselves: ids neither empty nor repeated nor questions, known statuses, existing dependencies, none on a WONTFIX item except from one, umbrella parents, acyclic parents and dependencies |
| Commit.ParentCycleCheck | tools/registry/validate.go:338-360 | accepts exactly the acyclic parent relations |
| Commit.ChainsFindCycles | tools/registry/validate.go:338-360 | climbing from every item with its own `seen` set finds a cycle exactly when there is one |
| Commit.DependencyCycleCheck | tools/registry/validate.go:362-380 | accepts exactly the acyclic dependency relations |
| SplitCommand.FindAnchor | tools/registry/mutators.go:734-749 | the parent's first rank, else just behind the last queued sibling, else none |
| SplitCommand.PromoteAndSeed | tools/registry/mutators.go:671-754 | promotes the parent, appends the child, and, if ranked, seeds it at the parent's rank or just behind its last queued sibling; nothing else changes |
| TopoRepair.LeafLands | tools/registry/mutators.go:145-167 | an id without dependencies that was put too late is moved to just ahead of the first id that needs it; nothing else moves |
| Grow.ChildFollowed | tools/registry/validate.go:522-552 | whoever depends on the parent, or on an umbrella over it, must follow the new child |
| Split.FollowsAfter | tools/registry/validate.go:522-552 | and nobody else comes to wait for anything |
| Grow.GrownQueue | tools/registry/mutators.go:727-754 | after an unqueued item got a child, that child stands where it was seeded, or at the end without an anchor, but ahead of the first entry that depends on its parent or an umbrella over it; nothing else moves |
| SplitCommand.PlaceAmongSiblings | tools/registry/mutators.go:734-749 | a further child goes right behind the last queued sibling, or right ahead of it exactly if that sibling depends on an umbrella it lies under |
| SplitCommand.NextChildOvertakes | tools/registry/mutators.go:734-749 | such a registry, and a child that is seeded behind its sibling and ends ahead of it |
| SplitCommand.RunSplit | tools/registry/mutators.go:624-780 | for any item of a committed registry and a fresh open child: written exactly if no check outside the model objects and no WONTFIX item is revived; the child takes the parent's place in the queue, or the place that `GrownQueue` names |
| SplitCommand.SplitStaysSound | tools/registry/mutators.go:671-716 | a split keeps every structural rule (ids, dependencies, WONTFIX, parents, both acyclicities) exactly unless the parent is a WONTFIX item that depends on another |
| SplitCommand.RevivedIsRefused | tools/registry/mutators.go:671-716 | such a registry: committed, sound, and its split unsound |
| SplitCommand.CleanSplitPasses | tools/registry/mutators.go:727-780 | after any split of a committed registry the queue graph is acyclic and the reconciled queue is the old one with the child in its place |
| Z80.RunIsExec | tools/sha256-unroll-gen/gen_sha256_unrolled.py:69-70 | running the emitted instruction list is executing the structured code |
| Z80Words.SumBytes | tools/sha256-unroll-gen/gen_sha256_unrolled.py:95-103 | the bytes of a 32-bit sum come from a carry chain, least significant byte first |
| Z80Words.CarryChain | tools/sha256-unroll-gen/gen_sha256_unrolled.py:95-103 | four bytes added with carry make the sum modulo 2^32 |
| Z80Macros.LdQuadDoes | tools/sha256-unroll-gen/gen_sha256_unrolled.py:73-80 | loads the big-endian word |
| Z80Macros.StQuadDoes | tools/sha256-unroll-gen/gen_sha256_unrolled.py:83-90 | stores it, writing those four bytes only |
| Z80Macros.BcdeAddDoes | tools/sha256-unroll-gen/gen_sha256_unrolled.py:95-103 | BCDE becomes the sum modulo 2^32; memory unchanged |
| Z80Macros.BcdeAddPtrDoes | tools/sha256-unroll-gen/gen_sha256_unrolled.py:107-115 | the same through a stored pointer to the last byte |
| Z80Macros.MemAddBcdeDoes | tools/sha256-unroll-gen/gen_sha256_unrolled.py:119-127 | adds BCDE to the word in memory, leaving BCDE and all other memory alone |
| Z80Macros.Copy4Does | tools/sha256-unroll-gen/gen_sha256_unrolled.py:131-136 | copies a word between disjoint places |
| Z80Macros.AdvancePtrDoes | tools/sha256-unroll-gen/gen_sha256_unrolled.py:180-186 | moves a stored pointer on by one word |
| Z80Macros.RotR1Does | src/netboot/sha256.asm:103-110 | rotates the quad right by one bit |
| Z80Macros.RotL1Does | src/netboot/sha256.asm:114-121 | rotates it left by one bit |
| Z80Macros.RotR8Does | src/netboot/sha256.asm:155-161 | rotates it right by eight |
| Z80Macros.RotR16Does | src/netboot/sha256.asm:165-172 | rotates it right by sixteen |
| Z80Sigma.ChInlineDoes | tools/sha256-unroll-gen/gen_sha256_unrolled.py:141-156 | writes Ch of section 4.1.2 of FIPS 180-4 and keeps BCDE |
| Z80Sigma.MajInlineDoes | tools/sha256-unroll-gen/gen_sha256_unrolled.py:160-178 | writes Maj of the same section |
| Z80Sigma.XorBackwardDoes | src/netboot/sha256.asm:200-215 | folds the quad into the word by exclusive or, walking down |
| Z80Sigma.XorForwardDoes | src/netboot/sha256.asm:222-237 | the same walking up |
| Z80Sigma.BigSigma0Does | src/netboot/sha256.asm:3013-3029 | the subroutine computes the large sigma-0 of section 4.1.2 |
| Z80Sigma.BigSigma1Does | src/netboot/sha256.asm:3032-3050 | and the large sigma-1 |
| Sha256Unrolled.SlotsApart | tools/sha256-unroll-gen/gen_sha256_unrolled.py:66-67 | different roles never share a slot |
| Sha256Unrolled.SlotMoves | tools/sha256-unroll-gen/gen_sha256_unrolled.py:66-67 | each phase renames role r to r+1 and h to a |
| Sha256Unrolled.T1CodeDoes | tools/sha256-unroll-gen/gen_sha256_unrolled.py:191-198 | BCDE holds T1 of section 6.2.2; only the scratch word is written |
| Sha256Unrolled.T2CodeDoes | tools/sha256-unroll-gen/gen_sha256_unrolled.py:203-206 | BCDE holds T2 |
| Sha256Unrolled.PhaseMemory | tools/sha256-unroll-gen/gen_sha256_unrolled.py:199-210 | six roles keep their words, role d gains T1, role h becomes T1 + T2 |
| Sha256Unrolled.PhaseIsRound | tools/sha256-unroll-gen/gen_sha256_unrolled.py:188-211 | phase p, read with the roles of phase p + 1, is one round of section 6.2.2, and both pointers move on |
| Sha256Unrolled.GroupsCounted | tools/sha256-unroll-gen/gen_sha256_unrolled.py:220-231 | the eight phases make eight rounds a pass and the counter in memory ends the loop after eight passes |
| Z80Program.StraightRuns | tools/sha256-unroll-gen/gen_sha256_unrolled.py:69-70 | a straight stretch of lines runs as its instructions do, one unit of fuel each |
| Z80Program.LoopLines | tools/sha256-unroll-gen/gen_sha256_unrolled.py:213-232 | lines that end in `jp nz` to their top are the counted loop over what the lines between do, in exactly as many instructions |
| Sha256Unrolled.LinesAreSha256 | tools/sha256-unroll-gen/gen_sha256_unrolled.py:213-232 | the emitted lines, run from the first to past the last, end after exactly 2 + 8 * (lines of a pass) instructions with the 64 rounds' result in the original slots, for all a..h, K and W; nothing outside the work area changes |
| Sha256Unrolled.BlockIsSha256 | tools/sha256-unroll-gen/gen_sha256_unrolled.py:213-232 | for all a..h, K and W: the loop ends after exactly eight passes, the variables then hold the 64 rounds' result in their original slots, and nothing outside the work area changes |
| RefCounts.AllocateKeepsInv | reference/zx0/src/memory.c:37-66 | `allocate` keeps all counts right exactly when the chain is safe to extend |
| RefCounts.AllocateFindsUnused | reference/zx0/src/memory.c:37-66 | the block handed out is referred to by no block and no slot; every other block keeps its contents |
| RefCounts.RootsAreSafe | reference/zx0/src/memory.c:61-63 | a block that a slot holds is a safe chain |
| RefCounts.AllocateKeepsLists | reference/zx0/src/memory.c:37-66 | every list reachable from a slot or a live block is unchanged |
| RefCounts.AssignKeepsInv | reference/zx0/src/memory.c:68-75 | `assign` keeps the counts right exactly when the new block is not on the ghost list; self-assignment included |
| RefCounts.CallStands | reference/zx0/src/optimize.c:73-122 | one `assign(&slot, allocate(.., held block))` changes that slot's list as consing would, and no other |
| RefCounts.RunStands | reference/zx0/src/optimize.c:73-122 | any run of such calls, whatever memory is handed out, implements immutable lists in slots |
| RefCounts.UnheldChainBreaks | reference/zx0/src/memory.c:37-66 | a state that two calls from the start reach, and a chain no slot holds, after whose allocation the counts are wrong |
| BlockPool.Pool.Allocate | reference/zx0/src/memory.c:37-66 | the pointer code refines the specification, keeps the pool valid, and hands out a block that was the first ghost or never in use |
| BlockPool.Pool.Assign | reference/zx0/src/memory.c:68-75 | likewise, and writes only the one slot |
| BlockPool.Pool.AssignNew | reference/zx0/src/optimize.c:73-122 | `assign(&slot, allocate(.., chain))` as one call on pointers |
| BlockPool.Pool.Extend | reference/zx0/src/optimize.c:82-122 | with the chain from a slot: that slot's list is consed onto the target slot, no other list changes |
| BlockPool.Pool.Copy | reference/zx0/src/optimize.c:88-122 | `assign(&slot, other slot)` copies the list |
| BlockPool.Pool.Run | reference/zx0/src/optimize.c:73-125 | any run of these calls on the pointers implements immutable lists in slots |
| BlockPool.Pool.TakeGhost | reference/zx0/src/memory.c:40-46 | takes the first ghost and releases what it was chained to |
| BlockPool.Pool.Refill | reference/zx0/src/memory.c:48-55 | ten thousand new distinct blocks |
| Bitfield.WordPreservesMeaning | tools/aarch64dec/aliases.go:186-283 | for every defined bitfield word and all register contents, the chosen alias with its operands does what the UBFM, SBFM or BFM word does |
| Bitfield.AliasPreservesMeaning | tools/aarch64dec/aliases.go:186-283 | the same by fields |
| Bitfield.AliasInRange | tools/aarch64dec/aliases.go:186-283 | the operands shown are legal for the alias |
| Bitfield.MaskBits | tools/aarch64dec/aliases.go:186-283 | the pseudocode's wmask and tmask, bit by bit |
| Bitfield.UndefinedAgrees | tools/aarch64dec/aliases.go:186-215 | the decoder and the architecture agree on what is undefined exactly for X words, mismatched N, unallocated opcodes, and W words with both fields below 32 |
| Bitfield.OverlooksWideShift | tools/aarch64dec/aliases.go:186-283 | the undefined word 0x53287C00 is shown as a shift of a W register by 40 |
| Bitfield.AliasIsPreferred | tools/aarch64dec/aliases.go:219-283 | a defined word is shown as an alias exactly when it is the encoding listed for it and no narrower alias has it: `ubfx` and `sbfx` only where no extension does, `bfc` only for Rn = 31 |
| Bitfield.WrappedOperands | tools/aarch64dec/aliases.go:224-279 | the operands shown for an undefined W word wrap at 2^32 |
| Bitfield.ReadWritten | tools/aarch64dec/aliases.go:186-283 | a register reads as it was written, a 32-bit result with the upper half zero; number 31 reads zero and keeps nothing |
| Bitfield.FieldsOfWord | tools/aarch64dec/aliases.go:187-197 | the fields are at bits 31, 29, 22, 16, 10, 5 and 0 of the word |
| Overlay.Fold | tools/aarch64enc/overlay.go:45-147 | for every slot, value, pc and base: sets bits in the slot only; succeeds exactly when some word over this base decodes to the value, and then decodes to it; adrp and movk never fail |
| Overlay.FoldMovzAuto | tools/aarch64enc/overlay.go:100-122 | moreover picks the lowest chunk position of all that decode to the value |
| Overlay.FoldLogical | tools/aarch64enc/overlay.go:123-126 | inverse of the logical-immediate decoder for the base word's width |
| Overlay.BranchFolds | tools/aarch64enc/slots_branch.go:8-22 | inverse of the branch and literal decoding, with 64-bit wrap-around of pc |
| Overlay.BranchRefused | tools/aarch64enc/slots_branch.go:8-22 | a refused offset is one that no field reaches |
| Overlay.AdrFolds | tools/aarch64enc/slots_adrp.go:29-38 | inverse of the adr decoding |
| Overlay.AdrpFolds | tools/aarch64enc/overlay.go:58-67 | never refused; the decoded page is the target's page modulo 2^33 |
| Overlay.PageDifferenceLeads | tools/aarch64enc/overlay.go:61-66 | the masked difference is in range and leads to the target's page modulo 2^33 |
| Overlay.AddSubFolds | tools/aarch64enc/overlay.go:68-79 | inverse of the unsigned 12-bit field |
| Overlay.MemImm12Folds | tools/aarch64dec/mem.go:189-275 | the scaled offset field and its fold are inverse |
| Overlay.MemImm9Folds | tools/aarch64dec/mem.go:189-350 | the signed 9-bit offset field and its fold are inverse |
| Overlay.PairImm7Folds | tools/aarch64dec/mem.go:403-440 | the scaled signed pair offset and its fold are inverse |
| Overlay.MovkFolds | tools/aarch64enc/overlay.go:94-99 | the 16-bit field holds the value's low half-word |
| Overlay.ScalesAgree | tools/aarch64enc/overlay.go:83 | the assembler's scales, from the size and width bits, are those of the disassembler |
| OverlayNumbers.DecodesToReads | tools/aarch64dec/mem.go:184-440 | for every slot, what a word decodes to is given by quotients and remainders of the word as a number, with each field's place, width, sign and scale written out |
| Overlay.FoldIsOnly | tools/aarch64enc/overlay.go:45-147 | the folded word is the only word over the base that decodes to the value, in every slot |
| Overlay.FoldBack | tools/aarch64enc/overlay.go:177-212 | folding what a word decodes to into that word gives the word back, in every slot |
| BitFields.PlaceExtract | tools/aarch64enc/overlay.go:37-45 | a field placed into cleared bits reads back |
| BitFields.ExtractIs | tools/aarch64dec/mem.go:202 | a field is the word divided by the power of its place, modulo the power of its width |
| BitFields.SignExtendLowBits | tools/aarch64dec/mem.go:112-118 | sign-extending the low bits of an in-range value gives it back |
| Bpe.BpeCompress | tools/comment-bench/main.go:761-830 | a run of best pairs and highest free bytes, ended because the table is full, no byte is free or no pair occurs twice; undoing it in reverse rebuilds the data; each pair saves at least one byte; the size is the table plus the buffer |
| Bpe.RunIsUndone | tools/comment-bench/main.go:774-825 | expanding in reverse rebuilds the data, whichever best pairs were chosen |
| Bpe.SymbolsAreUsual | tools/comment-bench/main.go:796-809 | the replacement bytes are 255, 254, .. exactly when the data keeps clear of them |
| Bpe.TableDecodes | tools/comment-bench/main.go:761-830 | the pair table alone, expanded with those bytes, gives the data back exactly when the data keeps clear of as many of the highest bytes as there are pairs |
| Bpe.ReplaceInPlace | tools/comment-bench/main.go:812-824 | the pass over `buf[:0]` equals out-of-place left-to-right substitution |
| Bpe.ExpandUndoesSubstitute | tools/comment-bench/main.go:812-824 | expanding undoes substituting when the new byte did not occur |
| Bpe.SubstituteShortens | tools/comment-bench/main.go:812-824 | an occurring pair makes the buffer strictly shorter |
| Bpe.CountPairs | tools/comment-bench/main.go:776-780 | counts all adjacent pairs, overlapping ones too |
| Bpe.MostFrequent | tools/comment-bench/main.go:784-792 | a most frequent pair, with the least first byte |
| Bpe.OccurrencesCount | tools/comment-bench/main.go:776-780 | the count of a pair is the number of places it stands at, overlaps included |
| Bpe.NoPairTwiceMeans | tools/comment-bench/main.go:793-795 | a run may end for want of a pair exactly when all adjacent pairs differ |
| Bpe.FirstGoesFirst | tools/comment-bench/main.go:812-824 | the first occurrence is replaced and what follows it on its own: replacing goes from left to right |
| Bpe.Choose | tools/comment-bench/main.go:775-809 | goes on exactly with a most frequent pair that occurs twice, ties to the smaller first byte, and the highest byte free |
| Bpe.TableAloneIsAmbiguous | tools/comment-bench/main.go:761-830 | two inputs whose whole runs, for any table size, have the same pair table and the same output |
| Bytes.UvarintRoundTrip | tools/sam-aarch64-format/editor_region.go:96-115 | every 64-bit number reads back, with what follows intact |
| Bytes.DeltaRoundTrip | tools/sam-aarch64-format/header_tables.go:35-60 | the wrapped difference added to the previous value is the value |
| StableSort.SortIsStable | tools/sam-aarch64-format/editor_region.go:201-210 | sorted, a permutation, and equal keys in their original order |
| StableSort.StableIsUnique | tools/sam-aarch64-format/editor_region.go:201-210 | there is only one such order |
| StableSort.SortedIsUnique | tools/sam-aarch64-format/header_tables.go:35-45 | with distinguishing keys there is only one sorted order, stable or not |
| Tables.TableRoundTrip | tools/sam-aarch64-format/editor_region.go:96-149 | a counted table of rows reads back if its rows do one by one |
| HeaderTables.WriteLabelTable | tools/sam-aarch64-format/header_tables.go:35-58 | appends the sorted, delta-coded label table |
| HeaderTables.ReadLabelTable | tools/sam-aarch64-format/header_tables.go:90-115 | parses it |
| HeaderTables.LabelsRoundTrip | tools/sam-aarch64-format/header_tables.go:35-115 | labels read back in their sorted order |
| HeaderTables.LabelKeyOrders | tools/sam-aarch64-format/header_tables.go:35-45 | the comparison is a total order on label rows |
| HeaderTables.LabelOrderUnique | tools/sam-aarch64-format/header_tables.go:36-42 | any list of the labels in that order is the one written, stable sort or not |
| HeaderTables.LocalKeyOrders | tools/sam-aarch64-format/header_tables.go:64-73 | the comparison is a total order on local rows |
| HeaderTables.LocalOrderUnique | tools/sam-aarch64-format/header_tables.go:64-73 | any list of the local sites in that order is the one written |
| HeaderTables.WriteLocalTable | tools/sam-aarch64-format/header_tables.go:64-88 | appends the sorted, delta-coded table of local sites |
| HeaderTables.ReadLocalTable | tools/sam-aarch64-format/header_tables.go:117-140 | parses it |
| HeaderTables.LocalsRoundTrip | tools/sam-aarch64-format/header_tables.go:64-140 | local sites read back in their sorted order |
| EditorRegion.NameReadsBack | tools/sam-aarch64-format/editor_region.go:83-149 | a front-coded name reads back after any previous name |
| EditorRegion.NamesRoundTrip | tools/sam-aarch64-format/editor_region.go:96-149 | the name table reads back in its own order |
| EditorRegion.GlobalsRoundTrip | tools/sam-aarch64-format/editor_region.go:152-190 | the global flags read back sorted |
| EditorRegion.AppendSidecar | tools/sam-aarch64-format/editor_region.go:201-235 | appends the stably sorted, tagged sidecar |
| EditorRegion.ReadSidecar | tools/sam-aarch64-format/editor_region.go:237-293 | parses both row shapes, unknown tags rejected |
| EditorRegion.SidecarRoundTrip | tools/sam-aarch64-format/editor_region.go:201-293 | comments and blank runs read back interleaved, in stable anchor order |
| EditorRegion.SidecarSurvives | tools/sam-aarch64-format/editor_region.go:201-293 | and do so exactly when no anchor is negative |
| Records.RecordWriter.WriteInsnRun | tools/sam-aarch64-format/writer.go:46-83 | appends exactly one run record |
| Records.RecordWriter.WriteLitData | tools/sam-aarch64-format/writer.go:32-36 | appends exactly one literal-data record |
| Records.RecordWriter.WriteDirective | tools/sam-aarch64-format/writer.go:97-102 | appends exactly one directive record |
| Records.RecordWriter.WriteComment | tools/sam-aarch64-format/writer.go:21-25 | appends exactly one comment record |
| Records.RecordReader.Next | tools/sam-aarch64-format/reader.go:74-168 | reads one record, or fails as specified; always moves on when it succeeds |
| Records.PatchRoundTrip | tools/sam-aarch64-format/writer.go:63-76 | a patch reads back, with both the inline and the escaped length |
| Records.ElementRoundTrip | tools/sam-aarch64-format/writer.go:57-77 | an instruction with its patches reads back |
| Records.RecordSurvives | tools/sam-aarch64-format/writer.go:13-18 | a record reads back exactly when its payload is below 65536 bytes |
| Records.StreamRoundTrip | tools/sam-aarch64-format/reader.go:239-246 | a whole record stream reads back |
| Records.StreamAppend | tools/sam-aarch64-format/writer.go:11-18 | appending a record to a stream gives the stream with one record more |
| Layout.RecordReads | tools/sam-aarch64-format/reader.go:74-168 | the reader takes a front of the stream for a record exactly when it has that record's bytes: kind 4, 5, 8 or 9, the length low byte first, then the payload; words of a mode-0 run at 4k, low byte first; elements of a mode-1 run with their patches; other kinds raw |
| Layout.RecordFails | tools/sam-aarch64-format/reader.go:74-168 | and it fails exactly where there is no such front |
| Layout.PatchReads | tools/sam-aarch64-format/reader.go:138-160 | a patch is 16 * slot + length, or 16 * slot + 15 and a length byte, and the expression |
| Layout.StreamReads | tools/sam-aarch64-format/reader.go:239-246 | the record loop reads exactly the concatenations of records |
| Layout.RecordIsLaid | tools/sam-aarch64-format/writer.go:13-102 | what is written for a record has those bytes |
| Layout.RecordIsShortest | tools/sam-aarch64-format/writer.go:46-83 | no front that reads as the record is shorter than what is written for it, and none of that length is different |
| Layout.WritableRuns | tools/sam-aarch64-format/writer.go:46-83 | `WriteInsnRun` panics exactly on runs that have no layout and on slot 0 |
| Layout.VarintReads | tools/sam-aarch64-format/editor_region.go:119-131 | a varint is read exactly where seven bits a byte, low ones first, with the top bit on all bytes but the last, make up the number in ten bytes at most |
| Layout.VarintIsShortest | tools/sam-aarch64-format/editor_region.go:96-115 | the varint written is the only shortest one |
| TbnFile.WriteFile | tools/sam-aarch64-format/writer.go:128-162 | header, tables, records and editor region, with the offset where the last begins |
| TbnFile.ReadFile | tools/sam-aarch64-format/reader.go:202-275 | parses all of it, with every range and version check |
| TbnFile.FileRoundTrip | tools/sam-aarch64-format/reader.go:202-275 | reading what was written gives the same names and records, labels, locals and globals sorted, the sidecar in stable order and its comments projected |
| FileLayout.FileReads | tools/sam-aarch64-format/reader.go:202-275 | `ReadFile` accepts a file, and gives its contents, exactly when the file is laid out so: "SA64", 3, 0, the flags, the offset of the editor region; label and local tables and records up to that offset; names, globals and sidecar from it on; bit 0 of the flags for kind bytes in the sidecar |
| FileLayout.FileIsLaid | tools/sam-aarch64-format/writer.go:128-162 | what `WriteFile` writes is laid out so, and begins with "SA64", 3, 0, 1, 0 |
| FileLayout.HeaderIs | tools/sam-aarch64-format/writer.go:131-146 | every header written begins with "SA64", 3, 0, 1, 0 and the offset of the editor region modulo 2^32, low byte first |
| FileLayout.TableReads | tools/sam-aarch64-format/header_tables.go:90-115 | a table is read exactly where its count, low byte first, and that many rows are laid out |
| FileLayout.LabelReads | tools/sam-aarch64-format/header_tables.go:97-112 | a label row: name id, low byte first, and the varint that leads from the offset before to this one modulo 2^64 |
| FileLayout.LocalReads | tools/sam-aarch64-format/header_tables.go:124-139 | a local row: digit and varint |
| FileLayout.NamesExact | tools/sam-aarch64-format/editor_region.go:119-149 | a name: the length shared with the name before, the length of the rest, and the rest |
| FileLayout.TaggedExact | tools/sam-aarch64-format/editor_region.go:237-293 | a sidecar row: kind 0, anchor varint, placement, length, text; or kind 1, anchor varint, run length |
| FileLayout.NameIsFrontCoded | tools/sam-aarch64-format/editor_region.go:83-115 | a name is written as the length of the longest front the name before has too, and what follows |
| FileLayout.NamePanics | tools/sam-aarch64-format/editor_region.go:119-149 | reading a name panics exactly where a length of 2^63 or more passes the checks as a negative number |
| ExprCode.ExprReader.NextInstr | tools/sam-aarch64-format/expr.go:168-217 | reads one instruction or fails; always moves on when it succeeds |
| ExprCode.Eval | tools/aarch64enc/expr.go:19-96 | the loop computes the stack machine's result or error, and panics exactly on a unary first byte |
| ExprCode.EvalConst | tools/sam-aarch64-format/expr.go:223-274 | the loop computes the constant evaluator's result |
| ExprCode.ExprHasContextDep | tools/sam-aarch64-format/litinsts.go:98-116 | finds a context-dependent or unreadable instruction exactly when there is one |
| ExprCode.ExecAbove | tools/aarch64enc/expr.go:19-96 | what runs on one stack runs the same above any other |
| ExprCode.ExecAppend | tools/sam-aarch64-format/expr.go:113-118 | appended code continues from the first part's stack |
| ExprCode.EvaluatesPushes | tools/aarch64enc/expr.go:19-96 | code that evaluates alone to v pushes exactly v on any stack |
| ExprLaws.BinaryComputes | tools/aarch64enc/expr.go:98-123 | behind two sub-expressions with values x and y in any context, each of the opcodes 0x10 to 0x18 gives the one value its law allows: sums, differences, products and left shifts modulo 2^64, quotients truncated toward zero (0 for a zero divisor), bits one by one, right shifts rounded down, shift counts as uint64 |
| ExprLaws.BinaryFolds | tools/sam-aarch64-format/expr.go:276-301 | the same of the constant evaluator |
| ExprLaws.ImmediatesCompute | tools/sam-aarch64-format/expr.go:139-154 | and of both on two written immediates |
| ExprLaws.UnaryComputes | tools/aarch64enc/expr.go:72-87 | NEG, NOT and the relocation operators give the one value that their laws, on the number or its bits, allow |
| ExprLaws.UnaryFolds | tools/sam-aarch64-format/expr.go:240-266 | NEG and NOT of a constant likewise; a relocation operator is never constant |
| ExprLaws.HalfWordsMakeTheValue | tools/aarch64enc/expr.go:80-87 | G0 + 2^16 G1 + 2^32 G2 + 2^48 G3 is the value as a uint64 |
| ExprLaws.LowPartsMakeTheValue | tools/aarch64enc/expr.go:76-79 | Lo12 + 2^12 Hi12 is the value modulo 2^24 |
| ExprLaws.UncheckedPartsAgree | tools/aarch64enc/expr.go:80-85 | the variants without overflow check give the same half-words |
| ExprLaws.ReadsImmediate | tools/aarch64enc/expr.go:28-35 | opcodes 1 to 4 push the next 1, 2, 4 or 8 bytes as a little-endian signed number |
| ExprLaws.ReadsOther | tools/sam-aarch64-format/expr.go:168-217 | the other opcodes and their operands, and exactly what is not an instruction |
| ExprLaws.LeavesComeFromContext | tools/aarch64enc/expr.go:36-62 | symbols, local labels and the program counter are what the context says |
| ExprLaws.ImmediateBytes | tools/sam-aarch64-format/expr.go:139-154 | the bytes written for an immediate: opcode by range, then byte k of the value |
| ExprCode.ContextFree | tools/sam-aarch64-format/litinsts.go:93-116 | without context dependence, `Eval` is the same in every context |
| ExprCode.EvalConstAgrees | tools/sam-aarch64-format/expr.go:219-274 | `EvalConst` gives v exactly when the code is context-free and `Eval` gives v |
| ExprCode.DependentIsNotConst | tools/sam-aarch64-format/expr.go:240-246 | context-dependent code is never constant |
| ExprCode.PanicsExactly | tools/aarch64enc/expr.go:72-87 | `Eval` panics exactly when the first byte is NEG, NOT or a relocation operator, whatever follows and in every context |
| ExprCode.NeverPanicsAbove | tools/aarch64enc/expr.go:72-87 | once something is on the stack, no code makes `Eval` panic |
| ExprCode.FailuresAgree | tools/sam-aarch64-format/expr.go:219-274 | on context-free code both evaluators give the same value or both fail, `Eval` with an error unless the first byte is NEG or NOT |
| ExprCode.LoneNegPanics | tools/aarch64enc/expr.go:72-73 | a lone negation: constant evaluation fails, `Eval` panics |
| ExprCode.ExprWriter.AppendRaw | tools/sam-aarch64-format/expr.go:113-118 | appends code as it is |
| ExprCode.ExprWriter.WriteImm | tools/sam-aarch64-format/expr.go:140-154 | appends the immediate's encoding |
| ExprCode.ImmRoundTrip | tools/sam-aarch64-format/expr.go:139-154 | every 64-bit immediate reads back as itself |
| ExprCode.ImmEvaluates | tools/sam-aarch64-format/expr.go:139-154 | and pushes itself on any stack |
| ExprCode.ImmIsShortest | tools/sam-aarch64-format/expr.go:139-154 | no shorter code reads as that immediate |

## Left out

- ValidateStructure: the id grammar, text lengths, references, pull requests and id shapes are not part of its contract; they enter the pipeline as one flag, `otherFaults`. The checks for canonical order and for a DONE umbrella with open children are not modelled either: sorting and deriving have just established both.
- Validate: takes those checks as the one flag; it says exactly when the modelled checks pass.
- RunSplit: a child that is closed, an umbrella, or has dependencies of its own is covered only by the general clauses (what is written is committed), not by the exact place in the queue.
- ApplyAndCommit: the canonical orders of item and question ids come from the id grammar and are parameters (`IdOrders`), as is `before` of `RunReady`; sorting is proved stable for every strict weak order.
- YAML, file locks, freshness checks, the ledger, markdown views, command-line parsing and the wording of messages.
- `nextSubID`, which chooses the child's id, and the commands other than `split` and `ready`.
- Go's map iteration order is an arbitrary choice; `sort.Slice`, `sort.SliceStable` and the uvarint codec are modelled by their documented results.
- Overflow of Go's `int` in Huffman frequencies and ranks.
- The position shift in `encodeLogicalImm`: the 13-bit field is returned unshifted, and the overlay places it.
- The message schedule, padding and the final addition of a..h to the hash state in the SHA-256 code; the bytes that `call` pushes on the stack (the subroutine bodies stand where they are called).
- The rolled SHA-256 loop, and instructions of the Z80 that the generator does not emit.
- Failure of `malloc` in the block pool, and the cost computations and table sizes of `optimize`.
- Operand text of the disassembler: decoded values are modelled, not strings. The register names, condition codes, form tables and mnemonic maps are finite tables.
- `decodePairMem` with opc bit 30 set, `decodeRegOffset` and the atomics: not reached by any fold.
- `IsFullyLiteral`'s walk over operands and `ConstDataWidth`; `WriteSym`, `WriteLocal` and `WriteOp`, which append fixed bytes.
- The in-memory symbolic records (`KindInst` and the like), which never reach a file; unknown record kinds are kept as raw bytes.
- TableRoundTrip: the count loops of the container's tables are one generic method each for writing and reading, where the source repeats the loop per table.
- NameReadsBack: a name of 2^63 bytes or more is not covered; a suffix length so large that Go's addition would overflow is an error in the model.
- The LZ77 and dictionary estimators of `comment-bench`, which produce no output stream, and `moveWidePreferred`.
