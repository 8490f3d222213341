/** How the disassembler reads each relocated field (tools/aarch64dec), on the word as a number: shifts and masks
    written out as quotients and remainders. */
module OverlayNumbers {
  import opened BitFields
  import opened Common
  import opened Overlay
  import L = LogicalImm

  /** Sign extension of a field whose sign bit counts `half`. */
  function Signed(u: nat, half: nat): int {
    if u >= half then u - 2 * half else u
  }

  predicate Same64(x: int, y: int) {
    x % 0x1_0000_0000_0000_0000 == y % 0x1_0000_0000_0000_0000
  }

  /** immhi at bit 5, immlo at bit 29 */
  function PcOffset(n: nat): int {
    Signed(n / 32 % 0x8_0000 * 4 + n / 0x2000_0000 % 4, 0x10_0000)
  }

  /** The word with number n, at pc, reads as the value. */
  predicate Reads(slot: Slot, n: nat, pc: Int64, value: Int64) {
    match slot
    case Branch26 => Same64(value, pc + 4 * Signed(n % 0x400_0000, 0x200_0000))
    case Branch19 => Same64(value, pc + 4 * Signed(n / 32 % 0x8_0000, 0x4_0000))
    case Litpool19 => Same64(value, pc + 4 * Signed(n / 32 % 0x8_0000, 0x4_0000))
    case Branch14 => Same64(value, pc + 4 * Signed(n / 32 % 0x4000, 0x2000))
    case Adr => Same64(value, pc + PcOffset(n))
    case Adrp => (value / 0x1000 - (pc / 0x1000 + PcOffset(n))) % 0x20_0000 == 0
    case AddSubImm12 => value == n / 0x400 % 0x1000
    case MemImm12 => value == n / 0x400 % 0x1000 * TwoTo(n / 0x4000_0000 % 4)
    case MemImm9 => value == Signed(n / 0x1000 % 512, 256)
    case MovkImm16 => n / 32 % 0x1_0000 == value % 0x1_0000
    case MovzAuto =>
      var imm, hw := n / 32 % 0x1_0000, n / 0x20_0000 % 4;
      (imm == 0 ==> hw == 0)
      && if n / 0x8000_0000 % 2 == 1 then imm * TwoTo(16 * hw) == value % 0x1_0000_0000_0000_0000
         else hw < 2 && imm * TwoTo(16 * hw) == value % 0x1_0000_0000
    case Logical =>
      var wide := n / 0x8000_0000 % 2 == 1;
      L.DecodeField(n / 0x400 % 0x2000, wide) == Some(L.Truncate(ValueBits(value), wide))
    case PairImm7 => value == Signed(n / 0x8000 % 128, 64) * if n / 0x8000_0000 % 2 == 1 then 8 else 4
  }

  lemma MorePowers()
    ensures TwoTo(1) == 2 && TwoTo(5) == 32 && TwoTo(10) == 0x400 && TwoTo(15) == 0x8000
    ensures TwoTo(29) == 0x2000_0000 && TwoTo(30) == 0x4000_0000 && TwoTo(31) == 0x8000_0000
  {
    Powers();
    assert TwoTo(28) == 4 * TwoTo(26);
    assert TwoTo(30) == 4 * TwoTo(28);
  }

  lemma WidthBit(w: Code)
    ensures w[31] <==> ToNat(w) / 0x8000_0000 % 2 == 1
  {
    MorePowers();
    ExtractIs(w, 31, 1);
    assert w[31..32] == [w[31]] && [w[31]][1..] == [];
  }

  lemma WrapIsSame(x: int, value: Int64)
    requires -TWO_64 <= x < TWO_64
    ensures Wrap(x) == value <==> Same64(value, x)
  {
    assert Wrap(x) == x || Wrap(x) == x + TWO_64 || Wrap(x) == x - TWO_64;
  }

  lemma BranchReads(w: Code, pc: Int64, value: Int64, lo: nat, width: nat, at: nat, half: nat)
    requires (lo, width, at, half) in {(0, 26, 1, 0x200_0000), (5, 19, 32, 0x4_0000), (5, 14, 32, 0x2000)}
    ensures BranchTarget(w, pc, lo, width) == value <==>
            Same64(value, pc + 4 * Signed(ToNat(w) / at % (2 * half), half))
  {
    Powers();
    MorePowers();
    ExtractIs(w, lo, width);
    assert TwoTo(width - 1) == half && TwoTo(width) == 2 * half && TwoTo(lo) == at;
    OffsetBound(w, lo, width);
    WrapIsSame(pc + 4 * SignExtend(Extract(w, lo, width), width), value);
  }

  lemma AdrOffsetIs(w: Code)
    ensures AdrOffset(w) == PcOffset(ToNat(w))
  {
    Powers();
    MorePowers();
    ExtractIs(w, 5, 19);
    ExtractIs(w, 29, 2);
  }

  lemma AdrReads(w: Code, pc: Int64, value: Int64)
    ensures DecodesTo(Adr, w, pc, value) <==> Reads(Adr, ToNat(w), pc, value)
  {
    AdrOffsetIs(w);
    WrapIsSame(pc + AdrOffset(w), value);
  }

  lemma AdrpReads(w: Code, pc: Int64, value: Int64)
    ensures DecodesTo(Adrp, w, pc, value) <==> Reads(Adrp, ToNat(w), pc, value)
  {
    AdrOffsetIs(w);
    var k, p, v := AdrOffset(w), pc / 0x1000, value / 0x1000;
    assert Page(pc) == 0x1000 * p && Page(value) == 0x1000 * v;
    WrapTurns(Page(pc) + 0x1000 * k);
    ThousandTimes(v - (p + k));
    Apart(Wrap(Page(pc) + 0x1000 * k), Page(pc) + 0x1000 * k, Page(value));
  }

  lemma ThousandTimes(d: int)
    ensures 0x1000 * d % 0x2_0000_0000 == 0 <==> d % 0x20_0000 == 0
  {
    var q, r := d / 0x20_0000, d % 0x20_0000;
    assert 0x1000 * d == 0x2_0000_0000 * q + 0x1000 * r;
    QuotientIs(0x1000 * d, 0x2_0000_0000, q, 0x1000 * r);
  }

  lemma Apart(a: int, b: int, c: int)
    requires (a - b) % 0x2_0000_0000 == 0
    ensures (a - c) % 0x2_0000_0000 == 0 <==> (c - b) % 0x2_0000_0000 == 0
  {
  }

  lemma ChunkValue(imm: nat, hw: nat)
    requires hw < 4
    ensures ShiftBy16(imm, hw) == imm * TwoTo(16 * hw)
  {
    Powers();
    MorePowers();
    assert TwoTo(32) == 4 * TwoTo(30);
    assert TwoTo(36) == 64 * TwoTo(30);
    assert TwoTo(42) == 64 * TwoTo(36);
    assert TwoTo(48) == 64 * TwoTo(42);
  }

  lemma Branch26Reads(w: Code, pc: Int64, value: Int64)
    ensures BranchTarget(w, pc, 0, 26) == value <==>
            Same64(value, pc + 4 * Signed(ToNat(w) % 0x400_0000, 0x200_0000))
  {
    BranchReads(w, pc, value, 0, 26, 1, 0x200_0000);
    assert ToNat(w) / 1 == ToNat(w);
  }

  lemma Branch19Reads(w: Code, pc: Int64, value: Int64)
    ensures BranchTarget(w, pc, 5, 19) == value <==>
            Same64(value, pc + 4 * Signed(ToNat(w) / 32 % 0x8_0000, 0x4_0000))
  {
    BranchReads(w, pc, value, 5, 19, 32, 0x4_0000);
  }

  lemma Branch14Reads(w: Code, pc: Int64, value: Int64)
    ensures BranchTarget(w, pc, 5, 14) == value <==>
            Same64(value, pc + 4 * Signed(ToNat(w) / 32 % 0x4000, 0x2000))
  {
    BranchReads(w, pc, value, 5, 14, 32, 0x2000);
  }

  lemma ImmediateReads(slot: Slot, w: Code, pc: Int64, value: Int64)
    requires slot in {AddSubImm12, MemImm12, MemImm9, MovkImm16, Logical, PairImm7}
    ensures DecodesTo(slot, w, pc, value) <==> Reads(slot, ToNat(w), pc, value)
  {
    Powers();
    MorePowers();
    WidthBit(w);
    ScalesAgree(w);
    match slot
    case AddSubImm12 => ExtractIs(w, 10, 12);
    case MemImm12 =>
      ExtractIs(w, 10, 12);
      ExtractIs(w, 30, 2);
    case MemImm9 => ExtractIs(w, 12, 9);
    case MovkImm16 => ExtractIs(w, 5, 16);
    case Logical => ExtractIs(w, 10, 13);
    case PairImm7 => ExtractIs(w, 15, 7);
  }

  lemma MovzReads(w: Code, pc: Int64, value: Int64)
    ensures DecodesTo(MovzAuto, w, pc, value) <==> Reads(MovzAuto, ToNat(w), pc, value)
  {
    Powers();
    WidthBit(w);
    ExtractIs(w, 5, 16);
    ExtractIs(w, 21, 2);
    MorePowers();
    ChunkValue(Extract(w, 5, 16), Extract(w, 21, 2));
  }

  /** What the disassembler reads from a field, by numbers: the whole of what folding has to invert. */
  lemma DecodesToReads(slot: Slot, w: Code, pc: Int64, value: Int64)
    ensures DecodesTo(slot, w, pc, value) <==> Reads(slot, ToNat(w), pc, value)
  {
    match slot
    case Branch26 => Branch26Reads(w, pc, value);
    case Branch19 => Branch19Reads(w, pc, value);
    case Litpool19 => Branch19Reads(w, pc, value);
    case Branch14 => Branch14Reads(w, pc, value);
    case Adr => AdrReads(w, pc, value);
    case Adrp => AdrpReads(w, pc, value);
    case MovzAuto => MovzReads(w, pc, value);
    case _ => ImmediateReads(slot, w, pc, value);
  }
}
