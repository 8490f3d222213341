/** The instruction overlay (tools/aarch64enc/overlay.go): folding a value into a relocated field is the exact
    inverse of the disassembler's reading of that field. */
module Overlay {
  import opened BitFields
  import opened Common
  import L = LogicalImm

  datatype Slot =
    | Branch26 | Branch19 | Branch14 | Adr | Adrp | AddSubImm12 | MemImm12 | MemImm9
    | MovkImm16 | Logical | PairImm7 | Litpool19 | MovzAuto

  datatype Folded = Contributes(code: Code) | Refused

  // ---------------------------------------------------------------- the bits of a slot

  /** The bits `ZeroSlot` clears. */
  predicate InSlot(slot: Slot, i: nat) {
    match slot
    case Branch26 => InField(i, 0, 26)
    case Branch19 => InField(i, 5, 19)
    case Litpool19 => InField(i, 5, 19)
    case Branch14 => InField(i, 5, 14)
    case Adr => InField(i, 29, 2) || InField(i, 5, 19)
    case Adrp => InField(i, 29, 2) || InField(i, 5, 19)
    case AddSubImm12 => InField(i, 10, 12)
    case Logical => InField(i, 10, 13)
    case MemImm12 => InField(i, 10, 12)
    case MemImm9 => InField(i, 12, 9)
    case MovkImm16 => InField(i, 5, 16)
    case MovzAuto => InField(i, 5, 16) || InField(i, 21, 2)
    case PairImm7 => InField(i, 15, 7)
  }

  function ZeroSlot(w: Code, slot: Slot): Code {
    seq(32, i requires 0 <= i < 32 => w[i] && !InSlot(slot, i))
  }

  /** Only bits of the slot are set. */
  predicate StaysInSlot(w: Code, slot: Slot) {
    forall i: nat :: i < 32 && w[i] ==> InSlot(slot, i)
  }

  /** The words the assembler could make from the base word through this slot. */
  predicate SameBase(w: Code, base: Code, slot: Slot) {
    ZeroSlot(w, slot) == ZeroSlot(base, slot)
  }

  // ---------------------------------------------------------------- the disassembler

  /** value &^ 0xFFF */
  function Page(x: Int64): Int64 { x - x % 0x1000 }

  /** immhi:immlo */
  function Imm21(w: Code): (n: nat)
    ensures n < TwoTo(21)
  {
    Powers();
    ExtractBound(w, 5, 19);
    ExtractBound(w, 29, 2);
    Extract(w, 5, 19) * 4 + Extract(w, 29, 2)
  }

  function Is64(w: Code): bool { w[31] }

  /** scaleFromSize of the disassembler, by the two bits of the size. */
  function MemScale(w: Code): nat {
    if w[31] then (if w[30] then 8 else 4) else if w[30] then 2 else 1
  }

  /** decodePairMem's scale, by opc; opc 01 and 11 do not come up. */
  function PairScale(w: Code): nat { if Extract(w, 30, 2) >= 2 then 8 else 4 }

  /** The value as a register of the instruction's width sees it. */
  function Unsigned(value: Int64, is64: bool): nat {
    if is64 then value % 0x1_0000_0000_0000_0000 else value % 0x1_0000_0000
  }

  function ValueBits(value: Int64): L.Word {
    FromNat(Unsigned(value, true), 64)
  }

  function ShiftBy16(n: nat, hw: nat): nat {
    if hw == 0 then n else if hw == 1 then n * 0x1_0000
    else if hw == 2 then n * 0x1_0000_0000 else n * 0x1_0000_0000_0000
  }

  function BranchTarget(w: Code, pc: Int64, lo: nat, width: nat): Int64
    requires lo + width <= 32 && 0 < width <= 26
  {
    Powers();
    ExtractBound(w, lo, width);
    SignExtendRange(Extract(w, lo, width), width);
    WidthAtMost26(width);
    Wrap(pc + 4 * SignExtend(Extract(w, lo, width), width))
  }

  lemma {:induction false} WidthAtMost26(width: nat)
    requires width <= 26
    ensures TwoTo(width) <= 0x400_0000
    decreases 26 - width
  {
    Powers();
    if width < 26 { WidthAtMost26(width + 1); }
  }

  function AdrOffset(w: Code): (x: int)
    ensures -0x10_0000 <= x < 0x10_0000
  {
    Powers();
    SignExtendRange(Imm21(w), 21);
    SignExtend(Imm21(w), 21)
  }

  /**
   * Reading the slot of w at pc gives the value. An adrp reaches the page of its target modulo 2^33; movk takes
   * the low 16 bits of the value. A movz of zero is read as a value in the lowest half-word only; in the others it
   * stays an explicit movz with its shift.
   */
  predicate DecodesTo(slot: Slot, w: Code, pc: Int64, value: Int64) {
    match slot
    case Branch26 => BranchTarget(w, pc, 0, 26) == value
    case Branch19 => BranchTarget(w, pc, 5, 19) == value
    case Litpool19 => BranchTarget(w, pc, 5, 19) == value
    case Branch14 => BranchTarget(w, pc, 5, 14) == value
    case Adr => Wrap(pc + AdrOffset(w)) == value
    case Adrp => (Wrap(Page(pc) + 0x1000 * AdrOffset(w)) - Page(value)) % 0x2_0000_0000 == 0
    case AddSubImm12 => Extract(w, 10, 12) == value
    case MemImm12 => Extract(w, 10, 12) * MemScale(w) == value
    case MemImm9 => SignExtend(Extract(w, 12, 9), 9) == value
    case MovkImm16 => Extract(w, 5, 16) == value % 0x1_0000
    case MovzAuto =>
      var hw := Extract(w, 21, 2);
      (Is64(w) || hw < 2) && (Extract(w, 5, 16) == 0 ==> hw == 0)
      && ShiftBy16(Extract(w, 5, 16), hw) == Unsigned(value, Is64(w))
    case Logical =>
      Powers();
      ExtractBound(w, 10, 13);
      L.DecodeField(Extract(w, 10, 13), Is64(w)) == Some(L.Truncate(ValueBits(value), Is64(w)))
    case PairImm7 => SignExtend(Extract(w, 15, 7), 7) * PairScale(w) == value
  }

  /** Some word with this base decodes to the value. */
  ghost predicate Reachable(slot: Slot, base: Code, pc: Int64, value: Int64) {
    exists w: Code :: SameBase(w, base, slot) && DecodesTo(slot, w, pc, value)
  }

  // ---------------------------------------------------------------- the encoders

  /** Go's % and / truncate toward zero. */
  function GoRem(a: int, b: int): int
    requires b > 0
  {
    if a >= 0 then a % b else 0 - (0 - a) % b
  }

  function GoDiv(a: int, b: int): int
    requires b > 0
  {
    if a >= 0 then a / b else 0 - (0 - a) / b
  }

  lemma ExactOne(a: int)
    ensures GoRem(a, 1) == 0 <==> a % 1 == 0
    ensures a % 1 == 0 ==> 1 * GoDiv(a, 1) == a
  {
  }

  lemma ExactTwo(a: int)
    ensures GoRem(a, 2) == 0 <==> a % 2 == 0
    ensures a % 2 == 0 ==> 2 * GoDiv(a, 2) == a
  {
  }

  lemma ExactFour(a: int)
    ensures GoRem(a, 4) == 0 <==> a % 4 == 0
    ensures a % 4 == 0 ==> 4 * GoDiv(a, 4) == a
  {
  }

  lemma ExactEight(a: int)
    ensures GoRem(a, 8) == 0 <==> a % 8 == 0
    ensures a % 8 == 0 ==> 8 * GoDiv(a, 8) == a
  {
  }

  lemma ExactPage(a: int)
    ensures GoRem(a, 0x1000) == 0 <==> a % 0x1000 == 0
    ensures a % 0x1000 == 0 ==> 0x1000 * GoDiv(a, 0x1000) == a
  {
  }

  /** On exact quotients they agree with the mathematical ones. */
  lemma GoExact(a: int, b: int)
    requires b == 1 || b == 2 || b == 4 || b == 8 || b == 0x1000
    ensures GoRem(a, b) == 0 <==> a % b == 0
    ensures a % b == 0 ==> b * GoDiv(a, b) == a
  {
    if b == 1 { ExactOne(a); }
    else if b == 2 { ExactTwo(a); }
    else if b == 4 { ExactFour(a); }
    else if b == 8 { ExactEight(a); }
    else { ExactPage(a); }
  }

  function EncodeBranchImm(lo: nat, width: nat, byteOffset: Int64): Folded
    requires 0 < width && lo + width <= 32
  {
    if GoRem(byteOffset, 4) != 0 then Refused
    else
      var instrOffset := GoDiv(byteOffset, 4);
      var half := TwoTo(width - 1);
      if instrOffset >= half || instrOffset < 0 - half then Refused
      else Contributes(Place(LowBits(instrOffset, width), lo, width))
  }

  function PackAdr(imm21: nat): Code {
    Or(Place(imm21 % 4, 29, 2), Place(imm21 / 4 % 0x8_0000, 5, 19))
  }

  function EncodeAdrImm(byteOffset: Int64): Folded {
    if byteOffset >= 0x10_0000 || byteOffset < -0x10_0000 then Refused
    else Contributes(PackAdr(LowBits(byteOffset, 21)))
  }

  function EncodeAdrpImm(byteOffset: Int64): Folded {
    if GoRem(byteOffset, 0x1000) != 0 then Refused
    else
      var pageOffset := GoDiv(byteOffset, 0x1000);
      if pageOffset >= 0x10_0000 || pageOffset < -0x10_0000 then Refused
      else Contributes(PackAdr(LowBits(pageOffset, 21)))
  }

  // ---------------------------------------------------------------- one field at a time

  lemma PlacedInZeroed(base: Code, slot: Slot, n: nat, lo: nat, width: nat)
    requires lo + width <= 32 && n < TwoTo(width)
    requires forall i: nat :: i < 32 ==> InSlot(slot, i) == InField(i, lo, width)
    ensures var c := Place(n, lo, width);
            var w := Or(ZeroSlot(base, slot), c);
            StaysInSlot(c, slot) && SameBase(w, base, slot) && Extract(w, lo, width) == n
            && forall i: nat :: i < 32 && !InSlot(slot, i) ==> w[i] == base[i]
  {
    PlaceStaysInside(n, lo, width);
    PlaceExtract(ZeroSlot(base, slot), n, lo, width);
    var w := Or(ZeroSlot(base, slot), Place(n, lo, width));
    forall i: nat | i < 32 ensures ZeroSlot(w, slot)[i] == ZeroSlot(base, slot)[i] {
      assert !InField(i, lo, width) ==> !Place(n, lo, width)[i];
    }
    assert ZeroSlot(w, slot) == ZeroSlot(base, slot);
  }

  /** Outside the slot, words with the same base agree. */
  lemma SameOutside(w: Code, base: Code, slot: Slot, i: nat)
    requires SameBase(w, base, slot) && i < 32 && !InSlot(slot, i)
    ensures w[i] == base[i]
  {
    assert ZeroSlot(w, slot)[i] == w[i];
    assert ZeroSlot(base, slot)[i] == base[i];
  }

  /** What folding has to achieve: it succeeds exactly on the reachable values, sets only bits of the slot, and
      the patched word decodes to the value. */
  ghost predicate Inverse(slot: Slot, base: Code, pc: Int64, value: Int64, r: Folded) {
    (r.Contributes? <==> Reachable(slot, base, pc, value))
    && (r.Contributes? ==> StaysInSlot(r.code, slot) && DecodesTo(slot, Or(ZeroSlot(base, slot), r.code), pc, value))
  }

  lemma Achieved(slot: Slot, base: Code, pc: Int64, value: Int64, r: Folded)
    requires r.Contributes? && StaysInSlot(r.code, slot)
    requires DecodesTo(slot, Or(ZeroSlot(base, slot), r.code), pc, value)
    ensures Inverse(slot, base, pc, value, r)
  {
    var w := Or(ZeroSlot(base, slot), r.code);
    forall i: nat | i < 32 ensures ZeroSlot(w, slot)[i] == ZeroSlot(base, slot)[i] {
    }
    assert ZeroSlot(w, slot) == ZeroSlot(base, slot);
    assert SameBase(w, base, slot);
  }

  // ---------------------------------------------------------------- branches

  predicate BranchSlot(slot: Slot, lo: nat, width: nat) {
    (slot == Branch26 && lo == 0 && width == 26)
    || ((slot == Branch19 || slot == Litpool19) && lo == 5 && width == 19)
    || (slot == Branch14 && lo == 5 && width == 14)
  }

  /** Going by the difference, modulo 2^64, leads from pc to the value; and only that does. */
  lemma WrapBack(pc: Int64, value: Int64, k: int)
    requires -0x1000_0000_0000 <= k < 0x1000_0000_0000
    ensures Wrap(pc + k) == value <==> Wrap(value - pc) == k
  {
  }

  lemma BranchFolds(slot: Slot, lo: nat, width: nat, base: Code, pc: Int64, value: Int64)
    requires BranchSlot(slot, lo, width)
    ensures Inverse(slot, base, pc, value, EncodeBranchImm(lo, width, Wrap(value - pc)))
  {
    Powers();
    var off := Wrap(value - pc);
    GoExact(off, 4);
    var r := EncodeBranchImm(lo, width, off);
    if r.Contributes? {
      var k := GoDiv(off, 4);
      SignExtendLowBits(k, width);
      PlacedInZeroed(base, slot, LowBits(k, width), lo, width);
      WrapBack(pc, value, 4 * k);
      Achieved(slot, base, pc, value, r);
    } else {
      forall w: Code | SameBase(w, base, slot) ensures !DecodesTo(slot, w, pc, value) {
        BranchRefused(slot, lo, width, w, pc, value);
      }
    }
  }

  lemma BranchRefused(slot: Slot, lo: nat, width: nat, w: Code, pc: Int64, value: Int64)
    requires BranchSlot(slot, lo, width) && EncodeBranchImm(lo, width, Wrap(value - pc)).Refused?
    ensures !DecodesTo(slot, w, pc, value)
  {
    Powers();
    var k := SignExtend(Extract(w, lo, width), width);
    ExtractBound(w, lo, width);
    SignExtendRange(Extract(w, lo, width), width);
    WrapBack(pc, value, 4 * k);
    GoExact(Wrap(value - pc), 4);
  }

  // ---------------------------------------------------------------- adr and adrp

  lemma OrEitherFirst(z: Code, lo: Code, hi: Code)
    ensures Or(z, Or(lo, hi)) == Or(Or(z, hi), lo) && Or(z, Or(lo, hi)) == Or(Or(z, lo), hi)
  {
  }

  lemma SplitImm21(n: nat)
    requires n < 0x20_0000
    ensures n / 4 < 0x8_0000 && n / 4 % 0x8_0000 == n / 4 && 4 * (n / 4) + n % 4 == n
  {
  }

  lemma PackedAdr(base: Code, slot: Slot, imm21: nat)
    requires (slot == Adr || slot == Adrp) && imm21 < TwoTo(21)
    ensures StaysInSlot(PackAdr(imm21), slot) && Imm21(Or(ZeroSlot(base, slot), PackAdr(imm21))) == imm21
  {
    Powers();
    SplitImm21(imm21);
    var z, low, high := ZeroSlot(base, slot), imm21 % 4, imm21 / 4 % 0x8_0000;
    var lo, hi := Place(low, 29, 2), Place(high, 5, 19);
    PlaceStaysInside(low, 29, 2);
    PlaceStaysInside(high, 5, 19);
    OrEitherFirst(z, lo, hi);
    PlaceExtract(Or(z, hi), low, 29, 2);
    PlaceExtract(Or(z, lo), high, 5, 19);
  }

  lemma AdrFolds(base: Code, pc: Int64, value: Int64)
    ensures Inverse(Adr, base, pc, value, EncodeAdrImm(Wrap(value - pc)))
  {
    Powers();
    var off := Wrap(value - pc);
    var r := EncodeAdrImm(off);
    WrapBack(pc, value, if r.Contributes? then off else 0);
    if r.Contributes? {
      SignExtendLowBits(off, 21);
      PackedAdr(base, Adr, LowBits(off, 21));
      Achieved(Adr, base, pc, value, r);
    } else {
      forall w: Code | SameBase(w, base, Adr) ensures !DecodesTo(Adr, w, pc, value) {
        WrapBack(pc, value, AdrOffset(w));
      }
    }
  }

  /** The page difference as the assembler computes it: 33 bits, sign-extended. */
  function PageDifference(value: Int64, pc: Int64): Int64 {
    var diff := Wrap(Page(value) - Page(pc)) % 0x2_0000_0000;
    if diff >= 0x1_0000_0000 then diff - 0x2_0000_0000 else diff
  }

  lemma WholePages(a: int, b: int)
    ensures (a - a % 0x1000 - (b - b % 0x1000)) % 0x1000 == 0
  {
    assert a - a % 0x1000 == 0x1000 * (a / 0x1000) && b - b % 0x1000 == 0x1000 * (b / 0x1000);
  }

  lemma PagesApart(value: Int64, pc: Int64)
    ensures Wrap(Page(value) - Page(pc)) % 0x1000 == 0
  {
    WholePages(value, pc);
  }

  lemma ReducedWhole(x: int)
    requires x % 0x1000 == 0
    ensures x % 0x2_0000_0000 % 0x1000 == 0
  {
    var k, q := x / 0x1000, x / 0x2_0000_0000;
    var n := k - 0x20_0000 * q;
    assert x == 0x1000 * k && x == 0x2_0000_0000 * q + x % 0x2_0000_0000;
    assert x % 0x2_0000_0000 == 0x1000 * n;
  }

  lemma PageDifferenceIs(value: Int64, pc: Int64)
    ensures var d := PageDifference(value, pc);
            d % 0x1000 == 0 && -0x1_0000_0000 <= d < 0x1_0000_0000
  {
    PagesApart(value, pc);
    ReducedWhole(Wrap(Page(value) - Page(pc)));
  }

  lemma WrapTurns(x: int)
    requires -TWO_64 <= x < TWO_64
    ensures (Wrap(x) - x) % 0x2_0000_0000 == 0
  {
    assert Wrap(x) - x == 0 || Wrap(x) - x == TWO_64 || Wrap(x) - x == 0 - TWO_64;
  }

  lemma SumOfMultiples(a: int, b: int, c: int)
    requires a % 0x2_0000_0000 == 0 && b % 0x2_0000_0000 == 0 && c % 0x2_0000_0000 == 0
    ensures (a + b + c) % 0x2_0000_0000 == 0
  {
  }

  lemma ReducedApart(x: int)
    ensures var r := x % 0x2_0000_0000;
            (r - x) % 0x2_0000_0000 == 0 && (r - 0x2_0000_0000 - x) % 0x2_0000_0000 == 0
  {
    var q := x / 0x2_0000_0000;
    assert x == 0x2_0000_0000 * q + x % 0x2_0000_0000;
  }

  /** Masking to 33 bits and extending the sign keeps the distance between the pages modulo 2^33. */
  lemma PageDifferenceLeads(value: Int64, pc: Int64)
    ensures var d := PageDifference(value, pc);
            -0x1_0000_0000 <= d < 0x1_0000_0000 && (Wrap(Page(pc) + d) - Page(value)) % 0x2_0000_0000 == 0
  {
    var x, d := Page(value) - Page(pc), PageDifference(value, pc);
    WrapTurns(x);
    ReducedApart(Wrap(x));
    WrapTurns(Page(pc) + d);
    SumOfMultiples(Wrap(Page(pc) + d) - (Page(pc) + d), d - Wrap(x), Wrap(x) - x);
  }

  lemma PagesCounted(diff: int)
    requires diff % 0x1000 == 0 && -0x1_0000_0000 <= diff < 0x1_0000_0000
    ensures var k := GoDiv(diff, 0x1000);
            GoRem(diff, 0x1000) == 0 && 0x1000 * k == diff && -0x10_0000 <= k < 0x10_0000
  {
    ExactPage(diff);
  }

  lemma AdrpDecodes(w: Code, pc: Int64, value: Int64, k: int)
    requires -0x10_0000 <= k < 0x10_0000 && Imm21(w) == LowBits(k, 21)
    requires (Wrap(Page(pc) + 0x1000 * k) - Page(value)) % 0x2_0000_0000 == 0
    ensures DecodesTo(Adrp, w, pc, value)
  {
    Powers();
    SignExtendLowBits(k, 21);
    assert AdrOffset(w) == k;
  }

  lemma AdrpReaches(base: Code, pc: Int64, value: Int64, diff: Int64)
    requires diff % 0x1000 == 0 && -0x1_0000_0000 <= diff < 0x1_0000_0000
    requires (Wrap(Page(pc) + diff) - Page(value)) % 0x2_0000_0000 == 0
    ensures EncodeAdrpImm(diff).Contributes? && Inverse(Adrp, base, pc, value, EncodeAdrpImm(diff))
  {
    Powers();
    PagesCounted(diff);
    var k := GoDiv(diff, 0x1000);
    PackedAdr(base, Adrp, LowBits(k, 21));
    AdrpDecodes(Or(ZeroSlot(base, Adrp), PackAdr(LowBits(k, 21))), pc, value, k);
    Achieved(Adrp, base, pc, value, EncodeAdrpImm(diff));
  }

  lemma AdrpFolds(base: Code, pc: Int64, value: Int64)
    ensures EncodeAdrpImm(PageDifference(value, pc)).Contributes?
    ensures Inverse(Adrp, base, pc, value, EncodeAdrpImm(PageDifference(value, pc)))
  {
    PageDifferenceIs(value, pc);
    PageDifferenceLeads(value, pc);
    AdrpReaches(base, pc, value, PageDifference(value, pc));
  }

  // ---------------------------------------------------------------- plain fields

  lemma AddSubFolds(base: Code, pc: Int64, value: Int64)
    ensures Inverse(AddSubImm12, base, pc, value,
                    if value < 0 || value >= 0x1000 then Refused else Contributes(Place(value, 10, 12)))
  {
    Powers();
    if 0 <= value < 0x1000 {
      PlacedInZeroed(base, AddSubImm12, value, 10, 12);
      Achieved(AddSubImm12, base, pc, value, Contributes(Place(value, 10, 12)));
    } else {
      forall w: Code | SameBase(w, base, AddSubImm12) ensures !DecodesTo(AddSubImm12, w, pc, value) {
        ExtractBound(w, 10, 12);
      }
    }
  }

  lemma MemImm9Folds(base: Code, pc: Int64, value: Int64)
    ensures Inverse(MemImm9, base, pc, value,
                    if value < -256 || value > 255 then Refused else Contributes(Place(LowBits(value, 9), 12, 9)))
  {
    Powers();
    if -256 <= value <= 255 {
      SignExtendLowBits(value, 9);
      PlacedInZeroed(base, MemImm9, LowBits(value, 9), 12, 9);
      Achieved(MemImm9, base, pc, value, Contributes(Place(LowBits(value, 9), 12, 9)));
    } else {
      forall w: Code | SameBase(w, base, MemImm9) ensures !DecodesTo(MemImm9, w, pc, value) {
        ExtractBound(w, 12, 9);
        SignExtendRange(Extract(w, 12, 9), 9);
      }
    }
  }

  lemma MovkFolds(base: Code, pc: Int64, value: Int64)
    ensures Inverse(MovkImm16, base, pc, value, Contributes(Place(value % 0x1_0000, 5, 16)))
  {
    Powers();
    PlacedInZeroed(base, MovkImm16, value % 0x1_0000, 5, 16);
    Achieved(MovkImm16, base, pc, value, Contributes(Place(value % 0x1_0000, 5, 16)));
  }

  /** n * scale, for the scales of the load and store forms. */
  function Scaled(n: int, scale: int): int {
    if scale == 1 then n else if scale == 2 then 2 * n else if scale == 4 then 4 * n else 8 * n
  }

  lemma ScaledIsTimes(n: int, scale: int)
    requires scale == 1 || scale == 2 || scale == 4 || scale == 8
    ensures n * scale == Scaled(n, scale)
  {
  }

  lemma ScaledDivides(n: int, scale: int)
    requires scale == 1 || scale == 2 || scale == 4 || scale == 8
    ensures GoRem(Scaled(n, scale), scale) == 0 && GoDiv(Scaled(n, scale), scale) == n
  {
    if scale == 1 { ExactOne(n); }
    else if scale == 2 { TwiceDivides(n); }
    else if scale == 4 { FourDivide(n); }
    else { EightDivide(n); }
  }

  lemma TwiceDivides(n: int)
    ensures GoRem(2 * n, 2) == 0 && GoDiv(2 * n, 2) == n
  {
  }

  lemma FourDivide(n: int)
    ensures GoRem(4 * n, 4) == 0 && GoDiv(4 * n, 4) == n
  {
  }

  lemma EightDivide(n: int)
    ensures GoRem(8 * n, 8) == 0 && GoDiv(8 * n, 8) == n
  {
  }

  lemma ScaledUp(n: int, scale: int, value: int)
    requires (scale == 1 || scale == 2 || scale == 4 || scale == 8) && n * scale == value
    ensures GoRem(value, scale) == 0 && GoDiv(value, scale) == n
  {
    ScaledIsTimes(n, scale);
    ScaledDivides(n, scale);
  }

  /** The assembler's scale: 1 << ((baseWord >> 30) & 3) */
  function FoldScale(base: Code): int {
    TwoTo(Extract(base, 30, 2))
  }

  /** The assembler's scale of a pair, by the width bit. */
  function FoldPairScale(base: Code): int {
    if base[31] then 8 else 4
  }

  lemma SizeBits(w: Code)
    ensures Extract(w, 30, 2) == (if w[30] then 1 else 0) + (if w[31] then 2 else 0)
  {
    var size := w[30..32];
    assert size[0] == w[30] && size[1..] == [w[31]] && size[1..][1..] == [];
    assert ToNat(size[1..]) == (if w[31] then 1 else 0) + 2 * ToNat(size[1..][1..]);
  }

  /** The assembler and the disassembler scale alike. */
  lemma ScalesAgree(w: Code)
    ensures FoldScale(w) == MemScale(w) && FoldPairScale(w) == PairScale(w)
  {
    SizeBits(w);
    assert TwoTo(1) == 2 && TwoTo(2) == 4 && TwoTo(3) == 8;
  }

  function EncodeMemImm12(base: Code, value: Int64): Folded {
    var scale := FoldScale(base);
    if value < 0 || GoRem(value, scale) != 0 || GoDiv(value, scale) >= 0x1000 then Refused
    else Contributes(Place(GoDiv(value, scale), 10, 12))
  }

  lemma MemImm12Refused(base: Code, w: Code, pc: Int64, value: Int64)
    requires SameBase(w, base, MemImm12) && EncodeMemImm12(base, value).Refused?
    ensures !DecodesTo(MemImm12, w, pc, value)
  {
    Powers();
    SameOutside(w, base, MemImm12, 30);
    SameOutside(w, base, MemImm12, 31);
    ExtractBound(w, 10, 12);
    ScalesAgree(base);
    if Extract(w, 10, 12) * MemScale(base) == value {
      ScaledUp(Extract(w, 10, 12), MemScale(base), value);
    }
  }

  lemma ScaleKept(base: Code, n: nat)
    requires n < TwoTo(12)
    ensures MemScale(Or(ZeroSlot(base, MemImm12), Place(n, 10, 12))) == MemScale(base)
  {
    PlacedInZeroed(base, MemImm12, n, 10, 12);
  }

  lemma MemImm12Placed(base: Code, pc: Int64, value: Int64)
    requires EncodeMemImm12(base, value).Contributes?
    ensures Inverse(MemImm12, base, pc, value, EncodeMemImm12(base, value))
  {
    ScalesAgree(base);
    GoExact(value, FoldScale(base));
    ScaledField(base, pc, value, GoDiv(value, FoldScale(base)));
  }

  lemma ScaledField(base: Code, pc: Int64, value: Int64, n: int)
    requires 0 <= n < 0x1000 && n * MemScale(base) == value
    ensures Inverse(MemImm12, base, pc, value, Contributes(Place(n, 10, 12)))
  {
    assert TwoTo(12) == 0x1000 by { Powers(); }
    PlacedInZeroed(base, MemImm12, n, 10, 12);
    ScaleKept(base, n);
    Achieved(MemImm12, base, pc, value, Contributes(Place(n, 10, 12)));
  }

  lemma MemImm12Folds(base: Code, pc: Int64, value: Int64)
    ensures Inverse(MemImm12, base, pc, value, EncodeMemImm12(base, value))
  {
    if EncodeMemImm12(base, value).Contributes? {
      MemImm12Placed(base, pc, value);
    } else {
      forall w: Code | SameBase(w, base, MemImm12) ensures !DecodesTo(MemImm12, w, pc, value) {
        MemImm12Refused(base, w, pc, value);
      }
    }
  }

  function EncodePairImm7(base: Code, value: Int64): Folded {
    var scale := FoldPairScale(base);
    if GoRem(value, scale) != 0 then Refused
    else
      var so := GoDiv(value, scale);
      if so < -64 || so > 63 then Refused else Contributes(Place(LowBits(so, 7), 15, 7))
  }

  lemma PairImm7Refused(base: Code, w: Code, pc: Int64, value: Int64)
    requires SameBase(w, base, PairImm7) && EncodePairImm7(base, value).Refused?
    ensures !DecodesTo(PairImm7, w, pc, value)
  {
    Powers();
    SameOutside(w, base, PairImm7, 31);
    ScalesAgree(w);
    ExtractBound(w, 15, 7);
    SignExtendRange(Extract(w, 15, 7), 7);
    if SignExtend(Extract(w, 15, 7), 7) * FoldPairScale(base) == value {
      ScaledUp(SignExtend(Extract(w, 15, 7), 7), FoldPairScale(base), value);
    }
  }

  lemma PairImm7Folds(base: Code, pc: Int64, value: Int64)
    ensures Inverse(PairImm7, base, pc, value, EncodePairImm7(base, value))
  {
    Powers();
    var scale := FoldPairScale(base);
    GoExact(value, scale);
    var r := EncodePairImm7(base, value);
    if r.Contributes? {
      var so := GoDiv(value, scale);
      SignExtendLowBits(so, 7);
      PlacedInZeroed(base, PairImm7, LowBits(so, 7), 15, 7);
      ScalesAgree(Or(ZeroSlot(base, PairImm7), r.code));
      Achieved(PairImm7, base, pc, value, r);
    } else {
      forall w: Code | SameBase(w, base, PairImm7) ensures !DecodesTo(PairImm7, w, pc, value) {
        PairImm7Refused(base, w, pc, value);
      }
    }
  }

  // ---------------------------------------------------------------- movz

  /** u >> (16 * hw) */
  function ShrBy16(u: nat, hw: nat): nat {
    if hw == 0 then u else if hw == 1 then u / 0x1_0000
    else if hw == 2 then u / 0x1_0000_0000 else u / 0x1_0000_0000_0000
  }

  function PackMovz(chunk: nat, hw: nat): Code {
    Or(Place(chunk, 5, 16), Place(hw, 21, 2))
  }

  lemma PackedMovz(base: Code, chunk: nat, hw: nat)
    requires chunk < 0x1_0000 && hw < 4
    ensures var w := Or(ZeroSlot(base, MovzAuto), PackMovz(chunk, hw));
            StaysInSlot(PackMovz(chunk, hw), MovzAuto) && Extract(w, 5, 16) == chunk && Extract(w, 21, 2) == hw
            && Is64(w) == Is64(base)
  {
    Powers();
    var z := ZeroSlot(base, MovzAuto);
    var imm, sh := Place(chunk, 5, 16), Place(hw, 21, 2);
    PlaceStaysInside(chunk, 5, 16);
    PlaceStaysInside(hw, 21, 2);
    var w := Or(z, PackMovz(chunk, hw));
    assert w == Or(Or(z, sh), imm) && w == Or(Or(z, imm), sh);
    PlaceExtract(Or(z, sh), chunk, 5, 16);
    PlaceExtract(Or(z, imm), hw, 21, 2);
  }

  /** The value is a single 16-bit chunk at position hw. */
  predicate ChunkAt(u: nat, hw: nat) {
    ShiftBy16(ShrBy16(u, hw) % 0x1_0000, hw) == u
  }

  lemma ChunkFound(u: nat, hw: nat, n: nat)
    requires hw < 4 && n < 0x1_0000 && ShiftBy16(n, hw) == u
    ensures ChunkAt(u, hw)
  {
  }

  lemma MovzDecodes(w: Code, pc: Int64, value: Int64)
    requires DecodesTo(MovzAuto, w, pc, value)
    ensures var hw := Extract(w, 21, 2);
            hw < 4 && (Is64(w) || hw < 2) && ChunkAt(Unsigned(value, Is64(w)), hw)
  {
    Powers();
    ExtractBound(w, 21, 2);
    ExtractBound(w, 5, 16);
    ChunkFound(Unsigned(value, Is64(w)), Extract(w, 21, 2), Extract(w, 5, 16));
  }

  /** mov Rd, #value as a movz, with the lowest shift that does. */
  method FoldMovzAuto(base: Code, value: Int64, ghost pc: Int64) returns (r: Folded)
    ensures Inverse(MovzAuto, base, pc, value, r)
    ensures r.Contributes? ==>
              forall w: Code :: SameBase(w, base, MovzAuto) && DecodesTo(MovzAuto, w, pc, value) ==>
                Extract(Or(ZeroSlot(base, MovzAuto), r.code), 21, 2) <= Extract(w, 21, 2)
  {
    var is64 := Is64(base);
    var u := Unsigned(value, is64);
    var hw := 0;
    while hw < 4 && (is64 || hw < 2)
      invariant 0 <= hw <= 4 && (!is64 ==> hw <= 2)
      invariant forall h: nat :: h < hw ==> !ChunkAt(u, h)
    {
      var chunk := ShrBy16(u, hw) % 0x1_0000;
      if ShiftBy16(chunk, hw) == u {
        r := Contributes(PackMovz(chunk, hw));
        assert chunk == 0 ==> ChunkAt(u, 0);
        PackedMovz(base, chunk, hw);
        Achieved(MovzAuto, base, pc, value, r);
        forall w: Code | SameBase(w, base, MovzAuto) && DecodesTo(MovzAuto, w, pc, value)
          ensures hw <= Extract(w, 21, 2)
        {
          SameOutside(w, base, MovzAuto, 31);
          MovzDecodes(w, pc, value);
        }
        return;
      }
      hw := hw + 1;
    }
    forall w: Code | SameBase(w, base, MovzAuto) ensures !DecodesTo(MovzAuto, w, pc, value) {
      if DecodesTo(MovzAuto, w, pc, value) {
        SameOutside(w, base, MovzAuto, 31);
        MovzDecodes(w, pc, value);
      }
    }
    return Refused;
  }

  // ---------------------------------------------------------------- bitmask immediates

  lemma LogicalRefused(base: Code, pc: Int64, value: Int64)
    requires !L.Encodable(ValueBits(value), Is64(base))
    ensures Inverse(Logical, base, pc, value, Refused)
  {
    Powers();
    forall w: Code | SameBase(w, base, Logical) ensures !DecodesTo(Logical, w, pc, value) {
      SameOutside(w, base, Logical, 31);
      ExtractBound(w, 10, 13);
    }
  }

  method FoldLogical(base: Code, value: Int64, ghost pc: Int64) returns (r: Folded)
    ensures Inverse(Logical, base, pc, value, r)
  {
    Powers();
    var f := L.EncodeLogicalImm(ValueBits(value), Is64(base));
    if f.Ok? {
      r := Contributes(Place(f.value, 10, 13));
      PlacedInZeroed(base, Logical, f.value, 10, 13);
      Achieved(Logical, base, pc, value, r);
    } else {
      r := Refused;
      LogicalRefused(base, pc, value);
    }
  }

  // ---------------------------------------------------------------- Fold

  method FoldAdrp(base: Code, value: Int64, pc: Int64) returns (r: Folded)
    ensures Inverse(Adrp, base, pc, value, r) && r.Contributes?
  {
    AdrpFolds(base, pc, value);
    var diff := Wrap(Page(value) - Page(pc)) % 0x2_0000_0000;
    if diff >= 0x1_0000_0000 {
      diff := diff - 0x2_0000_0000;
    }
    r := EncodeAdrpImm(diff);
  }

  /** The branches and the literal loads: a signed word offset from pc. */
  method FoldBranch(slot: Slot, lo: nat, width: nat, base: Code, value: Int64, pc: Int64) returns (r: Folded)
    requires BranchSlot(slot, lo, width)
    ensures Inverse(slot, base, pc, value, r)
  {
    BranchFolds(slot, lo, width, base, pc, value);
    r := EncodeBranchImm(lo, width, Wrap(value - pc));
  }

  /**
   * The bits a relocated field contributes. Folding succeeds exactly when some word with this base decodes to
   * the value, sets only bits that ZeroSlot clears, and the patched word decodes to the value.
   */
  method Fold(slot: Slot, value: Int64, pc: Int64, base: Code) returns (r: Folded)
    ensures Inverse(slot, base, pc, value, r)
    ensures slot == Adrp || slot == MovkImm16 ==> r.Contributes?
  {
    match slot
    case Branch26 =>
      r := FoldBranch(slot, 0, 26, base, value, pc);
    case Branch19 =>
      r := FoldBranch(slot, 5, 19, base, value, pc);
    case Litpool19 =>
      r := FoldBranch(slot, 5, 19, base, value, pc);
    case Branch14 =>
      r := FoldBranch(slot, 5, 14, base, value, pc);
    case Adr =>
      AdrFolds(base, pc, value);
      r := EncodeAdrImm(Wrap(value - pc));
    case Adrp =>
      r := FoldAdrp(base, value, pc);
    case AddSubImm12 =>
      AddSubFolds(base, pc, value);
      r := if value < 0 || value >= 0x1000 then Refused else Contributes(Place(value, 10, 12));
    case MemImm12 =>
      MemImm12Folds(base, pc, value);
      r := EncodeMemImm12(base, value);
    case MemImm9 =>
      MemImm9Folds(base, pc, value);
      r := if value < -256 || value > 255 then Refused else Contributes(Place(LowBits(value, 9), 12, 9));
    case MovkImm16 =>
      MovkFolds(base, pc, value);
      r := Contributes(Place(value % 0x1_0000, 5, 16));
    case MovzAuto =>
      r := FoldMovzAuto(base, value, pc);
    case Logical =>
      r := FoldLogical(base, value, pc);
    case PairImm7 =>
      PairImm7Folds(base, pc, value);
      r := EncodePairImm7(base, value);
  }

  // ---------------------------------------------------------------- decoding and folding again

  /** Words over one base differ in their slot, if at all. */
  lemma SlotDecides(slot: Slot, v: Code, w: Code, base: Code)
    requires SameBase(v, base, slot) && SameBase(w, base, slot)
    requires forall i: nat :: i < 32 && InSlot(slot, i) ==> v[i] == w[i]
    ensures v == w
  {
    forall i: nat | i < 32 ensures v[i] == w[i] {
      if !InSlot(slot, i) {
        SameOutside(v, base, slot, i);
        SameOutside(w, base, slot, i);
      }
    }
  }

  lemma FieldDecides(v: Code, w: Code, lo: nat, width: nat)
    requires lo + width <= 32 && Extract(v, lo, width) == Extract(w, lo, width)
    ensures forall i: nat :: i < 32 && InField(i, lo, width) ==> v[i] == w[i]
  {
    ToNatInjective(v[lo..lo + width], w[lo..lo + width]);
    forall i: nat | i < 32 && InField(i, lo, width) ensures v[i] == w[i] {
      assert v[lo..lo + width][i - lo] == w[lo..lo + width][i - lo];
    }
  }

  lemma Imm21Decides(v: Code, w: Code)
    requires Imm21(v) == Imm21(w)
    ensures Extract(v, 5, 19) == Extract(w, 5, 19) && Extract(v, 29, 2) == Extract(w, 29, 2)
  {
    Powers();
    ExtractBound(v, 29, 2);
    ExtractBound(w, 29, 2);
  }

  /** What the fields of two words agree on when both decode to the value. */
  predicate FieldsAgree(slot: Slot, v: Code, w: Code) {
    match slot
    case Branch26 => Extract(v, 0, 26) == Extract(w, 0, 26)
    case Branch19 => Extract(v, 5, 19) == Extract(w, 5, 19)
    case Litpool19 => Extract(v, 5, 19) == Extract(w, 5, 19)
    case Branch14 => Extract(v, 5, 14) == Extract(w, 5, 14)
    case Adr => Imm21(v) == Imm21(w)
    case Adrp => Imm21(v) == Imm21(w)
    case AddSubImm12 => Extract(v, 10, 12) == Extract(w, 10, 12)
    case MemImm12 => Extract(v, 10, 12) == Extract(w, 10, 12)
    case MemImm9 => Extract(v, 12, 9) == Extract(w, 12, 9)
    case MovkImm16 => Extract(v, 5, 16) == Extract(w, 5, 16)
    case MovzAuto => Extract(v, 5, 16) == Extract(w, 5, 16) && Extract(v, 21, 2) == Extract(w, 21, 2)
    case Logical => Extract(v, 10, 13) == Extract(w, 10, 13)
    case PairImm7 => Extract(v, 15, 7) == Extract(w, 15, 7)
  }

  lemma FieldsDecide(slot: Slot, v: Code, w: Code, base: Code)
    requires SameBase(v, base, slot) && SameBase(w, base, slot) && FieldsAgree(slot, v, w)
    ensures v == w
  {
    match slot
    case Branch26 => FieldDecides(v, w, 0, 26); SlotDecides(slot, v, w, base);
    case Branch19 => FieldDecides(v, w, 5, 19); SlotDecides(slot, v, w, base);
    case Litpool19 => FieldDecides(v, w, 5, 19); SlotDecides(slot, v, w, base);
    case Branch14 => FieldDecides(v, w, 5, 14); SlotDecides(slot, v, w, base);
    case Adr =>
      Imm21Decides(v, w); FieldDecides(v, w, 5, 19); FieldDecides(v, w, 29, 2); SlotDecides(slot, v, w, base);
    case Adrp =>
      Imm21Decides(v, w); FieldDecides(v, w, 5, 19); FieldDecides(v, w, 29, 2); SlotDecides(slot, v, w, base);
    case AddSubImm12 => FieldDecides(v, w, 10, 12); SlotDecides(slot, v, w, base);
    case MemImm12 => FieldDecides(v, w, 10, 12); SlotDecides(slot, v, w, base);
    case MemImm9 => FieldDecides(v, w, 12, 9); SlotDecides(slot, v, w, base);
    case MovkImm16 => FieldDecides(v, w, 5, 16); SlotDecides(slot, v, w, base);
    case MovzAuto => FieldDecides(v, w, 5, 16); FieldDecides(v, w, 21, 2); SlotDecides(slot, v, w, base);
    case Logical => FieldDecides(v, w, 10, 13); SlotDecides(slot, v, w, base);
    case PairImm7 => FieldDecides(v, w, 15, 7); SlotDecides(slot, v, w, base);
  }

  lemma BranchOnce(v: Code, w: Code, pc: Int64, lo: nat, width: nat)
    requires 0 < width <= 26 && lo + width <= 32 && BranchTarget(v, pc, lo, width) == BranchTarget(w, pc, lo, width)
    ensures Extract(v, lo, width) == Extract(w, lo, width)
  {
    var target := BranchTarget(v, pc, lo, width);
    var x, y := Extract(v, lo, width), Extract(w, lo, width);
    OffsetBound(v, lo, width);
    OffsetBound(w, lo, width);
    WrapBack(pc, target, 4 * SignExtend(x, width));
    WrapBack(pc, target, 4 * SignExtend(y, width));
    ExtractBound(v, lo, width);
    ExtractBound(w, lo, width);
    SignExtendInjective(x, y, width);
  }

  lemma OffsetBound(w: Code, lo: nat, width: nat)
    requires 0 < width <= 26 && lo + width <= 32
    ensures -0x400_0000 <= SignExtend(Extract(w, lo, width), width) < 0x400_0000
  {
    Powers();
    ExtractBound(w, lo, width);
    SignExtendRange(Extract(w, lo, width), width);
    WidthAtMost26(width);
    WidthAtMost26(width - 1);
  }

  lemma AdrOffsetDecides(v: Code, w: Code)
    requires AdrOffset(v) == AdrOffset(w)
    ensures Imm21(v) == Imm21(w)
  {
    SignExtendInjective(Imm21(v), Imm21(w), 21);
  }

  lemma ApartBy33(x: int, y: int)
    requires -0x10_0000 <= x < 0x10_0000 && -0x10_0000 <= y < 0x10_0000
    requires (0x1000 * (x - y)) % 0x2_0000_0000 == 0
    ensures x == y
  {
    var q := (0x1000 * (x - y)) / 0x2_0000_0000;
    assert 0x1000 * (x - y) == 0x2_0000_0000 * q;
  }

  lemma SameReach(p: int, page: int, x: int, y: int, a: int, b: int)
    requires -0x10_0000 <= x < 0x10_0000 && -0x10_0000 <= y < 0x10_0000
    requires (a - (p + 0x1000 * x)) % 0x2_0000_0000 == 0 && (b - (p + 0x1000 * y)) % 0x2_0000_0000 == 0
    requires (a - page) % 0x2_0000_0000 == 0 && (b - page) % 0x2_0000_0000 == 0
    ensures x == y
  {
    var c, d := a - (p + 0x1000 * x), b - (p + 0x1000 * y);
    Difference33(c, d);
    Difference33(a - page, b - page);
    Difference33(a - b, c - d);
    assert a - b - (c - d) == 0x1000 * (x - y);
    ApartBy33(x, y);
  }

  lemma AdrpOnce(v: Code, w: Code, pc: Int64, value: Int64)
    requires DecodesTo(Adrp, v, pc, value) && DecodesTo(Adrp, w, pc, value)
    ensures Imm21(v) == Imm21(w)
  {
    var p, x, y := Page(pc), AdrOffset(v), AdrOffset(w);
    WrapTurns(p + 0x1000 * x);
    WrapTurns(p + 0x1000 * y);
    SameReach(p, Page(value), x, y, Wrap(p + 0x1000 * x), Wrap(p + 0x1000 * y));
    AdrOffsetDecides(v, w);
  }

  lemma Difference33(a: int, b: int)
    requires a % 0x2_0000_0000 == 0 && b % 0x2_0000_0000 == 0
    ensures (a - b) % 0x2_0000_0000 == 0
  {
  }

  lemma ScaledOnce(x: int, y: int, scale: int)
    requires scale > 0 && x * scale == y * scale
    ensures x == y
  {
  }

  /** A half-word other than zero names its place. */
  lemma ChunkOnce(m: nat, hw: nat, n: nat, hw': nat)
    requires 0 < m < 0x1_0000 && 0 < n < 0x1_0000 && hw < 4 && hw' < 4
    requires ShiftBy16(m, hw) == ShiftBy16(n, hw')
    ensures m == n && hw == hw'
  {
  }

  lemma LogicalOnce(v: Code, w: Code, pc: Int64, value: Int64)
    requires DecodesTo(Logical, v, pc, value) && DecodesTo(Logical, w, pc, value) && Is64(v) == Is64(w)
    ensures Extract(v, 10, 13) == Extract(w, 10, 13)
  {
    Powers();
    ExtractBound(v, 10, 13);
    ExtractBound(w, 10, 13);
    L.DecodeIsInjective(Extract(v, 10, 13), Extract(w, 10, 13), Is64(v));
  }

  lemma WidthBits(slot: Slot, v: Code, w: Code, base: Code)
    requires SameBase(v, base, slot) && SameBase(w, base, slot)
    requires slot == MemImm12 || slot == MovzAuto || slot == Logical || slot == PairImm7
    ensures v[31] == w[31] && v[30] == w[30]
  {
    SameOutside(v, base, slot, 31);
    SameOutside(w, base, slot, 31);
    SameOutside(v, base, slot, 30);
    SameOutside(w, base, slot, 30);
  }

  lemma PcRelativeOnce(slot: Slot, v: Code, w: Code, pc: Int64, value: Int64)
    requires slot in {Branch26, Branch19, Litpool19, Branch14, Adr, Adrp}
    requires DecodesTo(slot, v, pc, value) && DecodesTo(slot, w, pc, value)
    ensures FieldsAgree(slot, v, w)
  {
    match slot
    case Branch26 => BranchOnce(v, w, pc, 0, 26);
    case Branch19 => BranchOnce(v, w, pc, 5, 19);
    case Litpool19 => BranchOnce(v, w, pc, 5, 19);
    case Branch14 => BranchOnce(v, w, pc, 5, 14);
    case Adr =>
      WrapBack(pc, value, AdrOffset(v));
      WrapBack(pc, value, AdrOffset(w));
      AdrOffsetDecides(v, w);
    case Adrp => AdrpOnce(v, w, pc, value);
  }

  lemma ImmediateOnce(slot: Slot, v: Code, w: Code, base: Code, pc: Int64, value: Int64)
    requires slot !in {Branch26, Branch19, Litpool19, Branch14, Adr, Adrp}
    requires SameBase(v, base, slot) && SameBase(w, base, slot)
    requires DecodesTo(slot, v, pc, value) && DecodesTo(slot, w, pc, value)
    ensures FieldsAgree(slot, v, w)
  {
    Powers();
    match slot
    case AddSubImm12 =>
    case MemImm12 =>
      WidthBits(slot, v, w, base);
      ScaledOnce(Extract(v, 10, 12), Extract(w, 10, 12), MemScale(v));
    case MemImm9 =>
      ExtractBound(v, 12, 9);
      ExtractBound(w, 12, 9);
      SignExtendInjective(Extract(v, 12, 9), Extract(w, 12, 9), 9);
    case MovkImm16 =>
    case MovzAuto =>
      WidthBits(slot, v, w, base);
      SameOutside(v, base, slot, 31);
      ExtractBound(v, 5, 16);
      ExtractBound(w, 5, 16);
      ExtractBound(v, 21, 2);
      ExtractBound(w, 21, 2);
      if Extract(v, 5, 16) != 0 && Extract(w, 5, 16) != 0 {
        ChunkOnce(Extract(v, 5, 16), Extract(v, 21, 2), Extract(w, 5, 16), Extract(w, 21, 2));
      }
    case Logical =>
      WidthBits(slot, v, w, base);
      LogicalOnce(v, w, pc, value);
    case PairImm7 =>
      WidthBits(slot, v, w, base);
      ExtractBound(v, 15, 7);
      ExtractBound(w, 15, 7);
      ScalesAgree(v);
      ScalesAgree(w);
      ScaledOnce(SignExtend(Extract(v, 15, 7), 7), SignExtend(Extract(w, 15, 7), 7), PairScale(v));
      SignExtendInjective(Extract(v, 15, 7), Extract(w, 15, 7), 7);
  }

  /**
   * A word that decodes to the value is the one that folding the value builds: decoding a word and folding what was
   * read gives the word back.
   */
  lemma FoldIsOnly(slot: Slot, base: Code, pc: Int64, value: Int64, r: Folded, w: Code)
    requires Inverse(slot, base, pc, value, r) && SameBase(w, base, slot) && DecodesTo(slot, w, pc, value)
    ensures r.Contributes? && w == Or(ZeroSlot(base, slot), r.code)
  {
    assert Reachable(slot, base, pc, value);
    var v := Or(ZeroSlot(base, slot), r.code);
    ContributionKeepsBase(slot, base, r.code);
    if slot in {Branch26, Branch19, Litpool19, Branch14, Adr, Adrp} {
      PcRelativeOnce(slot, v, w, pc, value);
    } else {
      ImmediateOnce(slot, v, w, base, pc, value);
    }
    FieldsDecide(slot, v, w, base);
  }

  lemma ContributionKeepsBase(slot: Slot, base: Code, code: Code)
    requires StaysInSlot(code, slot)
    ensures SameBase(Or(ZeroSlot(base, slot), code), base, slot)
  {
    var w := Or(ZeroSlot(base, slot), code);
    forall i: nat | i < 32 ensures ZeroSlot(w, slot)[i] == ZeroSlot(base, slot)[i] {
    }
  }

  /** Folding what a word decodes to into that word changes nothing. */
  lemma FoldBack(slot: Slot, w: Code, pc: Int64, value: Int64, r: Folded)
    requires DecodesTo(slot, w, pc, value) && Inverse(slot, w, pc, value, r)
    ensures r.Contributes? && Or(ZeroSlot(w, slot), r.code) == w
  {
    FoldIsOnly(slot, w, pc, value, r, w);
  }
}
