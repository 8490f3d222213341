/** Bitfield aliases (tools/aarch64dec/aliases.go): the alias chosen for a UBFM, SBFM or BFM word does to the
    registers what the word itself does under the wmask/tmask pseudocode of the Arm ARM. */
module Bitfield {
  import opened Common
  import opened LogicalImm
  import B = BitFields

  // ---------------------------------------------------------------- registers

  /** X0 .. X30; number 31 is the zero register. */
  type Registers = x: seq<Word> | |x| == 31 witness seq(31, i => B.Zeros(64))

  /** The low d bits of a register. */
  function Read(x: Registers, r: nat, d: nat): (v: Bits)
    requires r < 32 && (d == 32 || d == 64)
    ensures |v| == d
  {
    if r == 31 then B.Zeros(d) else x[r][..d]
  }

  /** A 32-bit result clears the upper half. */
  function Write(x: Registers, r: nat, v: Bits): Registers
    requires r < 32 && (|v| == 32 || |v| == 64)
  {
    if r == 31 then x else x[r := v + B.Zeros(64 - |v|)]
  }

  // ---------------------------------------------------------------- the bitfield class

  datatype Fields = Fields(sf: nat, opc: nat, n: nat, immr: nat, imms: nat, rn: nat, rd: nat) {
    predicate Valid() {
      sf < 2 && opc < 4 && n < 2 && immr < 64 && imms < 64 && rn < 32 && rd < 32
    }
  }

  /** Bits lo .. lo + width - 1 of a word, for width 1, 2, 5 or 6. */
  function Field(word: nat, lo: nat, width: nat): nat
    requires lo <= 31
  {
    word / B.TwoTo(lo) % B.TwoTo(width)
  }

  /** Bits 28:23 of the class, and its fields. */
  function FieldsOf(word: nat): Option<Fields> {
    if Field(word, 23, 6) != 0x26 then None
    else Some(Fields(Field(word, 31, 1), Field(word, 29, 2), Field(word, 22, 1), Field(word, 16, 6),
                     Field(word, 10, 6), Field(word, 5, 5), Field(word, 0, 5)))
  }

  lemma FieldsAreValid(word: nat)
    ensures FieldsOf(word).Some? ==> FieldsOf(word).value.Valid()
  {
    assert B.TwoTo(1) == 2 && B.TwoTo(2) == 4;
    assert B.TwoTo(5) == 32 by { assert B.TwoTo(3) == 8; }
    assert B.TwoTo(6) == 64;
  }

  function DataSize(f: Fields): nat { if f.sf == 1 then 64 else 32 }

  // ---------------------------------------------------------------- the architecture

  /** x repeated to m bits. */
  function Repeat(x: Bits, m: nat): (y: Bits)
    requires |x| > 0
    ensures |y| == m
  {
    seq(m, i requires 0 <= i < m => x[i % |x|])
  }

  /** DecodeBitMasks with immediate = FALSE: (wmask, tmask). */
  function BitMasks(immN: nat, imms: nat, immr: nat, m: nat): Option<(Bits, Bits)>
    requires immN < 2 && imms < 64 && immr < 64 && (m == 32 || m == 64)
  {
    var len := HighestSetBit(64 * immN + (63 - imms), 6);
    if len < 1 || Pow(len) > m then None else Some(ElementMasks(Pow(len), imms, immr, m))
  }

  /** The masks for elements of esize = 2^len bits; AND with `levels` is the remainder modulo esize. */
  function ElementMasks(esize: nat, imms: nat, immr: nat, m: nat): (Bits, Bits)
    requires esize > 0
  {
    var s, r := imms % esize, immr % esize;
    var d := (s - r) % esize;
    (Repeat(Rotate(Run(s + 1, esize), r), m), Repeat(Run(d + 1, esize), m))
  }

  function AndBits(x: Bits, y: Bits): (z: Bits)
    requires |x| == |y|
    ensures |z| == |x|
  {
    seq(|x|, i requires 0 <= i < |x| => x[i] && y[i])
  }

  function NotBits(x: Bits): (z: Bits)
    ensures |z| == |x|
  {
    seq(|x|, i requires 0 <= i < |x| => !x[i])
  }

  /** The decode checks of the three instruction pages. */
  predicate Undefined(f: Fields) {
    f.opc == 3 || f.n != f.sf || (f.sf == 0 && (f.immr >= 32 || f.imms >= 32))
  }

  /** The value the instruction pages compute for Rd. */
  function Result(f: Fields, x: Registers): (v: Bits)
    requires f.Valid() && !Undefined(f)
    ensures |v| == DataSize(f)
  {
    var d := DataSize(f);
    MasksDefined(f);
    var masks := BitMasks(f.n, f.imms, f.immr, d).value;
    var (wmask, tmask) := masks;
    var src, dst := Read(x, f.rn, d), Read(x, f.rd, d);
    if f.opc == 2 then AndBits(AndBits(Rotate(src, f.immr), wmask), tmask)
    else if f.opc == 0 then
      var bot := AndBits(Rotate(src, f.immr), wmask);
      var top := seq(d, i => src[f.imms]);
      B.OrBits(AndBits(top, NotBits(tmask)), AndBits(bot, tmask))
    else
      var bot := B.OrBits(AndBits(dst, NotBits(wmask)), AndBits(Rotate(src, f.immr), wmask));
      B.OrBits(AndBits(dst, NotBits(tmask)), AndBits(bot, tmask))
  }

  function Execute(f: Fields, x: Registers): Registers
    requires f.Valid() && !Undefined(f)
  {
    Write(x, f.rd, Result(f, x))
  }

  lemma MasksDefined(f: Fields)
    requires f.Valid() && !Undefined(f)
    ensures var m := BitMasks(f.n, f.imms, f.immr, DataSize(f));
            m.Some? && |m.value.0| == DataSize(f) && |m.value.1| == DataSize(f)
  {
    SizeIsWidth(f);
  }

  /** N equal to sf makes the element as wide as the register. */
  lemma SizeIsWidth(f: Fields)
    requires f.Valid() && !Undefined(f)
    ensures HighestSetBit(64 * f.n + (63 - f.imms), 6) == (if f.sf == 1 then 6 else 5)
  {
    var x := 64 * f.n + (63 - f.imms);
    if f.sf == 1 {
      assert x / Pow(6) % 2 == 1;
    } else {
      assert x / Pow(6) % 2 == 0;
      assert x / Pow(5) % 2 == 1;
      assert HighestSetBit(x, 6) == HighestSetBit(x, 5);
    }
  }

  /** The length of the run in tmask, less one. */
  function Top(imms: nat, immr: nat, d: nat): int {
    if imms >= immr then imms - immr else imms - immr + d
  }

  lemma Residues(imms: nat, immr: nat, d: nat)
    requires (d == 32 || d == 64) && imms < d && immr < d
    ensures imms % d == imms && immr % d == immr && (imms - immr) % d == Top(imms, immr, d)
  {
    if d == 32 {
      assert (imms - immr) % 32 == Top(imms, immr, 32);
    } else {
      assert (imms - immr) % 64 == Top(imms, immr, 64);
    }
  }

  lemma ElementMasksOf(d: nat, imms: nat, immr: nat)
    requires (d == 32 || d == 64) && imms < d && immr < d
    ensures ElementMasks(d, imms, immr, d)
            == (Repeat(Rotate(Run(imms + 1, d), immr), d), Repeat(Run(Top(imms, immr, d) + 1, d), d))
  {
    Residues(imms, immr, d);
  }

  /** An element as wide as the register. */
  lemma WholeElement(immN: nat, imms: nat, immr: nat, len: nat)
    requires immN < 2 && imms < 64 && immr < 64 && (len == 5 || len == 6)
    requires HighestSetBit(64 * immN + (63 - imms), 6) == len
    ensures BitMasks(immN, imms, immr, Pow(len)) == Some(ElementMasks(Pow(len), imms, immr, Pow(len)))
  {
  }

  lemma MasksOf(f: Fields)
    requires f.Valid() && !Undefined(f)
    ensures var d := DataSize(f);
            f.imms < d && f.immr < d
            && BitMasks(f.n, f.imms, f.immr, d)
               == Some((Repeat(Rotate(Run(f.imms + 1, d), f.immr), d), Repeat(Run(Top(f.imms, f.immr, d) + 1, d), d)))
  {
    SizeIsWidth(f);
    WholeElement(f.n, f.imms, f.immr, if f.sf == 1 then 6 else 5);
    ElementMasksOf(DataSize(f), f.imms, f.immr);
  }

  lemma RepeatWhole(x: Bits, i: nat)
    requires i < |x|
    ensures Repeat(x, |x|)[i] == x[i]
  {
    SmallMod(i, |x|);
  }

  /** wmask is a run of imms + 1 ones turned right by immr, tmask a run of imms - immr + 1 (modulo the width). */
  lemma MaskBits(f: Fields, i: nat)
    requires f.Valid() && !Undefined(f) && i < DataSize(f)
    ensures BitMasks(f.n, f.imms, f.immr, DataSize(f)).Some?
    ensures var d := DataSize(f);
            var (wmask, tmask) := BitMasks(f.n, f.imms, f.immr, d).value;
            |wmask| == d && |tmask| == d
            && wmask[i] == ((if i + f.immr < d then i + f.immr else i + f.immr - d) <= f.imms)
            && tmask[i] == (i <= Top(f.imms, f.immr, d))
  {
    MasksOf(f);
    var d := DataSize(f);
    var t := Top(f.imms, f.immr, d);
    RepeatWhole(Rotate(Run(f.imms + 1, d), f.immr), i);
    RotateAt(Run(f.imms + 1, d), f.immr, i);
    RepeatWhole(Run(t + 1, d), i);
  }

  // ---------------------------------------------------------------- the aliases

  datatype Alias =
    | Undef
    | Lsr(shift: nat) | Lsl(shift: nat) | Asr(shift: nat)
    | Ubfx(lsb: nat, width: nat) | Ubfiz(lsb: nat, width: nat) | Uxtb | Uxth
    | Sbfx(lsb: nat, width: nat) | Sbfiz(lsb: nat, width: nat) | Sxtb | Sxth | Sxtw
    | Bfi(lsb: nat, width: nat) | Bfc(lsb: nat, width: nat) | Bfxil(lsb: nat, width: nat)

  /** uint32 subtraction. */
  function Sub32(a: nat, b: nat): nat
    requires a < 0x1_0000_0000 && b < 0x1_0000_0000
  {
    if a >= b then a - b else a + 0x1_0000_0000 - b
  }

  /** decodeBitfieldAlias on the fields of the class. */
  function DecodeAlias(f: Fields): Alias
    requires f.Valid()
  {
    var d := DataSize(f);
    if f.n != f.sf || f.opc == 3 then Undef
    else if f.opc == 2 then
      if f.imms == d - 1 then Lsr(f.immr)
      else if f.imms + 1 == f.immr then Lsl(Sub32(d - 1, f.imms))
      else if f.imms < f.immr then Ubfiz(Sub32(d, f.immr), f.imms + 1)
      else if f.immr == 0 && f.sf == 0 && f.imms == 7 then Uxtb
      else if f.immr == 0 && f.sf == 0 && f.imms == 15 then Uxth
      else Ubfx(f.immr, f.imms - f.immr + 1)
    else if f.opc == 0 then
      if f.imms == d - 1 then Asr(f.immr)
      else if f.immr == 0 && f.imms == 7 then Sxtb
      else if f.immr == 0 && f.imms == 15 then Sxth
      else if f.immr == 0 && f.imms == 31 && f.sf == 1 then Sxtw
      else if f.imms < f.immr then Sbfiz(Sub32(d, f.immr), f.imms + 1)
      else Sbfx(f.immr, f.imms - f.immr + 1)
    else if f.imms < f.immr then
      if f.rn == 31 then Bfc(Sub32(d, f.immr), f.imms + 1) else Bfi(Sub32(d, f.immr), f.imms + 1)
    else Bfxil(f.immr, f.imms - f.immr + 1)
  }

  /** The operands the assembly language allows for the alias on d-bit registers. */
  predicate InRange(a: Alias, d: nat) {
    match a
    case Undef => false
    case Lsr(shift) => shift < d
    case Lsl(shift) => shift < d
    case Asr(shift) => shift < d
    case Uxtb => d == 32
    case Uxth => d == 32
    case Sxtb => true
    case Sxth => true
    case Sxtw => d == 64
    case _ => 1 <= a.width && a.lsb + a.width <= d
  }

  /** Bit i of what the alias leaves in Rd; src is Rn and dst the old Rd, both d bits wide. */
  predicate AliasBit(a: Alias, src: Bits, dst: Bits, d: nat, i: nat)
    requires |src| == d && |dst| == d && i < d && (d == 32 || d == 64) && InRange(a, d)
  {
    match a
    case Lsr(shift) => i + shift < d && src[i + shift]
    case Lsl(shift) => i >= shift && src[i - shift]
    case Asr(shift) => if i + shift < d then src[i + shift] else src[d - 1]
    case Ubfx(lsb, width) => i < width && src[lsb + i]
    case Ubfiz(lsb, width) => lsb <= i < lsb + width && src[i - lsb]
    case Uxtb => i < 8 && src[i]
    case Uxth => i < 16 && src[i]
    case Sbfx(lsb, width) => if i < width then src[lsb + i] else src[lsb + width - 1]
    case Sbfiz(lsb, width) => i >= lsb && (if i < lsb + width then src[i - lsb] else src[width - 1])
    case Sxtb => if i < 8 then src[i] else src[7]
    case Sxth => if i < 16 then src[i] else src[15]
    case Sxtw => if i < 32 then src[i] else src[31]
    case Bfi(lsb, width) => if lsb <= i < lsb + width then src[i - lsb] else dst[i]
    case Bfc(lsb, width) => if lsb <= i < lsb + width then false else dst[i]
    case Bfxil(lsb, width) => if i < width then src[lsb + i] else dst[i]
  }

  function AliasResult(a: Alias, src: Bits, dst: Bits, d: nat): (v: Bits)
    requires |src| == d && |dst| == d && (d == 32 || d == 64) && InRange(a, d)
    ensures |v| == d
  {
    seq(d, i requires 0 <= i < d => AliasBit(a, src, dst, d, i))
  }

  /** The alias as an instruction on Rd and Rn. */
  function ExecuteAlias(a: Alias, rd: nat, rn: nat, x: Registers, d: nat): Registers
    requires rd < 32 && rn < 32 && (d == 32 || d == 64) && InRange(a, d)
  {
    Write(x, rd, AliasResult(a, Read(x, rn, d), Read(x, rd, d), d))
  }

  // ---------------------------------------------------------------- the results

  lemma RotateAt(x: Bits, r: nat, i: nat)
    requires r < |x| && i < |x|
    ensures Rotate(x, r)[i] == x[if i + r < |x| then i + r else i + r - |x|]
  {
  }

  /** Every defined word is given an alias, with operands the assembly language allows. */
  lemma AliasInRange(f: Fields)
    requires f.Valid() && !Undefined(f)
    ensures InRange(DecodeAlias(f), DataSize(f))
  {
  }

  /** Bit i of the source turned right by immr. */
  function From(f: Fields, i: nat): (k: int)
    requires f.Valid() && !Undefined(f) && i < DataSize(f)
    ensures 0 <= k < DataSize(f)
  {
    if i + f.immr < DataSize(f) then i + f.immr else i + f.immr - DataSize(f)
  }

  /** What every alias must give at bit i: the pseudocode's result with the masks spelled out. */
  predicate ResultBit(f: Fields, src: Bits, dst: Bits, i: nat)
    requires f.Valid() && !Undefined(f) && |src| == |dst| == DataSize(f) && i < DataSize(f)
  {
    var k, inside := From(f, i), i <= Top(f.imms, f.immr, DataSize(f));
    if f.opc == 2 then inside && k <= f.imms && src[k]
    else if f.opc == 0 then if inside then k <= f.imms && src[k] else src[f.imms]
    else if inside && k <= f.imms then src[k]
    else dst[i]
  }

  lemma ResultIs(f: Fields, x: Registers, i: nat)
    requires f.Valid() && !Undefined(f) && i < DataSize(f)
    ensures Result(f, x)[i] == ResultBit(f, Read(x, f.rn, DataSize(f)), Read(x, f.rd, DataSize(f)), i)
  {
    MasksOf(f);
    MaskBits(f, i);
    RotateAt(Read(x, f.rn, DataSize(f)), f.immr, i);
  }

  lemma UnsignedBit(f: Fields, src: Bits, dst: Bits, i: nat)
    requires f.Valid() && !Undefined(f) && f.opc == 2 && |src| == |dst| == DataSize(f) && i < DataSize(f)
    ensures InRange(DecodeAlias(f), DataSize(f))
    ensures ResultBit(f, src, dst, i) == AliasBit(DecodeAlias(f), src, dst, DataSize(f), i)
  {
  }

  lemma SignedBit(f: Fields, src: Bits, dst: Bits, i: nat)
    requires f.Valid() && !Undefined(f) && f.opc == 0 && |src| == |dst| == DataSize(f) && i < DataSize(f)
    ensures InRange(DecodeAlias(f), DataSize(f))
    ensures ResultBit(f, src, dst, i) == AliasBit(DecodeAlias(f), src, dst, DataSize(f), i)
  {
  }

  /** Bfc names no source: register 31 reads as zero. */
  lemma InsertBit(f: Fields, src: Bits, dst: Bits, i: nat)
    requires f.Valid() && !Undefined(f) && f.opc == 1 && |src| == |dst| == DataSize(f) && i < DataSize(f)
    requires f.rn == 31 ==> src == B.Zeros(DataSize(f))
    ensures InRange(DecodeAlias(f), DataSize(f))
    ensures ResultBit(f, src, dst, i) == AliasBit(DecodeAlias(f), src, dst, DataSize(f), i)
  {
  }

  lemma AliasBitIs(f: Fields, x: Registers, i: nat)
    requires f.Valid() && !Undefined(f) && i < DataSize(f)
    ensures var d := DataSize(f);
            InRange(DecodeAlias(f), d)
            && Result(f, x)[i] == AliasBit(DecodeAlias(f), Read(x, f.rn, d), Read(x, f.rd, d), d, i)
  {
    var src, dst := Read(x, f.rn, DataSize(f)), Read(x, f.rd, DataSize(f));
    ResultIs(f, x, i);
    if f.opc == 2 { UnsignedBit(f, src, dst, i); } else if f.opc == 0 { SignedBit(f, src, dst, i); }
    else { InsertBit(f, src, dst, i); }
  }

  /** The alias preserves the meaning of the word, for every content of the registers. */
  lemma AliasPreservesMeaning(f: Fields, x: Registers)
    requires f.Valid() && !Undefined(f)
    ensures InRange(DecodeAlias(f), DataSize(f))
    ensures ExecuteAlias(DecodeAlias(f), f.rd, f.rn, x, DataSize(f)) == Execute(f, x)
  {
    var d := DataSize(f);
    var src, dst := Read(x, f.rn, d), Read(x, f.rd, d);
    AliasInRange(f);
    forall i: nat | i < d ensures Result(f, x)[i] == AliasBit(DecodeAlias(f), src, dst, d, i) {
      AliasBitIs(f, x, i);
    }
    assert Result(f, x) == AliasResult(DecodeAlias(f), src, dst, d);
  }

  /** The same for the instruction word itself. */
  lemma WordPreservesMeaning(word: nat, x: Registers)
    requires FieldsOf(word).Some? && !Undefined(FieldsOf(word).value)
    ensures var f := FieldsOf(word).value;
            f.Valid() && InRange(DecodeAlias(f), DataSize(f))
            && ExecuteAlias(DecodeAlias(f), f.rd, f.rn, x, DataSize(f)) == Execute(f, x)
  {
    FieldsAreValid(word);
    AliasPreservesMeaning(FieldsOf(word).value, x);
  }

  /** The decoder reports an undefined word exactly when it does not overlook the limits on immr and imms of a W word.
      */
  lemma UndefinedAgrees(f: Fields)
    requires f.Valid()
    ensures (DecodeAlias(f).Undef? <==> Undefined(f))
            <==> (f.sf == 1 || f.n != f.sf || f.opc == 3 || (f.immr < 32 && f.imms < 32))
  {
  }

  /** Such a word: lsr w0, w0, #40 is printed for an encoding the architecture leaves undefined. */
  lemma OverlooksWideShift()
    ensures FieldsOf(0x53287C00) == Some(Fields(0, 2, 0, 40, 31, 0, 0))
    ensures var f := FieldsOf(0x53287C00).value;
            f.Valid() && Undefined(f) && DecodeAlias(f) == Lsr(40) && DataSize(f) == 32
  {
    B.Powers();
    assert B.TwoTo(1) == 2 && B.TwoTo(3) == 8 && B.TwoTo(5) == 32 && B.TwoTo(10) == 0x400;
    assert B.TwoTo(22) == 0x40_0000 && B.TwoTo(23) == 0x80_0000 by { assert B.TwoTo(21) == 0x20_0000; }
    assert B.TwoTo(29) == 0x2000_0000 && B.TwoTo(31) == 0x8000_0000 by { assert B.TwoTo(27) == 0x800_0000; }
  }

  // ---------------------------------------------------------------- which word gets which alias

  /** The encodings the assembly language lists for the alias, less those for which it prefers a shorter one. */
  predicate Shows(f: Fields, a: Alias) {
    var d := DataSize(f);
    match a
    case Undef => false
    case Lsr(shift) => f.opc == 2 && f.immr == shift && f.imms == d - 1
    case Lsl(shift) => f.opc == 2 && 1 <= shift < d && f.immr == d - shift && f.imms == d - 1 - shift
    case Ubfiz(lsb, width) =>
      f.opc == 2 && 1 <= lsb && 1 <= width && lsb + width < d && f.immr == d - lsb && f.imms == width - 1
    case Uxtb => f.opc == 2 && d == 32 && f.immr == 0 && f.imms == 7
    case Uxth => f.opc == 2 && d == 32 && f.immr == 0 && f.imms == 15
    case Ubfx(lsb, width) =>
      f.opc == 2 && 1 <= width && lsb + width < d && f.immr == lsb && f.imms == lsb + width - 1
      && !(d == 32 && lsb == 0 && (width == 8 || width == 16))
    case Asr(shift) => f.opc == 0 && f.immr == shift && f.imms == d - 1
    case Sxtb => f.opc == 0 && f.immr == 0 && f.imms == 7
    case Sxth => f.opc == 0 && f.immr == 0 && f.imms == 15
    case Sxtw => f.opc == 0 && d == 64 && f.immr == 0 && f.imms == 31
    case Sbfiz(lsb, width) =>
      f.opc == 0 && 1 <= lsb && 1 <= width && lsb + width <= d && f.immr == d - lsb && f.imms == width - 1
    case Sbfx(lsb, width) =>
      f.opc == 0 && 1 <= width && lsb + width < d && f.immr == lsb && f.imms == lsb + width - 1
      && !(lsb == 0 && (width == 8 || width == 16 || width == 32))
    case Bfi(lsb, width) =>
      f.opc == 1 && f.rn != 31 && 1 <= lsb && 1 <= width && lsb + width <= d
      && f.immr == d - lsb && f.imms == width - 1
    case Bfc(lsb, width) =>
      f.opc == 1 && f.rn == 31 && 1 <= lsb && 1 <= width && lsb + width <= d
      && f.immr == d - lsb && f.imms == width - 1
    case Bfxil(lsb, width) =>
      f.opc == 1 && 1 <= width && lsb + width <= d && f.immr == lsb && f.imms == lsb + width - 1
  }

  /** Every defined word is shown as the one alias it is the preferred encoding of. */
  lemma AliasIsPreferred(f: Fields, a: Alias)
    requires f.Valid() && !Undefined(f)
    ensures DecodeAlias(f) == a <==> Shows(f, a)
  {
    assert Shows(f, DecodeAlias(f));
  }

  /** An undefined W word is shown with operands that wrap at 2^32, as the subtractions are on uint32. */
  lemma WrappedOperands(f: Fields)
    requires f.Valid() && f.sf == 0 && f.n == 0 && f.opc != 3 && f.immr >= 32 && f.imms < f.immr && f.imms != 31
    ensures var lsb := if f.immr == 32 then 0 else 0x1_0000_0020 - f.immr;
            DecodeAlias(f)
            == if f.opc == 2 then
                 if f.imms + 1 == f.immr then Lsl(0x1_0000_001F - f.imms) else Ubfiz(lsb, f.imms + 1)
               else if f.opc == 0 then Sbfiz(lsb, f.imms + 1)
               else if f.rn == 31 then Bfc(lsb, f.imms + 1) else Bfi(lsb, f.imms + 1)
  {
  }

  /** What is written to a register is read from it: the low bits as given, the rest zero, other registers as before. */
  lemma ReadWritten(x: Registers, r: nat, v: Bits, q: nat, d: nat)
    requires r < 32 && q < 32 && (|v| == 32 || |v| == 64) && (d == 32 || d == 64)
    ensures var after := Read(Write(x, r, v), q, d);
            if q == r && r != 31 then forall i :: 0 <= i < d ==> after[i] == (i < |v| && v[i])
            else after == Read(x, q, d)
    ensures Read(x, 31, d) == seq(d, i => false)
  {
  }

  /** The word of the fields: sf, opc, 100110, N, immr, imms, Rn, Rd from the top. */
  function WordOf(f: Fields): nat {
    0x8000_0000 * f.sf + 0x2000_0000 * f.opc + 0x1300_0000 + 0x40_0000 * f.n + 0x1_0000 * f.immr + 0x400 * f.imms
    + 32 * f.rn + f.rd
  }

  lemma FieldPowers()
    ensures B.TwoTo(0) == 1 && B.TwoTo(1) == 2 && B.TwoTo(2) == 4 && B.TwoTo(5) == 32 && B.TwoTo(6) == 64
    ensures B.TwoTo(10) == 0x400 && B.TwoTo(16) == 0x1_0000 && B.TwoTo(22) == 0x40_0000 && B.TwoTo(23) == 0x80_0000
    ensures B.TwoTo(29) == 0x2000_0000 && B.TwoTo(31) == 0x8000_0000
  {
    B.Powers();
    assert B.TwoTo(4) == 16;
    assert B.TwoTo(27) == 2 * B.TwoTo(26);
    assert B.TwoTo(29) == 4 * B.TwoTo(27);
  }

  /** The fields, by shifts and masks written out. */
  lemma FieldsAre(word: nat)
    ensures FieldsOf(word)
            == if word / 0x80_0000 % 64 != 0x26 then None
               else Some(Fields(word / 0x8000_0000 % 2, word / 0x2000_0000 % 4, word / 0x40_0000 % 2,
                                word / 0x1_0000 % 64, word / 0x400 % 64, word / 32 % 32, word % 32))
  {
    FieldPowers();
  }

  /** The fields are where the class has them. */
  lemma FieldsOfWord(f: Fields)
    requires f.Valid()
    ensures FieldsOf(WordOf(f)) == Some(f)
  {
    FieldsAre(WordOf(f));
    LowFields(f);
    HighFields(f);
  }

  lemma LowFields(f: Fields)
    requires f.Valid()
    ensures WordOf(f) % 32 == f.rd && WordOf(f) / 32 % 32 == f.rn && WordOf(f) / 0x400 % 64 == f.imms
  {
    var high := 0x20_0000 * f.sf + 0x8_0000 * f.opc + 0x4_C000 + 0x1000 * f.n + 0x40 * f.immr;
    assert WordOf(f) == 0x400 * (high + f.imms) + 32 * f.rn + f.rd;
    assert WordOf(f) / 0x400 == high + f.imms;
  }

  lemma HighFields(f: Fields)
    requires f.Valid()
    ensures WordOf(f) / 0x1_0000 % 64 == f.immr && WordOf(f) / 0x40_0000 % 2 == f.n
    ensures WordOf(f) / 0x80_0000 % 64 == 0x26
    ensures WordOf(f) / 0x2000_0000 % 4 == f.opc && WordOf(f) / 0x8000_0000 % 2 == f.sf
  {
    var low := 0x400 * f.imms + 32 * f.rn + f.rd;
    var page := 0x100 * f.sf + 0x40 * f.opc + 0x26;
    TopFields(f.sf, f.opc, f.n, 0x1_0000 * f.immr + low);
    var half := 0x80 * page + 0x40 * f.n + f.immr;
    assert WordOf(f) == 0x1_0000 * half + low;
    assert WordOf(f) / 0x1_0000 == half;
  }

  lemma TopFields(sf: nat, opc: nat, n: nat, low: nat)
    requires sf < 2 && opc < 4 && n < 2 && low < 0x40_0000
    ensures var word := 0x8000_0000 * sf + 0x2000_0000 * opc + 0x1300_0000 + 0x40_0000 * n + low;
            word / 0x40_0000 % 2 == n && word / 0x80_0000 % 64 == 0x26 && word / 0x2000_0000 % 4 == opc
            && word / 0x8000_0000 % 2 == sf
  {
    var word := 0x8000_0000 * sf + 0x2000_0000 * opc + 0x1300_0000 + 0x40_0000 * n + low;
    assert word / 0x40_0000 == 0x200 * sf + 0x80 * opc + 0x4C + n;
    assert word / 0x80_0000 == 0x100 * sf + 0x40 * opc + 0x26;
    assert word / 0x2000_0000 == 4 * sf + opc;
    assert word / 0x8000_0000 == sf;
  }
}
