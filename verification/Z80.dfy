/** The Z80 instructions the SHA-256 round block is made of, and what they do. */
module Z80 {

  datatype Reg = A | B | C | D | E | H | L

  /** Addresses wrap at 64K. */
  type Addr = n: int | 0 <= n < 0x1_0000

  datatype Instr =
    | Ld(dst: Reg, src: Reg)          // ld r, r'
    | LdFromHl(dst: Reg)              // ld r, (hl)
    | LdToHl(src: Reg)                // ld (hl), r
    | LdAImm(v: bv8)                  // ld a, n
    | LdAFrom(addr: Addr)             // ld a, (nn)
    | LdATo(addr: Addr)               // ld (nn), a
    | LdAToDe                         // ld (de), a
    | LdHlImm(n: Addr)                // ld hl, nn
    | LdDeImm(n: Addr)                // ld de, nn
    | LdHlFrom(addr: Addr)            // ld hl, (nn)
    | LdHlTo(addr: Addr)              // ld (nn), hl
    | IncHl | DecHl | IncDe
    | DecA
    | AdcHl                           // adc a, (hl)
    | Adc(src: Reg)                   // adc a, r
    | And(src: Reg) | Or(src: Reg) | Xor(src: Reg)
    | XorHl                           // xor (hl)
    | Rrca | Rlca
    | Rr(reg: Reg) | Rl(reg: Reg)

  /** An address that was never written reads as zero. */
  type Memory = map<Addr, bv8>

  /** H and L are kept as the pair they form; D and E, which also hold data bytes, are not. */
  datatype Cpu = Cpu(a: bv8, b: bv8, c: bv8, d: bv8, e: bv8, hl: Addr, carry: bool, zero: bool, mem: Memory)

  function Read(m: Memory, addr: Addr): bv8 {
    if addr in m then m[addr] else 0
  }

  function Pair(hi: bv8, lo: bv8): Addr {
    (hi as int) * 256 + (lo as int)
  }

  lemma Incremented(b: bv8)
    requires b != 0xFF
    ensures (b + 1) as int == b as int + 1
  {
  }

  /** The byte with value n. */
  function AsByte(n: nat): (b: bv8)
    requires n < 256
    ensures b as int == n
  {
    if n == 0 then 0 else
      var b := AsByte(n - 1);
      Incremented(b);
      b + 1
  }

  function Hi(n: Addr): bv8 {
    AsByte(n / 256)
  }

  function Lo(n: Addr): bv8 {
    AsByte(n % 256)
  }

  lemma ByteFromInt(b: bv8, c: bv8)
    requires b as int == c as int
    ensures b == c
  {
  }

  lemma HalvesOfPair(hi: bv8, lo: bv8)
    ensures Hi(Pair(hi, lo)) == hi && Lo(Pair(hi, lo)) == lo
  {
    var n := Pair(hi, lo);
    assert n / 256 == hi as int && n % 256 == lo as int;
    ByteFromInt(Hi(n), hi);
    ByteFromInt(Lo(n), lo);
  }

  lemma PairOfHalves(n: Addr)
    ensures Pair(Hi(n), Lo(n)) == n
  {
  }

  function Get(s: Cpu, r: Reg): bv8 {
    match r
    case A => s.a
    case B => s.b
    case C => s.c
    case D => s.d
    case E => s.e
    case H => Hi(s.hl)
    case L => Lo(s.hl)
  }

  function Set(s: Cpu, r: Reg, v: bv8): Cpu {
    match r
    case A => s.(a := v)
    case B => s.(b := v)
    case C => s.(c := v)
    case D => s.(d := v)
    case E => s.(e := v)
    case H => s.(hl := Pair(v, Lo(s.hl)))
    case L => s.(hl := Pair(Hi(s.hl), v))
  }

  function DE(s: Cpu): Addr {
    Pair(s.d, s.e)
  }

  function SetDE(s: Cpu, n: Addr): Cpu {
    s.(d := Hi(n), e := Lo(n))
  }

  function Next(n: Addr): Addr {
    if n == 0xFFFF then 0 else n + 1
  }

  function Previous(n: Addr): Addr {
    if n == 0 then 0xFFFF else n - 1
  }

  function Bit(x: bool): bv8 {
    if x then 1 else 0
  }

  /** The byte x + y + carry leaves in the accumulator. */
  function Sum(x: bv8, y: bv8, carry: bool): bv8 {
    x + y + Bit(carry)
  }

  /** Carry out of x + y + carry. */
  predicate CarryOut(x: bv8, y: bv8, carry: bool) {
    (x as bv16) + (y as bv16) + (Bit(carry) as bv16) > 255
  }

  function AdcBy(s: Cpu, y: bv8): Cpu {
    var sum := Sum(s.a, y, s.carry);
    s.(a := sum, carry := CarryOut(s.a, y, s.carry), zero := sum == 0)
  }

  /** The logic instructions clear the carry. */
  function Logic(s: Cpu, v: bv8): Cpu {
    s.(a := v, carry := false, zero := v == 0)
  }

  function AndBy(s: Cpu, y: bv8): Cpu { Logic(s, s.a & y) }

  function OrBy(s: Cpu, y: bv8): Cpu { Logic(s, s.a | y) }

  function XorBy(s: Cpu, y: bv8): Cpu { Logic(s, s.a ^ y) }

  function Decrement(s: Cpu): Cpu { s.(a := s.a - 1, zero := s.a - 1 == 0) }

  function RotateARight(s: Cpu): Cpu {
    s.(a := (s.a >> 1) | (s.a << 7), carry := s.a & 1 == 1)
  }

  function RotateALeft(s: Cpu): Cpu {
    s.(a := (s.a << 1) | (s.a >> 7), carry := s.a & 0x80 == 0x80)
  }

  /** Rotations through the carry. */
  function ShiftedRight(v: bv8, carry: bool): bv8 { (v >> 1) | (Bit(carry) << 7) }

  function ShiftedLeft(v: bv8, carry: bool): bv8 { (v << 1) | Bit(carry) }

  function RotateRight(s: Cpu, reg: Reg): Cpu {
    var v := Get(s, reg);
    var w := ShiftedRight(v, s.carry);
    Set(s, reg, w).(carry := v & 1 == 1, zero := w == 0)
  }

  function RotateLeft(s: Cpu, reg: Reg): Cpu {
    var v := Get(s, reg);
    var w := ShiftedLeft(v, s.carry);
    Set(s, reg, w).(carry := v & 0x80 == 0x80, zero := w == 0)
  }

  function Store(s: Cpu, addr: Addr, v: bv8): Cpu {
    s.(mem := s.mem[addr := v])
  }

  function Step(i: Instr, s: Cpu): Cpu {
    match i
    case Ld(dst, src) => Set(s, dst, Get(s, src))
    case LdFromHl(dst) => Set(s, dst, Read(s.mem, s.hl))
    case LdToHl(src) => Store(s, s.hl, Get(s, src))
    case LdAImm(v) => Set(s, A, v)
    case LdAFrom(addr) => Set(s, A, Read(s.mem, addr))
    case LdATo(addr) => Store(s, addr, s.a)
    case LdAToDe => Store(s, DE(s), s.a)
    case LdHlImm(n) => s.(hl := n)
    case LdDeImm(n) => SetDE(s, n)
    case LdHlFrom(addr) => s.(hl := Pair(Read(s.mem, Next(addr)), Read(s.mem, addr)))
    case LdHlTo(addr) => Store(Store(s, addr, Lo(s.hl)), Next(addr), Hi(s.hl))
    case IncHl => s.(hl := Next(s.hl))
    case DecHl => s.(hl := Previous(s.hl))
    case IncDe => SetDE(s, Next(DE(s)))
    case DecA => Decrement(s)
    case AdcHl => AdcBy(s, Read(s.mem, s.hl))
    case Adc(src) => AdcBy(s, Get(s, src))
    case And(src) => AndBy(s, Get(s, src))
    case Or(src) => OrBy(s, Get(s, src))
    case Xor(src) => XorBy(s, Get(s, src))
    case XorHl => XorBy(s, Read(s.mem, s.hl))
    case Rrca => RotateARight(s)
    case Rlca => RotateALeft(s)
    case Rr(reg) => RotateRight(s, reg)
    case Rl(reg) => RotateLeft(s, reg)
  }

  // ---------------------------------------------------------------- programs

  /** Straight-line code, kept in the pieces it was put together from. */
  datatype Code = Op(i: Instr) | Then(first: Code, second: Code)

  function Exec(p: Code, s: Cpu): Cpu {
    match p
    case Op(i) => Step(i, s)
    case Then(first, second) => Exec(second, Exec(first, s))
  }

  /** The instructions in the order they are emitted. */
  function Listing(p: Code): seq<Instr> {
    match p
    case Op(i) => [i]
    case Then(first, second) => Listing(first) + Listing(second)
  }

  function Run(code: seq<Instr>, s: Cpu): Cpu {
    if code == [] then s else Run(code[1..], Step(code[0], s))
  }

  lemma {:induction false} RunAppend(code: seq<Instr>, js: seq<Instr>, s: Cpu)
    ensures Run(code + js, s) == Run(js, Run(code, s))
  {
    if code == [] {
      assert code + js == js;
    } else {
      assert (code + js)[0] == code[0] && (code + js)[1..] == code[1..] + js;
      RunAppend(code[1..], js, Step(code[0], s));
    }
  }

  /** Running the listing instruction by instruction is executing the pieces. */
  lemma {:induction false} RunIsExec(p: Code, s: Cpu)
    ensures Run(Listing(p), s) == Exec(p, s)
  {
    match p
    case Op(i) =>
      assert Run([i], s) == Run([i][1..], Step(i, s));
    case Then(first, second) =>
      RunAppend(Listing(first), Listing(second), s);
      RunIsExec(first, s);
      RunIsExec(second, Exec(first, s));
  }

  function Do2(i: Instr, j: Instr): Code { Then(Op(i), Op(j)) }
  function Do3(i: Instr, j: Instr, k: Instr): Code { Then(Op(i), Do2(j, k)) }
  function Do4(i: Instr, j: Instr, k: Instr, l: Instr): Code { Then(Op(i), Do3(j, k, l)) }
  function Do5(i: Instr, j: Instr, k: Instr, l: Instr, m: Instr): Code { Then(Op(i), Do4(j, k, l, m)) }

  lemma Exec2(i: Instr, j: Instr, s: Cpu)
    ensures Exec(Do2(i, j), s) == Step(j, Step(i, s))
  {
    assert Exec(Op(i), s) == Step(i, s);
  }

  lemma Exec3(i: Instr, j: Instr, k: Instr, s: Cpu)
    ensures Exec(Do3(i, j, k), s) == Step(k, Step(j, Step(i, s)))
  {
    assert Exec(Op(i), s) == Step(i, s);
    Exec2(j, k, Step(i, s));
  }

  lemma Exec4(i: Instr, j: Instr, k: Instr, l: Instr, s: Cpu)
    ensures Exec(Do4(i, j, k, l), s) == Step(l, Step(k, Step(j, Step(i, s))))
  {
    assert Exec(Op(i), s) == Step(i, s);
    Exec3(j, k, l, Step(i, s));
  }

  lemma Exec5(i: Instr, j: Instr, k: Instr, l: Instr, m: Instr, s: Cpu)
    ensures Exec(Do5(i, j, k, l, m), s) == Step(m, Step(l, Step(k, Step(j, Step(i, s)))))
  {
    assert Exec(Op(i), s) == Step(i, s);
    Exec4(j, k, l, m, Step(i, s));
  }
}
