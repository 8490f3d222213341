/** The inlined Ch and Maj and the two sigma subroutines of the round block. */
module Z80Sigma {
  import opened Z80
  import opened Z80Words
  import opened Sha256
  import opened Z80Macros

  predicate SameQuad(s: Cpu, r: Cpu) {
    r.b == s.b && r.c == s.c && r.d == s.d && r.e == s.e
  }

  // ---------------------------------------------------------------- Ch

  /** One byte of Ch(e, f, g) = g ^ (e & (f ^ g)), in A, H and L only. */
  function ChByte(e: Addr, f: Addr, g: Addr, dst: Addr): Code {
    Seq3(Do5(LdAFrom(f), Ld(H, A), LdAFrom(g), Ld(L, A), Xor(H)),
         Do3(Ld(H, A), LdAFrom(e), And(H)),
         Do2(Xor(L), LdATo(dst)))
  }

  function ChOf(e: bv8, f: bv8, g: bv8): bv8 { (e & (g ^ f)) ^ g }

  lemma ChByteFirst(f: Addr, g: Addr, s: Cpu)
    ensures var r := Exec(Do5(LdAFrom(f), Ld(H, A), LdAFrom(g), Ld(L, A), Xor(H)), s);
            r.a == Read(s.mem, g) ^ Read(s.mem, f) && r.hl == Pair(Read(s.mem, f), Read(s.mem, g))
            && r.mem == s.mem && SameQuad(s, r)
  {
    var x, y := Read(s.mem, f), Read(s.mem, g);
    Exec5(LdAFrom(f), Ld(H, A), LdAFrom(g), Ld(L, A), Xor(H), s);
    HalvesOfPair(x, Lo(s.hl));
    HalvesOfPair(x, y);
  }

  lemma ChByteSecond(e: Addr, x: bv8, y: bv8, s: Cpu)
    requires s.hl == Pair(x, y)
    ensures var r := Exec(Do3(Ld(H, A), LdAFrom(e), And(H)), s);
            r.a == Read(s.mem, e) & s.a && r.hl == Pair(s.a, y) && r.mem == s.mem && SameQuad(s, r)
  {
    HalvesOfPair(x, y);
    HalvesOfPair(s.a, y);
    Exec3(Ld(H, A), LdAFrom(e), And(H), s);
  }

  lemma ChByteThird(dst: Addr, x: bv8, y: bv8, s: Cpu)
    requires s.hl == Pair(x, y)
    ensures var r := Exec(Do2(Xor(L), LdATo(dst)), s);
            r.mem == s.mem[dst := s.a ^ y] && SameQuad(s, r)
  {
    HalvesOfPair(x, y);
    Exec2(Xor(L), LdATo(dst), s);
  }

  lemma ChByteDoes(e: Addr, f: Addr, g: Addr, dst: Addr, s: Cpu)
    ensures var r := Exec(ChByte(e, f, g, dst), s);
            r.mem == s.mem[dst := ChOf(Read(s.mem, e), Read(s.mem, f), Read(s.mem, g))] && SameQuad(s, r)
  {
    var p, q := Do5(LdAFrom(f), Ld(H, A), LdAFrom(g), Ld(L, A), Xor(H)), Do3(Ld(H, A), LdAFrom(e), And(H));
    ExecSeq3(p, q, Do2(Xor(L), LdATo(dst)), s);
    ChByteFirst(f, g, s);
    var s1 := Exec(p, s);
    ChByteSecond(e, Read(s.mem, f), Read(s.mem, g), s1);
    ChByteThird(dst, s1.a, Read(s.mem, g), Exec(q, s1));
  }

  lemma ChByteOfWord0(e: bv32, f: bv32, g: bv32)
    ensures Byte0(Ch(e, f, g)) == ChOf(Byte0(e), Byte0(f), Byte0(g))
  {
  }

  lemma ChByteOfWord1(e: bv32, f: bv32, g: bv32)
    ensures Byte1(Ch(e, f, g)) == ChOf(Byte1(e), Byte1(f), Byte1(g))
  {
  }

  lemma ChByteOfWord2(e: bv32, f: bv32, g: bv32)
    ensures Byte2(Ch(e, f, g)) == ChOf(Byte2(e), Byte2(f), Byte2(g))
  {
  }

  lemma ChByteOfWord3(e: bv32, f: bv32, g: bv32)
    ensures Byte3(Ch(e, f, g)) == ChOf(Byte3(e), Byte3(f), Byte3(g))
  {
  }

  // ---------------------------------------------------------------- Maj

  /** One byte of Maj(a, b, c) = (a & b) | (c & (a ^ b)). */
  function MajByte(a: Addr, b: Addr, c: Addr, dst: Addr): Code {
    Seq3(Do5(LdAFrom(a), Ld(H, A), LdAFrom(b), Ld(L, A), Xor(H)),
         Do4(Ld(D, A), LdAFrom(c), And(D), Ld(D, A)),
         Do4(Ld(A, H), And(L), Or(D), LdATo(dst)))
  }

  function MajOf(a: bv8, b: bv8, c: bv8): bv8 { (a & b) | (c & (b ^ a)) }

  lemma MajByteMiddle(c: Addr, s: Cpu)
    ensures var r := Exec(Do4(Ld(D, A), LdAFrom(c), And(D), Ld(D, A)), s);
            r.d == Read(s.mem, c) & s.a && r.hl == s.hl && r.mem == s.mem
  {
    Exec4(Ld(D, A), LdAFrom(c), And(D), Ld(D, A), s);
  }

  lemma MajByteLast(dst: Addr, x: bv8, y: bv8, s: Cpu)
    requires s.hl == Pair(x, y)
    ensures Exec(Do4(Ld(A, H), And(L), Or(D), LdATo(dst)), s).mem == s.mem[dst := (x & y) | s.d]
  {
    HalvesOfPair(x, y);
    Exec4(Ld(A, H), And(L), Or(D), LdATo(dst), s);
  }

  lemma MajByteDoes(a: Addr, b: Addr, c: Addr, dst: Addr, s: Cpu)
    ensures Exec(MajByte(a, b, c, dst), s).mem
            == s.mem[dst := MajOf(Read(s.mem, a), Read(s.mem, b), Read(s.mem, c))]
  {
    var p := Do5(LdAFrom(a), Ld(H, A), LdAFrom(b), Ld(L, A), Xor(H));
    var q := Do4(Ld(D, A), LdAFrom(c), And(D), Ld(D, A));
    ExecSeq3(p, q, Do4(Ld(A, H), And(L), Or(D), LdATo(dst)), s);
    ChByteFirst(a, b, s);
    var s1 := Exec(p, s);
    MajByteMiddle(c, s1);
    MajByteLast(dst, Read(s.mem, a), Read(s.mem, b), Exec(q, s1));
  }

  lemma MajByteOfWord0(a: bv32, b: bv32, c: bv32)
    ensures Byte0(Maj(a, b, c)) == MajOf(Byte0(a), Byte0(b), Byte0(c))
  {
  }

  lemma MajByteOfWord1(a: bv32, b: bv32, c: bv32)
    ensures Byte1(Maj(a, b, c)) == MajOf(Byte1(a), Byte1(b), Byte1(c))
  {
  }

  lemma MajByteOfWord2(a: bv32, b: bv32, c: bv32)
    ensures Byte2(Maj(a, b, c)) == MajOf(Byte2(a), Byte2(b), Byte2(c))
  {
  }

  lemma MajByteOfWord3(a: bv32, b: bv32, c: bv32)
    ensures Byte3(Maj(a, b, c)) == MajOf(Byte3(a), Byte3(b), Byte3(c))
  {
  }

  // ---------------------------------------------------------------- four bytes of Ch or Maj

  predicate Clear(dst: Addr, x: Addr, y: Addr, z: Addr) {
    Region(dst, dst + 4) && Region(x, x + 4) && Region(y, y + 4) && Region(z, z + 4)
    && (x + 4 <= dst || dst + 4 <= x) && (y + 4 <= dst || dst + 4 <= y) && (z + 4 <= dst || dst + 4 <= z)
  }

  function ChTwo(e: Addr, f: Addr, g: Addr, dst: Addr): Code
    requires Clear(dst, e, f, g)
  {
    Then(ChByte(e, f, g, dst), ChByte(e + 1, f + 1, g + 1, dst + 1))
  }

  function ChAt(m: Memory, e: Addr, f: Addr, g: Addr): bv8 { ChOf(Read(m, e), Read(m, f), Read(m, g)) }

  lemma ChTwoDoes(e: Addr, f: Addr, g: Addr, dst: Addr, s: Cpu)
    requires Clear(dst, e, f, g)
    ensures var r := Exec(ChTwo(e, f, g, dst), s);
            r.mem == s.mem[dst := ChAt(s.mem, e, f, g)][dst + 1 := ChAt(s.mem, e + 1, f + 1, g + 1)] && SameQuad(s, r)
  {
    ChByteDoes(e, f, g, dst, s);
    var s1 := Exec(ChByte(e, f, g, dst), s);
    ChByteDoes(e + 1, f + 1, g + 1, dst + 1, s1);
    assert ChAt(s1.mem, e + 1, f + 1, g + 1) == ChAt(s.mem, e + 1, f + 1, g + 1);
  }

  /** ch_inline */
  function ChInline(e: Addr, f: Addr, g: Addr, dst: Addr): Code
    requires Clear(dst, e, f, g)
  {
    Then(ChTwo(e, f, g, dst), Then(ChByte(e + 2, f + 2, g + 2, dst + 2), ChByte(e + 3, f + 3, g + 3, dst + 3)))
  }

  lemma ChHighDoes(e: Addr, f: Addr, g: Addr, dst: Addr, s: Cpu)
    requires Clear(dst, e, f, g)
    ensures var r := Exec(Then(ChByte(e + 2, f + 2, g + 2, dst + 2), ChByte(e + 3, f + 3, g + 3, dst + 3)), s);
            r.mem == s.mem[dst + 2 := ChAt(s.mem, e + 2, f + 2, g + 2)][dst + 3 := ChAt(s.mem, e + 3, f + 3, g + 3)]
            && SameQuad(s, r)
  {
    ChByteDoes(e + 2, f + 2, g + 2, dst + 2, s);
    var s1 := Exec(ChByte(e + 2, f + 2, g + 2, dst + 2), s);
    ChByteDoes(e + 3, f + 3, g + 3, dst + 3, s1);
    assert ChAt(s1.mem, e + 3, f + 3, g + 3) == ChAt(s.mem, e + 3, f + 3, g + 3);
  }

  /** The first two bytes written leave the sources of the others alone. */
  lemma ChAtKept(m: Memory, e: Addr, f: Addr, g: Addr, dst: Addr, v: bv8, w: bv8)
    requires Clear(dst, e, f, g)
    ensures var m' := m[dst := v][dst + 1 := w];
            ChAt(m', e + 2, f + 2, g + 2) == ChAt(m, e + 2, f + 2, g + 2)
            && ChAt(m', e + 3, f + 3, g + 3) == ChAt(m, e + 3, f + 3, g + 3)
  {
  }

  lemma ChInlineState(e: Addr, f: Addr, g: Addr, dst: Addr, s: Cpu)
    requires Clear(dst, e, f, g)
    ensures var m := s.mem;
            var r := Exec(ChInline(e, f, g, dst), s);
            r.mem == StoredUp(m, dst, ChAt(m, e, f, g), ChAt(m, e + 1, f + 1, g + 1), ChAt(m, e + 2, f + 2, g + 2),
                              ChAt(m, e + 3, f + 3, g + 3))
            && SameQuad(s, r)
  {
    ChTwoDoes(e, f, g, dst, s);
    var s1 := Exec(ChTwo(e, f, g, dst), s);
    ChAtKept(s.mem, e, f, g, dst, ChAt(s.mem, e, f, g), ChAt(s.mem, e + 1, f + 1, g + 1));
    ChHighDoes(e, f, g, dst, s1);
  }

  lemma ChInlineDoes(e: Addr, f: Addr, g: Addr, dst: Addr, s: Cpu)
    requires Clear(dst, e, f, g)
    ensures var r := Exec(ChInline(e, f, g, dst), s);
            Quad(r) == Quad(s) && OnlyWrites(s.mem, r.mem, dst, dst + 4)
            && ReadWord(r.mem, dst) == Ch(ReadWord(s.mem, e), ReadWord(s.mem, f), ReadWord(s.mem, g))
  {
    var m := s.mem;
    ChInlineState(e, f, g, dst, s);
    StoredUpDoes(m, dst, ChAt(m, e, f, g), ChAt(m, e + 1, f + 1, g + 1), ChAt(m, e + 2, f + 2, g + 2),
                 ChAt(m, e + 3, f + 3, g + 3));
    ChWord(m, e, f, g);
  }

  lemma ReadBytes(m: Memory, x: Addr)
    requires Region(x, x + 4)
    ensures Byte0(ReadWord(m, x)) == Read(m, x) && Byte1(ReadWord(m, x)) == Read(m, x + 1)
    ensures Byte2(ReadWord(m, x)) == Read(m, x + 2) && Byte3(ReadWord(m, x)) == Read(m, x + 3)
  {
    BytesOfWord(Read(m, x), Read(m, x + 1), Read(m, x + 2), Read(m, x + 3));
  }

  lemma ChWord(m: Memory, e: Addr, f: Addr, g: Addr)
    requires Region(e, e + 4) && Region(f, f + 4) && Region(g, g + 4)
    ensures Word(ChAt(m, e, f, g), ChAt(m, e + 1, f + 1, g + 1), ChAt(m, e + 2, f + 2, g + 2), ChAt(m, e + 3, f + 3,
            g + 3))
            == Ch(ReadWord(m, e), ReadWord(m, f), ReadWord(m, g))
  {
    var x, y, z := ReadWord(m, e), ReadWord(m, f), ReadWord(m, g);
    ReadBytes(m, e);
    ReadBytes(m, f);
    ReadBytes(m, g);
    ChByteOfWord0(x, y, z);
    ChByteOfWord1(x, y, z);
    ChByteOfWord2(x, y, z);
    ChByteOfWord3(x, y, z);
    WordOfBytes(Ch(x, y, z));
  }

  function MajAt(m: Memory, a: Addr, b: Addr, c: Addr): bv8 { MajOf(Read(m, a), Read(m, b), Read(m, c)) }

  function MajTwo(a: Addr, b: Addr, c: Addr, dst: Addr): Code
    requires Clear(dst, a, b, c)
  {
    Then(MajByte(a, b, c, dst), MajByte(a + 1, b + 1, c + 1, dst + 1))
  }

  lemma MajAtKept(m: Memory, a: Addr, b: Addr, c: Addr, p: Addr, v: bv8)
    requires p != a && p != b && p != c
    ensures MajAt(m[p := v], a, b, c) == MajAt(m, a, b, c)
  {
  }

  lemma MajAtKeptTwice(m: Memory, a: Addr, b: Addr, c: Addr, p: Addr, v: bv8, w: bv8)
    requires Region(p, p + 2) && p != a && p != b && p != c && p + 1 != a && p + 1 != b && p + 1 != c
    ensures MajAt(m[p := v][p + 1 := w], a, b, c) == MajAt(m, a, b, c)
  {
    MajAtKept(m, a, b, c, p, v);
    MajAtKept(m[p := v], a, b, c, p + 1, w);
  }

  lemma MajTwoDoes(a: Addr, b: Addr, c: Addr, dst: Addr, s: Cpu)
    requires Clear(dst, a, b, c)
    ensures Exec(MajTwo(a, b, c, dst), s).mem
            == s.mem[dst := MajAt(s.mem, a, b, c)][dst + 1 := MajAt(s.mem, a + 1, b + 1, c + 1)]
  {
    MajByteDoes(a, b, c, dst, s);
    var s1 := Exec(MajByte(a, b, c, dst), s);
    MajByteDoes(a + 1, b + 1, c + 1, dst + 1, s1);
    MajAtKept(s.mem, a + 1, b + 1, c + 1, dst, MajAt(s.mem, a, b, c));
  }

  /** maj_inline */
  function MajInline(a: Addr, b: Addr, c: Addr, dst: Addr): Code
    requires Clear(dst, a, b, c)
  {
    Then(MajTwo(a, b, c, dst), Then(MajByte(a + 2, b + 2, c + 2, dst + 2), MajByte(a + 3, b + 3, c + 3, dst + 3)))
  }

  lemma MajHighDoes(a: Addr, b: Addr, c: Addr, dst: Addr, s: Cpu)
    requires Clear(dst, a, b, c)
    ensures Exec(Then(MajByte(a + 2, b + 2, c + 2, dst + 2), MajByte(a + 3, b + 3, c + 3, dst + 3)), s).mem
            == s.mem[dst + 2 := MajAt(s.mem, a + 2, b + 2, c + 2)][dst + 3 := MajAt(s.mem, a + 3, b + 3, c + 3)]
  {
    MajByteDoes(a + 2, b + 2, c + 2, dst + 2, s);
    var s1 := Exec(MajByte(a + 2, b + 2, c + 2, dst + 2), s);
    MajByteDoes(a + 3, b + 3, c + 3, dst + 3, s1);
    MajAtKept(s.mem, a + 3, b + 3, c + 3, dst + 2, MajAt(s.mem, a + 2, b + 2, c + 2));
  }

  lemma MajInlineState(a: Addr, b: Addr, c: Addr, dst: Addr, s: Cpu)
    requires Clear(dst, a, b, c)
    ensures var m := s.mem;
            Exec(MajInline(a, b, c, dst), s).mem
            == StoredUp(m, dst, MajAt(m, a, b, c), MajAt(m, a + 1, b + 1, c + 1), MajAt(m, a + 2, b + 2, c + 2),
                        MajAt(m, a + 3, b + 3, c + 3))
  {
    MajTwoDoes(a, b, c, dst, s);
    var s1 := Exec(MajTwo(a, b, c, dst), s);
    MajHighDoes(a, b, c, dst, s1);
    var v0, v1 := MajAt(s.mem, a, b, c), MajAt(s.mem, a + 1, b + 1, c + 1);
    MajAtKeptTwice(s.mem, a + 2, b + 2, c + 2, dst, v0, v1);
    MajAtKeptTwice(s.mem, a + 3, b + 3, c + 3, dst, v0, v1);
  }

  lemma MajWord(m: Memory, a: Addr, b: Addr, c: Addr)
    requires Region(a, a + 4) && Region(b, b + 4) && Region(c, c + 4)
    ensures Word(MajAt(m, a, b, c), MajAt(m, a + 1, b + 1, c + 1), MajAt(m, a + 2, b + 2, c + 2), MajAt(m, a + 3,
            b + 3, c + 3))
            == Maj(ReadWord(m, a), ReadWord(m, b), ReadWord(m, c))
  {
    var x, y, z := ReadWord(m, a), ReadWord(m, b), ReadWord(m, c);
    ReadBytes(m, a);
    ReadBytes(m, b);
    ReadBytes(m, c);
    MajByteOfWord0(x, y, z);
    MajByteOfWord1(x, y, z);
    MajByteOfWord2(x, y, z);
    MajByteOfWord3(x, y, z);
    WordOfBytes(Maj(x, y, z));
  }

  lemma MajInlineDoes(a: Addr, b: Addr, c: Addr, dst: Addr, s: Cpu)
    requires Clear(dst, a, b, c)
    ensures var r := Exec(MajInline(a, b, c, dst), s);
            OnlyWrites(s.mem, r.mem, dst, dst + 4)
            && ReadWord(r.mem, dst) == Maj(ReadWord(s.mem, a), ReadWord(s.mem, b), ReadWord(s.mem, c))
  {
    var m := s.mem;
    MajInlineState(a, b, c, dst, s);
    StoredUpDoes(m, dst, MajAt(m, a, b, c), MajAt(m, a + 1, b + 1, c + 1), MajAt(m, a + 2, b + 2, c + 2),
                 MajAt(m, a + 3, b + 3, c + 3));
    MajWord(m, a, b, c);
  }

  // ---------------------------------------------------------------- the sigma subroutines

  function Xor8(x: bv8, y: bv8): bv8 { x ^ y }

  function XorByte(r: Reg): Code { Do3(Ld(A, r), XorHl, LdToHl(A)) }

  function XorAt(m: Memory, x: Addr, v: bv8): bv8 { Xor8(v, Read(m, x)) }

  lemma XorByteDoes(r: Reg, v: bv8, s: Cpu)
    requires r in {B, C, D, E} && v == Get(s, r)
    ensures var n := Exec(XorByte(r), s);
            n.mem == s.mem[s.hl := XorAt(s.mem, s.hl, v)] && n.hl == s.hl && SameQuad(s, n)
  {
    Exec3(Ld(A, r), XorHl, LdToHl(A), s);
  }

  function XorByteDown(r: Reg): Code { Then(XorByte(r), Op(DecHl)) }

  function XorByteUp(r: Reg): Code { Then(XorByte(r), Op(IncHl)) }

  lemma XorByteDownDoes(r: Reg, v: bv8, s: Cpu)
    requires r in {B, C, D, E} && v == Get(s, r)
    ensures var n := Exec(XorByteDown(r), s);
            n.mem == s.mem[s.hl := XorAt(s.mem, s.hl, v)] && n.hl == Previous(s.hl) && SameQuad(s, n)
  {
    XorByteDoes(r, v, s);
  }

  lemma XorByteUpDoes(r: Reg, v: bv8, s: Cpu)
    requires r in {B, C, D, E} && v == Get(s, r)
    ensures var n := Exec(XorByteUp(r), s);
            n.mem == s.mem[s.hl := XorAt(s.mem, s.hl, v)] && n.hl == Next(s.hl) && SameQuad(s, n)
  {
    XorByteDoes(r, v, s);
  }

  /** Two bytes, walking down. */
  lemma XorTwoDown(r: Reg, q: Reg, v: bv8, w: bv8, s: Cpu)
    requires r in {B, C, D, E} && q in {B, C, D, E} && v == Get(s, r) && w == Get(s, q) && s.hl > 0
    ensures var n := Exec(Then(XorByteDown(r), XorByteDown(q)), s);
            n.mem == s.mem[s.hl := XorAt(s.mem, s.hl, v)][s.hl - 1 := XorAt(s.mem, s.hl - 1, w)]
            && n.hl == Previous(s.hl - 1) && SameQuad(s, n)
  {
    var s1 := Exec(XorByteDown(r), s);
    XorByteDownDoes(r, v, s);
    XorByteDownDoes(q, w, s1);
    assert XorAt(s1.mem, s.hl - 1, w) == XorAt(s.mem, s.hl - 1, w);
  }

  function XorLow(): Code { Then(XorByteDown(E), XorByteDown(D)) }
  function XorHigh(): Code { Then(XorByteDown(C), XorByte(B)) }

  /** xor_bcde_tmpa_bwd: from the last byte of the word back to its first. */
  function XorBackward(): Code { Then(XorLow(), XorHigh()) }

  lemma XorLowDoes(dst: Addr, s: Cpu)
    requires Region(dst, dst + 4) && s.hl == dst + 3
    ensures var r := Exec(XorLow(), s);
            r.mem == s.mem[dst + 3 := XorAt(s.mem, dst + 3, s.e)][dst + 2 := XorAt(s.mem, dst + 2, s.d)]
            && r.hl == dst + 1 && SameQuad(s, r)
  {
    XorTwoDown(E, D, s.e, s.d, s);
  }

  lemma XorHighDoes(dst: Addr, s: Cpu, m: Memory, b: bv8, c: bv8)
    requires Region(dst, dst + 4) && s.hl == dst + 1 && s.b == b && s.c == c
    requires Read(s.mem, dst) == Read(m, dst) && Read(s.mem, dst + 1) == Read(m, dst + 1)
    ensures var r := Exec(XorHigh(), s);
            r.mem == s.mem[dst + 1 := XorAt(m, dst + 1, c)][dst := XorAt(m, dst, b)] && r.hl == dst && SameQuad(s, r)
  {
    XorByteDownDoes(C, s.c, s);
    var s1 := Exec(XorByteDown(C), s);
    assert XorAt(s1.mem, dst, s.b) == XorAt(m, dst, s.b);
    XorByteDoes(B, s.b, s1);
  }

  lemma ReadBesides(m: Memory, p: Addr, v: bv8, q: Addr, w: bv8, x: Addr)
    requires x != p && x != q
    ensures Read(m[p := v][q := w], x) == Read(m, x)
  {
  }

  lemma XorBackwardState(dst: Addr, s: Cpu)
    requires Region(dst, dst + 4) && s.hl == dst + 3
    ensures var m := s.mem;
            var r := Exec(XorBackward(), s);
            r.mem == StoredDown(m, dst, XorAt(m, dst, s.b), XorAt(m, dst + 1, s.c), XorAt(m, dst + 2, s.d), XorAt(m,
              dst + 3, s.e))
            && r.hl == dst && SameQuad(s, r)
  {
    XorLowDoes(dst, s);
    ReadBesides(s.mem, dst + 3, XorAt(s.mem, dst + 3, s.e), dst + 2, XorAt(s.mem, dst + 2, s.d), dst);
    ReadBesides(s.mem, dst + 3, XorAt(s.mem, dst + 3, s.e), dst + 2, XorAt(s.mem, dst + 2, s.d), dst + 1);
    XorHighDoes(dst, Exec(XorLow(), s), s.mem, s.b, s.c);
  }

  function XorFirst(): Code { Then(XorByteUp(B), XorByteUp(C)) }
  function XorLast(): Code { Then(XorByteUp(D), XorByte(E)) }

  /** xor_bcde_tmpa_fwd: from the first byte of the word to its last. */
  function XorForward(): Code { Then(XorFirst(), XorLast()) }

  lemma XorFirstDoes(dst: Addr, s: Cpu)
    requires Region(dst, dst + 4) && s.hl == dst
    ensures var r := Exec(XorFirst(), s);
            r.mem == s.mem[dst := XorAt(s.mem, dst, s.b)][dst + 1 := XorAt(s.mem, dst + 1, s.c)]
            && r.hl == dst + 2 && SameQuad(s, r)
  {
    XorByteUpDoes(B, s.b, s);
    XorByteUpDoes(C, s.c, Exec(XorByteUp(B), s));
  }

  lemma XorLastDoes(dst: Addr, s: Cpu, m: Memory, d: bv8, e: bv8)
    requires Region(dst, dst + 4) && s.hl == dst + 2 && s.d == d && s.e == e
    requires Read(s.mem, dst + 2) == Read(m, dst + 2) && Read(s.mem, dst + 3) == Read(m, dst + 3)
    ensures Exec(XorLast(), s).mem == s.mem[dst + 2 := XorAt(m, dst + 2, d)][dst + 3 := XorAt(m, dst + 3, e)]
  {
    XorByteUpDoes(D, s.d, s);
    var s1 := Exec(XorByteUp(D), s);
    assert XorAt(s1.mem, dst + 3, e) == XorAt(m, dst + 3, e);
    XorByteDoes(E, s.e, s1);
  }

  lemma XorForwardState(dst: Addr, s: Cpu)
    requires Region(dst, dst + 4) && s.hl == dst
    ensures var m := s.mem;
            Exec(XorForward(), s).mem
            == StoredUp(m, dst, XorAt(m, dst, s.b), XorAt(m, dst + 1, s.c), XorAt(m, dst + 2, s.d), XorAt(m,
              dst + 3, s.e))
  {
    XorFirstDoes(dst, s);
    ReadBesides(s.mem, dst, XorAt(s.mem, dst, s.b), dst + 1, XorAt(s.mem, dst + 1, s.c), dst + 2);
    ReadBesides(s.mem, dst, XorAt(s.mem, dst, s.b), dst + 1, XorAt(s.mem, dst + 1, s.c), dst + 3);
    XorLastDoes(dst, Exec(XorFirst(), s), s.mem, s.d, s.e);
  }

  lemma XorByteOfWord0(x: bv32, y: bv32)
    ensures Byte0(Xor32(x, y)) == Xor8(Byte0(x), Byte0(y))
  {
  }

  lemma XorByteOfWord1(x: bv32, y: bv32)
    ensures Byte1(Xor32(x, y)) == Xor8(Byte1(x), Byte1(y))
  {
  }

  lemma XorByteOfWord2(x: bv32, y: bv32)
    ensures Byte2(Xor32(x, y)) == Xor8(Byte2(x), Byte2(y))
  {
  }

  lemma XorByteOfWord3(x: bv32, y: bv32)
    ensures Byte3(Xor32(x, y)) == Xor8(Byte3(x), Byte3(y))
  {
  }

  lemma XorWord(m: Memory, dst: Addr, b: bv8, c: bv8, d: bv8, e: bv8)
    requires Region(dst, dst + 4)
    ensures Word(XorAt(m, dst, b), XorAt(m, dst + 1, c), XorAt(m, dst + 2, d), XorAt(m, dst + 3, e))
            == Xor32(Word(b, c, d, e), ReadWord(m, dst))
  {
    var x, y := Word(b, c, d, e), ReadWord(m, dst);
    BytesOfWord(b, c, d, e);
    ReadBytes(m, dst);
    XorByteOfWord0(x, y);
    XorByteOfWord1(x, y);
    XorByteOfWord2(x, y);
    XorByteOfWord3(x, y);
    WordOfBytes(Xor32(x, y));
  }

  lemma XorBackwardDoes(dst: Addr, s: Cpu)
    requires Region(dst, dst + 4) && s.hl == dst + 3
    ensures var r := Exec(XorBackward(), s);
            Quad(r) == Quad(s) && r.hl == dst
            && OnlyWrites(s.mem, r.mem, dst, dst + 4) && ReadWord(r.mem, dst) == Xor32(Quad(s), ReadWord(s.mem, dst))
  {
    var m := s.mem;
    XorBackwardState(dst, s);
    StoredDownDoes(m, dst, XorAt(m, dst, s.b), XorAt(m, dst + 1, s.c), XorAt(m, dst + 2, s.d), XorAt(m, dst + 3, s.e));
    XorWord(m, dst, s.b, s.c, s.d, s.e);
  }

  lemma XorForwardDoes(dst: Addr, s: Cpu)
    requires Region(dst, dst + 4) && s.hl == dst
    ensures var r := Exec(XorForward(), s);
            OnlyWrites(s.mem, r.mem, dst, dst + 4) && ReadWord(r.mem, dst) == Xor32(Quad(s), ReadWord(s.mem, dst))
  {
    var m := s.mem;
    XorForwardState(dst, s);
    StoredUpDoes(m, dst, XorAt(m, dst, s.b), XorAt(m, dst + 1, s.c), XorAt(m, dst + 2, s.d), XorAt(m, dst + 3, s.e));
    XorWord(m, dst, s.b, s.c, s.d, s.e);
  }

  /** The three rotations of sha_bigsigma0, in the order they are made. */
  function TwoRight(): Code { Then(RotR1(), RotR1()) }
  function ElevenRight(): Code { Seq4(RotR8(), RotR1(), RotR1(), RotR1()) }
  function NineRight(): Code { Then(RotR8(), RotR1()) }

  /** The three rotations of sha_bigsigma1. */
  function SixRight(): Code { Seq3(RotR8(), RotL1(), RotL1()) }
  function FiveRight(): Code { Seq4(RotR8(), RotL1(), RotL1(), RotL1()) }
  function FourteenRight(): Code { Seq3(RotR16(), RotL1(), RotL1()) }

  lemma TwoRightDoes(s: Cpu)
    ensures QuadBecomes(s, Exec(TwoRight(), s), Right1(Right1(Quad(s))))
  {
    RotR1Does(s);
    RotR1Does(Exec(RotR1(), s));
  }

  lemma ElevenRightDoes(s: Cpu)
    ensures QuadBecomes(s, Exec(ElevenRight(), s), Right1(Right1(Right1(Right8(Quad(s))))))
  {
    ExecSeq4(RotR8(), RotR1(), RotR1(), RotR1(), s);
    RotR8Does(s);
    var s1 := Exec(RotR8(), s);
    RotR1Does(s1);
    var s2 := Exec(RotR1(), s1);
    RotR1Does(s2);
    RotR1Does(Exec(RotR1(), s2));
  }

  lemma NineRightDoes(s: Cpu)
    ensures QuadBecomes(s, Exec(NineRight(), s), Right1(Right8(Quad(s))))
  {
    RotR8Does(s);
    RotR1Does(Exec(RotR8(), s));
  }

  lemma SixRightDoes(s: Cpu)
    ensures QuadBecomes(s, Exec(SixRight(), s), Left1(Left1(Right8(Quad(s)))))
  {
    ExecSeq3(RotR8(), RotL1(), RotL1(), s);
    RotR8Does(s);
    var s1 := Exec(RotR8(), s);
    RotL1Does(s1);
    RotL1Does(Exec(RotL1(), s1));
  }

  lemma FiveRightDoes(s: Cpu)
    ensures QuadBecomes(s, Exec(FiveRight(), s), Left1(Left1(Left1(Right8(Quad(s))))))
  {
    ExecSeq4(RotR8(), RotL1(), RotL1(), RotL1(), s);
    RotR8Does(s);
    var s1 := Exec(RotR8(), s);
    RotL1Does(s1);
    var s2 := Exec(RotL1(), s1);
    RotL1Does(s2);
    RotL1Does(Exec(RotL1(), s2));
  }

  lemma FourteenRightDoes(s: Cpu)
    ensures QuadBecomes(s, Exec(FourteenRight(), s), Left1(Left1(Right16(Quad(s)))))
  {
    ExecSeq3(RotR16(), RotL1(), RotL1(), s);
    RotR16Does(s);
    var s1 := Exec(RotR16(), s);
    RotL1Does(s1);
    RotL1Does(Exec(RotL1(), s1));
  }

  lemma RightBy2(x: bv32)
    ensures Right1(Right1(x)) == Rotr2(x)
  {
  }

  lemma RightBy13(x: bv32)
    ensures Right1(Right1(Right1(Right8(Rotr2(x))))) == Rotr13(x)
  {
  }

  lemma RightBy22(x: bv32)
    ensures Right1(Right8(Rotr13(x))) == Rotr22(x)
  {
  }

  lemma RightBy6(x: bv32)
    ensures Left1(Left1(Right8(x))) == Rotr6(x)
  {
  }

  lemma RightBy11(x: bv32)
    ensures Left1(Left1(Left1(Right8(Rotr6(x))))) == Rotr11(x)
  {
  }

  lemma RightBy25(x: bv32)
    ensures Left1(Left1(Right16(Rotr11(x)))) == Rotr25(x)
  {
  }

  lemma XorCommutes(x: bv32, y: bv32)
    ensures Xor32(x, y) == Xor32(y, x)
  {
  }

  lemma RotateAndStore(p: Code, dst: Addr, s: Cpu, w: bv32)
    requires Region(dst, dst + 4) && QuadBecomes(s, Exec(p, s), w)
    ensures var r := Exec(Then(p, StQuad(dst)), s);
            Quad(r) == w && r.hl == dst + 3 && OnlyWrites(s.mem, r.mem, dst, dst + 4) && ReadWord(r.mem, dst) == w
  {
    StQuadDoes(dst, Exec(p, s));
  }

  lemma RotateAndXorBack(p: Code, dst: Addr, s: Cpu, w: bv32)
    requires Region(dst, dst + 4) && s.hl == dst + 3 && QuadBecomes(s, Exec(p, s), w)
    ensures var r := Exec(Then(p, XorBackward()), s);
            Quad(r) == w && r.hl == dst && OnlyWrites(s.mem, r.mem, dst, dst + 4)
            && ReadWord(r.mem, dst) == Xor32(w, ReadWord(s.mem, dst))
  {
    XorBackwardDoes(dst, Exec(p, s));
  }

  lemma RotateAndXorForward(p: Code, dst: Addr, s: Cpu, w: bv32)
    requires Region(dst, dst + 4) && s.hl == dst && QuadBecomes(s, Exec(p, s), w)
    ensures var r := Exec(Then(p, XorForward()), s);
            OnlyWrites(s.mem, r.mem, dst, dst + 4) && ReadWord(r.mem, dst) == Xor32(w, ReadWord(s.mem, dst))
  {
    XorForwardDoes(dst, Exec(p, s));
  }

  /** A load, a store of the first rotation and two xors with the next ones: both sigmas have this form. */
  function Sigma(first: Code, second: Code, third: Code, dst: Addr): Code {
    Seq4(LdQuadFromHl(), Then(first, StQuad(dst)), Then(second, XorBackward()), Then(third, XorForward()))
  }

  /** p turns any quad x into w. */
  ghost predicate Turns(p: Code, x: bv32, w: bv32) {
    forall t: Cpu :: Quad(t) == x ==> QuadBecomes(t, Exec(p, t), w)
  }

  lemma SigmaDoes(first: Code, second: Code, third: Code, dst: Addr, s: Cpu, x: bv32, y: bv32, z: bv32)
    requires Region(s.hl, s.hl + 4) && Region(dst, dst + 4)
    requires Turns(first, ReadWord(s.mem, s.hl), x) && Turns(second, x, y) && Turns(third, y, z)
    ensures var r := Exec(Sigma(first, second, third, dst), s);
            OnlyWrites(s.mem, r.mem, dst, dst + 4) && ReadWord(r.mem, dst) == Xor32(Xor32(x, y), z)
  {
    ExecSeq4(LdQuadFromHl(), Then(first, StQuad(dst)), Then(second, XorBackward()), Then(third, XorForward()), s);
    LdQuadFromHlDoes(s);
    var s0 := Exec(LdQuadFromHl(), s);
    RotateAndStore(first, dst, s0, x);
    var s1 := Exec(Then(first, StQuad(dst)), s0);
    RotateAndXorBack(second, dst, s1, y);
    var s2 := Exec(Then(second, XorBackward()), s1);
    RotateAndXorForward(third, dst, s2, z);
    XorCommutes(y, x);
    XorCommutes(z, Xor32(x, y));
  }

  lemma Sigma0Turns(x: bv32)
    ensures Turns(TwoRight(), x, Rotr2(x)) && Turns(ElevenRight(), Rotr2(x), Rotr13(x))
            && Turns(NineRight(), Rotr13(x), Rotr22(x))
  {
    RightBy2(x);
    RightBy13(x);
    RightBy22(x);
    forall t: Cpu | Quad(t) == x ensures QuadBecomes(t, Exec(TwoRight(), t), Rotr2(x)) { TwoRightDoes(t); }
    forall t: Cpu | Quad(t) == Rotr2(x) ensures QuadBecomes(t, Exec(ElevenRight(), t),
      Rotr13(x)) { ElevenRightDoes(t); }
    forall t: Cpu | Quad(t) == Rotr13(x) ensures QuadBecomes(t, Exec(NineRight(), t), Rotr22(x)) { NineRightDoes(t); }
  }

  lemma Sigma1Turns(x: bv32)
    ensures Turns(SixRight(), x, Rotr6(x)) && Turns(FiveRight(), Rotr6(x), Rotr11(x))
            && Turns(FourteenRight(), Rotr11(x), Rotr25(x))
  {
    RightBy6(x);
    RightBy11(x);
    RightBy25(x);
    forall t: Cpu | Quad(t) == x ensures QuadBecomes(t, Exec(SixRight(), t), Rotr6(x)) { SixRightDoes(t); }
    forall t: Cpu | Quad(t) == Rotr6(x) ensures QuadBecomes(t, Exec(FiveRight(), t), Rotr11(x)) { FiveRightDoes(t); }
    forall t: Cpu | Quad(t) == Rotr11(x) ensures QuadBecomes(t, Exec(FourteenRight(), t),
      Rotr25(x)) { FourteenRightDoes(t); }
  }

  /** sha_bigsigma0 */
  function BigSigma0(dst: Addr): Code { Sigma(TwoRight(), ElevenRight(), NineRight(), dst) }

  /** sha_bigsigma1 */
  function BigSigma1(dst: Addr): Code { Sigma(SixRight(), FiveRight(), FourteenRight(), dst) }

  lemma BigSigma0Does(dst: Addr, s: Cpu)
    requires Region(s.hl, s.hl + 4) && Region(dst, dst + 4)
    ensures var r := Exec(BigSigma0(dst), s);
            OnlyWrites(s.mem, r.mem, dst, dst + 4) && ReadWord(r.mem, dst) == Sigma0(ReadWord(s.mem, s.hl))
  {
    var x := ReadWord(s.mem, s.hl);
    Sigma0Turns(x);
    SigmaDoes(TwoRight(), ElevenRight(), NineRight(), dst, s, Rotr2(x), Rotr13(x), Rotr22(x));
  }

  lemma BigSigma1Does(dst: Addr, s: Cpu)
    requires Region(s.hl, s.hl + 4) && Region(dst, dst + 4)
    ensures var r := Exec(BigSigma1(dst), s);
            OnlyWrites(s.mem, r.mem, dst, dst + 4) && ReadWord(r.mem, dst) == Sigma1(ReadWord(s.mem, s.hl))
  {
    var x := ReadWord(s.mem, s.hl);
    Sigma1Turns(x);
    SigmaDoes(SixRight(), FiveRight(), FourteenRight(), dst, s, Rotr6(x), Rotr11(x), Rotr25(x));
  }
}
