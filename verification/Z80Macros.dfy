/** The generator's word-sized building blocks, and what each does to words in memory and in B, C, D, E. */
module Z80Macros {
  import opened Z80
  import opened Z80Words
  import opened Sha256

  function Seq3(p: Code, q: Code, r: Code): Code { Then(p, Then(q, r)) }

  function Seq4(p: Code, q: Code, r: Code, t: Code): Code { Then(p, Seq3(q, r, t)) }

  lemma ExecSeq3(p: Code, q: Code, r: Code, s: Cpu)
    ensures Exec(Seq3(p, q, r), s) == Exec(r, Exec(q, Exec(p, s)))
  {
    assert Exec(Then(q, r), Exec(p, s)) == Exec(r, Exec(q, Exec(p, s)));
  }

  lemma ExecSeq4(p: Code, q: Code, r: Code, t: Code, s: Cpu)
    ensures Exec(Seq4(p, q, r, t), s) == Exec(t, Exec(r, Exec(q, Exec(p, s))))
  {
    ExecSeq3(q, r, t, Exec(p, s));
  }

  // ---------------------------------------------------------------- load and store

  /** ld_bcde: the word at (hl) into B, C, D, E. */
  function LdQuadFromHl(): Code {
    Seq4(Do2(LdFromHl(B), IncHl), Do2(LdFromHl(C), IncHl), Do2(LdFromHl(D), IncHl), Op(LdFromHl(E)))
  }

  /** ld_bcde_from */
  function LdQuad(src: Addr): Code {
    Then(Op(LdHlImm(src)), LdQuadFromHl())
  }

  lemma LoadByteDoes(r: Reg, s: Cpu)
    requires r in {B, C, D, E}
    ensures Exec(Do2(LdFromHl(r), IncHl), s) == Set(s, r, Read(s.mem, s.hl)).(hl := Next(s.hl))
  {
    Exec2(LdFromHl(r), IncHl, s);
  }

  /** The byte at n is in r, and HL has moved on. */
  function Loaded(r: Reg, n: Addr, s: Cpu): Cpu
    requires n < 0xFFFF
  {
    Set(s, r, Read(s.mem, n)).(hl := n + 1)
  }

  lemma LoadByteAt(r: Reg, n: Addr, s: Cpu)
    requires r in {B, C, D, E} && s.hl == n < 0xFFFF
    ensures Exec(Do2(LdFromHl(r), IncHl), s) == Loaded(r, n, s)
  {
    LoadByteDoes(r, s);
  }

  lemma LoadTwo(r: Reg, q: Reg, n: Addr, s: Cpu)
    requires r in {B, C, D, E} && q in {B, C, D, E} && s.hl == n < 0xFFFE
    ensures Exec(Do2(LdFromHl(q), IncHl), Exec(Do2(LdFromHl(r), IncHl), s)) == Loaded(q, n + 1, Loaded(r, n, s))
  {
    LoadByteAt(r, n, s);
    LoadByteAt(q, n + 1, Loaded(r, n, s));
  }

  lemma LdQuadFromHlState(s: Cpu)
    requires Region(s.hl, s.hl + 4)
    ensures Exec(LdQuadFromHl(), s)
            == s.(b := Read(s.mem, s.hl), c := Read(s.mem, s.hl + 1), d := Read(s.mem, s.hl + 2),
                  e := Read(s.mem, s.hl + 3), hl := s.hl + 3)
  {
    var n := s.hl;
    var s2 := Loaded(C, n + 1, Loaded(B, n, s));
    LoadTwo(B, C, n, s);
    LoadByteAt(D, n + 2, s2);
    ExecSeq4(Do2(LdFromHl(B), IncHl), Do2(LdFromHl(C), IncHl), Do2(LdFromHl(D), IncHl), Op(LdFromHl(E)), s);
  }

  lemma LdQuadFromHlDoes(s: Cpu)
    requires Region(s.hl, s.hl + 4)
    ensures var r := Exec(LdQuadFromHl(), s);
            r.mem == s.mem && Quad(r) == ReadWord(s.mem, s.hl)
  {
    LdQuadFromHlState(s);
  }

  lemma LdQuadDoes(src: Addr, s: Cpu)
    requires Region(src, src + 4)
    ensures var r := Exec(LdQuad(src), s);
            r.mem == s.mem && Quad(r) == ReadWord(s.mem, src)
  {
    assert Exec(Op(LdHlImm(src)), s) == Step(LdHlImm(src), s);
    LdQuadFromHlDoes(Step(LdHlImm(src), s));
  }

  /** st_bcde */
  function StQuad(dst: Addr): Code {
    Then(Op(LdHlImm(dst)),
         Seq4(Do2(LdToHl(B), IncHl), Do2(LdToHl(C), IncHl), Do2(LdToHl(D), IncHl), Op(LdToHl(E))))
  }

  lemma StoreByteDoes(r: Reg, s: Cpu)
    requires r in {B, C, D, E}
    ensures Exec(Do2(LdToHl(r), IncHl), s) == s.(mem := s.mem[s.hl := Get(s, r)], hl := Next(s.hl))
  {
    Exec2(LdToHl(r), IncHl, s);
  }

  /** v is stored at n, and HL has moved on. */
  function StoredByte(v: bv8, n: Addr, s: Cpu): Cpu
    requires n < 0xFFFF
  {
    s.(mem := s.mem[n := v], hl := n + 1)
  }

  lemma StoreByteAt(r: Reg, v: bv8, n: Addr, s: Cpu)
    requires r in {B, C, D, E} && Get(s, r) == v && s.hl == n < 0xFFFF
    ensures Exec(Do2(LdToHl(r), IncHl), s) == StoredByte(v, n, s)
  {
    StoreByteDoes(r, s);
  }

  lemma StoreTwo(r: Reg, q: Reg, v: bv8, w: bv8, n: Addr, s: Cpu)
    requires r in {B, C, D, E} && q in {B, C, D, E} && Get(s, r) == v && Get(s, q) == w && s.hl == n < 0xFFFE
    ensures Exec(Do2(LdToHl(q), IncHl), Exec(Do2(LdToHl(r), IncHl), s)) == StoredByte(w, n + 1, StoredByte(v, n, s))
  {
    StoreByteAt(r, v, n, s);
    StoreByteAt(q, w, n + 1, StoredByte(v, n, s));
  }

  lemma StQuadState(dst: Addr, s: Cpu)
    requires Region(dst, dst + 4)
    ensures Exec(StQuad(dst), s) == s.(mem := StoredUp(s.mem, dst, s.b, s.c, s.d, s.e), hl := dst + 3)
  {
    var s0 := s.(hl := dst);
    var s2 := StoredByte(s.c, dst + 1, StoredByte(s.b, dst, s0));
    assert Exec(Op(LdHlImm(dst)), s) == s0;
    StoreTwo(B, C, s.b, s.c, dst, s0);
    StoreByteAt(D, s.d, dst + 2, s2);
    ExecSeq4(Do2(LdToHl(B), IncHl), Do2(LdToHl(C), IncHl), Do2(LdToHl(D), IncHl), Op(LdToHl(E)), s0);
  }

  lemma StQuadDoes(dst: Addr, s: Cpu)
    requires Region(dst, dst + 4)
    ensures var r := Exec(StQuad(dst), s);
            Quad(r) == Quad(s) && r.hl == dst + 3
            && OnlyWrites(s.mem, r.mem, dst, dst + 4) && ReadWord(r.mem, dst) == Quad(s)
  {
    StQuadState(dst, s);
    StoredUpDoes(s.mem, dst, s.b, s.c, s.d, s.e);
  }

  // ---------------------------------------------------------------- additions

  /** r += (hl) with carry */
  function FoldByte(r: Reg): Code { Do3(Ld(A, r), AdcHl, Ld(r, A)) }

  function FoldedByte(r: Reg, s: Cpu): Cpu {
    var y := Read(s.mem, s.hl);
    var v := Sum(Get(s, r), y, s.carry);
    Set(s, r, v).(a := v, carry := CarryOut(Get(s, r), y, s.carry), zero := v == 0)
  }

  lemma FoldByteDoes(r: Reg, s: Cpu)
    requires r in {B, C, D, E}
    ensures Exec(FoldByte(r), s) == FoldedByte(r, s)
  {
    Exec3(Ld(A, r), AdcHl, Ld(r, A), s);
  }

  function FoldByteDown(r: Reg): Code { Then(FoldByte(r), Op(DecHl)) }

  /** BCDE += the word whose last byte is at (hl) */
  function FoldAtHl(): Code {
    Then(Op(Or(A)), Seq4(FoldByteDown(E), FoldByteDown(D), FoldByteDown(C), FoldByte(B)))
  }

  function FoldedByteDown(r: Reg, s: Cpu): Cpu {
    FoldedByte(r, s).(hl := Previous(s.hl))
  }

  lemma FoldByteDownDoes(r: Reg, s: Cpu)
    requires r in {B, C, D, E}
    ensures Exec(FoldByteDown(r), s) == FoldedByteDown(r, s)
  {
    FoldByteDoes(r, s);
  }

  /** or a: the carry is clear, and the rest that matters is as it was. */
  function Cleared(s: Cpu): Cpu {
    s.(a := s.a | s.a, carry := false, zero := (s.a | s.a) == 0)
  }

  function FoldedAll(s: Cpu): Cpu {
    FoldedByte(B, FoldedByteDown(C, FoldedByteDown(D, FoldedByteDown(E, s))))
  }

  lemma FoldAtHlSteps(s: Cpu)
    ensures Exec(FoldAtHl(), s) == FoldedAll(Cleared(s))
  {
    var s0 := Cleared(s);
    var s1 := FoldedByteDown(E, s0);
    var s2 := FoldedByteDown(D, s1);
    var s3 := FoldedByteDown(C, s2);
    assert Exec(Op(Or(A)), s) == s0;
    FoldByteDownDoes(E, s0);
    FoldByteDownDoes(D, s1);
    FoldByteDownDoes(C, s2);
    FoldByteDoes(B, s3);
    ExecSeq4(FoldByteDown(E), FoldByteDown(D), FoldByteDown(C), FoldByte(B), s0);
  }

  lemma FoldedChain(s: Cpu)
    requires s.hl >= 3
    ensures var y0, y1, y2, y3 := Read(s.mem, s.hl - 3), Read(s.mem, s.hl - 2), Read(s.mem, s.hl - 1), Read(s.mem,
            s.hl);
            var c3 := CarryOut(s.e, y3, s.carry);
            var c2 := CarryOut(s.d, y2, c3);
            var c1 := CarryOut(s.c, y1, c2);
            var r := FoldedAll(s);
            r.b == Sum(s.b, y0, c1) && r.c == Sum(s.c, y1, c2) && r.d == Sum(s.d, y2, c3)
            && r.e == Sum(s.e, y3, s.carry) && r.mem == s.mem
  {
  }

  lemma FoldAtHlState(s: Cpu)
    requires s.hl >= 3
    ensures var y0, y1, y2, y3 := Read(s.mem, s.hl - 3), Read(s.mem, s.hl - 2), Read(s.mem, s.hl - 1), Read(s.mem,
            s.hl);
            var c3 := CarryOut(s.e, y3, false);
            var c2 := CarryOut(s.d, y2, c3);
            var c1 := CarryOut(s.c, y1, c2);
            var r := Exec(FoldAtHl(), s);
            r.b == Sum(s.b, y0, c1) && r.c == Sum(s.c, y1, c2) && r.d == Sum(s.d, y2, c3) && r.e == Sum(s.e, y3, false)
            && r.mem == s.mem
  {
    FoldAtHlSteps(s);
    FoldedChain(Cleared(s));
  }

  lemma FoldAtHlDoes(s: Cpu)
    requires s.hl >= 3
    ensures var r := Exec(FoldAtHl(), s);
            r.mem == s.mem && Quad(r) == Add(Quad(s), ReadWord(s.mem, s.hl - 3))
  {
    FoldAtHlState(s);
    CarryChain(s.b, s.c, s.d, s.e, Read(s.mem, s.hl - 3), Read(s.mem, s.hl - 2), Read(s.mem, s.hl - 1), Read(s.mem,
      s.hl));
  }

  /** bcde_add */
  function BcdeAdd(src: Addr): Code
    requires Region(src, src + 4)
  {
    Then(Op(LdHlImm(src + 3)), FoldAtHl())
  }

  lemma BcdeAddDoes(src: Addr, s: Cpu)
    requires Region(src, src + 4)
    ensures var r := Exec(BcdeAdd(src), s);
            r.mem == s.mem && Quad(r) == Add(Quad(s), ReadWord(s.mem, src))
  {
    var s0 := Step(LdHlImm(src + 3), s);
    assert Exec(Op(LdHlImm(src + 3)), s) == s0;
    FoldAtHlDoes(s0);
  }

  /** bcde_add_ptr */
  function BcdeAddPtr(ptr: Addr): Code {
    Then(Op(LdHlFrom(ptr)), FoldAtHl())
  }

  lemma BcdeAddPtrDoes(ptr: Addr, s: Cpu)
    requires Region(ptr, ptr + 2)
    requires ReadAddr(s.mem, ptr) >= 3
    ensures var r := Exec(BcdeAddPtr(ptr), s);
            r.mem == s.mem && Quad(r) == Add(Quad(s), ReadWord(s.mem, ReadAddr(s.mem, ptr) - 3))
  {
    var s0 := Step(LdHlFrom(ptr), s);
    assert Exec(Op(LdHlFrom(ptr)), s) == s0;
    FoldAtHlDoes(s0);
  }

  /** (hl) += r with carry */
  function AddToByte(r: Reg): Code { Do3(LdFromHl(A), Adc(r), LdToHl(A)) }

  function AddedToByte(r: Reg, s: Cpu): Cpu {
    var x := Read(s.mem, s.hl);
    var v := Sum(x, Get(s, r), s.carry);
    s.(a := v, carry := CarryOut(x, Get(s, r), s.carry), zero := v == 0, mem := s.mem[s.hl := v])
  }

  lemma AddToByteDoes(r: Reg, s: Cpu)
    requires r in {B, C, D, E}
    ensures Exec(AddToByte(r), s) == AddedToByte(r, s)
  {
    if r == B { Exec3(LdFromHl(A), Adc(B), LdToHl(A), s); }
    else if r == C { Exec3(LdFromHl(A), Adc(C), LdToHl(A), s); }
    else if r == D { Exec3(LdFromHl(A), Adc(D), LdToHl(A), s); }
    else { Exec3(LdFromHl(A), Adc(E), LdToHl(A), s); }
  }

  function AddToByteDown(r: Reg): Code { Then(AddToByte(r), Op(DecHl)) }

  function AddedToByteDown(r: Reg, s: Cpu): Cpu {
    AddedToByte(r, s).(hl := Previous(s.hl))
  }

  lemma AddToByteDownDoes(r: Reg, s: Cpu)
    requires r in {B, C, D, E}
    ensures Exec(AddToByteDown(r), s) == AddedToByteDown(r, s)
  {
    AddToByteDoes(r, s);
  }

  /** mem_add_bcde */
  function MemAddBcde(dst: Addr): Code
    requires Region(dst, dst + 4)
  {
    Seq3(Op(LdHlImm(dst + 3)), Op(Or(A)), MemAddFrom())
  }

  function MemAddFrom(): Code {
    Seq4(AddToByteDown(E), AddToByteDown(D), AddToByteDown(C), AddToByte(B))
  }

  lemma MemAddFromSteps(s: Cpu)
    ensures Exec(MemAddFrom(), s)
            == AddedToByte(B, AddedToByteDown(C, AddedToByteDown(D, AddedToByteDown(E, s))))
  {
    var s1 := AddedToByteDown(E, s);
    var s2 := AddedToByteDown(D, s1);
    var s3 := AddedToByteDown(C, s2);
    AddToByteDownDoes(E, s);
    AddToByteDownDoes(D, s1);
    AddToByteDownDoes(C, s2);
    AddToByteDoes(B, s3);
    ExecSeq4(AddToByteDown(E), AddToByteDown(D), AddToByteDown(C), AddToByte(B), s);
  }

  /** Adding y into the byte at dst + k leaves the quad and the bytes below as the chain needs them. */
  lemma AddedFrame(r: Reg, s: Cpu, y: bv8, m: Memory, dst: Addr, k: nat)
    requires Region(dst, dst + 4) && k < 4 && s.hl == dst + k
    requires Get(s, r) == y
    requires forall x: Addr :: dst <= x <= dst + k ==> Read(s.mem, x) == Read(m, x)
    ensures var n := AddedToByte(r, s);
            n.b == s.b && n.c == s.c && n.d == s.d && n.e == s.e && n.hl == s.hl
            && n.carry == CarryOut(Read(m, dst + k), y, s.carry)
            && n.mem == s.mem[dst + k := Sum(Read(m, dst + k), y, s.carry)]
            && (forall x: Addr :: dst <= x < dst + k ==> Read(n.mem, x) == Read(m, x))
  {
  }

  lemma MemAddLowBytes(dst: Addr, s: Cpu)
    requires Region(dst, dst + 4) && s.hl == dst + 3
    ensures var n := AddedToByteDown(D, AddedToByteDown(E, s));
            var c3 := CarryOut(Read(s.mem, dst + 3), s.e, s.carry);
            n.b == s.b && n.c == s.c && n.d == s.d && n.e == s.e && n.hl == dst + 1
            && n.carry == CarryOut(Read(s.mem, dst + 2), s.d, c3)
            && n.mem == s.mem[dst + 3 := Sum(Read(s.mem, dst + 3), s.e, s.carry)][dst + 2 := Sum(Read(s.mem,
              dst + 2), s.d, c3)]
            && (forall x: Addr :: dst <= x < dst + 2 ==> Read(n.mem, x) == Read(s.mem, x))
  {
    AddedFrame(E, s, s.e, s.mem, dst, 3);
    var s1 := AddedToByteDown(E, s);
    AddedFrame(D, s1, s.d, s.mem, dst, 2);
  }

  lemma MemAddHighBytes(dst: Addr, s: Cpu, m: Memory)
    requires Region(dst, dst + 4) && s.hl == dst + 1
    requires forall x: Addr :: dst <= x < dst + 2 ==> Read(s.mem, x) == Read(m, x)
    ensures var n := AddedToByte(B, AddedToByteDown(C, s));
            var c1 := CarryOut(Read(m, dst + 1), s.c, s.carry);
            n.b == s.b && n.c == s.c && n.d == s.d && n.e == s.e
            && n.mem == s.mem[dst + 1 := Sum(Read(m, dst + 1), s.c, s.carry)][dst := Sum(Read(m, dst), s.b, c1)]
  {
    AddedFrame(C, s, s.c, m, dst, 1);
    var s1 := AddedToByteDown(C, s);
    AddedFrame(B, s1, s.b, m, dst, 0);
  }

  lemma MemAddFromState(dst: Addr, s: Cpu, x0: bv8, x1: bv8, x2: bv8, x3: bv8)
    requires Region(dst, dst + 4) && s.hl == dst + 3
    requires x0 == Read(s.mem, dst) && x1 == Read(s.mem, dst + 1) && x2 == Read(s.mem, dst + 2)
             && x3 == Read(s.mem, dst + 3)
    ensures var c3 := CarryOut(x3, s.e, s.carry);
            var c2 := CarryOut(x2, s.d, c3);
            var c1 := CarryOut(x1, s.c, c2);
            var r := Exec(MemAddFrom(), s);
            r.b == s.b && r.c == s.c && r.d == s.d && r.e == s.e
            && r.mem == StoredDown(s.mem, dst, Sum(x0, s.b, c1), Sum(x1, s.c, c2), Sum(x2, s.d, c3), Sum(x3, s.e,
              s.carry))
  {
    MemAddFromSteps(s);
    MemAddLowBytes(dst, s);
    MemAddHighBytes(dst, AddedToByteDown(D, AddedToByteDown(E, s)), s.mem);
  }

  lemma MemAddBcdeStart(dst: Addr, s: Cpu)
    requires Region(dst, dst + 4)
    ensures var s0 := s.(hl := dst + 3, a := s.a | s.a, carry := false, zero := (s.a | s.a) == 0);
            Exec(MemAddBcde(dst), s) == Exec(MemAddFrom(), s0)
  {
    ExecSeq3(Op(LdHlImm(dst + 3)), Op(Or(A)), MemAddFrom(), s);
    assert Exec(Op(LdHlImm(dst + 3)), s) == s.(hl := dst + 3);
  }

  lemma MemAddBcdeDoes(dst: Addr, s: Cpu)
    requires Region(dst, dst + 4)
    ensures var r := Exec(MemAddBcde(dst), s);
            Quad(r) == Quad(s) && OnlyWrites(s.mem, r.mem, dst, dst + 4)
            && ReadWord(r.mem, dst) == Add(ReadWord(s.mem, dst), Quad(s))
  {
    var x0, x1, x2, x3 := Read(s.mem, dst), Read(s.mem, dst + 1), Read(s.mem, dst + 2), Read(s.mem, dst + 3);
    MemAddBcdeStart(dst, s);
    MemAddFromState(dst, s.(hl := dst + 3, a := s.a | s.a, carry := false, zero := (s.a | s.a) == 0), x0, x1, x2, x3);
    var c3 := CarryOut(x3, s.e, false);
    var c2 := CarryOut(x2, s.d, c3);
    var c1 := CarryOut(x1, s.c, c2);
    CarryChain(x0, x1, x2, x3, s.b, s.c, s.d, s.e);
    StoredDownDoes(s.mem, dst, Sum(x0, s.b, c1), Sum(x1, s.c, c2), Sum(x2, s.d, c3), Sum(x3, s.e, false));
  }

  // ---------------------------------------------------------------- copy

  function CopyByte(): Code { Do4(LdFromHl(A), LdAToDe, IncHl, IncDe) }

  /** DE holds the address n. */
  predicate PointsTo(s: Cpu, n: Addr) {
    s.d == Hi(n) && s.e == Lo(n)
  }

  lemma CopyByteDoes(s: Cpu, from: Addr, to: Addr)
    requires s.hl == from && PointsTo(s, to)
    ensures var r := Exec(CopyByte(), s);
            r.mem == s.mem[to := Read(s.mem, from)] && r.hl == Next(from) && PointsTo(r, Next(to))
  {
    PairOfHalves(to);
    Exec4(LdFromHl(A), LdAToDe, IncHl, IncDe, s);
  }

  function CopyTwo(): Code { Then(CopyByte(), CopyByte()) }

  function AfterCopy(m: Memory, from: Addr, to: Addr): Memory {
    m[to := Read(m, from)]
  }

  lemma CopyTwoDoes(s: Cpu, from: Addr, to: Addr)
    requires s.hl == from && PointsTo(s, to)
    ensures var r := Exec(CopyTwo(), s);
            r.mem == AfterCopy(AfterCopy(s.mem, from, to), Next(from), Next(to))
            && r.hl == Next(Next(from)) && PointsTo(r, Next(Next(to)))
  {
    CopyByteDoes(s, from, to);
    CopyByteDoes(Exec(CopyByte(), s), Next(from), Next(to));
  }

  /** copy4 */
  function Copy4(dst: Addr, src: Addr): Code {
    Then(Do2(LdHlImm(src), LdDeImm(dst)), Then(CopyTwo(), CopyTwo()))
  }

  lemma Copy4Start(dst: Addr, src: Addr, s: Cpu)
    ensures var s0 := s.(hl := src, d := Hi(dst), e := Lo(dst));
            Exec(Copy4(dst, src), s) == Exec(CopyTwo(), Exec(CopyTwo(), s0))
  {
    Exec2(LdHlImm(src), LdDeImm(dst), s);
    var s0 := s.(hl := src, d := Hi(dst), e := Lo(dst));
    assert Exec(Then(CopyTwo(), CopyTwo()), s0) == Exec(CopyTwo(), Exec(CopyTwo(), s0));
  }

  lemma Copy4State(dst: Addr, src: Addr, s: Cpu)
    ensures var m2 := AfterCopy(AfterCopy(s.mem, src, dst), Next(src), Next(dst));
            Exec(Copy4(dst, src), s).mem
            == AfterCopy(AfterCopy(m2, Next(Next(src)), Next(Next(dst))), Next(Next(Next(src))), Next(Next(Next(dst))))
  {
    Copy4Start(dst, src, s);
    var s0 := s.(hl := src, d := Hi(dst), e := Lo(dst));
    CopyTwoDoes(s0, src, dst);
    CopyTwoDoes(Exec(CopyTwo(), s0), Next(Next(src)), Next(Next(dst)));
  }

  /** Byte after byte the word at src arrives at dst, which does not overlap it. */
  lemma FourCopies(dst: Addr, src: Addr, m: Memory, m1: Memory, m2: Memory, m3: Memory, m4: Memory)
    requires Region(dst, dst + 4) && Region(src, src + 4)
    requires dst + 4 <= src || src + 4 <= dst
    requires m1 == m[dst := Read(m, src)]
    requires m2 == m1[dst + 1 := Read(m1, src + 1)]
    requires m3 == m2[dst + 2 := Read(m2, src + 2)]
    requires m4 == m3[dst + 3 := Read(m3, src + 3)]
    ensures OnlyWrites(m, m4, dst, dst + 4) && ReadWord(m4, dst) == ReadWord(m, src)
  {
  }

  lemma Copy4Does(dst: Addr, src: Addr, s: Cpu)
    requires Region(dst, dst + 4) && Region(src, src + 4)
    requires dst + 4 <= src || src + 4 <= dst
    ensures var r := Exec(Copy4(dst, src), s);
            OnlyWrites(s.mem, r.mem, dst, dst + 4) && ReadWord(r.mem, dst) == ReadWord(s.mem, src)
  {
    var m1 := AfterCopy(s.mem, src, dst);
    var m2 := AfterCopy(m1, src + 1, dst + 1);
    var m3 := AfterCopy(m2, src + 2, dst + 2);
    Copy4State(dst, src, s);
    FourCopies(dst, src, s.mem, m1, m2, m3, AfterCopy(m3, src + 3, dst + 3));
  }

  // ---------------------------------------------------------------- pointers

  /** Four bytes on: half of advance_wk. */
  function AdvancePtr(ptr: Addr): Code {
    Seq3(Op(LdHlFrom(ptr)), Do4(IncHl, IncHl, IncHl, IncHl), Op(LdHlTo(ptr)))
  }

  lemma FourOn(s: Cpu)
    requires s.hl + 4 < 0x1_0000
    ensures Exec(Do4(IncHl, IncHl, IncHl, IncHl), s) == s.(hl := s.hl + 4)
  {
    Exec4(IncHl, IncHl, IncHl, IncHl, s);
  }

  lemma LoadsPtr(ptr: Addr, s: Cpu)
    requires Region(ptr, ptr + 2)
    ensures Exec(Op(LdHlFrom(ptr)), s) == s.(hl := ReadAddr(s.mem, ptr))
  {
  }

  lemma StoresPtr(ptr: Addr, s: Cpu)
    requires Region(ptr, ptr + 2)
    ensures Exec(Op(LdHlTo(ptr)), s).mem == s.mem[ptr := Lo(s.hl)][ptr + 1 := Hi(s.hl)]
  {
  }

  lemma AdvancePtrState(ptr: Addr, s: Cpu)
    requires Region(ptr, ptr + 2)
    requires ReadAddr(s.mem, ptr) + 4 < 0x1_0000
    ensures var n := ReadAddr(s.mem, ptr) + 4;
            Exec(AdvancePtr(ptr), s).mem == s.mem[ptr := Lo(n)][ptr + 1 := Hi(n)]
  {
    var from := ReadAddr(s.mem, ptr);
    var s0 := s.(hl := from);
    var s1 := s.(hl := from + 4);
    ExecSeq3(Op(LdHlFrom(ptr)), Do4(IncHl, IncHl, IncHl, IncHl), Op(LdHlTo(ptr)), s);
    LoadsPtr(ptr, s);
    FourOn(s0);
    StoresPtr(ptr, s1);
  }

  lemma AddrWritten(m: Memory, ptr: Addr, lo: bv8, hi: bv8)
    requires Region(ptr, ptr + 2)
    ensures var m' := m[ptr := lo][ptr + 1 := hi];
            OnlyWrites(m, m', ptr, ptr + 2) && ReadAddr(m', ptr) == Pair(hi, lo)
  {
  }

  lemma AdvancePtrDoes(ptr: Addr, s: Cpu)
    requires Region(ptr, ptr + 2)
    requires ReadAddr(s.mem, ptr) + 4 < 0x1_0000
    ensures var r := Exec(AdvancePtr(ptr), s);
            OnlyWrites(s.mem, r.mem, ptr, ptr + 2) && ReadAddr(r.mem, ptr) == ReadAddr(s.mem, ptr) + 4
  {
    var n := ReadAddr(s.mem, ptr) + 4;
    AdvancePtrState(ptr, s);
    AddrWritten(s.mem, ptr, Lo(n), Hi(n));
    PairOfHalves(n);
  }

  // ---------------------------------------------------------------- rotations of B, C, D, E

  function Right1(x: bv32): bv32 { (x >> 1) | (x << 31) }
  function Left1(x: bv32): bv32 { (x << 1) | (x >> 31) }
  function Right8(x: bv32): bv32 { (x >> 8) | (x << 24) }
  function Right16(x: bv32): bv32 { (x >> 16) | (x << 16) }

  function RotR1(): Code { Then(Do2(Ld(A, E), Rrca), Do4(Rr(B), Rr(C), Rr(D), Rr(E))) }
  function RotL1(): Code { Then(Do2(Ld(A, B), Rlca), Do4(Rl(E), Rl(D), Rl(C), Rl(B))) }
  function RotR8(): Code { Do5(Ld(A, E), Ld(E, D), Ld(D, C), Ld(C, B), Ld(B, A)) }
  function RotR16(): Code { Then(Do3(Ld(A, B), Ld(B, D), Ld(D, A)), Do3(Ld(A, C), Ld(C, E), Ld(E, A))) }

  /** r is s with the quad now w, memory and HL as they were. */
  predicate QuadBecomes(s: Cpu, r: Cpu, w: bv32) {
    Quad(r) == w && r.mem == s.mem && r.hl == s.hl
  }

  predicate LowBit(v: bv8) { v & 1 == 1 }

  predicate HighBit(v: bv8) { v & 0x80 == 0x80 }

  lemma Right1OfWord(w: bv32)
    ensures Byte0(Right1(w)) == ShiftedRight(Byte0(w), LowBit(Byte3(w)))
    ensures Byte1(Right1(w)) == ShiftedRight(Byte1(w), LowBit(Byte0(w)))
    ensures Byte2(Right1(w)) == ShiftedRight(Byte2(w), LowBit(Byte1(w)))
    ensures Byte3(Right1(w)) == ShiftedRight(Byte3(w), LowBit(Byte2(w)))
  {
  }

  lemma Left1Byte0(w: bv32)
    ensures Byte0(Left1(w)) == ShiftedLeft(Byte0(w), HighBit(Byte1(w)))
  {
  }

  lemma Left1Byte1(w: bv32)
    ensures Byte1(Left1(w)) == ShiftedLeft(Byte1(w), HighBit(Byte2(w)))
  {
  }

  lemma Left1Byte2(w: bv32)
    ensures Byte2(Left1(w)) == ShiftedLeft(Byte2(w), HighBit(Byte3(w)))
  {
  }

  lemma Left1Byte3(w: bv32)
    ensures Byte3(Left1(w)) == ShiftedLeft(Byte3(w), HighBit(Byte0(w)))
  {
  }

  lemma Right8Bytes(b: bv8, c: bv8, d: bv8, e: bv8)
    ensures Word(e, b, c, d) == Right8(Word(b, c, d, e))
  {
  }

  lemma Right16Bytes(b: bv8, c: bv8, d: bv8, e: bv8)
    ensures Word(d, e, b, c) == Right16(Word(b, c, d, e))
  {
  }

  lemma RotR1State(s: Cpu)
    ensures var r := Exec(RotR1(), s);
            r.b == ShiftedRight(s.b, LowBit(s.e)) && r.c == ShiftedRight(s.c, LowBit(s.b))
            && r.d == ShiftedRight(s.d, LowBit(s.c)) && r.e == ShiftedRight(s.e, LowBit(s.d))
            && r.mem == s.mem && r.hl == s.hl
  {
    Exec2(Ld(A, E), Rrca, s);
    var s0 := Exec(Do2(Ld(A, E), Rrca), s);
    Exec4(Rr(B), Rr(C), Rr(D), Rr(E), s0);
  }

  lemma RotR1Does(s: Cpu)
    ensures QuadBecomes(s, Exec(RotR1(), s), Right1(Quad(s)))
  {
    RotR1State(s);
    var w := Quad(s);
    BytesOfWord(s.b, s.c, s.d, s.e);
    Right1OfWord(w);
    WordOfBytes(Right1(w));
  }

  lemma RotL1State(s: Cpu)
    ensures var r := Exec(RotL1(), s);
            r.b == ShiftedLeft(s.b, HighBit(s.c)) && r.c == ShiftedLeft(s.c, HighBit(s.d))
            && r.d == ShiftedLeft(s.d, HighBit(s.e)) && r.e == ShiftedLeft(s.e, HighBit(s.b))
            && r.mem == s.mem && r.hl == s.hl
  {
    Exec2(Ld(A, B), Rlca, s);
    var s0 := Exec(Do2(Ld(A, B), Rlca), s);
    Exec4(Rl(E), Rl(D), Rl(C), Rl(B), s0);
  }

  lemma RotL1Does(s: Cpu)
    ensures QuadBecomes(s, Exec(RotL1(), s), Left1(Quad(s)))
  {
    RotL1State(s);
    var w := Quad(s);
    BytesOfWord(s.b, s.c, s.d, s.e);
    Left1Byte0(w);
    Left1Byte1(w);
    Left1Byte2(w);
    Left1Byte3(w);
    WordOfBytes(Left1(w));
  }

  lemma RotR8State(s: Cpu)
    ensures Exec(RotR8(), s) == s.(a := s.e, b := s.e, c := s.b, d := s.c, e := s.d)
  {
    Exec5(Ld(A, E), Ld(E, D), Ld(D, C), Ld(C, B), Ld(B, A), s);
  }

  lemma RotR8Does(s: Cpu)
    ensures QuadBecomes(s, Exec(RotR8(), s), Right8(Quad(s)))
  {
    RotR8State(s);
    Right8Bytes(s.b, s.c, s.d, s.e);
  }

  lemma RotR16State(s: Cpu)
    ensures Exec(RotR16(), s) == s.(a := s.c, b := s.d, c := s.e, d := s.b, e := s.c)
  {
    Exec3(Ld(A, B), Ld(B, D), Ld(D, A), s);
    Exec3(Ld(A, C), Ld(C, E), Ld(E, A), Exec(Do3(Ld(A, B), Ld(B, D), Ld(D, A)), s));
  }

  lemma RotR16Does(s: Cpu)
    ensures QuadBecomes(s, Exec(RotR16(), s), Right16(Quad(s)))
  {
    RotR16State(s);
    Right16Bytes(s.b, s.c, s.d, s.e);
  }
}
