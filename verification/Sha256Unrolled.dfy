/** The generated 8-phase round block, and that it computes the 64 rounds of FIPS 180-4. */
module Sha256Unrolled {
  import opened Z80
  import opened Z80Words
  import opened Sha256
  import opened Z80Macros
  import opened Z80Sigma
  import opened Progress
  import opened Z80Program

  // ---------------------------------------------------------------- memory layout

  /** Where the working variables (and the scratch words behind them) and the constants K lie. */
  datatype Layout = Layout(wv: Addr, k: Addr) {

    /** W[0..63] lies in the 256 bytes below wv; K keeps clear of W, the variables and the scratch. */
    predicate Fits() {
      256 <= wv <= 0xFFC0 && k + 260 <= 0x1_0000 && (k + 256 <= wv - 256 || wv + 64 <= k)
    }
  }

  function WAt(lay: Layout, t: nat): Addr
    requires lay.Fits() && t <= 64
  {
    lay.wv - 256 + 4 * t
  }

  function KAt(lay: Layout, t: nat): Addr
    requires lay.Fits() && t <= 64
  {
    lay.k + 4 * t
  }

  function T1(lay: Layout): Addr requires lay.Fits() { lay.wv + 32 }
  function Tmpa(lay: Layout): Addr requires lay.Fits() { lay.wv + 44 }
  function Majs(lay: Layout): Addr requires lay.Fits() { lay.wv + 48 }
  function WPtr(lay: Layout): Addr requires lay.Fits() { lay.wv + 58 }
  function KPtr(lay: Layout): Addr requires lay.Fits() { lay.wv + 60 }
  function Counter(lay: Layout): Addr requires lay.Fits() { lay.wv + 62 }

  /** slot: where role r (a = 0 .. h = 7) lives in phase p. */
  function Slot(lay: Layout, r: nat, p: nat): (x: Addr)
    requires lay.Fits()
    ensures lay.wv <= x <= lay.wv + 28
  {
    lay.wv + 4 * ((r - p) % 8)
  }

  /** Different roles have different slots. */
  lemma SlotsApart(lay: Layout, r: nat, q: nat, p: nat)
    requires lay.Fits() && r < 8 && q < 8 && r != q
    ensures Slot(lay, r, p) + 4 <= Slot(lay, q, p) || Slot(lay, q, p) + 4 <= Slot(lay, r, p)
  {
    assert (r - p) % 8 != (q - p) % 8 by {
      if (r - p) % 8 == (q - p) % 8 {
        SameResidue(r - p, q - p);
      }
    }
  }

  lemma SameResidue(x: int, y: int)
    requires x % 8 == y % 8
    ensures (x - y) % 8 == 0
  {
  }

  /** The slot of a role in one phase is the slot of the next role in the next phase; the last role's is the first's. */
  lemma SlotMoves(lay: Layout, r: nat, p: nat)
    requires lay.Fits()
    ensures Slot(lay, r + 1, p + 1) == Slot(lay, r, p) && Slot(lay, 0, p + 1) == Slot(lay, 7, p)
  {
    assert r + 1 - (p + 1) == r - p;
    assert (0 - (p + 1)) % 8 == (7 - p) % 8;
  }

  function Role(lay: Layout, m: Memory, r: nat, p: nat): bv32
    requires lay.Fits()
  {
    ReadWord(m, Slot(lay, r, p))
  }

  /** The working variables as phase p finds them. */
  function VarsAt(lay: Layout, m: Memory, p: nat): Vars
    requires lay.Fits()
  {
    Vars(Role(lay, m, 0, p), Role(lay, m, 1, p), Role(lay, m, 2, p), Role(lay, m, 3, p),
         Role(lay, m, 4, p), Role(lay, m, 5, p), Role(lay, m, 6, p), Role(lay, m, 7, p))
  }

  /** The pointers to the last bytes of W[t] and K[t]. */
  predicate PointersAt(lay: Layout, m: Memory, t: nat)
    requires lay.Fits() && t <= 64
  {
    ReadAddr(m, WPtr(lay)) == WAt(lay, t) + 3 && ReadAddr(m, KPtr(lay)) == KAt(lay, t) + 3
  }

  // ---------------------------------------------------------------- T1 in the quad

  function AddTerms(lay: Layout, p: nat): Code
    requires lay.Fits()
  {
    Seq4(BcdeAdd(Tmpa(lay)), BcdeAddPtr(KPtr(lay)), BcdeAddPtr(WPtr(lay)), BcdeAdd(Slot(lay, 7, p)))
  }

  function CallSigma1(lay: Layout, p: nat): Code
    requires lay.Fits()
  {
    Then(Op(LdHlImm(Slot(lay, 4, p))), BigSigma1(Tmpa(lay)))
  }

  function CallSigma0(lay: Layout, p: nat): Code
    requires lay.Fits()
  {
    Then(Op(LdHlImm(Slot(lay, 0, p))), BigSigma0(Tmpa(lay)))
  }

  /** From the call of sha_bigsigma1 to the last addition of T1. */
  function T1Code(lay: Layout, p: nat): Code
    requires lay.Fits()
  {
    Seq4(CallSigma1(lay, p), LdQuad(Tmpa(lay)),
         ChInline(Slot(lay, 4, p), Slot(lay, 5, p), Slot(lay, 6, p), Tmpa(lay)),
         AddTerms(lay, p))
  }

  lemma CallSigma1Does(lay: Layout, p: nat, s: Cpu)
    requires lay.Fits()
    ensures var r := Exec(CallSigma1(lay, p), s);
            OnlyWrites(s.mem, r.mem, Tmpa(lay), Tmpa(lay) + 4)
            && ReadWord(r.mem, Tmpa(lay)) == Sigma1(Role(lay, s.mem, 4, p))
  {
    var s1 := s.(hl := Slot(lay, 4, p));
    assert Exec(Op(LdHlImm(Slot(lay, 4, p))), s) == s1;
    BigSigma1Does(Tmpa(lay), s1);
  }

  lemma CallSigma0Does(lay: Layout, p: nat, s: Cpu)
    requires lay.Fits()
    ensures var r := Exec(CallSigma0(lay, p), s);
            OnlyWrites(s.mem, r.mem, Tmpa(lay), Tmpa(lay) + 4)
            && ReadWord(r.mem, Tmpa(lay)) == Sigma0(Role(lay, s.mem, 0, p))
  {
    var s1 := s.(hl := Slot(lay, 0, p));
    assert Exec(Op(LdHlImm(Slot(lay, 0, p))), s) == s1;
    BigSigma0Does(Tmpa(lay), s1);
  }

  lemma AddTermsDoes(lay: Layout, p: nat, t: nat, s: Cpu)
    requires lay.Fits() && t < 64 && PointersAt(lay, s.mem, t)
    ensures var m := s.mem;
            var r := Exec(AddTerms(lay, p), s);
            r.mem == m
            && Quad(r) == Add(Add(Add(Add(Quad(s), ReadWord(m, Tmpa(lay))), ReadWord(m, KAt(lay, t))), ReadWord(m,
              WAt(lay, t))),
                              Role(lay, m, 7, p))
  {
    ExecSeq4(BcdeAdd(Tmpa(lay)), BcdeAddPtr(KPtr(lay)), BcdeAddPtr(WPtr(lay)), BcdeAdd(Slot(lay, 7, p)), s);
    BcdeAddDoes(Tmpa(lay), s);
    var s1 := Exec(BcdeAdd(Tmpa(lay)), s);
    BcdeAddPtrDoes(KPtr(lay), s1);
    var s2 := Exec(BcdeAddPtr(KPtr(lay)), s1);
    BcdeAddPtrDoes(WPtr(lay), s2);
    BcdeAddDoes(Slot(lay, 7, p), Exec(BcdeAddPtr(WPtr(lay)), s2));
  }

  /** T1 of section 6.2.2 for the variables v. */
  function T1Of(v: Vars, k: bv32, w: bv32): bv32 {
    Add(Add(Add(Add(v.h, Sigma1(v.e)), Ch(v.e, v.f, v.g)), k), w)
  }

  function T2Of(v: Vars): bv32 {
    Add(Sigma0(v.a), Maj(v.a, v.b, v.c))
  }

  lemma AddCommutes(x: bv32, y: bv32)
    ensures Add(x, y) == Add(y, x)
  {
  }

  function Add3(x: bv32, y: bv32, z: bv32): bv32 { x + y + z }

  lemma Add3Swap(x: bv32, y: bv32, z: bv32)
    ensures Add3(x, y, z) == Add3(x, z, y)
  {
  }

  lemma Add3From(x: bv32, y: bv32, z: bv32, xy: bv32)
    requires xy == x + y
    ensures Add(xy, z) == Add3(x, y, z)
  {
  }

  lemma AddMiddle(x: bv32, y: bv32, z: bv32)
    ensures Add(Add(x, y), z) == Add(Add(x, z), y)
  {
    Add3From(x, y, z, Add(x, y));
    Add3From(x, z, y, Add(x, z));
    Add3Swap(x, y, z);
  }

  /** h is folded in last, where the standard adds it first. */
  lemma FoldedLast(y: bv32, c: bv32, k: bv32, w: bv32, h: bv32)
    ensures Add(Add(Add(Add(y, c), k), w), h) == Add(Add(Add(Add(h, y), c), k), w)
  {
    AddMiddle(Add(Add(y, c), k), w, h);
    AddMiddle(Add(y, c), k, h);
    AddMiddle(y, c, h);
    AddCommutes(y, h);
  }

  lemma RoleKept(lay: Layout, m: Memory, m': Memory, lo: int, hi: int, r: nat, p: nat)
    requires lay.Fits() && OnlyWrites(m, m', lo, hi) && lay.wv + 32 <= lo
    ensures Role(lay, m', r, p) == Role(lay, m, r, p)
  {
    WordKept(m, m', lo, hi, Slot(lay, r, p));
  }

  /** Writes to the scratch words disturb neither the tables nor the pointers. */
  lemma TablesKept(lay: Layout, m: Memory, m': Memory, lo: int, hi: int, t: nat)
    requires lay.Fits() && t < 64 && OnlyWrites(m, m', lo, hi) && lay.wv <= lo && hi <= lay.wv + 58
    requires PointersAt(lay, m, t)
    ensures PointersAt(lay, m', t)
    ensures ReadWord(m', KAt(lay, t)) == ReadWord(m, KAt(lay, t))
            && ReadWord(m', WAt(lay, t)) == ReadWord(m, WAt(lay, t))
  {
    WordKept(m, m', lo, hi, KAt(lay, t));
    WordKept(m, m', lo, hi, WAt(lay, t));
    AddrKept(m, m', lo, hi, KPtr(lay));
    AddrKept(m, m', lo, hi, WPtr(lay));
  }

  lemma T1CodeDoes(lay: Layout, p: nat, t: nat, s: Cpu)
    requires lay.Fits() && t < 64 && PointersAt(lay, s.mem, t)
    ensures var r := Exec(T1Code(lay, p), s);
            OnlyWrites(s.mem, r.mem, Tmpa(lay), Tmpa(lay) + 4)
            && Quad(r) == T1Of(VarsAt(lay, s.mem, p), ReadWord(s.mem, KAt(lay, t)), ReadWord(s.mem, WAt(lay, t)))
  {
    var x, m := Tmpa(lay), s.mem;
    var e, f, g := Slot(lay, 4, p), Slot(lay, 5, p), Slot(lay, 6, p);
    ExecSeq4(CallSigma1(lay, p), LdQuad(x), ChInline(e, f, g, x), AddTerms(lay, p), s);
    CallSigma1Does(lay, p, s);
    var s1 := Exec(CallSigma1(lay, p), s);
    LdQuadDoes(x, s1);
    var s2 := Exec(LdQuad(x), s1);
    ChInlineDoes(e, f, g, x, s2);
    var s3 := Exec(ChInline(e, f, g, x), s2);
    WritesAfterWrites(m, s1.mem, s3.mem, x, x + 4);
    RoleKept(lay, m, s1.mem, x, x + 4, 4, p);
    RoleKept(lay, m, s1.mem, x, x + 4, 5, p);
    RoleKept(lay, m, s1.mem, x, x + 4, 6, p);
    RoleKept(lay, m, s3.mem, x, x + 4, 7, p);
    TablesKept(lay, m, s3.mem, x, x + 4, t);
    AddTermsDoes(lay, p, t, s3);
    var v := VarsAt(lay, m, p);
    FoldedLast(Sigma1(v.e), Ch(v.e, v.f, v.g), ReadWord(m, KAt(lay, t)), ReadWord(m, WAt(lay, t)), v.h);
  }

  // ---------------------------------------------------------------- T2 and the new a

  /** From the call of sha_bigsigma0 to T2 in the quad. */
  function T2Code(lay: Layout, p: nat): Code
    requires lay.Fits()
  {
    Seq4(CallSigma0(lay, p), MajInline(Slot(lay, 0, p), Slot(lay, 1, p), Slot(lay, 2, p), Majs(lay)),
         LdQuad(Tmpa(lay)), BcdeAdd(Majs(lay)))
  }

  lemma T2CodeDoes(lay: Layout, p: nat, s: Cpu)
    requires lay.Fits()
    ensures var r := Exec(T2Code(lay, p), s);
            OnlyWrites(s.mem, r.mem, Tmpa(lay), Tmpa(lay) + 8) && Quad(r) == T2Of(VarsAt(lay, s.mem, p))
  {
    var x, y, m := Tmpa(lay), Majs(lay), s.mem;
    var a, b, c := Slot(lay, 0, p), Slot(lay, 1, p), Slot(lay, 2, p);
    ExecSeq4(CallSigma0(lay, p), MajInline(a, b, c, y), LdQuad(x), BcdeAdd(y), s);
    CallSigma0Does(lay, p, s);
    var s1 := Exec(CallSigma0(lay, p), s);
    RoleKept(lay, m, s1.mem, x, x + 4, 0, p);
    RoleKept(lay, m, s1.mem, x, x + 4, 1, p);
    RoleKept(lay, m, s1.mem, x, x + 4, 2, p);
    MajInlineDoes(a, b, c, y, s1);
    var s2 := Exec(MajInline(a, b, c, y), s1);
    WordKept(s1.mem, s2.mem, y, y + 4, x);
    LdQuadDoes(x, s2);
    BcdeAddDoes(y, Exec(LdQuad(x), s2));
    Widen(m, s1.mem, x, x + 4, x, x + 8);
    Widen(s1.mem, s2.mem, y, y + 4, x, x + 8);
    WritesAfterWrites(m, s1.mem, s2.mem, x, x + 8);
  }

  lemma Widen(m: Memory, m': Memory, lo: int, hi: int, lo': int, hi': int)
    requires OnlyWrites(m, m', lo, hi) && lo' <= lo && hi <= hi'
    ensures OnlyWrites(m, m', lo', hi')
  {
  }

  // ---------------------------------------------------------------- a phase

  /** new e over old d, and T1 put aside. */
  function StoreE(lay: Layout, p: nat): Code
    requires lay.Fits()
  {
    Then(MemAddBcde(Slot(lay, 3, p)), StQuad(T1(lay)))
  }

  /** new a over old h. */
  function StoreA(lay: Layout, p: nat): Code
    requires lay.Fits()
  {
    Then(MemAddBcde(T1(lay)), Copy4(Slot(lay, 7, p), T1(lay)))
  }

  /** advance_wk */
  function AdvanceWK(lay: Layout): Code
    requires lay.Fits()
  {
    Then(AdvancePtr(WPtr(lay)), AdvancePtr(KPtr(lay)))
  }

  /** phase_real, with the bodies of the two sigma subroutines at their calls. */
  function Phase(lay: Layout, p: nat): Code
    requires lay.Fits()
  {
    Then(T1Code(lay, p), Seq4(StoreE(lay, p), T2Code(lay, p), StoreA(lay, p), AdvanceWK(lay)))
  }

  lemma StoreEDoes(lay: Layout, p: nat, s: Cpu)
    requires lay.Fits()
    ensures var d := Slot(lay, 3, p);
            var r := Exec(StoreE(lay, p), s);
            ReadWord(r.mem, T1(lay)) == Quad(s) && ReadWord(r.mem, d) == Add(ReadWord(s.mem, d), Quad(s))
            && WritesTwo(s.mem, r.mem, d, T1(lay))
  {
    var d := Slot(lay, 3, p);
    MemAddBcdeDoes(d, s);
    var s1 := Exec(MemAddBcde(d), s);
    StQuadDoes(T1(lay), s1);
    WordKept(s1.mem, Exec(StQuad(T1(lay)), s1).mem, T1(lay), T1(lay) + 4, d);
  }

  /** Only the words at x and y may have changed. */
  ghost predicate WritesTwo(m: Memory, m': Memory, x: Addr, y: Addr) {
    forall z: Addr :: (z < x || x + 4 <= z) && (z < y || y + 4 <= z) ==> Read(m', z) == Read(m, z)
  }

  lemma StoreADoes(lay: Layout, p: nat, s: Cpu)
    requires lay.Fits()
    ensures var h := Slot(lay, 7, p);
            var r := Exec(StoreA(lay, p), s);
            ReadWord(r.mem, h) == Add(ReadWord(s.mem, T1(lay)), Quad(s)) && WritesTwo(s.mem, r.mem, h, T1(lay))
  {
    var h := Slot(lay, 7, p);
    MemAddBcdeDoes(T1(lay), s);
    Copy4Does(h, T1(lay), Exec(MemAddBcde(T1(lay)), s));
  }

  lemma AdvanceWKDoes(lay: Layout, t: nat, s: Cpu)
    requires lay.Fits() && t < 64 && PointersAt(lay, s.mem, t)
    ensures var r := Exec(AdvanceWK(lay), s);
            PointersAt(lay, r.mem, t + 1) && OnlyWrites(s.mem, r.mem, WPtr(lay), WPtr(lay) + 4)
  {
    AdvancePtrDoes(WPtr(lay), s);
    var s1 := Exec(AdvancePtr(WPtr(lay)), s);
    AddrKept(s.mem, s1.mem, WPtr(lay), WPtr(lay) + 2, KPtr(lay));
    AdvancePtrDoes(KPtr(lay), s1);
    AddrKept(s1.mem, Exec(AdvancePtr(KPtr(lay)), s1).mem, KPtr(lay), KPtr(lay) + 2, WPtr(lay));
  }

  /**
   * What a phase leaves in memory, told in the memories after its five parts: the T1 sum, the two stores for
   * e, the T2 sum, the two stores for a, the pointers.
   */
  lemma PhaseMemory(lay: Layout, p: nat, t: nat, m: Memory, m1: Memory, m2: Memory, m3: Memory, m4: Memory,
                    m5: Memory, t1: bv32, t2: bv32)
    requires lay.Fits() && t < 64
    requires OnlyWrites(m, m1, Tmpa(lay), Tmpa(lay) + 4)
    requires WritesTwo(m1, m2, Slot(lay, 3, p), T1(lay))
    requires ReadWord(m2, T1(lay)) == t1 && ReadWord(m2, Slot(lay, 3, p)) == Add(ReadWord(m1, Slot(lay, 3, p)), t1)
    requires OnlyWrites(m2, m3, Tmpa(lay), Tmpa(lay) + 8)
    requires WritesTwo(m3, m4, Slot(lay, 7, p), T1(lay))
    requires ReadWord(m4, Slot(lay, 7, p)) == Add(ReadWord(m3, T1(lay)), t2)
    requires OnlyWrites(m4, m5, WPtr(lay), WPtr(lay) + 4)
    ensures forall r: nat :: r < 8 && r != 3 && r != 7 ==> Role(lay, m5, r, p) == Role(lay, m, r, p)
    ensures Role(lay, m5, 3, p) == Add(Role(lay, m, 3, p), t1)
    ensures Role(lay, m5, 7, p) == Add(t1, t2)
    ensures OnlyWrites(m, m5, lay.wv, lay.wv + 62)
  {
    forall r: nat | r < 8 && r != 3 && r != 7 ensures Role(lay, m5, r, p) == Role(lay, m, r, p) {
      SlotsApart(lay, r, 3, p);
      SlotsApart(lay, r, 7, p);
    }
    SlotsApart(lay, 3, 7, p);
    WordKept(m2, m3, Tmpa(lay), Tmpa(lay) + 8, T1(lay));
  }

  // ---------------------------------------------------------------- refinement of the rounds

  lemma PhaseStages(lay: Layout, p: nat, s: Cpu)
    requires lay.Fits()
    ensures var s1 := Exec(T1Code(lay, p), s);
            var s3 := Exec(T2Code(lay, p), Exec(StoreE(lay, p), s1));
            Exec(Phase(lay, p), s) == Exec(AdvanceWK(lay), Exec(StoreA(lay, p), s3))
  {
    var s1 := Exec(T1Code(lay, p), s);
    ExecSeq4(StoreE(lay, p), T2Code(lay, p), StoreA(lay, p), AdvanceWK(lay), s1);
  }

  /** One phase is one round, with the roles moved on by one slot and both pointers by one word. */
  lemma PhaseIsRound(lay: Layout, p: nat, t: nat, s: Cpu)
    requires lay.Fits() && t < 64 && PointersAt(lay, s.mem, t)
    ensures var r := Exec(Phase(lay, p), s);
            VarsAt(lay, r.mem, p + 1)
            == Round(VarsAt(lay, s.mem, p), ReadWord(s.mem, KAt(lay, t)), ReadWord(s.mem, WAt(lay, t)))
            && PointersAt(lay, r.mem, t + 1) && OnlyWrites(s.mem, r.mem, lay.wv, lay.wv + 62)
  {
    var v, k, w := VarsAt(lay, s.mem, p), ReadWord(s.mem, KAt(lay, t)), ReadWord(s.mem, WAt(lay, t));
    PhaseStages(lay, p, s);
    T1CodeDoes(lay, p, t, s);
    var s1 := Exec(T1Code(lay, p), s);
    StoreEDoes(lay, p, s1);
    var s2 := Exec(StoreE(lay, p), s1);
    T2CodeDoes(lay, p, s2);
    var s3 := Exec(T2Code(lay, p), s2);
    StoreADoes(lay, p, s3);
    var s4 := Exec(StoreA(lay, p), s3);
    RolesForT2(lay, p, s.mem, s1.mem, s2.mem);
    PointersForAdvance(lay, p, t, s.mem, s1.mem, s2.mem, s3.mem, s4.mem);
    AdvanceWKDoes(lay, t, s4);
    var r := Exec(AdvanceWK(lay), s4);
    PhaseMemory(lay, p, t, s.mem, s1.mem, s2.mem, s3.mem, s4.mem, r.mem, T1Of(v, k, w), T2Of(v));
    RolesMove(lay, p, r.mem);
  }

  /** Writing e does not touch what T2 is made of. */
  lemma RolesForT2(lay: Layout, p: nat, m: Memory, m1: Memory, m2: Memory)
    requires lay.Fits()
    requires OnlyWrites(m, m1, Tmpa(lay), Tmpa(lay) + 4)
    requires WritesTwo(m1, m2, Slot(lay, 3, p), T1(lay))
    ensures T2Of(VarsAt(lay, m2, p)) == T2Of(VarsAt(lay, m, p))
  {
    SlotsApart(lay, 0, 3, p);
    SlotsApart(lay, 1, 3, p);
    SlotsApart(lay, 2, 3, p);
    assert Role(lay, m2, 0, p) == Role(lay, m, 0, p);
    assert Role(lay, m2, 1, p) == Role(lay, m, 1, p);
    assert Role(lay, m2, 2, p) == Role(lay, m, 2, p);
  }

  lemma PointersForAdvance(lay: Layout, p: nat, t: nat, m: Memory, m1: Memory, m2: Memory, m3: Memory, m4: Memory)
    requires lay.Fits() && t < 64 && PointersAt(lay, m, t)
    requires OnlyWrites(m, m1, Tmpa(lay), Tmpa(lay) + 4)
    requires WritesTwo(m1, m2, Slot(lay, 3, p), T1(lay))
    requires OnlyWrites(m2, m3, Tmpa(lay), Tmpa(lay) + 8)
    requires WritesTwo(m3, m4, Slot(lay, 7, p), T1(lay))
    ensures PointersAt(lay, m4, t)
  {
  }

  lemma RolesMove(lay: Layout, p: nat, m: Memory)
    requires lay.Fits()
    ensures VarsAt(lay, m, p + 1)
            == Vars(Role(lay, m, 7, p), Role(lay, m, 0, p), Role(lay, m, 1, p), Role(lay, m, 2, p),
                    Role(lay, m, 3, p), Role(lay, m, 4, p), Role(lay, m, 5, p), Role(lay, m, 6, p))
  {
    SlotMoves(lay, 0, p);
    SlotMoves(lay, 1, p);
    SlotMoves(lay, 2, p);
    SlotMoves(lay, 3, p);
    SlotMoves(lay, 4, p);
    SlotMoves(lay, 5, p);
    SlotMoves(lay, 6, p);
  }

  // ---------------------------------------------------------------- the loop over groups

  /** The tables hold the constants k and the schedule w. */
  ghost predicate TablesHold(lay: Layout, m: Memory, k: seq<bv32>, w: seq<bv32>)
    requires lay.Fits()
  {
    |k| == 64 && |w| == 64
    && forall t: nat :: t < 64 ==> ReadWord(m, KAt(lay, t)) == k[t] && ReadWord(m, WAt(lay, t)) == w[t]
  }

  lemma TablesHeld(lay: Layout, m: Memory, m': Memory, k: seq<bv32>, w: seq<bv32>)
    requires lay.Fits() && TablesHold(lay, m, k, w) && OnlyWrites(m, m', lay.wv, lay.wv + 63)
    ensures TablesHold(lay, m', k, w)
  {
    forall t: nat | t < 64
      ensures ReadWord(m', KAt(lay, t)) == k[t] && ReadWord(m', WAt(lay, t)) == w[t]
    {
      WordKept(m, m', lay.wv, lay.wv + 63, KAt(lay, t));
      WordKept(m, m', lay.wv, lay.wv + 63, WAt(lay, t));
    }
  }

  /** Only t modulo 8 decides where a role lives. */
  lemma SlotsRepeat(lay: Layout, m: Memory, p: nat, g: nat)
    requires lay.Fits()
    ensures VarsAt(lay, m, 8 * g + p) == VarsAt(lay, m, p)
  {
    forall r: nat ensures Slot(lay, r, 8 * g + p) == Slot(lay, r, p) {
      MultipleDropped(r - p, g);
      assert r - (8 * g + p) == r - p - 8 * g;
    }
  }

  lemma {:induction false} MultipleDropped(x: int, g: nat)
    ensures (x - 8 * g) % 8 == x % 8
  {
    if g > 0 {
      MultipleDropped(x, g - 1);
      assert x - 8 * g == x - 8 * (g - 1) - 8;
    }
  }

  /** What the block is to do from memory m0: to have the variables want(t) after t rounds. */
  datatype Job = Job(lay: Layout, m0: Memory, k: seq<bv32>, w: seq<bv32>, want: nat -> Vars)

  /** want follows the rounds of the standard. */
  ghost predicate IsRound(job: Job, t: nat)
    requires |job.k| == 64 && |job.w| == 64 && t < 64
  {
    job.want(t + 1) == Round(job.want(t), job.k[t], job.w[t])
  }

  ghost predicate Sound(job: Job) {
    job.lay.Fits() && |job.k| == 64 && |job.w| == 64 && forall t: nat :: t < 64 ==> IsRound(job, t)
  }

  /** After t rounds: the slots of phase t hold the variables wanted, the pointers are at word t. */
  ghost predicate After(job: Job, m: Memory, t: nat)
    requires job.lay.Fits()
  {
    t <= 64 && TablesHold(job.lay, m, job.k, job.w) && PointersAt(job.lay, m, t)
    && VarsAt(job.lay, m, t) == job.want(t)
    && OnlyWrites(job.m0, m, job.lay.wv, job.lay.wv + 63)
  }

  lemma RoundKeepsAfter(job: Job, m: Memory, m': Memory, t: nat)
    requires Sound(job) && t < 64 && After(job, m, t) && PointersAt(job.lay, m', t + 1)
    requires VarsAt(job.lay, m', t + 1)
             == Round(VarsAt(job.lay, m, t), ReadWord(m, KAt(job.lay, t)), ReadWord(m, WAt(job.lay, t)))
    requires OnlyWrites(m, m', job.lay.wv, job.lay.wv + 62)
    ensures After(job, m', t + 1)
  {
    assert IsRound(job, t);
    Widen(m, m', job.lay.wv, job.lay.wv + 62, job.lay.wv, job.lay.wv + 63);
    TablesHeld(job.lay, m, m', job.k, job.w);
    WritesAfterWrites(job.m0, m, m', job.lay.wv, job.lay.wv + 63);
  }

  /** What running phase p does to the machine. */
  function PhaseRun(lay: Layout, p: nat): Cpu -> Cpu
    requires lay.Fits()
  {
    s => Exec(Phase(lay, p), s)
  }

  /** Phase p at round 8 * g + p, both in the roles of that round. */
  lemma PhaseInGroup(lay: Layout, p: nat, g: nat, s: Cpu)
    requires lay.Fits() && p < 8 && g < 8 && PointersAt(lay, s.mem, 8 * g + p)
    ensures var t, m := 8 * g + p, Exec(Phase(lay, p), s).mem;
            VarsAt(lay, m, t + 1)
            == Round(VarsAt(lay, s.mem, t), ReadWord(s.mem, KAt(lay, t)), ReadWord(s.mem, WAt(lay, t)))
            && PointersAt(lay, m, t + 1) && OnlyWrites(s.mem, m, lay.wv, lay.wv + 62)
  {
    SlotsRepeat(lay, s.mem, p, g);
    PhaseIsRound(lay, p, 8 * g + p, s);
    SlotsRepeat(lay, Exec(Phase(lay, p), s).mem, p + 1, g);
  }

  lemma PhaseKeepsAfter(job: Job, p: nat, g: nat, s: Cpu)
    requires Sound(job) && p < 8 && g < 8 && After(job, s.mem, 8 * g + p)
    ensures After(job, PhaseRun(job.lay, p)(s).mem, 8 * g + p + 1)
  {
    PhaseInGroup(job.lay, p, g, s);
    RoundKeepsAfter(job, s.mem, Exec(Phase(job.lay, p), s).mem, 8 * g + p);
  }

  /** The group counter lies behind everything a phase writes. */
  lemma PhaseKeepsCount(job: Job, p: nat, g: nat, s: Cpu)
    requires Sound(job) && p < 8 && g < 8 && After(job, s.mem, 8 * g + p)
    ensures GroupsLeft(job.lay)(PhaseRun(job.lay, p)(s)) == GroupsLeft(job.lay)(s)
  {
    PhaseIsRound(job.lay, p, 8 * g + p, s);
  }

  /** The progress of the job, as a property of the machine. */
  ghost function Rounded(job: Job): (Cpu, nat) -> bool
    requires job.lay.Fits()
  {
    (s: Cpu, t: nat) => After(job, s.mem, t)
  }

  lemma PhaseTakesOne(job: Job, p: nat, g: nat)
    requires Sound(job) && p < 8 && g < 8
    ensures Takes(PhaseRun(job.lay, p), Rounded(job), GroupsLeft(job.lay), 8 * g + p, 8 * g + p + 1)
  {
    var run, inv, left := PhaseRun(job.lay, p), Rounded(job), GroupsLeft(job.lay);
    forall s: Cpu | inv(s, 8 * g + p) ensures inv(run(s), 8 * g + p + 1) && left(run(s)) == left(s) {
      PhaseKeepsAfter(job, p, g, s);
      PhaseKeepsCount(job, p, g, s);
    }
  }

  /** Phases 0 .. 7. */
  function Phases(lay: Layout): seq<Cpu -> Cpu>
    requires lay.Fits()
  {
    seq(8, p requires 0 <= p < 8 => PhaseRun(lay, p))
  }

  lemma PhaseAt(lay: Layout, p: nat)
    requires lay.Fits() && p < 8
    ensures Phases(lay)[p] == PhaseRun(lay, p)
  {
  }

  /** The phase in turn at round t of the group that begins at round `from`. */
  ghost predicate TakesTurn(job: Job, p: nat, from: nat)
    requires job.lay.Fits() && p < 8
  {
    Takes(Phases(job.lay)[p], Rounded(job), GroupsLeft(job.lay), from + p, from + p + 1)
  }

  lemma PhaseInTurn(job: Job, p: nat, g: nat, from: nat)
    requires Sound(job) && p < 8 && g < 8 && from == 8 * g
    ensures TakesTurn(job, p, from)
  {
    PhaseAt(job.lay, p);
    PhaseTakesOne(job, p, g);
  }

  lemma TurnsStep(job: Job, from: nat)
    requires job.lay.Fits() && forall p: nat :: p < 8 ==> TakesTurn(job, p, from)
    ensures Steps(Phases(job.lay), Rounded(job), GroupsLeft(job.lay), from)
  {
    forall p: nat | p < 8
      ensures Takes(Phases(job.lay)[p], Rounded(job), GroupsLeft(job.lay), from + p, from + p + 1)
    {
      assert TakesTurn(job, p, from);
    }
  }

  lemma PhasesStep(job: Job, g: nat, from: nat)
    requires Sound(job) && g < 8 && from == 8 * g
    ensures Steps(Phases(job.lay), Rounded(job), GroupsLeft(job.lay), from)
  {
    forall p: nat | p < 8 ensures TakesTurn(job, p, from) {
      PhaseInTurn(job, p, g, from);
    }
    TurnsStep(job, from);
  }

  /** ld a, (counter); dec a; ld (counter), a */
  function CountDownCode(lay: Layout): Code
    requires lay.Fits()
  {
    Do3(LdAFrom(Counter(lay)), DecA, LdATo(Counter(lay)))
  }

  function CountDown(lay: Layout): Cpu -> Cpu
    requires lay.Fits()
  {
    s => Exec(CountDownCode(lay), s)
  }

  /** The groups still to run. */
  function GroupsLeft(lay: Layout): Cpu -> int
    requires lay.Fits()
  {
    (s: Cpu) => Read(s.mem, Counter(lay)) as int
  }

  /** A byte counted down by one, as a number. */
  lemma Decremented(n: bv8)
    requires n != 0
    ensures (n - 1) as int == n as int - 1
    ensures (n - 1 == 0) == (n as int == 1)
  {
  }

  lemma CountDownDoes(lay: Layout, s: Cpu)
    requires lay.Fits()
    ensures var r := CountDown(lay)(s);
            var n := Read(s.mem, Counter(lay)) - 1;
            r.mem == s.mem[Counter(lay) := n] && r.zero == (n == 0)
  {
    Exec3(LdAFrom(Counter(lay)), DecA, LdATo(Counter(lay)), s);
  }

  lemma CounterKept(lay: Layout, m: Memory, n: bv8, t: nat)
    requires lay.Fits() && t <= 64
    ensures var m' := m[Counter(lay) := n];
            OnlyWrites(m, m', lay.wv, lay.wv + 63) && Read(m', Counter(lay)) == n
            && VarsAt(lay, m', t) == VarsAt(lay, m, t) && (PointersAt(lay, m, t) ==> PointersAt(lay, m', t))
  {
    var m' := m[Counter(lay) := n];
    assert OnlyWrites(m, m', Counter(lay), Counter(lay) + 1);
    forall r: nat | r < 8 ensures Role(lay, m', r, t) == Role(lay, m, r, t) {
      WordKept(m, m', Counter(lay), Counter(lay) + 1, Slot(lay, r, t));
    }
  }

  lemma CounterKeepsAfter(job: Job, m: Memory, n: bv8, t: nat)
    requires job.lay.Fits() && After(job, m, t)
    ensures After(job, m[Counter(job.lay) := n], t)
  {
    CounterKept(job.lay, m, n, t);
    TablesHeld(job.lay, m, m[Counter(job.lay) := n], job.k, job.w);
    WritesAfterWrites(job.m0, m, m[Counter(job.lay) := n], job.lay.wv, job.lay.wv + 63);
  }

  lemma CountDownKeeps(job: Job, t: nat, s: Cpu)
    requires job.lay.Fits() && After(job, s.mem, t)
    ensures After(job, CountDown(job.lay)(s).mem, t)
  {
    CountDownDoes(job.lay, s);
    CounterKeepsAfter(job, s.mem, Read(s.mem, Counter(job.lay)) - 1, t);
  }

  lemma CountDownLowers(lay: Layout, s: Cpu)
    requires lay.Fits() && GroupsLeft(lay)(s) > 0
    ensures var r := CountDown(lay)(s);
            GroupsLeft(lay)(r) == GroupsLeft(lay)(s) - 1 && NotZero(r) == (GroupsLeft(lay)(s) != 1)
  {
    CountDownDoes(lay, s);
    Decremented(Read(s.mem, Counter(lay)));
  }

  lemma CountDownCounts(job: Job, t: nat)
    requires job.lay.Fits()
    ensures CountsDown(CountDown(job.lay), NotZero, Rounded(job), GroupsLeft(job.lay), t)
  {
    var count, inv, left := CountDown(job.lay), Rounded(job), GroupsLeft(job.lay);
    forall s: Cpu | inv(s, t) && left(s) > 0
      ensures inv(count(s), t) && left(count(s)) == left(s) - 1 && NotZero(count(s)) == (left(s) != 1)
    {
      CountDownKeeps(job, t, s);
      CountDownLowers(job.lay, s);
    }
  }

  /** One pass: eight phases and the countdown. */
  lemma GroupCounted(job: Job, g: nat)
    requires Sound(job) && g < 8
    ensures Counted(Phases(job.lay), CountDown(job.lay), NotZero, Rounded(job), GroupsLeft(job.lay), g)
  {
    var each := |Phases(job.lay)|;
    var from := g * each;
    PhasesStep(job, g, from);
    CountDownCounts(job, from + each);
  }

  lemma GroupsCounted(job: Job)
    requires Sound(job)
    ensures CountedLoop(Phases(job.lay), CountDown(job.lay), NotZero, Rounded(job), GroupsLeft(job.lay), 8)
  {
    forall g: nat | g < 8
      ensures Counted(Phases(job.lay), CountDown(job.lay), NotZero, Rounded(job), GroupsLeft(job.lay), g)
    {
      GroupCounted(job, g);
    }
  }

  function StartCode(lay: Layout): Code
    requires lay.Fits()
  {
    Do2(LdAImm(8), LdATo(Counter(lay)))
  }

  /** main: the whole generated block, from the load of the group counter on; jp nz closes the loop. */
  function RoundBlock(lay: Layout, s: Cpu, fuel: nat): Outcome<Cpu>
    requires lay.Fits()
  {
    DoWhile(Pass(Phases(lay), CountDown(lay)), NotZero, Exec(StartCode(lay), s), fuel)
  }

  lemma BlockStart(job: Job, s: Cpu)
    requires job.lay.Fits() && After(job, s.mem, 0)
    ensures var s1 := Exec(StartCode(job.lay), s);
            Rounded(job)(s1, 0) && GroupsLeft(job.lay)(s1) == 8
  {
    Exec2(LdAImm(8), LdATo(Counter(job.lay)), s);
    CounterKeepsAfter(job, s.mem, 8, 0);
    CounterKept(job.lay, s.mem, 8, 0);
  }

  lemma BlockRunsJob(job: Job, s: Cpu, fuel: nat)
    requires Sound(job) && After(job, s.mem, 0)
    ensures var o := RoundBlock(job.lay, s, fuel);
            (o.Done? <==> fuel >= 8) && (o.Done? ==> After(job, o.s.mem, 64))
  {
    BlockStart(job, s);
    GroupsCounted(job);
    LoopRuns(Phases(job.lay), CountDown(job.lay), NotZero, Rounded(job), GroupsLeft(job.lay), 8, 0,
             Exec(StartCode(job.lay), s), fuel);
  }

  /** After 64 rounds the roles are back in their first slots. */
  lemma JobFinished(job: Job, m: Memory)
    requires job.lay.Fits() && After(job, m, 64)
    ensures VarsAt(job.lay, m, 0) == job.want(64) && OnlyWrites(job.m0, m, job.lay.wv, job.lay.wv + 63)
  {
    SlotsRepeat(job.lay, m, 0, 8);
  }

  ghost function RoundsJob(lay: Layout, m0: Memory, k: seq<bv32>, w: seq<bv32>): (job: Job)
    requires lay.Fits() && |k| == 64 && |w| == 64
    ensures Sound(job) && job.lay == lay && job.m0 == m0 && job.k == k && job.w == w
    ensures job.want(0) == VarsAt(lay, m0, 0) && job.want(64) == Rounds(VarsAt(lay, m0, 0), k, w, 64)
  {
    var v := VarsAt(lay, m0, 0);
    Job(lay, m0, k, w, (t: nat) => if t <= 64 then Rounds(v, k, w, t) else v)
  }

  lemma JobReady(job: Job)
    requires Sound(job) && TablesHold(job.lay, job.m0, job.k, job.w) && PointersAt(job.lay, job.m0, 0)
    requires job.want(0) == VarsAt(job.lay, job.m0, 0)
    ensures After(job, job.m0, 0)
  {
  }

  /**
   * The generated block runs exactly eight groups, and leaves in the slots a .. h the working variables after
   * the 64 rounds of section 6.2.2. It writes to the variables and its scratch bytes only.
   */
  lemma BlockIsSha256(lay: Layout, s: Cpu, k: seq<bv32>, w: seq<bv32>, fuel: nat)
    requires lay.Fits() && TablesHold(lay, s.mem, k, w) && PointersAt(lay, s.mem, 0)
    ensures var o := RoundBlock(lay, s, fuel);
            (o.Done? <==> fuel >= 8)
            && (o.Done? ==> VarsAt(lay, o.s.mem, 0) == Rounds(VarsAt(lay, s.mem, 0), k, w, 64)
                            && OnlyWrites(s.mem, o.s.mem, lay.wv, lay.wv + 63))
  {
    var job := RoundsJob(lay, s.mem, k, w);
    JobReady(job);
    BlockRunsJob(job, s, fuel);
    var o := RoundBlock(lay, s, fuel);
    if o.Done? {
      JobFinished(job, o.s.mem);
    }
  }

  // ---------------------------------------------------------------- the block as it is emitted

  /** What lies between the label and the jump, in pieces. */
  function GroupPieces(lay: Layout): seq<Code>
    requires lay.Fits()
  {
    seq(8, p requires 0 <= p < 8 => Phase(lay, p))
  }

  /** The instructions of one pass. */
  function GroupListing(lay: Layout): seq<Instr>
    requires lay.Fits()
  {
    ListAll(GroupPieces(lay)) + Listing(CountDownCode(lay))
  }

  /** All lines of the generated block, the calls replaced by the bodies of the subroutines. */
  function BlockLines(lay: Layout): seq<Line>
    requires lay.Fits()
  {
    Lines([LdAImm(8), LdATo(Counter(lay))]) + Lines(GroupListing(lay)) + [JpNz(2)]
  }

  lemma GroupRuns(lay: Layout, s: Cpu)
    requires lay.Fits()
    ensures Pass(Phases(lay), CountDown(lay))(s) == Run(GroupListing(lay), s)
  {
    var pieces, fs := GroupPieces(lay), Phases(lay);
    forall j: nat, r: Cpu | j < |fs| ensures fs[j](r) == Exec(pieces[j], r) {
      PhaseAt(lay, j);
    }
    assert pieces[0..] == pieces;
    PiecesRun(pieces, fs, 0, s);
    RunAppend(ListAll(pieces), Listing(CountDownCode(lay)), s);
    RunIsExec(CountDownCode(lay), Chain(fs, 0, s));
  }

  lemma GroupDone(lay: Layout)
    requires lay.Fits()
    ensures DoneBy(Pass(Phases(lay), CountDown(lay)), GroupListing(lay))
  {
    var pass := Pass(Phases(lay), CountDown(lay));
    forall s: Cpu ensures pass(s) == Run(GroupListing(lay), s) {
      GroupRuns(lay, s);
    }
  }

  /** The lines before the label. */
  lemma StartRuns(lay: Layout, s: Cpu, fuel: nat)
    requires lay.Fits()
    ensures RunFrom(BlockLines(lay), 0, s, fuel) ==
            if fuel >= 2 then RunFrom(BlockLines(lay), 2, Exec(StartCode(lay), s), fuel - 2) else OutOfFuel
  {
    var start := [LdAImm(8), LdATo(Counter(lay))];
    assert start == Listing(StartCode(lay));
    StraightRuns(BlockLines(lay), 0, start, s, fuel);
    RunIsExec(StartCode(lay), s);
  }

  /** The emitted block ends with the structured one's result, after two lines and as many passes. */
  lemma BlockLinesRun(lay: Layout, s: Cpu, passes: nat, fuel: nat)
    requires lay.Fits() && passes > 0
    requires RoundBlock(lay, s, passes).Done? && RoundBlock(lay, s, passes - 1).OutOfFuel?
    ensures RunFrom(BlockLines(lay), 0, s, fuel) ==
            if fuel >= 2 + passes * (|GroupListing(lay)| + 1) then RoundBlock(lay, s, passes) else OutOfFuel
  {
    var program, body, pass := BlockLines(lay), GroupListing(lay), Pass(Phases(lay), CountDown(lay));
    var s1 := Exec(StartCode(lay), s);
    StartRuns(lay, s, fuel);
    if fuel >= 2 {
      BlockEndsInLoop(lay);
      GroupDone(lay);
      LoopLines(program, 2, body, pass, s1, passes, fuel - 2);
    } else {
      assert passes * (|body| + 1) > 0;
    }
  }

  lemma BlockEndsInLoop(lay: Layout)
    requires lay.Fits()
    ensures EndsInLoop(BlockLines(lay), 2, GroupListing(lay))
  {
  }

  /**
   * The emitted lines, run by a program counter from the first to past the last, compute the 64 rounds of section
   * 6.2.2, and take exactly two instructions and eight passes through the loop to do it.
   */
  lemma LinesAreSha256(lay: Layout, s: Cpu, k: seq<bv32>, w: seq<bv32>, fuel: nat)
    requires lay.Fits() && TablesHold(lay, s.mem, k, w) && PointersAt(lay, s.mem, 0)
    ensures var o := RunFrom(BlockLines(lay), 0, s, fuel);
            (o.Done? <==> fuel >= 2 + 8 * (|GroupListing(lay)| + 1))
            && (o.Done? ==> VarsAt(lay, o.s.mem, 0) == Rounds(VarsAt(lay, s.mem, 0), k, w, 64)
                            && OnlyWrites(s.mem, o.s.mem, lay.wv, lay.wv + 63))
  {
    BlockIsSha256(lay, s, k, w, 8);
    BlockIsSha256(lay, s, k, w, 7);
    BlockLinesRun(lay, s, 8, fuel);
  }
}
