/** What the operators of an expression compute (tools/aarch64enc/expr.go, tools/sam-aarch64-format/expr.go), said of
    the bytes and without the evaluators' own arithmetic. */
module ExprLaws {
  import opened Bytes
  import opened Common
  import opened ExprCode
  import BF = BitFields

  // ---------------------------------------------------------------- the laws

  /** Bit i of a number in two's complement. */
  predicate Bit(x: int, i: nat) {
    x / BF.TwoTo(i) % 2 == 1
  }

  predicate SameLow64(v: int, n: int) {
    v % 0x1_0000_0000_0000_0000 == n % 0x1_0000_0000_0000_0000
  }

  /** v * y comes as near to x as it can without going past it: the remainder has the sign of x. */
  predicate TruncatedQuotient(x: int, y: int, v: int)
    requires y != 0
  {
    var r := x - v * y;
    -Abs(y) < r < Abs(y) && (r == 0 || (r < 0 <==> x < 0))
  }

  function Abs(x: int): (r: int)
    ensures r >= 0 && (r == x || r == -x)
  {
    if x < 0 then -x else x
  }

  /** What v has to satisfy to be the result of a binary opcode on x and y. */
  predicate BinaryLaw(op: Byte, x: Int64, y: Int64, v: Int64) {
    match op
    case 0x10 => SameLow64(v, x + y)
    case 0x11 => SameLow64(v, x - y)
    case 0x12 => SameLow64(v, x * y)
    case 0x13 =>
      if y == 0 then v == 0
      else if x == -0x8000_0000_0000_0000 && y == -1 then v == x
      else TruncatedQuotient(x, y, v)
    case 0x14 => forall i: nat :: i < 64 ==> (Bit(v, i) <==> Bit(x, i) && Bit(y, i))
    case 0x15 => forall i: nat :: i < 64 ==> (Bit(v, i) <==> Bit(x, i) || Bit(y, i))
    case 0x16 => forall i: nat :: i < 64 ==> (Bit(v, i) <==> Bit(x, i) != Bit(y, i))
    case 0x17 => if 0 <= y < 64 then SameLow64(v, x * BF.TwoTo(y)) else v == 0
    case 0x18 =>
      if 0 <= y < 64 then v * BF.TwoTo(y) <= x < (v + 1) * BF.TwoTo(y)
      else v == if x < 0 then -1 else 0
    case _ => false
  }

  /** The same of an opcode with one operand: NEG, NOT, and the relocation operators by what they cut out of x. */
  predicate UnaryLaw(op: Byte, x: Int64, v: Int64) {
    match op
    case 0x20 => SameLow64(v, 0 - x)
    case 0x21 => forall i: nat :: i < 64 ==> (Bit(v, i) <==> !Bit(x, i))
    case 0x30 => v == x % 0x1000
    case 0x31 => x % 0x100_0000 == x % 0x1000 + 0x1000 * v
    case 0x32 => v == x % 0x1_0000
    case 0x33 => v == x % 0x1_0000
    case 0x34 => x % 0x1_0000_0000 == x % 0x1_0000 + 0x1_0000 * v
    case 0x35 => x % 0x1_0000_0000 == x % 0x1_0000 + 0x1_0000 * v
    case 0x36 => x % 0x1_0000_0000_0000 == x % 0x1_0000_0000 + 0x1_0000_0000 * v
    case 0x37 => x % 0x1_0000_0000_0000 == x % 0x1_0000_0000 + 0x1_0000_0000 * v
    case 0x38 => x % 0x1_0000_0000_0000_0000 == x % 0x1_0000_0000_0000 + 0x1_0000_0000_0000 * v
    case _ => false
  }

  // ---------------------------------------------------------------- bits

  lemma TimesMore(p: int, k: int)
    requires p > 0 && k >= 0
    ensures p * k >= k && (p > 1 && k > 0 ==> p * k > k)
  {
    if p > 1 {
      BF.TimesAtLeast(p - 1, k);
      assert (p - 1) * k == p * k - k;
      if k > 0 { BF.TimesPositive(p - 1, k); }
    }
  }

  lemma BitStep(x: int, i: nat)
    requires i > 0
    ensures Bit(x, i) == Bit(x / 2, i - 1)
  {
    BF.HalfOfQuotient(x, BF.TwoTo(i - 1));
  }

  lemma HalfAboveTurn(x: int, w: nat)
    requires w > 0
    ensures (x + BF.TwoTo(w)) / 2 == x / 2 + BF.TwoTo(w - 1) && (x + BF.TwoTo(w)) % 2 == x % 2
  {
  }

  lemma {:induction false} BitAboveTurn(x: int, i: nat, w: nat)
    requires i < w
    ensures Bit(x + BF.TwoTo(w), i) == Bit(x, i)
    decreases i
  {
    HalfAboveTurn(x, w);
    if i > 0 {
      BitStep(x, i);
      BitStep(x + BF.TwoTo(w), i);
      BitAboveTurn(x / 2, i - 1, w - 1);
    }
  }

  lemma {:induction false} BitOfFromNat(n: nat, w: nat, i: nat)
    requires i < w
    ensures BF.FromNat(n, w)[i] == Bit(n, i)
    decreases i
  {
    if i > 0 {
      BitStep(n, i);
      BitOfFromNat(n / 2, w - 1, i - 1);
    }
  }

  lemma Turn()
    ensures BF.TwoTo(64) == TWO_64
  {
    assert BF.TwoTo(16) == 0x1_0000 by { BF.Powers(); }
    assert BF.TwoTo(26) == 0x400_0000 by { BF.Powers(); }
    assert BF.TwoTo(36) == 0x10_0000_0000;
    assert BF.TwoTo(46) == 0x4000_0000_0000;
    assert BF.TwoTo(56) == 0x100_0000_0000_0000;
  }

  lemma BitOfBitsOf(x: Int64, i: nat)
    requires i < 64
    ensures BitsOf(x)[i] == Bit(x, i)
  {
    BitOfFromNat(AsUint64(x), 64, i);
    Turn();
    BitAboveTurn(x, i, 64);
  }

  lemma {:induction false} FromNatOfToNat(b: Bits)
    ensures BF.FromNat(BF.ToNat(b), |b|) == b
  {
    if b != [] {
      FromNatOfToNat(b[1..]);
    }
  }

  lemma BitOfOfBits(b: Bits, i: nat)
    requires |b| == 64 && i < 64
    ensures Bit(OfBits(b), i) == b[i]
  {
    Turn();
    BF.ToNatBound(b);
    FromNatOfToNat(b);
    SameUint64(BF.ToNat(b));
    BitOfBitsOf(OfBits(b), i);
  }

  lemma SameUint64(n: nat)
    requires n < TWO_64
    ensures AsUint64(Low64(n)) == n
  {
    assert n % TWO_64 == n;
  }

  /** An int64 is known by its bits. */
  lemma BitsDecide(v: Int64, w: Int64)
    requires forall i: nat :: i < 64 ==> Bit(v, i) == Bit(w, i)
    ensures v == w
  {
    forall i: nat | i < 64 ensures BitsOf(v)[i] == BitsOf(w)[i] {
      BitOfBitsOf(v, i);
      BitOfBitsOf(w, i);
    }
    assert BitsOf(v) == BitsOf(w);
    Turn();
    BF.ToNatOfFromNat(AsUint64(v), 64);
    BF.ToNatOfFromNat(AsUint64(w), 64);
  }

  // ---------------------------------------------------------------- the evaluators' arithmetic keeps the laws

  lemma Low64Keeps(n: int)
    ensures SameLow64(Low64(n), n)
  {
    var m := n % TWO_64;
    if m >= 0x8000_0000_0000_0000 {
      assert (m - TWO_64) % TWO_64 == m;
    }
  }

  lemma QuotientTruncates(x: int, y: int)
    requires y != 0
    ensures TruncatedQuotient(x, y, Quotient(x, y))
  {
    var p, q := Abs(x), Abs(y);
    assert p == q * (p / q) + p % q;
  }

  lemma QuotientRange(x: Int64, y: Int64)
    requires y != 0
    ensures -0x8000_0000_0000_0000 <= Quotient(x, y) <= 0x8000_0000_0000_0000
    ensures Quotient(x, y) == 0x8000_0000_0000_0000 ==> x == -0x8000_0000_0000_0000 && y == -1
  {
    var p, q := Abs(x), Abs(y);
    SmallerQuotient(p, q);
  }

  lemma SmallerQuotient(p: nat, q: nat)
    requires q > 0
    ensures p / q <= p && (p > 0 && q > 1 ==> p / q < p)
  {
    assert p == q * (p / q) + p % q;
    TimesMore(q, p / q);
  }

  lemma Low64OfSmall(n: int)
    requires -0x8000_0000_0000_0000 <= n <= 0x8000_0000_0000_0000
    ensures Low64(n) == if n == 0x8000_0000_0000_0000 then -0x8000_0000_0000_0000 else n
  {
    if n < 0x8000_0000_0000_0000 { Low64OfInt64(n); }
  }

  lemma DivKeeps(x: Int64, y: Int64)
    ensures BinaryLaw(0x13, x, y, ApplyBinary(Div, x, y))
  {
    if y != 0 {
      QuotientTruncates(x, y);
      QuotientRange(x, y);
      Low64OfSmall(Quotient(x, y));
    }
  }

  lemma BitwiseKeeps(x: Int64, y: Int64)
    ensures BinaryLaw(0x14, x, y, ApplyBinary(And, x, y))
    ensures BinaryLaw(0x15, x, y, ApplyBinary(Or, x, y))
    ensures BinaryLaw(0x16, x, y, ApplyBinary(Xor, x, y))
  {
    var a, b := BitsOf(x), BitsOf(y);
    forall i: nat | i < 64
      ensures Bit(ApplyBinary(And, x, y), i) == (Bit(x, i) && Bit(y, i))
      ensures Bit(ApplyBinary(Or, x, y), i) == (Bit(x, i) || Bit(y, i))
      ensures Bit(ApplyBinary(Xor, x, y), i) == (Bit(x, i) != Bit(y, i))
    {
      BitOfBitsOf(x, i);
      BitOfBitsOf(y, i);
      BitOfOfBits(seq(64, j requires 0 <= j < 64 => a[j] && b[j]), i);
      BitOfOfBits(seq(64, j requires 0 <= j < 64 => a[j] || b[j]), i);
      BitOfOfBits(seq(64, j requires 0 <= j < 64 => a[j] != b[j]), i);
    }
  }

  lemma ShiftDown(x: Int64, p: int)
    requires p > 0
    ensures x / p * p <= x < (x / p + 1) * p
    ensures -0x8000_0000_0000_0000 <= x / p < 0x8000_0000_0000_0000
  {
    var q := x / p;
    assert x == p * q + x % p;
    assert q * p == p * q && (q + 1) * p == p * q + p;
    if q >= 0 {
      TimesMore(p, q);
    } else {
      TimesMore(p, -1 - q);
      assert p * (-1 - q) == 0 - p * q - p;
    }
  }

  lemma ShiftKeeps(x: Int64, y: Int64)
    ensures BinaryLaw(0x18, x, y, ApplyBinary(Shr, x, y))
  {
    if 0 <= y < 64 {
      ShiftDown(x, BF.TwoTo(y));
      Low64OfSmall(x / BF.TwoTo(y));
    }
  }

  lemma BinaryKeeps(op: Byte, x: Int64, y: Int64)
    requires 0x10 <= op <= 0x18
    ensures BinaryLaw(op, x, y, ApplyBinary(BinOpOf(op), x, y))
  {
    if op == 0x10 { Low64Keeps(x + y); }
    else if op == 0x11 { Low64Keeps(x - y); }
    else if op == 0x12 { Low64Keeps(x * y); }
    else if op == 0x13 { DivKeeps(x, y); }
    else if op <= 0x16 { BitwiseKeeps(x, y); }
    else if op == 0x17 { if 0 <= y < 64 { Low64Keeps(x * BF.TwoTo(y)); } }
    else { ShiftKeeps(x, y); }
  }

  // ---------------------------------------------------------------- the laws leave one result

  lemma SameLow64Decides(v: Int64, w: Int64, n: int)
    requires SameLow64(v, n) && SameLow64(w, n)
    ensures v == w
  {
    assert (v - w) % TWO_64 == 0;
  }

  lemma AtLeastOnce(y: int, k: int)
    requires y != 0 && k != 0
    ensures y * k >= Abs(y) || y * k <= -Abs(y)
  {
    var d, n := Abs(y), Abs(k);
    BF.TimesPositive(d, n);
    if y < 0 { Negated(d, k); }
  }

  lemma Negated(d: int, k: int)
    ensures (-d) * k == -(d * k)
  {
  }

  lemma SameSide(x: int, a: int, b: int, m: int)
    requires -m < x - a < m && (x - a == 0 || (x - a < 0 <==> x < 0))
    requires -m < x - b < m && (x - b == 0 || (x - b < 0 <==> x < 0))
    ensures -m < a - b < m
  {
  }

  lemma Distributes(v: int, w: int, y: int)
    ensures y * (v - w) == v * y - w * y
  {
  }

  lemma QuotientDecided(x: int, y: int, v: int, w: int)
    requires y != 0 && TruncatedQuotient(x, y, v) && TruncatedQuotient(x, y, w)
    ensures v == w
  {
    SameSide(x, v * y, w * y, Abs(y));
    Distributes(v, w, y);
    if v != w { AtLeastOnce(y, v - w); }
  }

  lemma ShiftDecided(x: int, p: int, v: int, w: int)
    requires p > 0 && v * p <= x < (v + 1) * p && w * p <= x < (w + 1) * p
    ensures v == w
  {
    BF.QuotientIs(x, p, v, x - v * p);
    BF.QuotientIs(x, p, w, x - w * p);
  }

  lemma BinaryDecided(op: Byte, x: Int64, y: Int64, v: Int64, w: Int64)
    requires BinaryLaw(op, x, y, v) && BinaryLaw(op, x, y, w)
    ensures v == w
  {
    if op == 0x10 { SameLow64Decides(v, w, x + y); }
    if op == 0x11 { SameLow64Decides(v, w, x - y); }
    if op == 0x12 { SameLow64Decides(v, w, x * y); }
    if op == 0x13 && y != 0 && !(x == -0x8000_0000_0000_0000 && y == -1) { QuotientDecided(x, y, v, w); }
    if 0x14 <= op <= 0x16 { BitsDecide(v, w); }
    if op == 0x17 && 0 <= y < 64 { SameLow64Decides(v, w, x * BF.TwoTo(y)); }
    if op == 0x18 && 0 <= y < 64 { ShiftDecided(x, BF.TwoTo(y), v, w); }
  }

  ghost function UnaryResult(op: Byte, x: Int64): Int64
    requires UnaryOpcode(op)
  {
    if op == 0x20 then Low64(0 - x) else if op == 0x21 then -1 - x else ApplyReloc(RelocOf(op), x)
  }

  lemma NotFlips(x: Int64, i: nat)
    ensures Bit(-1 - x, i) == !Bit(x, i)
  {
    var p := BF.TwoTo(i);
    assert x == p * (x / p) + x % p;
    assert p * (-1 - x / p) == 0 - p - p * (x / p);
    BF.QuotientIs(-1 - x, p, -1 - x / p, p - 1 - x % p);
  }

  lemma UnaryKeeps(op: Byte, x: Int64)
    requires UnaryOpcode(op)
    ensures UnaryLaw(op, x, UnaryResult(op, x))
  {
    if op == 0x20 { Low64Keeps(0 - x); }
    else if op == 0x21 { forall i: nat | i < 64 ensures Bit(-1 - x, i) == !Bit(x, i) { NotFlips(x, i); } }
    else { RelocKeeps(op, x); }
  }

  lemma RelocKeeps(op: Byte, x: Int64)
    requires 0x30 <= op <= 0x38
    ensures UnaryLaw(op, x, ApplyReloc(RelocOf(op), x))
  {
    if op == 0x31 { CutOut(x, 0x1000, 0x1000); }
    if op == 0x34 || op == 0x35 { CutOut(x, 0x1_0000, 0x1_0000); }
    if op == 0x36 || op == 0x37 { CutOut(x, 0x1_0000_0000, 0x1_0000); }
    if op == 0x38 { CutOut(x, 0x1_0000_0000_0000, 0x1_0000); }
  }

  lemma CutOut(x: int, a: int, b: int)
    requires a > 0 && b > 0
    ensures a * b > 0 && x % (a * b) == x % a + a * (x / a % b)
  {
    var q := x / a;
    BF.TimesPositive(a, b);
    LowPart(a, b, x % a, q % b);
    Regrouped(a, b, q / b, q % b);
    assert x == a * q + x % a && q == b * (q / b) + q % b;
    var r := x % a + a * (q % b);
    BF.QuotientIs(x, a * b, q / b, r);
    assert x == a * b * (x / (a * b)) + x % (a * b);
  }

  lemma LowPart(a: int, b: int, low: nat, d: nat)
    requires 0 < a && 0 < b && low < a && d < b
    ensures 0 <= low + a * d < a * b
  {
    BF.TimesAtLeast(a, d);
    BF.TimesAtLeast(a, b - 1 - d);
    assert a * (b - 1 - d) == a * b - a - a * d;
  }

  lemma Regrouped(a: int, b: int, k: int, d: int)
    ensures a * (b * k + d) == a * b * k + a * d
  {
  }

  lemma UnaryDecided(op: Byte, x: Int64, v: Int64, w: Int64)
    requires UnaryLaw(op, x, v) && UnaryLaw(op, x, w)
    ensures v == w
  {
    if op == 0x20 { SameLow64Decides(v, w, 0 - x); }
    if op == 0x21 { BitsDecide(v, w); }
  }

  // ---------------------------------------------------------------- what the evaluators compute

  /** An operator behind two expressions gives the one value its law allows. */
  lemma BinaryComputes(a: Buffer, b: Buffer, op: Byte, ctx: Context, x: Int64, y: Int64, v: Int64)
    requires 0x10 <= op <= 0x18
    requires Finish(Exec(a, ctx, [])) == Good(x) && Finish(Exec(b, ctx, [])) == Good(y)
    ensures Finish(Exec(a + b + [op], ctx, [])) == Good(v) <==> BinaryLaw(op, x, y, v)
  {
    var r := ApplyBinary(BinOpOf(op), x, y);
    BinaryComposes(a, b, op, ctx, x, y);
    BinaryKeeps(op, x, y);
    if BinaryLaw(op, x, y, v) { BinaryDecided(op, x, y, v, r); }
  }

  /** An opcode with one operand behind an expression. */
  lemma UnaryComputes(a: Buffer, op: Byte, ctx: Context, x: Int64, v: Int64)
    requires op == 0x20 || op == 0x21 || 0x30 <= op <= 0x38
    requires Finish(Exec(a, ctx, [])) == Good(x)
    ensures Finish(Exec(a + [op], ctx, [])) == Good(v) <==> UnaryLaw(op, x, v)
  {
    UnaryAlone(op, ctx, x);
    EvaluatesPushes(a, ctx, x, []);
    assert [] + [x] == [x];
    ExecAppend(a, [op], ctx, []);
    UnaryKeeps(op, x);
    if UnaryLaw(op, x, v) { UnaryDecided(op, x, v, UnaryResult(op, x)); }
  }

  lemma UnaryAlone(op: Byte, ctx: Context, x: Int64)
    requires UnaryOpcode(op)
    ensures Exec([op], ctx, [x]) == Good([UnaryResult(op, x)])
  {
    assert [op][1..] == [] && Below([x]) == [];
    assert Next([op]).Ok?;
    assert [] + [UnaryResult(op, x)] == [UnaryResult(op, x)];
    assert StepEval(Next([op]).value, ctx, [x]) == Good([UnaryResult(op, x)]);
    assert Exec([op], ctx, [x]) == Exec([], ctx, [UnaryResult(op, x)]);
  }

  lemma {:induction false} DependenceAppends(s: Buffer, tail: Buffer)
    requires !HasContextDep(s)
    ensures HasContextDep(s + tail) == HasContextDep(tail)
    decreases |s|
  {
    if s == [] {
      assert s + tail == tail;
    } else {
      NextIgnoresTail(s, tail);
      DependenceAppends(Next(s).rest, tail);
    }
  }

  ghost const NOWHERE := Context(0, _ => None, (_, _) => None)

  /** The constant evaluator obeys the same laws. */
  lemma BinaryFolds(a: Buffer, b: Buffer, op: Byte, x: Int64, y: Int64, v: Int64)
    requires 0x10 <= op <= 0x18
    requires FinishConst(ExecConst(a, [])) == Some(x) && FinishConst(ExecConst(b, [])) == Some(y)
    ensures FinishConst(ExecConst(a + b + [op], [])) == Some(v) <==> BinaryLaw(op, x, y, v)
  {
    EvalConstAgrees(a, NOWHERE, x);
    EvalConstAgrees(b, NOWHERE, y);
    DependenceAppends(a, b);
    DependenceAppends(a + b, [op]);
    OperatorAlone(op);
    EvalConstAgrees(a + b + [op], NOWHERE, v);
    BinaryComputes(a, b, op, NOWHERE, x, y, v);
  }

  lemma OperatorAlone(op: Byte)
    requires 0x10 <= op <= 0x18 || UnaryOpcode(op)
    ensures HasContextDep([op]) <==> 0x30 <= op <= 0x38
  {
    assert [op][1..] == [];
    assert Next([op]).Ok? && Next([op]).rest == [];
  }

  /** NEG and NOT of a constant; a relocation operator is never constant. */
  lemma UnaryFolds(a: Buffer, op: Byte, x: Int64, v: Int64)
    requires op == 0x20 || op == 0x21 || 0x30 <= op <= 0x38
    requires FinishConst(ExecConst(a, [])) == Some(x)
    ensures FinishConst(ExecConst(a + [op], [])) == Some(v) <==> op < 0x30 && UnaryLaw(op, x, v)
  {
    EvalConstAgrees(a, NOWHERE, x);
    DependenceAppends(a, [op]);
    OperatorAlone(op);
    EvalConstAgrees(a + [op], NOWHERE, v);
    UnaryComputes(a, op, NOWHERE, x, v);
  }

  lemma ImmediateFolds(x: Int64)
    ensures Finish(Exec(ImmBytes(x), NOWHERE, [])) == Good(x) && FinishConst(ExecConst(ImmBytes(x), [])) == Some(x)
  {
    ImmEvaluates(x, NOWHERE, []);
    assert [] + [x] == [x];
    ImmRoundTrip(x, []);
    assert ImmBytes(x) + [] == ImmBytes(x);
    EvalConstAgrees(ImmBytes(x), NOWHERE, x);
  }

  /** Two written immediates and an operator: both evaluators give the one value the law allows. */
  lemma ImmediatesCompute(x: Int64, y: Int64, op: Byte, ctx: Context, v: Int64)
    requires 0x10 <= op <= 0x18
    ensures var code := ImmBytes(x) + ImmBytes(y) + [op];
            (Finish(Exec(code, ctx, [])) == Good(v) <==> BinaryLaw(op, x, y, v))
            && (FinishConst(ExecConst(code, [])) == Some(v) <==> BinaryLaw(op, x, y, v))
  {
    ImmediateFolds(x);
    ImmediateFolds(y);
    BinaryFolds(ImmBytes(x), ImmBytes(y), op, x, y, v);
    ImmEvaluates(x, ctx, []);
    ImmEvaluates(y, ctx, []);
    assert [] + [x] == [x] && [] + [y] == [y];
    BinaryComputes(ImmBytes(x), ImmBytes(y), op, ctx, x, y, v);
  }

  /** The four half-words a chain of movz and movk needs make up the value. */
  lemma HalfWordsMakeTheValue(a: Buffer, ctx: Context, x: Int64, g0: Int64, g1: Int64, g2: Int64, g3: Int64)
    requires Finish(Exec(a, ctx, [])) == Good(x)
    requires Finish(Exec(a + [0x32], ctx, [])) == Good(g0) && Finish(Exec(a + [0x34], ctx, [])) == Good(g1)
    requires Finish(Exec(a + [0x36], ctx, [])) == Good(g2) && Finish(Exec(a + [0x38], ctx, [])) == Good(g3)
    ensures (g0 as int) + 0x1_0000 * (g1 as int) + 0x1_0000_0000 * (g2 as int)
            + 0x1_0000_0000_0000 * (g3 as int) == AsUint64(x)
    ensures 0 <= g0 < 0x1_0000 && 0 <= g1 < 0x1_0000 && 0 <= g2 < 0x1_0000 && 0 <= g3 < 0x1_0000
  {
    HalfWordsMake(x, g0, g1, g2, g3) by {
      UnaryComputes(a, 0x32, ctx, x, g0);
      UnaryComputes(a, 0x34, ctx, x, g1);
      UnaryComputes(a, 0x36, ctx, x, g2);
      UnaryComputes(a, 0x38, ctx, x, g3);
    }
  }

  /** The low parts of an address for adrp and add make up its low 24 bits. */
  lemma LowPartsMakeTheValue(a: Buffer, ctx: Context, x: Int64, lo: Int64, hi: Int64)
    requires Finish(Exec(a, ctx, [])) == Good(x)
    requires Finish(Exec(a + [0x30], ctx, [])) == Good(lo) && Finish(Exec(a + [0x31], ctx, [])) == Good(hi)
    ensures (lo as int) + 0x1000 * (hi as int) == x % 0x100_0000 && 0 <= lo < 0x1000 && 0 <= hi < 0x1000
  {
    LowPartsMake(x, lo, hi) by {
      UnaryComputes(a, 0x30, ctx, x, lo);
      UnaryComputes(a, 0x31, ctx, x, hi);
    }
  }

  /** The variants without overflow checks give the same half-words. */
  lemma UncheckedPartsAgree(a: Buffer, ctx: Context, x: Int64, op: Byte)
    requires Finish(Exec(a, ctx, [])) == Good(x) && op in {0x32, 0x34, 0x36}
    ensures Finish(Exec(a + [op], ctx, [])) == Finish(Exec(a + [op + 1], ctx, []))
  {
    UnaryKeeps(op, x);
    UnaryComputes(a, op, ctx, x, UnaryResult(op, x));
    UnaryComputes(a, op + 1, ctx, x, UnaryResult(op, x));
  }

  lemma HalfWordsMake(x: Int64, g0: Int64, g1: Int64, g2: Int64, g3: Int64)
    requires UnaryLaw(0x32, x, g0) && UnaryLaw(0x34, x, g1) && UnaryLaw(0x36, x, g2) && UnaryLaw(0x38, x, g3)
    ensures (g0 as int) + 0x1_0000 * (g1 as int) + 0x1_0000_0000 * (g2 as int)
            + 0x1_0000_0000_0000 * (g3 as int) == AsUint64(x)
    ensures 0 <= g0 < 0x1_0000 && 0 <= g1 < 0x1_0000 && 0 <= g2 < 0x1_0000 && 0 <= g3 < 0x1_0000
  {
    assert x % 0x1_0000_0000_0000_0000 == AsUint64(x);
    var r16, r32, r48 := x % 0x1_0000, x % 0x1_0000_0000, x % 0x1_0000_0000_0000;
    HalfWordsAddUp(r16, r32, r48, AsUint64(x), g1, g2, g3);
  }

  lemma LowPartsMake(x: Int64, lo: Int64, hi: Int64)
    requires UnaryLaw(0x30, x, lo) && UnaryLaw(0x31, x, hi)
    ensures (lo as int) + 0x1000 * (hi as int) == x % 0x100_0000 && 0 <= lo < 0x1000 && 0 <= hi < 0x1000
  {
    LowPartsAddUp(x % 0x1000, x % 0x100_0000, hi);
  }

  lemma HalfWordsAddUp(r16: nat, r32: nat, r48: nat, r64: nat, g1: int, g2: int, g3: int)
    requires r16 < 0x1_0000 && r32 < 0x1_0000_0000 && r48 < 0x1_0000_0000_0000 && r64 < TWO_64
    requires r32 == r16 + 0x1_0000 * g1 && r48 == r32 + 0x1_0000_0000 * g2 && r64 == r48 + 0x1_0000_0000_0000 * g3
    ensures r16 + 0x1_0000 * g1 + 0x1_0000_0000 * g2 + 0x1_0000_0000_0000 * g3 == r64
    ensures 0 <= g1 < 0x1_0000 && 0 <= g2 < 0x1_0000 && 0 <= g3 < 0x1_0000
  {
  }

  lemma LowPartsAddUp(r12: nat, r24: nat, hi: int)
    requires r12 < 0x1000 && r24 < 0x100_0000 && r24 == r12 + 0x1000 * hi
    ensures 0 <= hi < 0x1000
  {
  }

  // ---------------------------------------------------------------- what the leaves are

  /** The immediates: little-endian and signed, in 1, 2, 4 or 8 bytes behind the opcodes 1 to 4. */
  lemma ReadsImmediate(s: Buffer, n: nat, v: Int64)
    requires s != [] && (s[0], n) in {(1, 1), (2, 2), (3, 4), (4, 8)}
    ensures Next(s).Ok? <==> |s| > n
    ensures |s| > n ==>
              (Next(s) == Ok(PushImm(v), s[1 + n..]) <==>
               v % BF.TwoTo(8 * n) == Little(s[1..1 + n])
               && -BF.TwoTo(8 * n - 1) <= v < BF.TwoTo(8 * n - 1))
  {
    if |s| > n {
      ImmediateOf(s[0], s[1..1 + n], v);
    }
  }

  lemma ImmediateOf(op: Byte, operand: Buffer, v: Int64)
    requires (op, |operand|) in {(1, 1), (2, 2), (3, 4), (4, 8)}
    ensures var n := |operand|;
            InstrOf(op, operand) == PushImm(v) <==>
            v % BF.TwoTo(8 * n) == Little(operand) && -BF.TwoTo(8 * n - 1) <= v < BF.TwoTo(8 * n - 1)
  {
    assert operand[..|operand|] == operand;
    NarrowTypes();
    if op == 1 {
      LittleStep(operand, 1);
      SignedIs(operand[0], 8, v);
    } else if op == 2 {
      U16IsLittle(operand);
      SignedIs(GetU16(operand), 16, v);
    } else if op == 3 {
      U32IsLittle(operand);
      SignedIs(GetU32(operand), 32, v);
    } else {
      U64IsLittle(operand);
      SignedIs(GetU64(operand), 64, v);
    }
  }

  lemma NarrowTypes()
    ensures BF.TwoTo(8) == 256 && BF.TwoTo(16) == 0x1_0000 && BF.TwoTo(32) == 0x1_0000_0000 && BF.TwoTo(64) == TWO_64
  {
    BF.Powers();
    assert BF.TwoTo(28) == 0x1000_0000;
    assert BF.TwoTo(30) == 0x4000_0000;
    Turn();
  }

  lemma SignedIs(u: nat, bits: nat, v: Int64)
    requires bits in {8, 16, 32, 64} && u < BF.TwoTo(bits)
    ensures Signed(u, BF.TwoTo(bits)) == v <==>
            v % BF.TwoTo(bits) == u && -BF.TwoTo(bits - 1) <= v < BF.TwoTo(bits - 1)
  {
    var p := BF.TwoTo(bits);
    if -BF.TwoTo(bits - 1) <= v < 0 { BF.ModAdd(v, p); }
    if 0 <= v < BF.TwoTo(bits - 1) { BF.ModSmall(v, p); }
    if v == Signed(u, p) && v < 0 { BF.ModAdd(v, p); }
  }

  lemma U64IsLittle(s: Buffer)
    requires |s| >= 8
    ensures GetU64(s) == Little(s[..8])
  {
    LittleStep(s, 8);
    LittleStep(s[1..], 7);
    LittleStep(s[2..], 6);
    LittleStep(s[3..], 5);
    assert s[1..][1..] == s[2..] && s[2..][1..] == s[3..] && s[3..][1..] == s[4..];
    U32IsLittle(s[4..]);
    assert s[2..][0] == s[2] && s[2..][1] == s[3] && s[1..][0] == s[1];
  }

  /** All other instructions, and what is no instruction. */
  lemma ReadsOther(s: Buffer)
    requires s == [] || s[0] !in {1, 2, 3, 4}
    ensures s != [] && s[0] == 0x05 && |s| >= 3 ==> Next(s) == Ok(PushSym(Little(s[1..3])), s[3..])
    ensures s != [] && s[0] == 0x06 && |s| >= 3 ==> Next(s) == Ok(PushLocal(s[1], s[2]), s[3..])
    ensures s != [] && s[0] == 0x07 ==> Next(s) == Ok(PushPC, s[1..])
    ensures Next(s).Ok? <==>
            s != [] && if s[0] == 0x05 || s[0] == 0x06 then |s| >= 3
                       else s[0] == 0x07 || 0x10 <= s[0] <= 0x18 || s[0] == 0x20 || s[0] == 0x21 || 0x30 <= s[0] <= 0x38
    ensures Next(s).Ok? && s[0] > 7 ==> Next(s).rest == s[1..]
  {
    if s != [] && (s[0] == 0x05 || s[0] == 0x06) && |s| >= 3 {
      assert s[1..3][0] == s[1] && s[1..3][1] == s[2] && s[1..3][..2] == s[1..3];
      U16IsLittle(s[1..3]);
    }
  }

  /** Symbols, local labels and the program counter come from the context. */
  lemma LeavesComeFromContext(ctx: Context, lo: Byte, hi: Byte)
    ensures Finish(Exec([0x05, lo, hi], ctx, [])) ==
            (var v := ctx.symbol(lo + 256 * hi); if v.Some? then Good(v.value) else Error)
    ensures Finish(Exec([0x06, lo, hi], ctx, [])) ==
            (var v := ctx.local(lo, hi); if v.Some? then Good(v.value) else Error)
    ensures Finish(Exec([0x07], ctx, [])) == Good(ctx.pc)
  {
    ReadsOther([0x05, lo, hi]);
    ReadsOther([0x06, lo, hi]);
    ReadsOther([0x07]);
    assert [0x05, lo, hi][1..3] == [lo, hi] && [0x05, lo, hi][3..] == [] && [0x06, lo, hi][3..] == [];
    LittleStep([lo, hi], 2);
    LittleStep([hi], 1);
    assert [lo, hi][..2] == [lo, hi] && [lo, hi][1..] == [hi] && [hi][1..][..0] == [] && [0x07][1..] == [];
  }

  /** The writer's bytes: opcode 1, 2, 3 or 4 by the range of the value, then byte k of the value for k = 0, 1, .. */
  lemma ImmediateBytes(v: Int64)
    ensures var b := ImmBytes(v);
            (|b|, b[0]) == (if -128 <= v < 128 then (2, 1)
                            else if -0x8000 <= v < 0x8000 then (3, 2)
                            else if -0x8000_0000 <= v < 0x8000_0000 then (5, 3)
                            else (9, 4))
            && forall k: nat :: k < |b| - 1 ==> b[1 + k] == v / BF.TwoTo(8 * k) % 256
  {
    var b := ImmBytes(v);
    forall k: nat | k < |b| - 1 ensures b[1 + k] == v / BF.TwoTo(8 * k) % 256 {
      LowByteAt(v, |b| - 1, k);
    }
  }

  lemma {:induction false} LowByteAt(v: int, n: nat, k: nat)
    requires k < n
    ensures LowBytes(v, n)[k] == v / BF.TwoTo(8 * k) % 256
    decreases k
  {
    if k > 0 {
      LowByteAt(v / 256, n - 1, k - 1);
      ByteDown(v, k);
    }
  }

  lemma ByteDown(v: int, k: nat)
    requires k > 0
    ensures v / 256 / BF.TwoTo(8 * (k - 1)) == v / BF.TwoTo(8 * k)
  {
    ShiftBy(v, 8, 8 * (k - 1));
    BF.Powers();
  }

  lemma {:induction false} ShiftBy(v: int, m: nat, n: nat)
    ensures v / BF.TwoTo(m) / BF.TwoTo(n) == v / BF.TwoTo(m + n)
    decreases m
  {
    if m > 0 {
      BF.HalfOfQuotient(v, BF.TwoTo(m - 1));
      ShiftBy(v / 2, m - 1, n);
      BF.HalfOfQuotient(v, BF.TwoTo(m - 1 + n));
    }
  }
}
