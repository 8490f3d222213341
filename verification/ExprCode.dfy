/** Expression bytecode (tools/sam-aarch64-format/expr.go, tools/aarch64enc/expr.go, litinsts.go): a stack machine
    with two evaluators, a writer, and the test for dependence on the context. */
module ExprCode {
  import opened Bytes
  import opened Common
  import BF = BitFields

  datatype BinOp = Add | Sub | Mul | Div | And | Or | Xor | Shl | Shr

  datatype Reloc = Lo12 | Hi12 | G0 | G0NC | G1 | G1NC | G2 | G2NC | G3

  datatype Instr =
    | PushImm(v: Int64)
    | PushSym(id: nat)
    | PushLocal(digit: Byte, dir: Byte)
    | PushPC
    | Binary(op: BinOp)
    | Neg | Not
    | Rel(r: Reloc)

  // ---------------------------------------------------------------- reading

  const OP_PUSH_IMM8: Byte := 0x01
  const OP_PUSH_IMM16: Byte := 0x02
  const OP_PUSH_IMM32: Byte := 0x03
  const OP_PUSH_IMM64: Byte := 0x04
  const OP_PUSH_SYM: Byte := 0x05
  const OP_PUSH_LOCAL: Byte := 0x06
  const OP_PUSH_PC: Byte := 0x07
  const OP_NEG: Byte := 0x20
  const OP_NOT: Byte := 0x21

  /** The inline operand's size, or -1 for an unknown opcode. */
  function OperandWidth(op: Byte): int {
    if op == OP_PUSH_IMM8 then 1
    else if op == OP_PUSH_IMM16 || op == OP_PUSH_SYM || op == OP_PUSH_LOCAL then 2
    else if op == OP_PUSH_IMM32 then 4
    else if op == OP_PUSH_IMM64 then 8
    else if op == OP_PUSH_PC || 0x10 <= op <= 0x18 || op == OP_NEG || op == OP_NOT || 0x30 <= op <= 0x38 then 0
    else -1
  }

  function BinOpOf(op: Byte): BinOp
    requires 0x10 <= op <= 0x18
  {
    match op - 0x10
    case 0 => Add
    case 1 => Sub
    case 2 => Mul
    case 3 => Div
    case 4 => And
    case 5 => Or
    case 6 => Xor
    case 7 => Shl
    case _ => Shr
  }

  function RelocOf(op: Byte): Reloc
    requires 0x30 <= op <= 0x38
  {
    match op - 0x30
    case 0 => Lo12
    case 1 => Hi12
    case 2 => G0
    case 3 => G0NC
    case 4 => G1
    case 5 => G1NC
    case 6 => G2
    case 7 => G2NC
    case _ => G3
  }

  /** int64(int8(x)), int64(int16(x)), int64(int32(x)) and int64(x), by the number of values of the narrow type. */
  function Signed(n: nat, values: nat): int
    requires n < values
  {
    if 2 * n >= values then n - values else n
  }

  function GetU64(s: Buffer): (n: nat)
    requires |s| >= 8
    ensures n < TWO_64
  {
    GetU32(s) + 0x1_0000_0000 * GetU32(s[4..])
  }

  /** The instruction with this opcode and operand. */
  function InstrOf(op: Byte, operand: Buffer): Instr
    requires OperandWidth(op) == |operand|
  {
    if op == OP_PUSH_IMM8 then PushImm(Signed(operand[0], 256))
    else if op == OP_PUSH_IMM16 then PushImm(Signed(GetU16(operand), 0x1_0000))
    else if op == OP_PUSH_IMM32 then PushImm(Signed(GetU32(operand), 0x1_0000_0000))
    else if op == OP_PUSH_IMM64 then PushImm(AsInt64(GetU64(operand)))
    else if op == OP_PUSH_SYM then PushSym(GetU16(operand))
    else if op == OP_PUSH_LOCAL then PushLocal(operand[0], operand[1])
    else if op == OP_PUSH_PC then PushPC
    else if op <= 0x18 then Binary(BinOpOf(op))
    else if op == OP_NEG then Neg
    else if op == OP_NOT then Not
    else Rel(RelocOf(op))
  }

  /** The instruction at the front of a stream. */
  function Next(s: Buffer): (r: Parsed<Instr>)
    ensures r.Ok? ==> |r.rest| < |s|
    ensures !r.Panic?
  {
    if s == [] then Err
    else
      var width := OperandWidth(s[0]);
      if width < 0 || |s| < 1 + width then Err
      else Ok(InstrOf(s[0], s[1..1 + width]), s[1 + width..])
  }

  class ExprReader {
    const buf: Buffer
    var pos: nat

    constructor (buf: Buffer)
      ensures this.buf == buf && pos == 0
    {
      this.buf := buf;
      pos := 0;
    }

    predicate AtEnd()
      reads this
    {
      pos >= |buf|
    }

    method NextInstr() returns (r: Parsed<Instr>)
      requires pos <= |buf|
      modifies this`pos
      ensures pos <= |buf| && r == Next(buf[old(pos)..])
      ensures r.Ok? ==> old(pos) < pos && r.rest == buf[pos..]
    {
      if pos >= |buf| { return Err; }
      ghost var s := buf[pos..];
      var op := buf[pos];
      pos := pos + 1;
      var width := OperandWidth(op);
      if width < 0 { return Err; }
      if pos + width > |buf| { return Err; }
      var operand := buf[pos..pos + width];
      assert operand == s[1..1 + width];
      pos := pos + width;
      assert s[1 + width..] == buf[pos..];
      return Ok(InstrOf(op, operand), buf[pos..]);
    }
  }

  // ---------------------------------------------------------------- arithmetic

  /** The low 64 bits of a number, as an int64. */
  function Low64(x: int): Int64 {
    AsInt64(x % TWO_64)
  }

  function BitsOf(x: Int64): (b: seq<bool>)
    ensures |b| == 64
  {
    BF.FromNat(AsUint64(x), 64)
  }

  function OfBits(b: seq<bool>): Int64 {
    Low64(BF.ToNat(b))
  }

  /** Go's division truncates toward zero. */
  function Quotient(a: int, b: int): int
    requires b != 0
  {
    var q := (if a < 0 then 0 - a else a) / (if b < 0 then 0 - b else b);
    if (a < 0) == (b < 0) then q else 0 - q
  }

  /** applyBinary, and applyBinaryEval, which has the same cases. A shift count is taken as a uint64. */
  function ApplyBinary(op: BinOp, a: Int64, b: Int64): Int64 {
    match op
    case Add => Low64(a + b)
    case Sub => Low64(a - b)
    case Mul => Low64(a * b)
    case Div => if b == 0 then 0 else Low64(Quotient(a, b))
    case And => OfBits(seq(64, i requires 0 <= i < 64 => BitsOf(a)[i] && BitsOf(b)[i]))
    case Or => OfBits(seq(64, i requires 0 <= i < 64 => BitsOf(a)[i] || BitsOf(b)[i]))
    case Xor => OfBits(seq(64, i requires 0 <= i < 64 => BitsOf(a)[i] != BitsOf(b)[i]))
    case Shl => if 0 <= b < 64 then Low64(a * BF.TwoTo(b)) else 0
    case Shr => if 0 <= b < 64 then Low64(a / BF.TwoTo(b)) else if a < 0 then -1 else 0
  }

  function ApplyReloc(r: Reloc, x: Int64): Int64 {
    match r
    case Lo12 => x % 0x1000
    case Hi12 => x / 0x1000 % 0x1000
    case G0 => x % 0x1_0000
    case G0NC => x % 0x1_0000
    case G1 => x / 0x1_0000 % 0x1_0000
    case G1NC => x / 0x1_0000 % 0x1_0000
    case G2 => x / 0x1_0000_0000 % 0x1_0000
    case G2NC => x / 0x1_0000_0000 % 0x1_0000
    case G3 => x / 0x1_0000_0000_0000 % 0x1_0000
  }

  // ---------------------------------------------------------------- the evaluator with context

  /** A missing resolver resolves nothing. */
  datatype Context = Context(pc: Int64, symbol: nat -> Option<Int64>, local: (Byte, Byte) -> Option<Int64>)

  datatype Outcome<T> = Good(value: T) | Error | Panics

  type Stack = seq<Int64>

  function Top(stack: Stack): Int64
    requires stack != []
  {
    stack[|stack| - 1]
  }

  function Below(stack: Stack): Stack
    requires stack != []
  {
    stack[..|stack| - 1]
  }

  /** A unary instruction indexes the stack without looking whether it is empty. */
  function StepEval(i: Instr, ctx: Context, stack: Stack): Outcome<Stack> {
    match i
    case PushImm(v) => Good(stack + [v])
    case PushSym(id) => if ctx.symbol(id).None? then Error else Good(stack + [ctx.symbol(id).value])
    case PushLocal(digit, dir) => if ctx.local(digit, dir).None? then Error
      else Good(stack + [ctx.local(digit, dir).value])
    case PushPC => Good(stack + [ctx.pc])
    case Binary(op) =>
      if |stack| < 2 then Error
      else Good(Below(Below(stack)) + [ApplyBinary(op, Top(Below(stack)), Top(stack))])
    case Neg => if stack == [] then Panics else Good(Below(stack) + [Low64(0 - Top(stack))])
    case Not => if stack == [] then Panics else Good(Below(stack) + [-1 - Top(stack)])
    case Rel(r) => if stack == [] then Panics else Good(Below(stack) + [ApplyReloc(r, Top(stack))])
  }

  /** The stack a stream leaves. */
  function Exec(s: Buffer, ctx: Context, stack: Stack): Outcome<Stack>
    decreases |s|
  {
    if s == [] then Good(stack)
    else
      match Next(s)
      case Err => Error
      case Panic => Error
      case Ok(i, rest) =>
        match StepEval(i, ctx, stack)
        case Good(next) => Exec(rest, ctx, next)
        case other => other
  }

  function Finish(r: Outcome<Stack>): Outcome<Int64> {
    match r
    case Good(stack) => if |stack| == 1 then Good(stack[0]) else Error
    case Error => Error
    case Panics => Panics
  }

  method Eval(buf: Buffer, ctx: Context) returns (r: Outcome<Int64>)
    ensures r == Finish(Exec(buf, ctx, []))
    ensures r.Panics? <==> buf != [] && UnaryOpcode(buf[0])
  {
    PanicsExactly(buf, ctx);
    var reader := new ExprReader(buf);
    var stack: Stack := [];
    assert buf[0..] == buf;
    while !reader.AtEnd()
      invariant reader.buf == buf && reader.pos <= |buf|
      invariant Exec(buf, ctx, []) == Exec(buf[reader.pos..], ctx, stack)
      decreases |buf| - reader.pos
    {
      var i := reader.NextInstr();
      if !i.Ok? { return Error; }
      var next := StepEval(i.value, ctx, stack);
      match next {
        case Error => return Error;
        case Panics => return Panics;
        case Good(after) => stack := after;
      }
    }
    return if |stack| != 1 then Error else Good(stack[0]);
  }

  // ---------------------------------------------------------------- the constant evaluator

  predicate ContextDependent(i: Instr) {
    i.PushSym? || i.PushLocal? || i.PushPC? || i.Rel?
  }

  /** EvalConst looks before it indexes the stack. */
  function StepConst(i: Instr, stack: Stack): Option<Stack> {
    match i
    case PushImm(v) => Some(stack + [v])
    case Binary(op) =>
      if |stack| < 2 then None
      else Some(Below(Below(stack)) + [ApplyBinary(op, Top(Below(stack)), Top(stack))])
    case Neg => if |stack| < 1 then None else Some(Below(stack) + [Low64(0 - Top(stack))])
    case Not => if |stack| < 1 then None else Some(Below(stack) + [-1 - Top(stack)])
    case _ => None
  }

  function ExecConst(s: Buffer, stack: Stack): Option<Stack>
    decreases |s|
  {
    if s == [] then Some(stack)
    else
      match Next(s)
      case Err => None
      case Panic => None
      case Ok(i, rest) =>
        match StepConst(i, stack)
        case None => None
        case Some(next) => ExecConst(rest, next)
  }

  function FinishConst(r: Option<Stack>): Option<Int64> {
    if r.Some? && |r.value| == 1 then Some(r.value[0]) else None
  }

  method EvalConst(buf: Buffer) returns (r: Option<Int64>)
    ensures r == FinishConst(ExecConst(buf, []))
  {
    var reader := new ExprReader(buf);
    var stack: Stack := [];
    assert buf[0..] == buf;
    while !reader.AtEnd()
      invariant reader.buf == buf && reader.pos <= |buf|
      invariant ExecConst(buf, []) == ExecConst(buf[reader.pos..], stack)
      decreases |buf| - reader.pos
    {
      var i := reader.NextInstr();
      if !i.Ok? { return None; }
      var next := StepConst(i.value, stack);
      if next.None? { return None; }
      stack := next.value;
    }
    return if |stack| != 1 then None else Some(stack[0]);
  }

  /** A stream with a context-dependent instruction, or a malformed one. */
  function HasContextDep(s: Buffer): bool
    decreases |s|
  {
    if s == [] then false
    else
      match Next(s)
      case Err => true
      case Panic => true
      case Ok(i, rest) => ContextDependent(i) || HasContextDep(rest)
  }

  method ExprHasContextDep(buf: Buffer) returns (r: bool)
    ensures r == HasContextDep(buf)
  {
    var reader := new ExprReader(buf);
    assert buf[0..] == buf;
    while !reader.AtEnd()
      invariant reader.buf == buf && reader.pos <= |buf|
      invariant HasContextDep(buf) == HasContextDep(buf[reader.pos..])
      decreases |buf| - reader.pos
    {
      var i := reader.NextInstr();
      if !i.Ok? { return true; }
      if ContextDependent(i.value) { return true; }
    }
    return false;
  }

  // ---------------------------------------------------------------- streams compose

  /** An instruction works the same above any deeper stack, if it works at all. */
  lemma StepAbove(i: Instr, ctx: Context, deep: Stack, stack: Stack)
    requires StepEval(i, ctx, stack).Good?
    ensures StepEval(i, ctx, deep + stack) == Good(deep + StepEval(i, ctx, stack).value)
  {
    var all := deep + stack;
    if stack != [] {
      assert Top(all) == Top(stack) && Below(all) == deep + Below(stack);
      if |stack| >= 2 {
        assert Top(Below(all)) == Top(Below(stack)) && Below(Below(all)) == deep + Below(Below(stack));
      }
    }
    var after := StepEval(i, ctx, stack).value;
    match i
    case PushImm(v) => assert all + [v] == deep + (stack + [v]);
    case PushSym(id) => assert all + [ctx.symbol(id).value] == deep + after;
    case PushLocal(digit, dir) => assert all + [ctx.local(digit, dir).value] == deep + after;
    case PushPC => assert all + [ctx.pc] == deep + after;
    case Binary(op) => assert Below(Below(all)) + [Top(after)] == deep + after;
    case _ => assert Below(all) + [Top(after)] == deep + after;
  }

  /** What a stream does to its own stack it does above any deeper stack. */
  lemma {:induction false} ExecAbove(s: Buffer, ctx: Context, deep: Stack, stack: Stack)
    requires Exec(s, ctx, stack).Good?
    ensures Exec(s, ctx, deep + stack) == Good(deep + Exec(s, ctx, stack).value)
    decreases |s|
  {
    if s != [] {
      var i := Next(s);
      StepAbove(i.value, ctx, deep, stack);
      ExecAbove(i.rest, ctx, deep, StepEval(i.value, ctx, stack).value);
    }
  }

  lemma NextIgnoresTail(s: Buffer, tail: Buffer)
    requires Next(s).Ok?
    ensures Next(s + tail) == Ok(Next(s).value, Next(s).rest + tail)
  {
    var width := OperandWidth(s[0]);
    assert (s + tail)[1..1 + width] == s[1..1 + width];
    assert (s + tail)[1 + width..] == s[1 + width..] + tail;
  }

  /** Running one stream and then another is running them joined. */
  lemma {:induction false} ExecAppend(s: Buffer, tail: Buffer, ctx: Context, stack: Stack)
    requires Exec(s, ctx, stack).Good?
    ensures Exec(s + tail, ctx, stack) == Exec(tail, ctx, Exec(s, ctx, stack).value)
    decreases |s|
  {
    if s == [] {
      assert s + tail == tail;
    } else {
      var i := Next(s);
      NextIgnoresTail(s, tail);
      ExecAppend(i.rest, tail, ctx, StepEval(i.value, ctx, stack).value);
    }
  }

  /** A stream that evaluates to v pushes exactly v, wherever it stands. */
  lemma EvaluatesPushes(s: Buffer, ctx: Context, v: Int64, stack: Stack)
    requires Finish(Exec(s, ctx, [])) == Good(v)
    ensures Exec(s, ctx, stack) == Good(stack + [v])
  {
    var own := Exec(s, ctx, []);
    assert own.value == [v];
    ExecAbove(s, ctx, stack, []);
    assert stack + [] == stack;
  }

  lemma BinaryAlone(op: Byte, ctx: Context, x: Int64, y: Int64)
    requires 0x10 <= op <= 0x18
    ensures Exec([op], ctx, [x, y]) == Good([ApplyBinary(BinOpOf(op), x, y)])
  {
    var i := Binary(BinOpOf(op));
    assert [op][1..] == [];
    assert Next([op]) == Ok(i, []);
    var next := StepEval(i, ctx, [x, y]);
    assert Below([x, y]) == [x] && Below(Below([x, y])) == [];
    assert next.value == [ApplyBinary(BinOpOf(op), x, y)];
    assert Exec([op], ctx, [x, y]) == Exec([], ctx, next.value);
  }

  /** Sub-expressions written one after the other, and an operator behind them, compose. */
  lemma BinaryComposes(a: Buffer, b: Buffer, op: Byte, ctx: Context, x: Int64, y: Int64)
    requires 0x10 <= op <= 0x18
    requires Finish(Exec(a, ctx, [])) == Good(x) && Finish(Exec(b, ctx, [])) == Good(y)
    ensures Finish(Exec(a + b + [op], ctx, [])) == Good(ApplyBinary(BinOpOf(op), x, y))
  {
    EvaluatesPushes(a, ctx, x, []);
    EvaluatesPushes(b, ctx, y, [x]);
    assert [] + [x] == [x] && [x] + [y] == [x, y];
    ExecAppend(a, b, ctx, []);
    ExecAppend(a + b, [op], ctx, []);
    BinaryAlone(op, ctx, x, y);
  }

  // ---------------------------------------------------------------- context

  lemma StepsAgree(i: Instr, ctx: Context, stack: Stack)
    requires !ContextDependent(i)
    ensures StepConst(i, stack) == (if StepEval(i, ctx, stack).Good? then Some(StepEval(i, ctx, stack).value) else None)
  {
  }

  /** Without context-dependent instructions the two evaluators go through the same stacks. */
  lemma {:induction false} ExecsAgree(s: Buffer, ctx: Context, stack: Stack)
    requires !HasContextDep(s)
    ensures ExecConst(s, stack) == (if Exec(s, ctx, stack).Good? then Some(Exec(s, ctx, stack).value) else None)
    decreases |s|
  {
    if s != [] {
      var i := Next(s);
      StepsAgree(i.value, ctx, stack);
      var next := StepEval(i.value, ctx, stack);
      if next.Good? {
        ExecsAgree(i.rest, ctx, next.value);
      }
    }
  }

  /** A stream without dependence on the context evaluates alike in every context, errors and panics included. */
  lemma {:induction false} ContextFree(s: Buffer, ctx: Context, other: Context, stack: Stack)
    requires !HasContextDep(s)
    ensures Exec(s, ctx, stack) == Exec(s, other, stack)
    decreases |s|
  {
    if s != [] {
      var i := Next(s);
      assert StepEval(i.value, ctx, stack) == StepEval(i.value, other, stack);
      var next := StepEval(i.value, ctx, stack);
      if next.Good? {
        ContextFree(i.rest, ctx, other, next.value);
      }
    }
  }

  /** EvalConst succeeds exactly on the streams without dependence on the context that Eval gives that value. */
  lemma EvalConstAgrees(s: Buffer, ctx: Context, v: Int64)
    ensures FinishConst(ExecConst(s, [])) == Some(v) <==> !HasContextDep(s) && Finish(Exec(s, ctx, [])) == Good(v)
  {
    if HasContextDep(s) {
      DependentIsNotConst(s, []);
    } else {
      ExecsAgree(s, ctx, []);
    }
  }

  lemma {:induction false} DependentIsNotConst(s: Buffer, stack: Stack)
    requires HasContextDep(s)
    ensures ExecConst(s, stack).None?
    decreases |s|
  {
    var i := Next(s);
    if i.Ok? && !ContextDependent(i.value) && StepConst(i.value, stack).Some? {
      DependentIsNotConst(i.rest, StepConst(i.value, stack).value);
    }
  }

  /** NEG, NOT and the relocation operators, which take one operand off the stack. */
  predicate UnaryOpcode(op: Byte) {
    op == OP_NEG || op == OP_NOT || 0x30 <= op <= 0x38
  }

  /** Once something is on the stack there always will be, so no unary instruction finds it empty. */
  lemma {:induction false} NeverPanicsAbove(s: Buffer, ctx: Context, stack: Stack)
    requires stack != []
    ensures !Exec(s, ctx, stack).Panics?
    decreases |s|
  {
    if s != [] && Next(s).Ok? {
      var next := StepEval(Next(s).value, ctx, stack);
      if next.Good? {
        NeverPanicsAbove(Next(s).rest, ctx, next.value);
      }
    }
  }

  /** Eval panics exactly on the streams that begin with a unary operator, whatever follows and in every context. */
  lemma PanicsExactly(s: Buffer, ctx: Context)
    ensures Finish(Exec(s, ctx, [])).Panics? <==> s != [] && UnaryOpcode(s[0])
  {
    if s != [] && Next(s).Ok? {
      var next := StepEval(Next(s).value, ctx, []);
      if next.Good? {
        NeverPanicsAbove(Next(s).rest, ctx, next.value);
      }
    }
  }

  /**
   * On streams without dependence on the context the two evaluators give the same value or both fail; where
   * EvalConst reports no constant, Eval reports an error, or panics if the first byte is NEG or NOT.
   */
  lemma FailuresAgree(s: Buffer, ctx: Context)
    requires !HasContextDep(s)
    ensures Finish(Exec(s, ctx, []))
            == match FinishConst(ExecConst(s, []))
               case Some(v) => Good(v)
               case None => if s != [] && (s[0] == OP_NEG || s[0] == OP_NOT) then Panics else Error
  {
    PanicsExactly(s, ctx);
    match Finish(Exec(s, ctx, []))
    case Good(v) => EvalConstAgrees(s, ctx, v);
    case _ =>
      match FinishConst(ExecConst(s, []))
      case Some(v) => EvalConstAgrees(s, ctx, v);
      case None =>
  }

  /** The single byte NEG: EvalConst says no, Eval panics. */
  lemma LoneNegPanics(ctx: Context)
    ensures FinishConst(ExecConst([OP_NEG], [])).None? && Finish(Exec([OP_NEG], ctx, [])).Panics?
  {
    assert Next([OP_NEG]) == Ok(Neg, []) by { assert [OP_NEG][1..] == []; }
  }

  // ---------------------------------------------------------------- writing

  /** byte(v >> 8*k) for k = 0 .. n - 1 */
  function LowBytes(v: int, n: nat): (b: Buffer)
    ensures |b| == n
    decreases n
  {
    if n == 0 then [] else [v % 256] + LowBytes(v / 256, n - 1)
  }

  /** WriteImm: the shortest PUSH_IMMn that fits. */
  function ImmBytes(v: Int64): Buffer {
    if -128 <= v <= 127 then [OP_PUSH_IMM8] + LowBytes(v, 1)
    else if -32768 <= v <= 32767 then [OP_PUSH_IMM16] + LowBytes(v, 2)
    else if -0x8000_0000 <= v <= 0x7FFF_FFFF then [OP_PUSH_IMM32] + LowBytes(v, 4)
    else [OP_PUSH_IMM64] + LowBytes(v, 8)
  }

  class ExprWriter {
    var buf: Buffer

    constructor ()
      ensures buf == []
    {
      buf := [];
    }

    method AppendRaw(b: Buffer)
      modifies this
      ensures buf == old(buf) + b
    {
      buf := buf + b;
    }

    method WriteImm(v: Int64)
      modifies this
      ensures buf == old(buf) + ImmBytes(v)
    {
      if -128 <= v <= 127 {
        buf := buf + ([OP_PUSH_IMM8] + LowBytes(v, 1));
      } else if -32768 <= v <= 32767 {
        buf := buf + ([OP_PUSH_IMM16] + LowBytes(v, 2));
      } else if -0x8000_0000 <= v <= 0x7FFF_FFFF {
        buf := buf + ([OP_PUSH_IMM32] + LowBytes(v, 4));
      } else {
        buf := buf + ([OP_PUSH_IMM64] + LowBytes(v, 8));
      }
    }
  }

  lemma JoinBytes(v: int)
    ensures v % 256 + 256 * (v / 256 % 256) == v % 0x1_0000
    ensures v / 256 / 256 == v / 0x1_0000
  {
  }

  lemma JoinHalfWords(v: int)
    ensures v % 0x1_0000 + 0x1_0000 * (v / 0x1_0000 % 0x1_0000) == v % 0x1_0000_0000
    ensures v / 0x1_0000 / 0x1_0000 == v / 0x1_0000_0000
  {
  }

  lemma JoinWords(v: int)
    ensures v % 0x1_0000_0000 + 0x1_0000_0000 * (v / 0x1_0000_0000 % 0x1_0000_0000) == v % TWO_64
  {
  }

  lemma LowBytes2(v: int)
    ensures GetU16(LowBytes(v, 2)) == v % 0x1_0000
  {
    assert LowBytes(v, 2) == [v % 256] + LowBytes(v / 256, 1);
    assert LowBytes(v / 256, 1) == [v / 256 % 256] + LowBytes(v / 256 / 256, 0);
    JoinBytes(v);
  }

  lemma GetHalves(lo: Buffer, hi: Buffer)
    requires |lo| == 2 && |hi| == 2
    ensures GetU32(lo + hi) == GetU16(lo) + 0x1_0000 * GetU16(hi)
  {
    assert (lo + hi)[2..] == hi;
  }

  lemma LowBytes4(v: int)
    ensures GetU32(LowBytes(v, 4)) == v % 0x1_0000_0000
  {
    var h := v / 0x1_0000;
    LowBytesSplit(v, 2, 2);
    ShiftedTwice(v);
    LowBytes2(v);
    LowBytes2(h);
    GetHalves(LowBytes(v, 2), LowBytes(h, 2));
    JoinHalfWords(v);
  }

  lemma ShiftedTwice(v: int)
    ensures Shifted(v, 2) == v / 0x1_0000
  {
    assert Shifted(v / 256, 1) == Shifted(v / 256 / 256, 0);
    JoinBytes(v);
  }

  function Shifted(v: int, n: nat): int
    decreases n
  {
    if n == 0 then v else Shifted(v / 256, n - 1)
  }

  lemma {:induction false} LowBytesSplit(v: int, n: nat, m: nat)
    ensures LowBytes(v, n + m) == LowBytes(v, n) + LowBytes(Shifted(v, n), m)
    decreases n
  {
    if n > 0 {
      LowBytesSplit(v / 256, n - 1, m);
    }
  }

  lemma ShiftedFour(v: int)
    ensures Shifted(v, 4) == v / 0x1_0000_0000
  {
    assert Shifted(v, 4) == Shifted(v / 256, 3) == Shifted(v / 256 / 256, 2);
    JoinBytes(v);
    ShiftedTwice(v / 0x1_0000);
    JoinHalfWords(v);
  }

  lemma GetWords(lo: Buffer, hi: Buffer)
    requires |lo| == 4 && |hi| == 4
    ensures GetU64(lo + hi) == GetU32(lo) + 0x1_0000_0000 * GetU32(hi)
  {
    assert (lo + hi)[4..] == hi;
    assert (lo + hi)[2..][0] == lo[2] && (lo + hi)[2..][1] == lo[3];
  }

  lemma LowBytes8(v: int)
    ensures GetU64(LowBytes(v, 8)) == v % TWO_64
  {
    var h := v / 0x1_0000_0000;
    LowBytesSplit(v, 4, 4);
    ShiftedFour(v);
    LowBytes4(v);
    LowBytes4(h);
    GetWords(LowBytes(v, 4), LowBytes(h, 4));
    JoinWords(v);
  }

  lemma Imm1(v: Int64)
    requires -128 <= v <= 127
    ensures InstrOf(OP_PUSH_IMM8, LowBytes(v, 1)) == PushImm(v)
  {
    assert LowBytes(v, 1)[0] == v % 256;
    assert Signed(v % 256, 256) == v;
  }

  lemma Imm2(v: Int64)
    requires -32768 <= v <= 32767
    ensures InstrOf(OP_PUSH_IMM16, LowBytes(v, 2)) == PushImm(v)
  {
    LowBytes2(v);
    assert Signed(v % 0x1_0000, 0x1_0000) == v;
  }

  lemma Imm4(v: Int64)
    requires -0x8000_0000 <= v <= 0x7FFF_FFFF
    ensures InstrOf(OP_PUSH_IMM32, LowBytes(v, 4)) == PushImm(v)
  {
    LowBytes4(v);
    assert Signed(v % 0x1_0000_0000, 0x1_0000_0000) == v;
  }

  lemma Low64OfInt64(v: Int64)
    ensures AsInt64(v % TWO_64) == v
  {
    if v < 0 {
      assert (v + TWO_64) % TWO_64 == v + TWO_64;
    }
  }

  lemma Imm8(v: Int64)
    ensures InstrOf(OP_PUSH_IMM64, LowBytes(v, 8)) == PushImm(v)
  {
    LowBytes8(v);
    Low64OfInt64(v);
  }

  lemma ImmOperand(v: Int64)
    ensures var b := ImmBytes(v);
            OperandWidth(b[0]) == |b| - 1 && InstrOf(b[0], b[1..]) == PushImm(v)
  {
    var b := ImmBytes(v);
    assert b[1..] == LowBytes(v, |b| - 1);
    if -128 <= v <= 127 { Imm1(v); }
    else if -32768 <= v <= 32767 { Imm2(v); }
    else if -0x8000_0000 <= v <= 0x7FFF_FFFF { Imm4(v); }
    else { Imm8(v); }
  }

  /** Every int64 is read back from its bytes, whatever follows. */
  lemma ImmRoundTrip(v: Int64, tail: Buffer)
    ensures Next(ImmBytes(v) + tail) == Ok(PushImm(v), tail)
  {
    ImmOperand(v);
    var b := ImmBytes(v);
    var width := OperandWidth(b[0]);
    assert (b + tail)[1..1 + width] == b[1..] && (b + tail)[1 + width..] == tail;
  }

  /** A written literal evaluates to itself. */
  lemma ImmEvaluates(v: Int64, ctx: Context, stack: Stack)
    ensures Exec(ImmBytes(v), ctx, stack) == Good(stack + [v])
  {
    ImmRoundTrip(v, []);
    assert ImmBytes(v) + [] == ImmBytes(v);
  }

  /** No other encoding of the immediate is shorter. */
  lemma ImmIsShortest(v: Int64, s: Buffer)
    requires Next(s) == Ok(PushImm(v), [])
    ensures |ImmBytes(v)| <= |s|
  {
  }
}
