/** Emitted Z80 code as a list of lines with a program counter: straight stretches and a jump back. */
module Z80Program {
  import opened Z80
  import opened Progress

  /** An instruction, or `jp nz` to a line. */
  datatype Line = Plain(i: Instr) | JpNz(target: nat)

  /** Runs until the counter leaves the program; every line takes one unit of fuel. */
  function RunFrom(program: seq<Line>, pc: nat, s: Cpu, fuel: nat): Outcome<Cpu>
    decreases fuel
  {
    if pc >= |program| then Done(s)
    else if fuel == 0 then OutOfFuel
    else
      match program[pc]
      case Plain(i) => RunFrom(program, pc + 1, Step(i, s), fuel - 1)
      case JpNz(target) => RunFrom(program, if s.zero then pc + 1 else target, s, fuel - 1)
  }

  function Lines(code: seq<Instr>): (lines: seq<Line>)
    ensures |lines| == |code| && forall i: nat :: i < |code| ==> lines[i] == Plain(code[i])
  {
    if code == [] then [] else [Plain(code[0])] + Lines(code[1..])
  }

  /** The code stands in the program from line pc on. */
  predicate StandsAt(program: seq<Line>, pc: nat, code: seq<Instr>) {
    pc + |code| <= |program| && forall i: nat :: i < |code| ==> program[pc + i] == Plain(code[i])
  }

  lemma {:induction false} StraightRuns(program: seq<Line>, pc: nat, code: seq<Instr>, s: Cpu, fuel: nat)
    requires StandsAt(program, pc, code)
    ensures RunFrom(program, pc, s, fuel) ==
            if fuel >= |code| then RunFrom(program, pc + |code|, Run(code, s), fuel - |code|) else OutOfFuel
    decreases |code|
  {
    if code != [] {
      assert program[pc] == program[pc + 0] == Plain(code[0]);
      if fuel > 0 {
        forall i: nat | i < |code[1..]| ensures program[pc + 1 + i] == Plain(code[1..][i]) {
          assert program[pc + (i + 1)] == Plain(code[i + 1]);
        }
        StraightRuns(program, pc + 1, code[1..], Step(code[0], s), fuel - 1);
      }
    }
  }

  function NotZero(s: Cpu): bool { !s.zero }

  /** The program ends in the body, which begins at line top, and a jump back to there. */
  predicate EndsInLoop(program: seq<Line>, top: nat, body: seq<Instr>) {
    StandsAt(program, top, body) && |program| == top + |body| + 1 && program[top + |body|] == JpNz(top)
  }

  /** f is what running the code does. */
  ghost predicate DoneBy(f: Cpu -> Cpu, code: seq<Instr>) {
    forall s: Cpu {:trigger f(s)} :: f(s) == Run(code, s)
  }

  /** f, repeated while the result is not zero, ends after this many times. */
  predicate TakesPasses(f: Cpu -> Cpu, s: Cpu, passes: nat) {
    passes > 0 && DoWhile(f, NotZero, s, passes).Done? && DoWhile(f, NotZero, s, passes - 1).OutOfFuel?
  }

  /** The loop in the program is the loop over what its body does: one body and one jump a pass. */
  lemma {:induction false} LoopLines(program: seq<Line>, top: nat, body: seq<Instr>, f: Cpu -> Cpu, s: Cpu,
                                     passes: nat, fuel: nat)
    requires EndsInLoop(program, top, body) && DoneBy(f, body) && TakesPasses(f, s, passes)
    ensures RunFrom(program, top, s, fuel) ==
            if fuel >= passes * (|body| + 1) then DoWhile(f, NotZero, s, passes) else OutOfFuel
    decreases passes
  {
    var r, each := f(s), |body| + 1;
    assert passes * each == each + (passes - 1) * each;
    StraightRuns(program, top, body, s, fuel);
    assert r == Run(body, s);
    if passes == 1 {
      assert DoWhile(f, NotZero, s, 1) == Done(r);
    } else {
      assert NotZero(r);
      if fuel >= each {
        LoopLines(program, top, body, f, r, passes - 1, fuel - each);
      }
    }
  }

  /** Several pieces, one listing after the other. */
  function ListAll(pieces: seq<Code>): seq<Instr> {
    if pieces == [] then [] else Listing(pieces[0]) + ListAll(pieces[1..])
  }

  /** Running the listings of the pieces is running the pieces. */
  lemma {:induction false} PiecesRun(pieces: seq<Code>, fs: seq<Cpu -> Cpu>, i: nat, s: Cpu)
    requires |fs| == |pieces| && i <= |fs|
    requires forall j: nat, r: Cpu :: j < |fs| ==> fs[j](r) == Exec(pieces[j], r)
    ensures Run(ListAll(pieces[i..]), s) == Chain(fs, i, s)
    decreases |fs| - i
  {
    if i < |fs| {
      var first := pieces[i];
      assert pieces[i..][0] == first && pieces[i..][1..] == pieces[i + 1..];
      RunAppend(Listing(first), ListAll(pieces[i + 1..]), s);
      RunIsExec(first, s);
      PiecesRun(pieces, fs, i + 1, fs[i](s));
    }
  }
}
