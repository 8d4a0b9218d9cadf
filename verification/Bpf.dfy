/** The classic BPF machine of golang.org/x/net/bpf: accumulator A, index X, scratch memory,
    and a packet.  Jumps only go forward, so every run ends. */
module Bpf {

  type Word = bv32
  type Frame = seq<bv8>

  const TWO_32 := 0x1_0000_0000

  type Offset = n: nat | n < TWO_32
  type LoadSize = n: nat | n == 1 || n == 2 || n == 4 witness 1

  datatype Reg = RegA | RegX
  datatype AluOp = Add | Sub | Mul | Div | Or | And | ShiftLeft | ShiftRight | Mod | Xor
  datatype Cond =
    | Equal | NotEqual | GreaterThan | LessThan
    | GreaterOrEqual | LessOrEqual | BitsSet | BitsNotSet

  datatype Instr =
    | LoadAbsolute(off: Offset, size: LoadSize)
    | LoadIndirect(off: Offset, size: LoadSize)
    | LoadMemShift(off: Offset)
    | LoadConstant(dst: Reg, val: Word)
    | LoadScratch(dst: Reg, n: nat)
    | StoreScratch(src: Reg, n: nat)
    | ALUOpConstant(op: AluOp, val: Word)
    | ALUOpX(op: AluOp)
    | NegateA
    | Jump(skip: nat)
    | JumpIf(cond: Cond, val: Word, skipTrue: nat, skipFalse: nat)
    | JumpIfX(cond: Cond, skipTrue: nat, skipFalse: nat)
    | RetA
    | RetConstant(val: Word)
    | TAX
    | TXA

  type Program = seq<Instr>

  datatype Regs = Regs(a: Word, x: Word, m: map<nat, Word>)

  const INITIAL := Regs(0, 0, map[])

  // ---------------------------------------------------------------- packet loads

  datatype Loaded = OutOfBounds | Value(w: Word)

  function BigEndian(s: seq<bv8>): Word
    requires |s| == 1 || |s| == 2 || |s| == 4
  {
    if |s| == 1 then s[0] as Word
    else if |s| == 2 then ((s[0] as Word) << 8) | (s[1] as Word)
    else ((s[0] as Word) << 24) | ((s[1] as Word) << 16) | ((s[2] as Word) << 8) | (s[3] as Word)
  }

  /** A load that leaves the packet has no value. */
  function Load(f: Frame, off: nat, size: LoadSize): Loaded {
    if off + size > |f| then OutOfBounds else Value(BigEndian(f[off..off + size]))
  }

  function Half(f: Frame, off: nat): Word
    requires off + 2 <= |f|
  {
    BigEndian(f[off..off + 2])
  }

  // ---------------------------------------------------------------- one instruction

  datatype Effect = Next(skip: nat, regs: Regs) | Stop(result: Word)

  function Get(r: Regs, reg: Reg): Word {
    if reg.RegA? then r.a else r.x
  }

  function Set(r: Regs, reg: Reg, v: Word): Regs {
    if reg.RegA? then r.(a := v) else r.(x := v)
  }

  function Peek(r: Regs, n: nat): Word {
    if n in r.m then r.m[n] else 0
  }

  /** Division by zero ends the run with 0; shifts by the word size or more give 0. */
  function Alu(op: AluOp, a: Word, v: Word): Loaded {
    match op
    case Add => Value(a + v)
    case Sub => Value(a - v)
    case Mul => Value(a * v)
    case Div => if v == 0 then OutOfBounds else Value(a / v)
    case Mod => if v == 0 then OutOfBounds else Value(a % v)
    case Or => Value(a | v)
    case And => Value(a & v)
    case Xor => Value(a ^ v)
    case ShiftLeft => Value(if v < 32 then a << v else 0)
    case ShiftRight => Value(if v < 32 then a >> v else 0)
  }

  predicate Holds(c: Cond, a: Word, v: Word) {
    match c
    case Equal => a == v
    case NotEqual => a != v
    case GreaterThan => a > v
    case LessThan => a < v
    case GreaterOrEqual => a >= v
    case LessOrEqual => a <= v
    case BitsSet => a & v != 0
    case BitsNotSet => a & v == 0
  }

  function Indexed(off: Offset, x: Word): nat {
    off + x as nat
  }

  /** An IPv4 header length: four times the low four bits. */
  function HeaderLength(b: bv8): Word {
    ((b & 0xf) as Word) << 2
  }

  function Negated(a: Word): Word {
    0 - a
  }

  function IntoA(l: Loaded, r: Regs): Effect {
    if l.Value? then Next(0, r.(a := l.w)) else Stop(0)
  }

  function Step(i: Instr, r: Regs, f: Frame): Effect {
    match i
    case LoadAbsolute(off, size) => IntoA(Load(f, off, size), r)
    case LoadIndirect(off, size) => IntoA(Load(f, Indexed(off, r.x), size), r)
    case LoadMemShift(off) =>
      if off < |f| then Next(0, r.(x := HeaderLength(f[off]))) else Stop(0)
    case LoadConstant(dst, val) => Next(0, Set(r, dst, val))
    case LoadScratch(dst, n) => Next(0, Set(r, dst, Peek(r, n)))
    case StoreScratch(src, n) => Next(0, r.(m := r.m[n := Get(r, src)]))
    case ALUOpConstant(op, val) => IntoA(Alu(op, r.a, val), r)
    case ALUOpX(op) => IntoA(Alu(op, r.a, r.x), r)
    case NegateA => Next(0, r.(a := Negated(r.a)))
    case Jump(skip) => Next(skip, r)
    case JumpIf(cond, val, skipTrue, skipFalse) =>
      Next(if Holds(cond, r.a, val) then skipTrue else skipFalse, r)
    case JumpIfX(cond, skipTrue, skipFalse) =>
      Next(if Holds(cond, r.a, r.x) then skipTrue else skipFalse, r)
    case RetA => Stop(r.a)
    case RetConstant(val) => Stop(val)
    case TAX => Next(0, r.(x := r.a))
    case TXA => Next(0, r.(a := r.x))
  }

  // ---------------------------------------------------------------- whole programs

  /** Stuck: the program counter left the program. */
  datatype Outcome = Ret(result: Word) | Stuck

  function Run(p: Program, pc: nat, r: Regs, f: Frame): Outcome
    decreases |p| - pc
  {
    if pc >= |p| then Stuck else
    match Step(p[pc], r, f)
    case Stop(v) => Ret(v)
    case Next(skip, r') => Run(p, pc + 1 + skip, r', f)
  }

  function Exec(p: Program, f: Frame): Outcome {
    Run(p, 0, INITIAL, f)
  }

  lemma RunLoad(p: Program, pc: nat, r: Regs, f: Frame)
    requires pc < |p| && p[pc].LoadAbsolute?
    ensures var l := Load(f, p[pc].off, p[pc].size);
            Run(p, pc, r, f) == if l.Value? then Run(p, pc + 1, r.(a := l.w), f) else Ret(0)
  {
    hide Load;
  }

  lemma RunJumpIfEqual(p: Program, pc: nat, r: Regs, f: Frame)
    requires pc < |p| && p[pc].JumpIf? && p[pc].cond == Equal
    ensures var skip := if r.a == p[pc].val then p[pc].skipTrue else p[pc].skipFalse;
            Run(p, pc, r, f) == Run(p, pc + 1 + skip, r, f)
  {
  }

  lemma RunAnd(p: Program, pc: nat, r: Regs, f: Frame)
    requires pc < |p| && p[pc].ALUOpConstant? && p[pc].op == And
    ensures Run(p, pc, r, f) == Run(p, pc + 1, r.(a := r.a & p[pc].val), f)
  {
  }

  lemma RunRet(p: Program, pc: nat, r: Regs, f: Frame)
    requires pc < |p| && (p[pc].RetConstant? || p[pc].RetA?)
    ensures Run(p, pc, r, f) == Ret(if p[pc].RetA? then r.a else p[pc].val)
  {
  }

  /** Every continuation of the instruction at pc is an instruction of p. */
  predicate InRange(p: Program, pc: nat)
    requires pc < |p|
  {
    match p[pc]
    case RetA => true
    case RetConstant(_) => true
    case Jump(skip) => pc + 1 + skip < |p|
    case JumpIf(_, _, t, e) => pc + 1 + t < |p| && pc + 1 + e < |p|
    case JumpIfX(_, t, e) => pc + 1 + t < |p| && pc + 1 + e < |p|
    case _ => pc + 1 < |p|
  }

  predicate Legal(p: Program) {
    |p| > 0 && forall pc :: 0 <= pc < |p| ==> InRange(p, pc)
  }

  /** The instruction's effect does not depend on A, and a run that goes on has written A. */
  predicate OverwritesA(i: Instr) {
    match i
    case LoadAbsolute(_, _) => true
    case LoadIndirect(_, _) => true
    case LoadConstant(dst, _) => dst.RegA?
    case LoadScratch(dst, _) => dst.RegA?
    case RetConstant(_) => true
    case TXA => true
    case _ => false
  }

  /** The instruction neither reads nor writes A. */
  predicate IgnoresA(i: Instr) {
    match i
    case LoadMemShift(_) => true
    case LoadConstant(dst, _) => dst.RegX?
    case LoadScratch(dst, _) => dst.RegX?
    case StoreScratch(src, _) => src.RegX?
    case Jump(_) => true
    case _ => false
  }

  /** On every path from pc, A is written before it is read: a static check. */
  predicate WritesAFirst(p: Program, pc: nat)
    decreases |p| - pc
  {
    pc >= |p| ||
    OverwritesA(p[pc]) ||
    (IgnoresA(p[pc]) && WritesAFirst(p, pc + 1 + if p[pc].Jump? then p[pc].skip else 0))
  }

  /** A legal program returns a value on every packet, from every register state. */
  lemma {:induction false} LegalNeverStuck(p: Program, pc: nat, r: Regs, f: Frame)
    requires Legal(p) && pc < |p|
    ensures Run(p, pc, r, f).Ret?
    decreases |p| - pc
  {
    assert InRange(p, pc);
    match Step(p[pc], r, f)
    case Stop(_) =>
    case Next(skip, r') => LegalNeverStuck(p, pc + 1 + skip, r', f);
  }

  lemma StepOverwritesA(i: Instr, r: Regs, a: Word, f: Frame)
    requires OverwritesA(i)
    ensures Step(i, r.(a := a), f) == Step(i, r, f)
  {
    hide Alu, Holds, Load, Indexed, HeaderLength, Negated;
    match i
    case LoadAbsolute(_, _) =>
    case LoadIndirect(_, _) =>
    case LoadConstant(_, _) =>
    case LoadScratch(_, _) =>
    case RetConstant(_) =>
    case TXA =>
  }

  lemma StepIgnoresA(i: Instr, r: Regs, a: Word, f: Frame)
    requires IgnoresA(i)
    ensures Step(i, r, f).Next? ==>
              var e := Step(i, r, f);
              && Step(i, r.(a := a), f) == Next(e.skip, e.regs.(a := a))
              && e.skip == if i.Jump? then i.skip else 0
    ensures Step(i, r, f).Stop? ==> Step(i, r.(a := a), f) == Step(i, r, f)
  {
    hide Alu, Holds, Load, Indexed, HeaderLength, Negated;
    match i
    case LoadMemShift(_) =>
    case LoadConstant(_, _) =>
    case LoadScratch(_, _) =>
    case StoreScratch(_, _) =>
    case Jump(_) =>
  }

  /** A program that writes A first does not see the A it is started with. */
  lemma {:induction false} InitialAIrrelevant(p: Program, pc: nat, r: Regs, a: Word, f: Frame)
    requires WritesAFirst(p, pc)
    ensures Run(p, pc, r.(a := a), f) == Run(p, pc, r, f)
    decreases |p| - pc
  {
    hide Step;
    if pc < |p| {
      if OverwritesA(p[pc]) {
        StepOverwritesA(p[pc], r, a, f);
      } else {
        StepIgnoresA(p[pc], r, a, f);
        match Step(p[pc], r, f)
        case Stop(_) =>
        case Next(skip, r') => InitialAIrrelevant(p, pc + 1 + skip, r', a, f);
      }
    }
  }

  /** Forward jumps are relative, so code can be run in front of a program. */
  lemma {:induction false} RunSuffix(pre: Program, p: Program, pc: nat, r: Regs, f: Frame)
    ensures Run(pre + p, |pre| + pc, r, f) == Run(p, pc, r, f)
    decreases |p| - pc
  {
    if pc < |p| {
      assert (pre + p)[|pre| + pc] == p[pc];
      match Step(p[pc], r, f)
      case Stop(_) =>
      case Next(skip, r') => RunSuffix(pre, p, pc + 1 + skip, r', f);
    }
  }
}
