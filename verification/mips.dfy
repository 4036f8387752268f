/** The labelled MIPS code the generator writes, and the machine that runs it. */
module Mips {
  import opened Bits
  import opened CMinus
  import opened Wrappers

  /** `_TestN`, `_LelseN` and `_LexitN`. */
  datatype Label = Test(n: nat) | Lelse(n: nat) | Lexit(n: nat)

  datatype Mnemonic = ADD | SUB | MUL | DIV | AND | OR | SLE | SGE | SLT | SGT | SEQ | SNE

  /** One of the eight temporaries $8..$15. */
  type Temp = r: int | 8 <= r <= 15 witness 8

  datatype Instr =
    | Nop
    | Li(rd: Temp, n: Word)
    | Lw(rd: Temp, v: Var)
    | Sw(rs: Temp, v: Var)
    | Arith(m: Mnemonic, rd: Temp, rs: Temp, rt: Temp)
    | Beqz(rs: Temp, target: Label)
    | Jump(target: Label)
    | Mark(l: Label)

  type Regs = s: seq<Word> | |s| == 8 witness [0, 0, 0, 0, 0, 0, 0, 0]

  /** add and sub trap on overflow, mul keeps the low word, div traps on zero only. */
  function Alu(m: Mnemonic, a: Word, b: Word): Option<Word> {
    match m
    case ADD => InRange(a + b)
    case SUB => InRange(a - b)
    case MUL => Some(Wrap(a * b))
    case DIV => if b == 0 then None else Some(Wrap(TruncDiv(a, b)))
    case AND => Some(Wrap(BitAnd(Unsigned(a), Unsigned(b))))
    case OR => Some(Wrap(BitOr(Unsigned(a), Unsigned(b))))
    case SLE => Some(Truth(a <= b))
    case SGE => Some(Truth(b <= a))
    case SLT => Some(Truth(a < b))
    case SGT => Some(Truth(b < a))
    case SEQ => Some(Truth(a == b))
    case SNE => Some(Truth(a != b))
  }

  datatype Config = Config(pc: nat, regs: Regs, mem: Memory)

  /** Place of the first definition of l, or the length of the code. */
  function Position(code: seq<Instr>, l: Label): (p: nat)
    ensures p <= |code|
    ensures p < |code| ==> code[p] == Mark(l)
    ensures forall i :: 0 <= i < p ==> code[i] != Mark(l)
  {
    if |code| == 0 then 0
    else if code[0] == Mark(l) then 0
    else 1 + Position(code[1..], l)
  }

  /** One step; None when the machine has run off the code, traps, or misses a label. */
  function Step(code: seq<Instr>, c: Config): Option<Config> {
    if c.pc >= |code| then None
    else match code[c.pc]
      case Nop => Some(c.(pc := c.pc + 1))
      case Mark(_) => Some(c.(pc := c.pc + 1))
      case Li(rd, n) => Some(c.(pc := c.pc + 1, regs := c.regs[rd - 8 := n]))
      case Lw(rd, v) => Some(c.(pc := c.pc + 1, regs := c.regs[rd - 8 := Read(c.mem, v)]))
      case Sw(rs, v) => Some(c.(pc := c.pc + 1, mem := c.mem[v := c.regs[rs - 8]]))
      case Arith(m, rd, rs, rt) =>
        (match Alu(m, c.regs[rs - 8], c.regs[rt - 8])
         case None => None
         case Some(x) => Some(c.(pc := c.pc + 1, regs := c.regs[rd - 8 := x])))
      case Beqz(rs, l) =>
        if c.regs[rs - 8] != 0 then Some(c.(pc := c.pc + 1))
        else if Position(code, l) < |code| then Some(c.(pc := Position(code, l))) else None
      case Jump(l) =>
        if Position(code, l) < |code| then Some(c.(pc := Position(code, l))) else None
  }

  function Run(code: seq<Instr>, c: Config, n: nat): Option<Config>
    decreases n
  {
    if n == 0 then Some(c)
    else match Step(code, c)
      case None => None
      case Some(c') => Run(code, c', n - 1)
  }

  /** n steps lead from c to c'. */
  predicate Reaches(code: seq<Instr>, c: Config, n: nat, c': Config) {
    Run(code, c, n) == Some(c')
  }

  lemma {:induction false} RunAdd(code: seq<Instr>, c: Config, a: nat, b: nat)
    requires Run(code, c, a).Some?
    ensures Run(code, c, a + b) == Run(code, Run(code, c, a).value, b)
    decreases a
  {
    if a > 0 {
      RunAdd(code, Step(code, c).value, a - 1, b);
    }
  }

  lemma RunJoin(code: seq<Instr>, c: Config, a: nat, c': Config, b: nat, c'': Config)
    requires Reaches(code, c, a, c') && Reaches(code, c', b, c'')
    ensures Reaches(code, c, a + b, c'')
  {
    RunAdd(code, c, a, b);
  }

  /** A machine that has come to the end of the code stays there, so the end is unique. */
  lemma EndIsUnique(code: seq<Instr>, c: Config, a: nat, c1: Config, b: nat, c2: Config)
    requires Reaches(code, c, a, c1) && c1.pc >= |code|
    requires Reaches(code, c, b, c2)
    ensures b <= a
    ensures c2.pc >= |code| ==> a == b && c1 == c2
  {
    if a < b {
      RunAdd(code, c, a, b - a);
    } else {
      RunAdd(code, c, b, a - b);
    }
  }
}
