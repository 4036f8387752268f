/** The code of an expression computes its value and spoils no register in use. */
module ExprMeaning {
  import opened Bits
  import opened CMinus
  import opened Wrappers
  import opened Mips
  import opened GeneratorSpec
  import opened RegisterNeed

  /** What the emitted code computes for e: both operands always, and one instruction on them; None when
      an instruction traps. */
  function CodeValue(e: Expr, m: Memory): Option<Word> {
    match e
    case Ref(v) => Some(Read(m, v))
    case Const(n) => Some(n)
    case Binary(op, l, r) =>
      match CodeValue(l, m)
      case None => None
      case Some(a) =>
        match CodeValue(r, m)
        case None => None
        case Some(b) => Alu(Mnem(op), a, b)
  }

  // ----- where that is the value of C -----

  /** Where bitwise and/or give the value of && and ||. */
  predicate OperandsAgree(op: BinOp, a: Word, b: Word) {
    && (op == And ==> a == 0 || b == 0 || BitAnd(Unsigned(a), Unsigned(b)) == 1)
    && (op == Or ==> 0 <= a <= 1 && 0 <= b <= 1)
  }

  /** Exactly when the instruction chosen for an operator computes what C defines. */
  lemma OperatorExactly(op: BinOp, a: Word, b: Word)
    requires Apply(op, a, b).Some?
    ensures Alu(Mnem(op), a, b) == Apply(op, a, b) <==> OperandsAgree(op, a, b)
  {
    match op
    case Times => WrapInRange(a * b);
    case Divide => WrapInRange(TruncDiv(a, b));
    case And => AndExactly(a, b);
    case Or => OrExactly(a, b);
    case _ =>
  }

  lemma AndExactly(a: Word, b: Word)
    ensures Alu(AND, a, b) == Apply(And, a, b) <==> OperandsAgree(And, a, b)
  {
    hide BitAnd;
    AndBound(Unsigned(a), Unsigned(b));
    AndZero(Unsigned(a));
    ZeroAnd(Unsigned(b));
  }

  lemma ZeroAnd(b: nat)
    ensures BitAnd(0, b) == 0
  {
  }

  lemma OrExactly(a: Word, b: Word)
    ensures Alu(OR, a, b) == Apply(Or, a, b) <==> OperandsAgree(Or, a, b)
  {
    WordPower();
    OrBounds(Unsigned(a), Unsigned(b), 32);
    assert BitOr(0, 0) == 0;
  }

  /** The code computes the value of e wherever C defines it. */
  ghost predicate Agrees(e: Expr) {
    forall m :: Eval(e, m).Some? ==> CodeValue(e, m) == Eval(e, m)
  }

  /** The value can only be 0 or 1. */
  predicate Boolean(e: Expr) {
    match e
    case Ref(_) => false
    case Const(n) => n == 0 || n == 1
    case Binary(op, _, _) => op in {And, Or, Le, Ge, Lt, Gt, Eq, Ne}
  }

  /** No arithmetic, so evaluation cannot fail. */
  predicate NoArithmetic(e: Expr) {
    e.Binary? ==> e.op !in {Plus, Minus, Times, Divide} && NoArithmetic(e.left) && NoArithmetic(e.right)
  }

  /** Expressions whose && and || have 0/1 operands and a right operand that may be run unasked. */
  predicate Faithful(e: Expr) {
    e.Binary? ==>
      && Faithful(e.left) && Faithful(e.right)
      && (e.op in {And, Or} ==> Boolean(e.left) && Boolean(e.right) && NoArithmetic(e.right))
  }

  lemma BooleanValue(e: Expr, m: Memory)
    requires Boolean(e) && Eval(e, m).Some?
    ensures Eval(e, m).value == 0 || Eval(e, m).value == 1
  {
  }

  lemma {:induction false} NeverFails(e: Expr, m: Memory)
    requires NoArithmetic(e)
    ensures Eval(e, m).Some?
  {
    if e.Binary? {
      NeverFails(e.left, m);
      NeverFails(e.right, m);
    }
  }

  lemma BitsOfTruth(a: nat, b: nat)
    requires a <= 1 && b <= 1
    ensures BitAnd(a, b) == if a == 1 && b == 1 then 1 else 0
  {
    assert BitAnd(0, b / 2) == 0;
  }

  /** A condition on the tree that is enough. */
  lemma {:induction false} FaithfulAgrees(e: Expr, m: Memory)
    requires Faithful(e) && Eval(e, m).Some?
    ensures CodeValue(e, m) == Eval(e, m)
  {
    hide Alu, Apply;
    if e.Binary? {
      if e.op in {And, Or} { NeverFails(e.right, m); }
      FaithfulAgrees(e.left, m);
      FaithfulAgrees(e.right, m);
      OperandsFaithful(e, m);
      BothApplied(e, m);
      OperatorExactly(e.op, Eval(e.left, m).value, Eval(e.right, m).value);
    }
  }

  lemma OperandsFaithful(e: Expr, m: Memory)
    requires e.Binary? && Faithful(e) && Eval(e.left, m).Some? && Eval(e.right, m).Some?
    ensures OperandsAgree(e.op, Eval(e.left, m).value, Eval(e.right, m).value)
  {
    if e.op in {And, Or} {
      BooleanValue(e.left, m);
      BooleanValue(e.right, m);
      BitsOfTruth(Eval(e.left, m).value, Eval(e.right, m).value);
    }
  }

  /** When both operands have values, the short circuits do not show. */
  lemma BothApplied(e: Expr, m: Memory)
    requires e.Binary? && Eval(e.left, m).Some? && Eval(e.right, m).Some?
    ensures Eval(e, m) == Apply(e.op, Eval(e.left, m).value, Eval(e.right, m).value)
  {
  }

  // ----- running a fragment inside a program -----

  ghost predicate At(code: seq<Instr>, base: nat, frag: seq<Instr>) {
    base + |frag| <= |code| && code[base..base + |frag|] == frag
  }

  lemma AtSplit(code: seq<Instr>, base: nat, a: seq<Instr>, b: seq<Instr>)
    requires At(code, base, a + b)
    ensures At(code, base, a) && At(code, base + |a|, b)
  {
    var f := code[base..base + |a + b|];
    assert f[..|a|] == a && f[|a|..] == b;
  }

  lemma AtIndex(code: seq<Instr>, base: nat, frag: seq<Instr>, i: nat)
    requires At(code, base, frag) && i < |frag|
    ensures base + i < |code| && code[base + i] == frag[i]
  {
    assert code[base..base + |frag|][i] == frag[i];
  }

  /** One instruction that does not move the program counter elsewhere. */
  lemma OneStep(code: seq<Instr>, c: Config, x: Instr)
    requires At(code, c.pc, [x]) && Step(code, c).Some?
    ensures code[c.pc] == x && Reaches(code, c, 1, Step(code, c).value)
  {
    AtIndex(code, c.pc, [x], 0);
    assert Run(code, Step(code, c).value, 0) == Step(code, c);
  }

  /** Occupied registers keep their contents. */
  ghost predicate Kept(flags: Flags, before: Regs, after: Regs) {
    forall i :: 0 <= i < 8 && flags[i] != 0 ==> after[i] == before[i]
  }

  function ValueAt(p: Place, regs: Regs, m: Memory): Word {
    match p
    case InReg(r) => regs[r - 8]
    case InMem(v) => Read(m, v)
  }

  /** The state after a straight-line fragment: same memory, pc at its end. */
  ghost predicate Computes(code: seq<Instr>, base: nat, frag: seq<Instr>, regs: Regs, m: Memory, regs': Regs) {
    Reaches(code, Config(base, regs, m), |frag|, Config(base + |frag|, regs', m))
  }

  lemma ComputesJoin(code: seq<Instr>, base: nat, a: seq<Instr>, b: seq<Instr>,
                     r0: Regs, m: Memory, r1: Regs, r2: Regs)
    requires Computes(code, base, a, r0, m, r1) && Computes(code, base + |a|, b, r1, m, r2)
    ensures Computes(code, base, a + b, r0, m, r2)
  {
    RunJoin(code, Config(base, r0, m), |a|, Config(base + |a|, r1, m), |b|, Config(base + |a| + |b|, r2, m));
  }

  lemma LoadRuns(code: seq<Instr>, base: nat, p: Place, flags: Flags, regs: Regs, m: Memory) returns (regs': Regs)
    requires Load(p, flags).ExprCode? && At(code, base, Load(p, flags).code)
    ensures Computes(code, base, Load(p, flags).code, regs, m, regs')
    ensures Kept(flags, regs, regs')
    ensures regs'[Load(p, flags).place.r - 8] == ValueAt(p, regs, m)
  {
    regs' := regs;
    if p.InMem? {
      var i := FirstFree(flags);
      regs' := regs[i := Read(m, p.v)];
      AtIndex(code, base, [Lw(i + 8, p.v)], 0);
      OneStep(code, Config(base, regs, m), Lw(i + 8, p.v));
    }
  }

  lemma KeptJoin(f0: Flags, f1: Flags, r0: Regs, r1: Regs, r2: Regs)
    requires Kept(f0, r0, r1) && Kept(f1, r1, r2) && OnlyTakes(f0, f1)
    ensures Kept(f0, r0, r2)
  {
  }

  /** Both operands brought into registers. */
  lemma OperandsRun(code: seq<Instr>, base: nat, p1: Place, p2: Place, flags: Flags, regs: Regs, m: Memory)
    returns (regs': Regs)
    requires Load(p1, flags).ExprCode? && Load(p2, Load(p1, flags).flags).ExprCode?
    requires At(code, base, Load(p1, flags).code + Load(p2, Load(p1, flags).flags).code)
    requires p1.InReg? ==> flags[p1.r - 8] != 0
    requires p2.InReg? ==> flags[p2.r - 8] != 0
    ensures var l1 := Load(p1, flags); var l2 := Load(p2, l1.flags);
            && Computes(code, base, l1.code + l2.code, regs, m, regs')
            && Kept(flags, regs, regs')
            && regs'[l1.place.r - 8] == ValueAt(p1, regs, m)
            && regs'[l2.place.r - 8] == ValueAt(p2, regs, m)
  {
    var l1 := Load(p1, flags);
    var l2 := Load(p2, l1.flags);
    AtSplit(code, base, l1.code, l2.code);
    var r1 := LoadRuns(code, base, p1, flags, regs, m);
    regs' := LoadRuns(code, base + |l1.code|, p2, l1.flags, r1, m);
    ComputesJoin(code, base, l1.code, l2.code, regs, m, r1, regs');
    assert OnlyTakes(flags, l1.flags);
    KeptJoin(flags, l1.flags, regs, r1, regs');
  }

  /** The final instruction of a binary operation. */
  lemma OperationRuns(code: seq<Instr>, base: nat, op: BinOp, d: Temp, r1: Temp, r2: Temp, regs: Regs, m: Memory,
                      x: Word)
    requires At(code, base, [Arith(Mnem(op), d, r1, r2)])
    requires Alu(Mnem(op), regs[r1 - 8], regs[r2 - 8]) == Some(x)
    ensures Computes(code, base, [Arith(Mnem(op), d, r1, r2)], regs, m, regs[d - 8 := x])
  {
    AtIndex(code, base, [Arith(Mnem(op), d, r1, r2)], 0);
    OneStep(code, Config(base, regs, m), Arith(Mnem(op), d, r1, r2));
  }

  /** What a binary operation emits after the codes of its operands. */
  function Tail(op: BinOp, c1: ExprCode, c2: ExprCode): seq<Instr>
    requires c1.ExprCode? && c2.ExprCode? && Combine(op, c1, c2).ExprCode?
  {
    Operation(op, c1.place, c2.place, c2.flags).code
  }

  /** The registers a binary operation uses: operands are in occupied ones, the result in a free one. */
  lemma CombineRegisters(op: BinOp, c1: ExprCode, c2: ExprCode, flags: Flags)
    requires c1.ExprCode? && c2.ExprCode? && Combine(op, c1, c2).ExprCode?
    requires Placed(c1.place, flags, c1.flags) && Placed(c2.place, c1.flags, c2.flags)
    ensures var d := FirstFree(Load(c2.place, Load(c1.place, c2.flags).flags).flags);
            d < 8 && Combine(op, c1, c2).place == InReg(d + 8) && flags[d] == 0
    ensures OnlyTakes(flags, c2.flags)
    ensures c1.place.InReg? ==> c2.flags[c1.place.r - 8] != 0
    ensures c2.place.InReg? ==> c2.flags[c2.place.r - 8] != 0
  {
    var l1 := Load(c1.place, c2.flags);
    var l2 := Load(c2.place, l1.flags);
    OperandsTaken(c1.place, c2.place, flags, c1.flags, c2.flags);
    ReleaseOperands(flags, l1.place.r, l2.place.r, l2.flags, FirstFree(l2.flags));
  }

  /** Loads, operation and result, once the codes of both operands have run. */
  lemma CombineRuns(code: seq<Instr>, base: nat, op: BinOp, c1: ExprCode, c2: ExprCode, flags: Flags,
                    regs: Regs, m: Memory, x: Word) returns (regs': Regs)
    requires c1.ExprCode? && c2.ExprCode? && Combine(op, c1, c2).ExprCode?
    requires Placed(c1.place, flags, c1.flags) && Placed(c2.place, c1.flags, c2.flags)
    requires At(code, base, Tail(op, c1, c2))
    requires Alu(Mnem(op), ValueAt(c1.place, regs, m), ValueAt(c2.place, regs, m)) == Some(x)
    ensures Computes(code, base, Tail(op, c1, c2), regs, m, regs')
    ensures Kept(flags, regs, regs')
    ensures regs'[Combine(op, c1, c2).place.r - 8] == x
  {
    hide At, Computes, Alu, ValueAt, Placed, Free, FirstFree;
    var l1 := Load(c1.place, c2.flags);
    var l2 := Load(c2.place, l1.flags);
    var d := FirstFree(l2.flags);
    CombineRegisters(op, c1, c2, flags);
    AtSplit(code, base, l1.code + l2.code, [Arith(Mnem(op), d + 8, l1.place.r, l2.place.r)]);
    var r2 := OperandsRun(code, base, c1.place, c2.place, c2.flags, regs, m);
    OperationRuns(code, base + |l1.code + l2.code|, op, d + 8, l1.place.r, l2.place.r, r2, m, x);
    regs' := r2[d := x];
    ComputesJoin(code, base, l1.code + l2.code, [Arith(Mnem(op), d + 8, l1.place.r, l2.place.r)], regs, m, r2, regs');
  }

  lemma PlacedKeeps(p: Place, flags: Flags, f1: Flags, regs: Regs, regs': Regs, m: Memory)
    requires Placed(p, flags, f1) && Kept(f1, regs, regs')
    ensures ValueAt(p, regs', m) == ValueAt(p, regs, m)
    ensures OnlyTakes(flags, f1)
  {
  }

  /** Puts the three parts of a binary operation together. */
  lemma BinaryRuns(code: seq<Instr>, base: nat, op: BinOp, c1: ExprCode, c2: ExprCode, flags: Flags,
                   regs: Regs, r1: Regs, r2: Regs, m: Memory, x: Word) returns (regs': Regs)
    requires c1.ExprCode? && c2.ExprCode? && Combine(op, c1, c2).ExprCode?
    requires Placed(c1.place, flags, c1.flags) && Placed(c2.place, c1.flags, c2.flags)
    requires At(code, base + |c1.code + c2.code|, Tail(op, c1, c2))
    requires Computes(code, base, c1.code, regs, m, r1) && Kept(flags, regs, r1)
    requires Computes(code, base + |c1.code|, c2.code, r1, m, r2) && Kept(c1.flags, r1, r2)
    requires Alu(Mnem(op), ValueAt(c1.place, r1, m), ValueAt(c2.place, r2, m)) == Some(x)
    ensures Computes(code, base, Combine(op, c1, c2).code, regs, m, regs')
    ensures Kept(flags, regs, regs')
    ensures regs'[Combine(op, c1, c2).place.r - 8] == x
  {
    PlacedKeeps(c1.place, flags, c1.flags, r1, r2, m);
    regs' := CombineRuns(code, base + |c1.code + c2.code|, op, c1, c2, flags, r2, m, x);
    ComputesJoin(code, base, c1.code, c2.code, regs, m, r1, r2);
    ComputesJoin(code, base, c1.code + c2.code, Tail(op, c1, c2), regs, m, r2, regs');
    KeptJoin(flags, c1.flags, regs, r1, r2);
  }

  lemma ConstRuns(code: seq<Instr>, base: nat, n: Word, flags: Flags, regs: Regs, m: Memory) returns (regs': Regs)
    requires CompileExpr(Const(n), flags).ExprCode? && At(code, base, CompileExpr(Const(n), flags).code)
    ensures Computes(code, base, CompileExpr(Const(n), flags).code, regs, m, regs')
    ensures Kept(flags, regs, regs')
    ensures ValueAt(CompileExpr(Const(n), flags).place, regs', m) == n
  {
    var i := FirstFree(flags);
    regs' := regs[i := n];
    AtIndex(code, base, [Li(i + 8, n)], 0);
    OneStep(code, Config(base, regs, m), Li(i + 8, n));
  }

  /** Where the three parts of a binary operation lie. */
  lemma CombineLayout(code: seq<Instr>, base: nat, op: BinOp, c1: ExprCode, c2: ExprCode)
    requires c1.ExprCode? && c2.ExprCode? && Combine(op, c1, c2).ExprCode?
    requires At(code, base, Combine(op, c1, c2).code)
    ensures At(code, base, c1.code) && At(code, base + |c1.code|, c2.code)
    ensures At(code, base + |c1.code + c2.code|, Tail(op, c1, c2))
  {
    AtSplit(code, base, c1.code + c2.code, Tail(op, c1, c2));
    AtSplit(code, base, c1.code, c2.code);
  }

  /** The codes of both operands, and the operation made of them. */
  ghost predicate Parts(e: Expr, flags: Flags, c: ExprCode, c1: ExprCode, c2: ExprCode)
    requires e.Binary?
  {
    && c1.ExprCode? && c1 == CompileExpr(e.left, flags) && Placed(c1.place, flags, c1.flags)
    && c2.ExprCode? && c2 == CompileExpr(e.right, c1.flags) && Placed(c2.place, c1.flags, c2.flags)
    && c.ExprCode? && c.place.InReg? && c == Combine(e.op, c1, c2)
  }

  lemma BinaryParts(e: Expr, flags: Flags) returns (c1: ExprCode, c2: ExprCode)
    requires e.Binary? && CompileExpr(e, flags).ExprCode?
    ensures Parts(e, flags, CompileExpr(e, flags), c1, c2)
  {
    c1 := CompileExpr(e.left, flags);
    c2 := CompileExpr(e.right, c1.flags);
    ExprNeed(e, flags);
    ExprNeed(e.left, flags);
    ExprNeed(e.right, c1.flags);
  }

  /** The state e's code is asked to reach: the value in its place, memory untouched, every occupied
      register as it was. */
  ghost predicate Evaluates(code: seq<Instr>, base: nat, e: Expr, c: ExprCode, flags: Flags,
                            regs: Regs, m: Memory, regs': Regs)
    requires c.ExprCode? && CodeValue(e, m).Some?
  {
    && Computes(code, base, c.code, regs, m, regs')
    && Kept(flags, regs, regs')
    && ValueAt(c.place, regs', m) == CodeValue(e, m).value
  }

  /** The code of e is in place. */
  ghost predicate Ready(code: seq<Instr>, base: nat, e: Expr, flags: Flags) {
    CompileExpr(e, flags).ExprCode? && At(code, base, CompileExpr(e, flags).code)
  }

  ghost predicate Evaluated(code: seq<Instr>, base: nat, e: Expr, flags: Flags, regs: Regs, m: Memory, regs': Regs) {
    && CompileExpr(e, flags).ExprCode? && CodeValue(e, m).Some?
    && Evaluates(code, base, e, CompileExpr(e, flags), flags, regs, m, regs')
  }

  lemma BinaryReady(code: seq<Instr>, base: nat, e: Expr, flags: Flags)
    requires e.Binary? && Ready(code, base, e, flags)
    ensures Ready(code, base, e.left, flags) && CompileExpr(e.left, flags).ExprCode?
    ensures var c1 := CompileExpr(e.left, flags);
            Ready(code, base + |c1.code|, e.right, c1.flags)
  {
    hide Combine, At, Placed, Tail;
    var c1, c2 := BinaryParts(e, flags);
    CombineLayout(code, base, e.op, c1, c2);
  }

  lemma BinaryEvaluated(code: seq<Instr>, base: nat, e: Expr, flags: Flags, regs: Regs, r1: Regs, r2: Regs, m: Memory)
    returns (regs': Regs)
    requires e.Binary? && Ready(code, base, e, flags) && CodeValue(e, m).Some?
    requires Evaluated(code, base, e.left, flags, regs, m, r1)
    requires CompileExpr(e.left, flags).ExprCode?
    requires Evaluated(code, base + |CompileExpr(e.left, flags).code|, e.right, CompileExpr(e.left, flags).flags,
             r1, m, r2)
    ensures Evaluated(code, base, e, flags, regs, m, regs')
  {
    hide Combine, Tail, Placed, Kept, Alu, At, Computes;
    var c1, c2 := BinaryParts(e, flags);
    CombineLayout(code, base, e.op, c1, c2);
    regs' := BinaryRuns(code, base, e.op, c1, c2, flags, regs, r1, r2, m, CodeValue(e, m).value);
  }

  lemma LeafEvaluated(code: seq<Instr>, base: nat, e: Expr, flags: Flags, regs: Regs, m: Memory) returns (regs': Regs)
    requires !e.Binary? && Ready(code, base, e, flags)
    ensures Evaluated(code, base, e, flags, regs, m, regs')
  {
    if e.Ref? { regs' := regs; } else { regs' := ConstRuns(code, base, e.n, flags, regs, m); }
  }

  lemma OperandsHaveValues(e: Expr, m: Memory)
    requires e.Binary? && CodeValue(e, m).Some?
    ensures CodeValue(e.left, m).Some? && CodeValue(e.right, m).Some?
  {
  }

  /** The code of e, anywhere in a program, computes its value, for every expression. */
  lemma {:induction false} ExprRuns(code: seq<Instr>, base: nat, e: Expr, flags: Flags, regs: Regs, m: Memory)
    returns (regs': Regs)
    requires Ready(code, base, e, flags) && CodeValue(e, m).Some?
    ensures Evaluated(code, base, e, flags, regs, m, regs')
    decreases e
  {
    hide *;
    if e.Binary? {
      BinaryReady(code, base, e, flags);
      OperandsHaveValues(e, m);
      var c1 := CompileExpr(e.left, flags);
      var r1 := ExprRuns(code, base, e.left, flags, regs, m);
      var r2 := ExprRuns(code, base + |c1.code|, e.right, c1.flags, r1, m);
      regs' := BinaryEvaluated(code, base, e, flags, regs, r1, r2, m);
    } else {
      regs' := LeafEvaluated(code, base, e, flags, regs, m);
    }
  }

  // ----- traps -----

  /** From start the machine comes, within len instructions, to one it cannot execute. */
  ghost predicate Stuck(code: seq<Instr>, start: Config, len: nat, n: nat, c: Config) {
    Reaches(code, start, n, c) && start.pc <= c.pc < start.pc + len && Step(code, c).None?
  }

  /** Stuck in a part is stuck in the whole. */
  lemma StuckInside(code: seq<Instr>, start: Config, len: nat, k: nat, inner: Config, innerLen: nat, n: nat, c: Config)
    requires Reaches(code, start, k, inner) && Stuck(code, inner, innerLen, n, c)
    requires start.pc <= inner.pc && inner.pc + innerLen <= start.pc + len
    ensures Stuck(code, start, len, k + n, c)
  {
    RunJoin(code, start, k, inner, n, c);
  }

  /** The last instruction of a binary operation traps, once its operands are in registers. */
  lemma OperationTraps(code: seq<Instr>, base: nat, op: BinOp, c1: ExprCode, c2: ExprCode, flags: Flags,
                       regs: Regs, m: Memory) returns (n: nat, c: Config)
    requires c1.ExprCode? && c2.ExprCode? && Combine(op, c1, c2).ExprCode?
    requires Placed(c1.place, flags, c1.flags) && Placed(c2.place, c1.flags, c2.flags)
    requires At(code, base, Tail(op, c1, c2))
    requires Alu(Mnem(op), ValueAt(c1.place, regs, m), ValueAt(c2.place, regs, m)) == None
    ensures Stuck(code, Config(base, regs, m), |Tail(op, c1, c2)|, n, c)
  {
    hide At, Alu, ValueAt, Placed, Free, FirstFree, Run;
    var l1 := Load(c1.place, c2.flags);
    var l2 := Load(c2.place, l1.flags);
    var x := Arith(Mnem(op), FirstFree(l2.flags) + 8, l1.place.r, l2.place.r);
    CombineRegisters(op, c1, c2, flags);
    AtSplit(code, base, l1.code + l2.code, [x]);
    var r := OperandsRun(code, base, c1.place, c2.place, c2.flags, regs, m);
    n := |l1.code + l2.code|;
    c := Config(base + n, r, m);
    AtIndex(code, base + n, [x], 0);
  }

  lemma BinaryTraps(code: seq<Instr>, base: nat, e: Expr, flags: Flags, regs: Regs, r1: Regs, r2: Regs, m: Memory)
    returns (n: nat, c: Config)
    requires e.Binary? && Ready(code, base, e, flags) && CodeValue(e, m).None?
    requires Evaluated(code, base, e.left, flags, regs, m, r1)
    requires CompileExpr(e.left, flags).ExprCode?
    requires Evaluated(code, base + |CompileExpr(e.left, flags).code|, e.right, CompileExpr(e.left, flags).flags,
             r1, m, r2)
    ensures Stuck(code, Config(base, regs, m), |CompileExpr(e, flags).code|, n, c)
  {
    hide CompileExpr, Combine, Tail, Placed, Kept, Alu, At, Run, Computes, Stuck;
    var c1, c2 := BinaryParts(e, flags);
    CombineLayout(code, base, e.op, c1, c2);
    PlacedKeeps(c1.place, flags, c1.flags, r1, r2, m);
    CombineLength(e.op, c1, c2);
    ComputesJoin(code, base, c1.code, c2.code, regs, m, r1, r2);
    n, c := OperationTraps(code, base + |c1.code + c2.code|, e.op, c1, c2, flags, r2, m);
    StuckAfter(code, base, c1.code + c2.code, regs, r2, m, |CompileExpr(e, flags).code|, |Tail(e.op, c1, c2)|, n, c);
    n := |c1.code + c2.code| + n;
  }

  /** Stuck after a straight-line prefix. */
  lemma StuckAfter(code: seq<Instr>, base: nat, frag: seq<Instr>, regs: Regs, regs': Regs, m: Memory, len: nat,
                   innerLen: nat, n: nat, c: Config)
    requires Computes(code, base, frag, regs, m, regs') && |frag| + innerLen <= len
    requires Stuck(code, Config(base + |frag|, regs', m), innerLen, n, c)
    ensures Stuck(code, Config(base, regs, m), len, |frag| + n, c)
  {
    StuckInside(code, Config(base, regs, m), len, |frag|, Config(base + |frag|, regs', m), innerLen, n, c);
  }

  lemma CombineLength(op: BinOp, c1: ExprCode, c2: ExprCode)
    requires c1.ExprCode? && c2.ExprCode? && Combine(op, c1, c2).ExprCode?
    ensures |Combine(op, c1, c2).code| == |c1.code + c2.code| + |Tail(op, c1, c2)|
  {
  }

  /** Where the parts of a binary operation end. */
  lemma BinaryLengths(e: Expr, flags: Flags)
    requires e.Binary? && CompileExpr(e, flags).ExprCode?
    ensures var c1 := CompileExpr(e.left, flags);
            c1.ExprCode? &&
            var c2 := CompileExpr(e.right, c1.flags);
            c2.ExprCode? && |c1.code| + |c2.code| <= |CompileExpr(e, flags).code|
  {
    hide Operation;
  }

  /** The code of an expression without a value stops inside, whatever the program. */
  lemma {:induction false} ExprTraps(code: seq<Instr>, base: nat, e: Expr, flags: Flags, regs: Regs, m: Memory)
    returns (n: nat, c: Config)
    requires Ready(code, base, e, flags) && CodeValue(e, m).None?
    ensures CompileExpr(e, flags).ExprCode? && Stuck(code, Config(base, regs, m), |CompileExpr(e, flags).code|, n, c)
    decreases e
  {
    hide CompileExpr, At, Run, Alu;
    BinaryReady(code, base, e, flags);
    BinaryLengths(e, flags);
    var start, len := Config(base, regs, m), |CompileExpr(e, flags).code|;
    var c1 := CompileExpr(e.left, flags);
    var c2 := CompileExpr(e.right, c1.flags);
    if CodeValue(e.left, m).None? {
      n, c := ExprTraps(code, base, e.left, flags, regs, m);
    } else {
      var r1 := ExprRuns(code, base, e.left, flags, regs, m);
      if CodeValue(e.right, m).None? {
        n, c := ExprTraps(code, base + |c1.code|, e.right, c1.flags, r1, m);
        StuckInside(code, start, len, |c1.code|, Config(base + |c1.code|, r1, m), |c2.code|, n, c);
        n := |c1.code| + n;
      } else {
        var r2 := ExprRuns(code, base + |c1.code|, e.right, c1.flags, r1, m);
        n, c := BinaryTraps(code, base, e, flags, regs, r1, r2, m);
      }
    }
  }
}
