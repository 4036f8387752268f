/** What the generator emits, as a function of the tree, the eight register flags and the label
    counter.  `codegen.dfy` holds the code that changes state and is proved to emit exactly this. */
module GeneratorSpec {
  import opened CMinus
  import opened Mips

  /** temp_reg[8]: zero for free, anything else for occupied. */
  type Flags = s: seq<int> | |s| == 8 witness [0, 0, 0, 0, 0, 0, 0, 0]

  /** Where the value of an expression is: a temporary, or still in its variable. */
  datatype Place = InReg(r: Temp) | InMem(v: Var)

  datatype ExprCode = ExprCode(code: seq<Instr>, place: Place, flags: Flags) | NoRegister

  datatype StmtCode = StmtCode(code: seq<Instr>, labels: nat, flags: Flags) | Failed

  /** First free index, or the length. */
  function FirstFree(flags: seq<int>): (i: nat)
    ensures i <= |flags|
    ensures i < |flags| ==> flags[i] == 0
    ensures forall j :: 0 <= j < i ==> flags[j] != 0
  {
    if |flags| == 0 || flags[0] == 0 then 0 else 1 + FirstFree(flags[1..])
  }

  function Mnem(op: BinOp): Mnemonic {
    match op
    case Minus => SUB
    case Plus => ADD
    case Times => MUL
    case Divide => DIV
    case And => AND
    case Or => OR
    case Le => SLE
    case Ge => SGE
    case Lt => SLT
    case Gt => SGT
    case Eq => SEQ
    case Ne => SNE
  }

  /** A register operand is used as it is; a variable is loaded into the first free register. */
  function Load(p: Place, flags: Flags): (c: ExprCode)
    ensures c.ExprCode? ==> c.place.InReg?
  {
    match p
    case InReg(r) => ExprCode([], p, flags)
    case InMem(v) =>
      var i := FirstFree(flags);
      if i == 8 then NoRegister else ExprCode([Lw(i + 8, v)], InReg(i + 8), flags[i := 1])
  }

  function CompileExpr(e: Expr, flags: Flags): ExprCode {
    match e
    case Ref(v) => ExprCode([], InMem(v), flags)
    case Const(n) =>
      var i := FirstFree(flags);
      if i == 8 then NoRegister else ExprCode([Li(i + 8, n)], InReg(i + 8), flags[i := 1])
    case Binary(op, l, r) =>
      var c1 := CompileExpr(l, flags);
      if c1.NoRegister? then NoRegister else
      var c2 := CompileExpr(r, c1.flags);
      if c2.NoRegister? then NoRegister else
      Combine(op, c1, c2)
  }

  /** What reducing `expr binop expr` emits: loads of the deferred operands, the operation, and the
      release of both operand registers. */
  function Operation(op: BinOp, p1: Place, p2: Place, flags: Flags): (c: ExprCode)
    ensures c.ExprCode? ==> c.place.InReg?
  {
    var l1 := Load(p1, flags);
    if l1.NoRegister? then NoRegister else
    var l2 := Load(p2, l1.flags);
    if l2.NoRegister? then NoRegister else
    var d := FirstFree(l2.flags);
    if d == 8 then NoRegister else
    ExprCode(l1.code + l2.code + [Arith(Mnem(op), d + 8, l1.place.r, l2.place.r)], InReg(d + 8),
             l2.flags[d := 1][l1.place.r - 8 := 0][l2.place.r - 8 := 0])
  }

  /** The codes of both operands followed by that. */
  function Combine(op: BinOp, c1: ExprCode, c2: ExprCode): ExprCode
    requires c1.ExprCode? && c2.ExprCode?
  {
    var t := Operation(op, c1.place, c2.place, c2.flags);
    if t.NoRegister? then NoRegister else ExprCode(c1.code + c2.code + t.code, t.place, t.flags)
  }

  /** `v = e`: load a bare variable, store, release. */
  function CompileAssign(v: Var, e: Expr, flags: Flags): ExprCode {
    var c := CompileExpr(e, flags);
    if c.NoRegister? then NoRegister else
    var l := Load(c.place, c.flags);
    if l.NoRegister? then NoRegister else
    ExprCode(c.code + l.code + [Sw(l.place.r, v)], InMem(v), l.flags[l.place.r - 8 := 0])
  }

  /** A condition must end in a register, which is then never released. */
  function CompileCond(e: Expr, flags: Flags): (c: ExprCode)
    ensures c.ExprCode? ==> c.place.InReg?
  {
    var c := CompileExpr(e, flags);
    if c.ExprCode? && c.place.InReg? then c else NoRegister
  }

  function CompileStmt(s: Stmt, labels: nat, flags: Flags): StmtCode {
    match s
    case Empty => StmtCode([], labels, flags)
    case Seq(list, last) =>
      var c1 := CompileStmt(list, labels, flags);
      if c1.Failed? then Failed else
      var c2 := CompileStmt(last, c1.labels, c1.flags);
      if c2.Failed? then Failed else StmtCode(c1.code + c2.code, c2.labels, c2.flags)
    case Assign(v, e) =>
      var c := CompileAssign(v, e, flags);
      if c.NoRegister? then Failed else StmtCode(c.code, labels, c.flags)
    case Block(body) =>
      var c := CompileStmt(body, labels, flags);
      if c.Failed? then Failed else StmtCode([Nop] + c.code, c.labels, c.flags)
    case If(cond, thn, els) =>
      var c := CompileCond(cond, flags);
      if c.NoRegister? then Failed else
      var n := labels + 1;
      var c1 := CompileStmt(thn, n, c.flags);
      if c1.Failed? then Failed else
      var c2 := CompileStmt(els, c1.labels, c1.flags);
      if c2.Failed? then Failed else
      StmtCode(IfCode(c.code, c.place.r, n, c1.code, c2.code), c2.labels, c2.flags)
    case While(cond, body) =>
      var n := labels + 1;
      var c := CompileCond(cond, flags);
      if c.NoRegister? then Failed else
      var c1 := CompileStmt(body, n, c.flags);
      if c1.Failed? then Failed else
      StmtCode(WhileCode(c.code, c.place.r, n, c1.code), c1.labels, c1.flags)
  }

  function IfCode(cond: seq<Instr>, r: Temp, n: nat, thn: seq<Instr>, els: seq<Instr>): seq<Instr> {
    cond + [Beqz(r, Lelse(n))] + thn + [Jump(Lexit(n)), Mark(Lelse(n))] + els + [Mark(Lexit(n))]
  }

  function WhileCode(cond: seq<Instr>, r: Temp, n: nat, body: seq<Instr>): seq<Instr> {
    [Mark(Test(n))] + cond + [Beqz(r, Lexit(n))] + body + [Jump(Test(n)), Mark(Lexit(n))]
  }
}
