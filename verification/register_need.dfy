/** How many free temporaries an expression or a statement needs: the generator runs out exactly
    below that number. */
module RegisterNeed {
  import opened CMinus
  import opened Mips
  import opened GeneratorSpec

  function Max(a: nat, b: nat): nat {
    if a < b then b else a
  }

  function Free(flags: seq<int>): nat {
    if |flags| == 0 then 0 else (if flags[0] == 0 then 1 else 0) + Free(flags[1..])
  }

  /** Registers still occupied when the value of e is ready. */
  function Held(e: Expr): nat {
    if e.Ref? then 0 else 1
  }

  function Need(e: Expr): nat {
    match e
    case Ref(_) => 0
    case Const(_) => 1
    case Binary(_, l, r) => Max(Max(Need(l), Held(l) + Need(r)), 3)
  }

  lemma {:induction false} FreeAfterSet(flags: seq<int>, i: nat, x: int)
    requires i < |flags|
    ensures Free(flags[i := x]) + (if flags[i] == 0 then 1 else 0) == Free(flags) + (if x == 0 then 1 else 0)
  {
    if i == 0 {
      assert flags[i := x][1..] == flags[1..];
    } else {
      assert flags[i := x][1..] == flags[1..][i - 1 := x];
      FreeAfterSet(flags[1..], i - 1, x);
    }
  }

  lemma {:induction false} FirstFreeExists(flags: seq<int>)
    ensures FirstFree(flags) < |flags| <==> Free(flags) > 0
  {
    if |flags| > 0 && flags[0] != 0 {
      FirstFreeExists(flags[1..]);
    }
  }

  /** The flags after a value has been placed: nothing changed, or one free register taken. */
  ghost predicate Placed(p: Place, before: Flags, after: Flags) {
    match p
    case InMem(_) => after == before
    case InReg(r) => before[r - 8] == 0 && after == before[r - 8 := 1]
  }

  lemma FreeAfterPlaced(p: Place, before: Flags, after: Flags)
    requires Placed(p, before, after)
    ensures Free(after) == Free(before) - (if p.InReg? then 1 else 0)
  {
    if p.InReg? { FreeAfterSet(before, p.r - 8, 1); }
  }

  /** Loading an operand. */
  lemma LoadFits(p: Place, flags: Flags)
    ensures Load(p, flags).ExprCode? <==> p.InReg? || Free(flags) > 0
    ensures Load(p, flags).ExprCode? ==>
              var l := Load(p, flags);
              && (p.InReg? ==> l.place == p && l.flags == flags)
              && (p.InMem? ==> Placed(l.place, flags, l.flags))
              && Free(l.flags) == Free(flags) - (if p.InReg? then 0 else 1)
  {
    FirstFreeExists(flags);
    if p.InMem? && FirstFree(flags) < 8 { FreeAfterSet(flags, FirstFree(flags), 1); }
  }

  /** After both operands are in registers the flags are the original ones plus those two. */
  ghost predicate TwoTaken(flags: Flags, i: Temp, j: Temp, after: Flags) {
    i != j && flags[i - 8] == 0 && flags[j - 8] == 0 && after == flags[i - 8 := 1][j - 8 := 1]
  }

  lemma OperandsTaken(p1: Place, p2: Place, flags: Flags, f1: Flags, f2: Flags)
    requires Placed(p1, flags, f1) && Placed(p2, f1, f2)
    requires Load(p1, f2).ExprCode?
    requires Load(p2, Load(p1, f2).flags).ExprCode?
    ensures var l1 := Load(p1, f2); var l2 := Load(p2, l1.flags);
            TwoTaken(flags, l1.place.r, l2.place.r, l2.flags)
  {
    var l1 := Load(p1, f2);
    var l2 := Load(p2, l1.flags);
    LoadFits(p1, f2);
    LoadFits(p2, l1.flags);
    var i, j := l1.place.r - 8, l2.place.r - 8;
    assert i != j;
    assert l2.flags == flags[i := 1][j := 1];
  }

  lemma ReleaseOperands(flags: Flags, i: Temp, j: Temp, after: Flags, d: nat)
    requires TwoTaken(flags, i, j, after) && d < 8 && after[d] == 0
    ensures d != i - 8 && d != j - 8 && flags[d] == 0
    ensures after[d := 1][i - 8 := 0][j - 8 := 0] == flags[d := 1]
  {
  }

  /** Loads an operation has to make for an operand. */
  function Loads(p: Place): nat {
    if p.InMem? then 1 else 0
  }

  /** The need of the operation itself: one register for each load and one for the result. */
  lemma OperationNeed(op: BinOp, p1: Place, p2: Place, flags: Flags)
    ensures Operation(op, p1, p2, flags).ExprCode? <==> Loads(p1) + Loads(p2) + 1 <= Free(flags)
  {
    hide Free, FirstFree, Load;
    LoadFits(p1, flags);
    var l1 := Load(p1, flags);
    if l1.ExprCode? {
      LoadFits(p2, l1.flags);
      var l2 := Load(p2, l1.flags);
      if l2.ExprCode? { FirstFreeExists(l2.flags); }
    }
  }

  lemma CombineNeed(op: BinOp, c1: ExprCode, c2: ExprCode, flags: Flags)
    requires c1.ExprCode? && c2.ExprCode?
    requires Placed(c1.place, flags, c1.flags) && Placed(c2.place, c1.flags, c2.flags)
    ensures Combine(op, c1, c2).ExprCode? <==> 3 <= Free(flags)
  {
    hide Free, Operation, Placed;
    FreeAfterPlaced(c1.place, flags, c1.flags);
    FreeAfterPlaced(c2.place, c1.flags, c2.flags);
    OperationNeed(op, c1.place, c2.place, c2.flags);
  }

  lemma CombinePlaces(op: BinOp, c1: ExprCode, c2: ExprCode, flags: Flags)
    requires c1.ExprCode? && c2.ExprCode?
    requires Placed(c1.place, flags, c1.flags) && Placed(c2.place, c1.flags, c2.flags)
    requires Combine(op, c1, c2).ExprCode?
    ensures Combine(op, c1, c2).place.InReg?
    ensures Placed(Combine(op, c1, c2).place, flags, Combine(op, c1, c2).flags)
  {
    var l1 := Load(c1.place, c2.flags);
    var l2 := Load(c2.place, l1.flags);
    var d := FirstFree(l2.flags);
    OperandsTaken(c1.place, c2.place, flags, c1.flags, c2.flags);
    ReleaseOperands(flags, l1.place.r, l2.place.r, l2.flags, d);
  }

  /** Exact register need of an expression: it compiles if and only if Need(e) registers are free,
      and then the only flag that changes is that of the register holding the value, if any. */
  lemma {:induction false} ExprNeed(e: Expr, flags: Flags)
    ensures CompileExpr(e, flags).ExprCode? <==> Need(e) <= Free(flags)
    ensures CompileExpr(e, flags).ExprCode? ==>
              var c := CompileExpr(e, flags);
              && (c.place.InMem? <==> e.Ref?)
              && Placed(c.place, flags, c.flags)
              && Free(c.flags) == Free(flags) - Held(e)
  {
    match e
    case Ref(_) =>
    case Const(_) =>
      FirstFreeExists(flags);
      if FirstFree(flags) < 8 { FreeAfterSet(flags, FirstFree(flags), 1); }
    case Binary(op, l, r) =>
      ExprNeed(l, flags);
      var c1 := CompileExpr(l, flags);
      if c1.ExprCode? {
        ExprNeed(r, c1.flags);
        var c2 := CompileExpr(r, c1.flags);
        if c2.ExprCode? {
          CombineNeed(op, c1, c2, flags);
          var c := Combine(op, c1, c2);
          if c.ExprCode? {
            CombinePlaces(op, c1, c2, flags);
            FreeAfterPlaced(c.place, flags, c.flags);
          }
        }
      }
  }

  // ----- statements -----

  /** No condition is a bare variable: `beqz` on a memory operand is not an instruction. */
  predicate RegisterConditions(s: Stmt) {
    match s
    case Empty => true
    case Assign(_, _) => true
    case Seq(a, b) => RegisterConditions(a) && RegisterConditions(b)
    case Block(b) => RegisterConditions(b)
    case If(c, t, e) => !c.Ref? && RegisterConditions(t) && RegisterConditions(e)
    case While(c, b) => !c.Ref? && RegisterConditions(b)
  }

  /** Number of conditions, each of which keeps its register for the rest of the program. */
  function Leaked(s: Stmt): nat {
    match s
    case Empty => 0
    case Assign(_, _) => 0
    case Seq(a, b) => Leaked(a) + Leaked(b)
    case Block(b) => Leaked(b)
    case If(_, t, e) => 1 + Leaked(t) + Leaked(e)
    case While(_, b) => 1 + Leaked(b)
  }

  function StmtNeed(s: Stmt): nat {
    match s
    case Empty => 0
    case Assign(_, e) => Max(Need(e), 1)
    case Seq(a, b) => Max(StmtNeed(a), Leaked(a) + StmtNeed(b))
    case Block(b) => StmtNeed(b)
    case If(c, t, e) => Max(Need(c), 1 + Max(StmtNeed(t), Leaked(t) + StmtNeed(e)))
    case While(c, b) => Max(Need(c), 1 + StmtNeed(b))
  }

  /** Occupied registers stay occupied. */
  ghost predicate OnlyTakes(before: Flags, after: Flags) {
    forall i :: 0 <= i < 8 && before[i] != 0 ==> after[i] != 0
  }

  lemma AssignNeed(v: Var, e: Expr, flags: Flags)
    ensures CompileAssign(v, e, flags).ExprCode? <==> Max(Need(e), 1) <= Free(flags)
    ensures CompileAssign(v, e, flags).ExprCode? ==> CompileAssign(v, e, flags).flags == flags
  {
    ExprNeed(e, flags);
    var c := CompileExpr(e, flags);
    if c.ExprCode? {
      LoadFits(c.place, c.flags);
      var l := Load(c.place, c.flags);
      if l.ExprCode? {
        assert Placed(l.place, flags, l.flags);
        assert l.flags[l.place.r - 8 := 0] == flags;
      }
    }
    if e.Binary? || e.Const? { assert Need(e) >= 1; }
  }

  lemma CondNeed(e: Expr, flags: Flags)
    ensures CompileCond(e, flags).ExprCode? <==> !e.Ref? && Need(e) <= Free(flags)
    ensures CompileCond(e, flags).ExprCode? ==>
              OnlyTakes(flags, CompileCond(e, flags).flags) &&
              Free(CompileCond(e, flags).flags) == Free(flags) - 1
  {
    ExprNeed(e, flags);
  }

  /** Exact register need of a statement: it compiles if and only if no condition is a bare variable
      and StmtNeed(s) registers are free; each condition costs one register for good. */
  lemma {:induction false} StatementNeed(s: Stmt, labels: nat, flags: Flags)
    ensures CompileStmt(s, labels, flags).StmtCode? <==> RegisterConditions(s) && StmtNeed(s) <= Free(flags)
    ensures CompileStmt(s, labels, flags).StmtCode? ==>
              OnlyTakes(flags, CompileStmt(s, labels, flags).flags) &&
              Free(CompileStmt(s, labels, flags).flags) == Free(flags) - Leaked(s)
  {
    hide CompileExpr, CompileCond, CompileAssign, Free, Need;
    match s
    case Empty =>
    case Assign(v, e) => AssignNeed(v, e, flags);
    case Block(b) => StatementNeed(b, labels, flags);
    case Seq(a, b) =>
      StatementNeed(a, labels, flags);
      var c := CompileStmt(a, labels, flags);
      if c.StmtCode? { StatementNeed(b, c.labels, c.flags); }
    case If(cond, t, e) =>
      CondNeed(cond, flags);
      var c := CompileCond(cond, flags);
      if c.ExprCode? {
        StatementNeed(t, labels + 1, c.flags);
        var c1 := CompileStmt(t, labels + 1, c.flags);
        if c1.StmtCode? {
          StatementNeed(e, c1.labels, c1.flags);
          assert Free(c1.flags) == Free(flags) - 1 - Leaked(t);
        }
      }
    case While(cond, b) =>
      CondNeed(cond, flags);
      var c := CompileCond(cond, flags);
      if c.ExprCode? { StatementNeed(b, labels + 1, c.flags); }
  }

  /** A statement takes one label number for each condition. */
  lemma {:induction false} LabelCount(s: Stmt, labels: nat, flags: Flags)
    requires CompileStmt(s, labels, flags).StmtCode?
    ensures CompileStmt(s, labels, flags).labels == labels + Leaked(s)
  {
    hide CompileExpr, CompileCond, CompileAssign;
    match s
    case Empty =>
    case Assign(_, _) =>
    case Block(b) => LabelCount(b, labels, flags);
    case Seq(a, b) =>
      LabelCount(a, labels, flags);
      var c := CompileStmt(a, labels, flags);
      LabelCount(b, c.labels, c.flags);
    case If(cond, t, e) =>
      var c := CompileCond(cond, flags);
      LabelCount(t, labels + 1, c.flags);
      var c1 := CompileStmt(t, labels + 1, c.flags);
      LabelCount(e, c1.labels, c1.flags);
    case While(cond, b) => LabelCount(b, labels + 1, CompileCond(cond, flags).flags);
  }

  lemma {:induction false} LeakedIsNeeded(s: Stmt)
    ensures Leaked(s) <= StmtNeed(s)
  {
    match s
    case Empty =>
    case Assign(_, _) =>
    case Block(b) => LeakedIsNeeded(b);
    case Seq(a, b) => LeakedIsNeeded(a); LeakedIsNeeded(b);
    case If(_, t, e) => LeakedIsNeeded(t); LeakedIsNeeded(e);
    case While(_, b) => LeakedIsNeeded(b);
  }

  lemma FreeAtMost(flags: seq<int>)
    ensures Free(flags) <= |flags|
  {
  }

  /** A program with nine if or while conditions cannot be compiled, however simple they are. */
  lemma NineConditionsFail(s: Stmt, labels: nat, flags: Flags)
    requires Leaked(s) > 8
    ensures CompileStmt(s, labels, flags).Failed?
  {
    StatementNeed(s, labels, flags);
    LeakedIsNeeded(s);
    FreeAtMost(flags);
  }
}
