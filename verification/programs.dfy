/** What emitted code does, said in numbers alone: one operation, and a program with a loop and a branch. */
module Programs {
  import opened Bits
  import opened CMinus
  import opened Wrappers
  import opened Mips
  import opened GeneratorSpec
  import opened RegisterNeed
  import opened ExprMeaning
  import opened Meaning

  // ----- one operation -----

  predicate Tells(x: int, b: bool) {
    x == if b then 1 else 0
  }

  /** x is what C has for a op b. */
  predicate IsResult(op: BinOp, a: int, b: int, x: int) {
    match op
    case Plus => x == a + b
    case Minus => x == a - b
    case Times => x == a * b
    case Divide => b != 0 && Quotient(a, b, x)
    case And => Tells(x, a != 0 && b != 0)
    case Or => Tells(x, a != 0 || b != 0)
    case Le => Tells(x, a <= b)
    case Ge => Tells(x, a >= b)
    case Lt => Tells(x, a < b)
    case Gt => Tells(x, a > b)
    case Eq => Tells(x, a == b)
    case Ne => Tells(x, a != b)
  }

  lemma ResultExactly(op: BinOp, a: Word, b: Word, x: Word)
    ensures Apply(op, a, b) == Some(x) <==> IsResult(op, a, b, x)
  {
    hide Quotient, TruncDiv;
    if op == Divide && b != 0 { TruncDivExactly(a, b, x); }
  }

  lemma AssignmentEnds(v: Var, e: Expr, labels: nat, flags: Flags, regs: Regs, m: Memory)
    requires CompileStmt(Assign(v, e), labels, flags).StmtCode?
    ensures forall m' :: Halts(CompileStmt(Assign(v, e), labels, flags).code, regs, m, m') <==>
                         CodeValue(e, m).Some? && m' == m[v := CodeValue(e, m).value]
  {
    hide CompileStmt, Halts, Terminates, CodeValue;
    forall m' ensures Halts(CompileStmt(Assign(v, e), labels, flags).code, regs, m, m') <==>
                      CodeValue(e, m).Some? && m' == m[v := CodeValue(e, m).value] {
      CodeMeaning(Assign(v, e), labels, flags, regs, m, m');
      OneAssignment(CodeValue, v, e, m, m');
    }
  }

  /** The code of `v = l op r` stores the result and does nothing else. */
  lemma OperationStores(op: BinOp, v: Var, l: Expr, r: Expr, labels: nat, flags: Flags, regs: Regs, m: Memory,
                        x: Word)
    requires CompileStmt(Assign(v, Binary(op, l, r)), labels, flags).StmtCode?
    requires CodeValue(l, m).Some? && CodeValue(r, m).Some?
    requires OperandsAgree(op, CodeValue(l, m).value, CodeValue(r, m).value)
    requires IsResult(op, CodeValue(l, m).value, CodeValue(r, m).value, x)
    ensures forall m' :: Halts(CompileStmt(Assign(v, Binary(op, l, r)), labels, flags).code, regs, m, m') <==>
                         m' == m[v := x]
  {
    hide CompileStmt, Halts, Terminates, Alu, Apply, OperandsAgree, IsResult;
    ResultExactly(op, CodeValue(l, m).value, CodeValue(r, m).value, x);
    OperatorExactly(op, CodeValue(l, m).value, CodeValue(r, m).value);
    AssignmentEnds(v, Binary(op, l, r), labels, flags, regs, m);
  }

  predicate Traps(op: BinOp, a: int, b: int) {
    (op == Plus && !InWord(a + b)) || (op == Minus && !InWord(a - b)) || (op == Divide && b == 0)
  }

  lemma NoValue(op: BinOp, a: Word, b: Word)
    ensures Alu(Mnem(op), a, b).None? <==> Traps(op, a, b)
  {
    hide BitAnd, BitOr, TruncDiv, Wrap;
  }

  /** It never ends exactly when a sum or a difference is no word, or a divisor is 0. */
  lemma OperationTraps(op: BinOp, v: Var, l: Expr, r: Expr, labels: nat, flags: Flags, regs: Regs, m: Memory)
    requires CompileStmt(Assign(v, Binary(op, l, r)), labels, flags).StmtCode?
    requires CodeValue(l, m).Some? && CodeValue(r, m).Some?
    ensures (forall m' :: !Halts(CompileStmt(Assign(v, Binary(op, l, r)), labels, flags).code, regs, m, m')) <==>
            Traps(op, CodeValue(l, m).value, CodeValue(r, m).value)
  {
    hide CompileStmt, Halts, Alu, Traps, Mnem;
    var e := Binary(op, l, r);
    AssignmentEnds(v, e, labels, flags, regs, m);
    NoValue(op, CodeValue(l, m).value, CodeValue(r, m).value);
    if CodeValue(e, m).Some? {
      assert Halts(CompileStmt(Assign(v, e), labels, flags).code, regs, m, m[v := CodeValue(e, m).value]);
    }
  }

  /** A product is stored modulo 2 to the 32nd. */
  lemma ProductStores(v: Var, l: Expr, r: Expr, labels: nat, flags: Flags, regs: Regs, m: Memory, x: Word)
    requires CompileStmt(Assign(v, Binary(Times, l, r)), labels, flags).StmtCode?
    requires CodeValue(l, m).Some? && CodeValue(r, m).Some?
    requires (CodeValue(l, m).value * CodeValue(r, m).value - x) % 0x1_0000_0000 == 0
    ensures Halts(CompileStmt(Assign(v, Binary(Times, l, r)), labels, flags).code, regs, m, m[v := x])
  {
    hide CompileStmt, Halts;
    AssignmentEnds(v, Binary(Times, l, r), labels, flags, regs, m);
    WrapExactly(CodeValue(l, m).value * CodeValue(r, m).value, x);
  }

  /** The logical operators are stored bit by bit. */
  lemma LogicalStores(op: BinOp, v: Var, l: Expr, r: Expr, labels: nat, flags: Flags, regs: Regs, m: Memory)
    returns (x: Word)
    requires op in {And, Or}
    requires CompileStmt(Assign(v, Binary(op, l, r)), labels, flags).StmtCode?
    requires CodeValue(l, m).Some? && CodeValue(r, m).Some?
    ensures Halts(CompileStmt(Assign(v, Binary(op, l, r)), labels, flags).code, regs, m, m[v := x])
    ensures var a, b := Unsigned(CodeValue(l, m).value), Unsigned(CodeValue(r, m).value);
            forall k :: Bit(Unsigned(x), k) == if op == And then Bit(a, k) && Bit(b, k) else Bit(a, k) || Bit(b, k)
  {
    hide CompileStmt, Halts, BitAnd, BitOr, Bit;
    AssignmentEnds(v, Binary(op, l, r), labels, flags, regs, m);
    var a, b := Unsigned(CodeValue(l, m).value), Unsigned(CodeValue(r, m).value);
    var u := if op == And then BitAnd(a, b) else BitOr(a, b);
    WordPower();
    AndBound(a, b);
    OrBounds(a, b, 32);
    x := Wrap(u);
    assert Unsigned(x) == u;
    forall k ensures Bit(u, k) == if op == And then Bit(a, k) && Bit(b, k) else Bit(a, k) || Bit(b, k) {
      BitwiseExactly(a, b, k);
    }
  }

  // ----- statements made of statements -----

  lemma TerminatesWith(ev: Evaluator, s: Stmt, fuel: nat, m: Memory, m': Memory)
    requires Exec(ev, s, fuel, m).Done? && Exec(ev, s, fuel, m).mem == m'
    ensures Terminates(ev, s, m, m')
  {
  }

  lemma SeqExec(ev: Evaluator, a: Stmt, b: Stmt, fuel: nat, m: Memory)
    ensures var o := Exec(ev, a, fuel, m);
            Exec(ev, Seq(a, b), fuel, m) == if o.Done? then Exec(ev, b, o.left, o.mem) else o
  {
  }

  lemma SeqTerminates(ev: Evaluator, a: Stmt, b: Stmt, m: Memory, m': Memory)
    ensures Terminates(ev, Seq(a, b), m, m') <==> exists mid :: Terminates(ev, a, m, mid) && Terminates(ev, b, mid, m')
  {
    hide Exec;
    if Terminates(ev, Seq(a, b), m, m') {
      var f: nat :| Exec(ev, Seq(a, b), f, m).Done? && Exec(ev, Seq(a, b), f, m).mem == m';
      SeqExec(ev, a, b, f, m);
      var o := Exec(ev, a, f, m);
      TerminatesWith(ev, a, f, m, o.mem);
      TerminatesWith(ev, b, o.left, o.mem, m');
    }
    forall mid | Terminates(ev, a, m, mid) && Terminates(ev, b, mid, m') ensures Terminates(ev, Seq(a, b), m, m') {
      SeqJoins(ev, a, b, m, mid, m');
    }
  }

  lemma SeqJoins(ev: Evaluator, a: Stmt, b: Stmt, m: Memory, mid: Memory, m': Memory)
    requires Terminates(ev, a, m, mid) && Terminates(ev, b, mid, m')
    ensures Terminates(ev, Seq(a, b), m, m')
  {
    hide Exec;
    var f: nat :| Exec(ev, a, f, m).Done? && Exec(ev, a, f, m).mem == mid;
    var g: nat :| Exec(ev, b, g, mid).Done? && Exec(ev, b, g, mid).mem == m';
    MoreFuel(ev, a, f, g, m);
    MoreFuel(ev, b, g, Exec(ev, a, f, m).left, mid);
    SeqExec(ev, a, b, f + g, m);
    TerminatesWith(ev, Seq(a, b), f + g, m, m');
  }

  lemma LoopExec(ev: Evaluator, c: Expr, b: Stmt, fuel: nat, m: Memory)
    requires ev(c, m).Some? && ev(c, m).value != 0
    ensures Exec(ev, While(c, b), 0, m) == Timeout
    ensures fuel > 0 ==>
              var o := Exec(ev, b, fuel - 1, m);
              Exec(ev, While(c, b), fuel, m) == if o.Done? then Exec(ev, While(c, b), o.left, o.mem) else o
  {
  }

  lemma LoopEnds(ev: Evaluator, c: Expr, b: Stmt, fuel: nat, m: Memory)
    ensures ev(c, m).None? ==> Exec(ev, While(c, b), fuel, m) == Undefined
    ensures ev(c, m).Some? && ev(c, m).value == 0 ==> Exec(ev, While(c, b), fuel, m) == Done(m, fuel)
  {
  }

  lemma LoopTerminates(ev: Evaluator, c: Expr, b: Stmt, m: Memory, m': Memory)
    ensures Terminates(ev, While(c, b), m, m') <==>
            ev(c, m).Some? &&
            if ev(c, m).value == 0 then m' == m
            else exists mid :: Terminates(ev, b, m, mid) && Terminates(ev, While(c, b), mid, m')
  {
    hide Exec;
    var s := While(c, b);
    if Terminates(ev, s, m, m') {
      var f: nat :| Exec(ev, s, f, m).Done? && Exec(ev, s, f, m).mem == m';
      LoopEnds(ev, c, b, f, m);
      if ev(c, m).value != 0 {
        LoopExec(ev, c, b, f, m);
        var o := Exec(ev, b, f - 1, m);
        TerminatesWith(ev, b, f - 1, m, o.mem);
        TerminatesWith(ev, s, o.left, o.mem, m');
      }
    }
    if ev(c, m).Some? && ev(c, m).value == 0 {
      LoopEnds(ev, c, b, 0, m);
      TerminatesWith(ev, s, 0, m, m);
    }
    forall mid | ev(c, m).Some? && ev(c, m).value != 0 && Terminates(ev, b, m, mid) && Terminates(ev, s, mid, m')
      ensures Terminates(ev, s, m, m')
    {
      LoopAgain(ev, c, b, m, mid, m');
    }
  }

  lemma LoopAgain(ev: Evaluator, c: Expr, b: Stmt, m: Memory, mid: Memory, m': Memory)
    requires ev(c, m).Some? && ev(c, m).value != 0
    requires Terminates(ev, b, m, mid) && Terminates(ev, While(c, b), mid, m')
    ensures Terminates(ev, While(c, b), m, m')
  {
    hide Exec;
    var s := While(c, b);
    var f: nat :| Exec(ev, b, f, m).Done? && Exec(ev, b, f, m).mem == mid;
    var g: nat :| Exec(ev, s, g, mid).Done? && Exec(ev, s, g, mid).mem == m';
    MoreFuel(ev, b, f, g, m);
    MoreFuel(ev, s, g, Exec(ev, b, f, m).left, mid);
    LoopExec(ev, c, b, f + g + 1, m);
    TerminatesWith(ev, s, f + g + 1, m, m');
  }

  lemma BranchTerminates(ev: Evaluator, c: Expr, a: Stmt, b: Stmt, m: Memory, m': Memory)
    ensures Terminates(ev, If(c, a, b), m, m') <==>
            ev(c, m).Some? && if ev(c, m).value != 0 then Terminates(ev, a, m, m') else Terminates(ev, b, m, m')
  {
    assert forall f: nat :: Exec(ev, If(c, a, b), f, m) ==
                            if ev(c, m).None? then Undefined
                            else if ev(c, m).value != 0 then Exec(ev, a, f, m) else Exec(ev, b, f, m);
  }

  /** The code of s, compiled where it stands, takes m to m'. */
  ghost predicate Takes(s: Stmt, labels: nat, flags: Flags, regs: Regs, m: Memory, m': Memory) {
    CompileStmt(s, labels, flags).StmtCode? && Halts(CompileStmt(s, labels, flags).code, regs, m, m')
  }

  /** The code of a sequence runs the code of the first part, then that of the second. */
  lemma SequenceExactly(a: Stmt, b: Stmt, labels: nat, flags: Flags, regs: Regs, m: Memory, m': Memory)
    requires CompileStmt(Seq(a, b), labels, flags).StmtCode?
    ensures CompileStmt(a, labels, flags).StmtCode?
    ensures var c := CompileStmt(a, labels, flags);
            Takes(Seq(a, b), labels, flags, regs, m, m') <==>
            exists mid :: Takes(a, labels, flags, regs, m, mid) && Takes(b, c.labels, c.flags, regs, mid, m')
  {
    hide Halts, Terminates;
    var c := CompileStmt(a, labels, flags);
    SeqTerminates(CodeValue, a, b, m, m');
    CodeMeaning(Seq(a, b), labels, flags, regs, m, m');
    forall mid ensures Takes(a, labels, flags, regs, m, mid) <==> Terminates(CodeValue, a, m, mid)
               ensures Takes(b, c.labels, c.flags, regs, mid, m') <==> Terminates(CodeValue, b, mid, m') {
      CodeMeaning(a, labels, flags, regs, m, mid);
      CodeMeaning(b, c.labels, c.flags, regs, mid, m');
    }
    if Takes(Seq(a, b), labels, flags, regs, m, m') {
      var mid :| Terminates(CodeValue, a, m, mid) && Terminates(CodeValue, b, mid, m');
      assert Takes(a, labels, flags, regs, m, mid) && Takes(b, c.labels, c.flags, regs, mid, m');
    }
  }

  /** The code of a branch runs the code of the first part if the condition is not 0, else that of the second. */
  lemma BranchExactly(e: Expr, a: Stmt, b: Stmt, labels: nat, flags: Flags, regs: Regs, m: Memory, m': Memory)
    requires CompileStmt(If(e, a, b), labels, flags).StmtCode?
    ensures CompileCond(e, flags).ExprCode?
    ensures var c := CompileCond(e, flags);
            var c1 := CompileStmt(a, labels + 1, c.flags);
            && c1.StmtCode?
            && (Takes(If(e, a, b), labels, flags, regs, m, m') <==>
                && CodeValue(e, m).Some?
                && if CodeValue(e, m).value != 0 then Takes(a, labels + 1, c.flags, regs, m, m')
                   else Takes(b, c1.labels, c1.flags, regs, m, m'))
  {
    hide Halts, Terminates, CodeValue;
    var c := CompileCond(e, flags);
    var c1 := CompileStmt(a, labels + 1, c.flags);
    BranchTerminates(CodeValue, e, a, b, m, m');
    CodeMeaning(If(e, a, b), labels, flags, regs, m, m');
    CodeMeaning(a, labels + 1, c.flags, regs, m, m');
    CodeMeaning(b, c1.labels, c1.flags, regs, m, m');
  }

  /** The code of a loop does nothing more if the condition is 0, else runs the code of the body and then what
      itself does from there. */
  lemma LoopExactly(e: Expr, b: Stmt, labels: nat, flags: Flags, regs: Regs, m: Memory, m': Memory)
    requires CompileStmt(While(e, b), labels, flags).StmtCode?
    ensures CompileCond(e, flags).ExprCode?
    ensures var c := CompileCond(e, flags);
            Takes(While(e, b), labels, flags, regs, m, m') <==>
            CodeValue(e, m).Some? &&
            if CodeValue(e, m).value == 0 then m' == m
            else exists mid :: Takes(b, labels + 1, c.flags, regs, m, mid) &&
                               Takes(While(e, b), labels, flags, regs, mid, m')
  {
    hide Halts, Terminates, CodeValue;
    var c := CompileCond(e, flags);
    LoopTerminates(CodeValue, e, b, m, m');
    CodeMeaning(While(e, b), labels, flags, regs, m, m');
    forall mid ensures Takes(b, labels + 1, c.flags, regs, m, mid) <==> Terminates(CodeValue, b, m, mid)
               ensures Takes(While(e, b), labels, flags, regs, mid, m') <==>
                       Terminates(CodeValue, While(e, b), mid, m') {
      CodeMeaning(b, labels + 1, c.flags, regs, m, mid);
      CodeMeaning(While(e, b), labels, flags, regs, mid, m');
    }
    if Takes(While(e, b), labels, flags, regs, m, m') && CodeValue(e, m).value != 0 {
      var mid :| Terminates(CodeValue, b, m, mid) && Terminates(CodeValue, While(e, b), mid, m');
      assert Takes(b, labels + 1, c.flags, regs, m, mid) && Takes(While(e, b), labels, flags, regs, mid, m');
    }
  }

  // ----- a program -----

  /** while (x != y) if (x > y) x = x - y; else y = y - x; */
  function Branch(x: Var, y: Var): Stmt {
    If(Binary(Gt, Ref(x), Ref(y)), Assign(x, Binary(Minus, Ref(x), Ref(y))), Assign(y, Binary(Minus, Ref(y), Ref(x))))
  }

  function Euclid(x: Var, y: Var): Stmt {
    While(Binary(Ne, Ref(x), Ref(y)), Branch(x, y))
  }

  ghost predicate Divides(d: nat, a: nat) {
    exists k: nat :: a == k * d
  }

  ghost predicate IsGcd(g: nat, a: nat, b: nat) {
    Divides(g, a) && Divides(g, b) && forall d :: Divides(d, a) && Divides(d, b) ==> Divides(d, g)
  }

  lemma DividesSum(d: nat, a: nat, b: nat)
    requires Divides(d, b)
    ensures Divides(d, a) <==> Divides(d, a + b)
  {
    var j: nat :| b == j * d;
    if Divides(d, a) {
      var i: nat :| a == i * d;
      assert a + b == (i + j) * d;
    }
    if Divides(d, a + b) {
      var i: nat :| a + b == i * d;
      if i >= j { assert a == (i - j) * d; } else { Smaller(i, j, d); assert a == 0 * d; }
    }
  }

  lemma Smaller(i: nat, j: nat, d: nat)
    requires i < j
    ensures i * d <= j * d
  {
  }

  lemma GcdOfSum(g: nat, a: nat, b: nat)
    requires IsGcd(g, a, b)
    ensures IsGcd(g, a + b, b) && IsGcd(g, b, a + b)
  {
    DividesSum(g, a, b);
    forall d | Divides(d, b) ensures Divides(d, a) <==> Divides(d, a + b) {
      DividesSum(d, a, b);
    }
  }

  lemma GcdOfSame(a: nat)
    ensures IsGcd(a, a, a)
  {
    assert a == 1 * a;
  }

  ghost predicate SameBut(m: Memory, m': Memory, x: Var, y: Var) {
    forall v :: v != x && v != y ==> (v in m <==> v in m') && (v in m ==> m[v] == m'[v])
  }

  /** One round. */
  lemma BranchRuns(x: Var, y: Var, m: Memory, fuel: nat)
    requires Read(m, x) > 0 && Read(m, y) > 0 && Read(m, x) != Read(m, y)
    ensures Exec(Eval, Branch(x, y), fuel, m) ==
            Done(if Read(m, x) > Read(m, y) then m[x := Read(m, x) - Read(m, y)] else m[y := Read(m, y) - Read(m, x)],
                 fuel)
  {
    var c := Binary(Gt, Ref(x), Ref(y));
    assert Eval(Ref(x), m) == Some(Read(m, x)) && Eval(Ref(y), m) == Some(Read(m, y));
    assert Eval(c, m) == Some(Truth(Read(m, x) > Read(m, y)));
  }

  function Reduced(x: Var, y: Var, m: Memory): Memory
    requires Read(m, x) > 0 && Read(m, y) > 0
  {
    var a, b := Read(m, x), Read(m, y);
    if a > b then m[x := a - b] else if b > a then m[y := b - a] else m
  }

  lemma EuclidStep(x: Var, y: Var, m: Memory, fuel: nat)
    requires Read(m, x) > 0 && Read(m, y) > 0
    ensures Exec(Eval, Euclid(x, y), fuel + 1, m) ==
            if Read(m, x) == Read(m, y) then Done(m, fuel + 1) else Exec(Eval, Euclid(x, y), fuel, Reduced(x, y, m))
  {
    hide Branch;
    var a, b := Read(m, x), Read(m, y);
    assert Eval(Ref(x), m) == Some(a) && Eval(Ref(y), m) == Some(b);
    assert Eval(Binary(Ne, Ref(x), Ref(y)), m) == Some(Truth(a != b));
    if a != b { BranchRuns(x, y, m, fuel); }
  }

  lemma {:induction false} EuclidRuns(x: Var, y: Var, m: Memory) returns (fuel: nat)
    requires x != y && Read(m, x) > 0 && Read(m, y) > 0
    ensures var o := Exec(Eval, Euclid(x, y), fuel, m);
            && o.Done? && SameBut(m, o.mem, x, y)
            && Read(o.mem, x) > 0 && Read(o.mem, x) == Read(o.mem, y)
            && IsGcd(Read(o.mem, x), Read(m, x), Read(m, y))
    decreases Read(m, x) + Read(m, y)
  {
    hide IsGcd, Exec, Euclid;
    var a, b := Read(m, x), Read(m, y);
    if a == b {
      fuel := 1;
      EuclidStep(x, y, m, 0);
      GcdOfSame(a);
    } else {
      var m1 := Reduced(x, y, m);
      var f := EuclidRuns(x, y, m1);
      fuel := f + 1;
      EuclidStep(x, y, m, f);
      var g := Read(Exec(Eval, Euclid(x, y), f, m1).mem, x);
      if a > b {
        GcdOfSum(g, a - b, b);
      } else {
        GcdOfSwapped(g, a, b - a);
        GcdOfSum(g, b - a, a);
      }
    }
  }

  lemma GcdOfSwapped(g: nat, a: nat, b: nat)
    requires IsGcd(g, a, b)
    ensures IsGcd(g, b, a)
  {
  }

  /** The emitted code of Euclid's algorithm by subtraction ends, with the greatest common divisor in both
      variables and everything else as it was, for all positive numbers. */
  lemma CompiledEuclid(x: Var, y: Var, labels: nat, flags: Flags, regs: Regs, m: Memory) returns (m': Memory)
    requires x != y && Read(m, x) > 0 && Read(m, y) > 0 && Free(flags) >= 5
    ensures CompileStmt(Euclid(x, y), labels, flags).StmtCode?
    ensures forall m'' :: Halts(CompileStmt(Euclid(x, y), labels, flags).code, regs, m, m'') <==> m'' == m'
    ensures SameBut(m, m', x, y)
    ensures Read(m', x) > 0 && Read(m', x) == Read(m', y) && IsGcd(Read(m', x), Read(m, x), Read(m, y))
  {
    hide Halts, CompileStmt, Exec, IsGcd, SameBut, Euclid;
    var s := Euclid(x, y);
    EuclidFits(x, y);
    StatementNeed(s, labels, flags);
    var fuel := EuclidRuns(x, y, m);
    m' := Exec(Eval, s, fuel, m).mem;
    assert Terminates(Eval, s, m, m');
    Fates(Eval, s, m);
    FaithfulAgreesStmt(s);
    forall m'' ensures Halts(CompileStmt(s, labels, flags).code, regs, m, m'') <==> m'' == m' {
      MeaningPreserved(s, labels, flags, regs, m, m'');
    }
  }

  lemma EuclidFits(x: Var, y: Var)
    ensures StmtNeed(Euclid(x, y)) <= 5 && RegisterConditions(Euclid(x, y)) && FaithfulStmt(Euclid(x, y))
  {
    hide Need, Faithful, Branch;
    OperationFits(Ne, x, y);
    BranchFits(x, y);
  }

  lemma OperationFits(op: BinOp, x: Var, y: Var)
    ensures Need(Binary(op, Ref(x), Ref(y))) <= 3
    ensures op !in {And, Or} ==> Faithful(Binary(op, Ref(x), Ref(y)))
  {
    assert Need(Ref(x)) <= 1 && Need(Ref(y)) <= 1;
    assert Faithful(Ref(x)) && Faithful(Ref(y));
  }

  lemma BranchFits(x: Var, y: Var)
    ensures StmtNeed(Branch(x, y)) <= 4 && RegisterConditions(Branch(x, y)) && FaithfulStmt(Branch(x, y))
  {
    hide Need, Faithful;
    OperationFits(Gt, x, y);
    OperationFits(Minus, x, y);
    OperationFits(Minus, y, x);
    var s, t := Assign(x, Binary(Minus, Ref(x), Ref(y))), Assign(y, Binary(Minus, Ref(y), Ref(x)));
    assert StmtNeed(s) <= 3 && StmtNeed(t) <= 3 && FaithfulStmt(s) && FaithfulStmt(t);
    assert Leaked(s) == 0 && RegisterConditions(s) && RegisterConditions(t);
  }
}
