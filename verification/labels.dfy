/** Label discipline of the emitted code. */
module Labels {
  import opened CMinus
  import opened Mips
  import opened GeneratorSpec

  /** Labels defined in the code. */
  ghost function Defined(code: seq<Instr>): set<Label> {
    set i | 0 <= i < |code| && code[i].Mark? :: code[i].l
  }

  /** Labels the code jumps or branches to. */
  ghost function Targets(code: seq<Instr>): set<Label> {
    set i | 0 <= i < |code| && (code[i].Jump? || code[i].Beqz?) :: code[i].target
  }

  /** No label is defined twice. */
  ghost predicate Unique(code: seq<Instr>) {
    forall i, j :: 0 <= i < j < |code| && code[i].Mark? ==> code[i] != code[j]
  }

  /** All labels carry numbers in (lo, hi]. */
  ghost predicate Numbered(labels: set<Label>, lo: nat, hi: nat) {
    forall l :: l in labels ==> lo < l.n <= hi
  }

  /** Every label handed out so far is used once, and every jump stays inside. */
  ghost predicate Disciplined(code: seq<Instr>, lo: nat, hi: nat) {
    && lo <= hi
    && Unique(code)
    && Numbered(Defined(code), lo, hi)
    && Targets(code) <= Defined(code)
  }

  ghost predicate StraightLine(code: seq<Instr>) {
    forall i :: 0 <= i < |code| ==> !code[i].Mark? && !code[i].Jump? && !code[i].Beqz?
  }

  lemma DefinedConcat(a: seq<Instr>, b: seq<Instr>)
    ensures Defined(a + b) == Defined(a) + Defined(b)
  {
    forall l | l in Defined(a) ensures l in Defined(a + b) {
      var i :| 0 <= i < |a| && a[i].Mark? && a[i].l == l;
      assert (a + b)[i] == a[i];
    }
    forall l | l in Defined(b) ensures l in Defined(a + b) {
      var i :| 0 <= i < |b| && b[i].Mark? && b[i].l == l;
      assert (a + b)[|a| + i] == b[i];
    }
  }

  lemma TargetsConcat(a: seq<Instr>, b: seq<Instr>)
    ensures Targets(a + b) == Targets(a) + Targets(b)
  {
    forall l | l in Targets(a) ensures l in Targets(a + b) {
      var i :| 0 <= i < |a| && (a[i].Jump? || a[i].Beqz?) && a[i].target == l;
      assert (a + b)[i] == a[i];
    }
    forall l | l in Targets(b) ensures l in Targets(a + b) {
      var i :| 0 <= i < |b| && (b[i].Jump? || b[i].Beqz?) && b[i].target == l;
      assert (a + b)[|a| + i] == b[i];
    }
  }

  lemma UniqueConcat(a: seq<Instr>, b: seq<Instr>)
    requires Unique(a) && Unique(b) && Defined(a) !! Defined(b)
    ensures Unique(a + b)
  {
    var c := a + b;
    forall i, j | 0 <= i < j < |c| && c[i].Mark? ensures c[i] != c[j] {
      if i < |a| <= j {
        assert a[i].l in Defined(a);
        if b[j - |a|].Mark? { assert b[j - |a|].l in Defined(b); }
      }
    }
  }

  lemma StraightLineLabels(code: seq<Instr>)
    requires StraightLine(code)
    ensures Unique(code) && Defined(code) == {} && Targets(code) == {}
  {
  }

  lemma OneInstr(x: Instr)
    ensures Unique([x])
    ensures Defined([x]) == if x.Mark? then {x.l} else {}
    ensures Targets([x]) == if x.Jump? || x.Beqz? then {x.target} else {}
  {
    var c := [x];
    assert c[0] == x;
  }

  lemma StraightConcat(a: seq<Instr>, b: seq<Instr>)
    requires StraightLine(a) && StraightLine(b)
    ensures StraightLine(a + b)
  {
  }

  lemma CombineStraight(op: BinOp, c1: ExprCode, c2: ExprCode)
    requires c1.ExprCode? && c2.ExprCode? && StraightLine(c1.code) && StraightLine(c2.code)
    requires Combine(op, c1, c2).ExprCode?
    ensures StraightLine(Combine(op, c1, c2).code)
  {
    var l1 := Load(c1.place, c2.flags);
    var l2 := Load(c2.place, l1.flags);
    StraightConcat(c1.code, c2.code);
    StraightConcat(l1.code, l2.code);
    StraightConcat(c1.code + c2.code, Operation(op, c1.place, c2.place, c2.flags).code);
  }

  lemma {:induction false} ExprStraight(e: Expr, flags: Flags)
    requires CompileExpr(e, flags).ExprCode?
    ensures StraightLine(CompileExpr(e, flags).code)
  {
    if e.Binary? {
      ExprStraight(e.left, flags);
      var c1 := CompileExpr(e.left, flags);
      ExprStraight(e.right, c1.flags);
      CombineStraight(e.op, c1, CompileExpr(e.right, c1.flags));
    }
  }

  lemma AssignStraight(v: Var, e: Expr, flags: Flags)
    requires CompileAssign(v, e, flags).ExprCode?
    ensures StraightLine(CompileAssign(v, e, flags).code)
  {
    ExprStraight(e, flags);
  }

  lemma SeqDiscipline(a: seq<Instr>, b: seq<Instr>, lo: nat, mid: nat, hi: nat)
    requires Disciplined(a, lo, mid) && Disciplined(b, mid, hi)
    ensures Disciplined(a + b, lo, hi)
  {
    DefinedConcat(a, b);
    TargetsConcat(a, b);
    UniqueConcat(a, b);
  }

  /** Appending one instruction. */
  lemma Append(a: seq<Instr>, x: Instr)
    requires Unique(a) && (x.Mark? ==> x.l !in Defined(a))
    ensures Unique(a + [x])
    ensures Defined(a + [x]) == Defined(a) + (if x.Mark? then {x.l} else {})
    ensures Targets(a + [x]) == Targets(a) + (if x.Jump? || x.Beqz? then {x.target} else {})
  {
    OneInstr(x);
    DefinedConcat(a, [x]);
    TargetsConcat(a, [x]);
    UniqueConcat(a, [x]);
  }

  lemma Join(a: seq<Instr>, b: seq<Instr>)
    requires Unique(a) && Unique(b) && Defined(a) !! Defined(b)
    ensures Unique(a + b) && Defined(a + b) == Defined(a) + Defined(b) && Targets(a + b) == Targets(a) + Targets(b)
  {
    DefinedConcat(a, b);
    TargetsConcat(a, b);
    UniqueConcat(a, b);
  }

  lemma IfDiscipline(cond: seq<Instr>, r: Temp, n: nat, thn: seq<Instr>, els: seq<Instr>, mid: nat, hi: nat)
    requires n > 0 && StraightLine(cond)
    requires Disciplined(thn, n, mid) && Disciplined(els, mid, hi)
    ensures Disciplined(IfCode(cond, r, n, thn, els), n - 1, hi)
  {
    StraightLineLabels(cond);
    var c1 := cond + [Beqz(r, Lelse(n))];
    Append(cond, Beqz(r, Lelse(n)));
    var c2 := c1 + thn;
    Join(c1, thn);
    var c3 := c2 + [Jump(Lexit(n))];
    Append(c2, Jump(Lexit(n)));
    var c4 := c3 + [Mark(Lelse(n))];
    Append(c3, Mark(Lelse(n)));
    var c5 := c4 + els;
    Join(c4, els);
    Append(c5, Mark(Lexit(n)));
    assert c4 == c2 + [Jump(Lexit(n)), Mark(Lelse(n))];
    assert IfCode(cond, r, n, thn, els) == c5 + [Mark(Lexit(n))];
  }

  lemma WhileDiscipline(cond: seq<Instr>, r: Temp, n: nat, body: seq<Instr>, hi: nat)
    requires n > 0 && StraightLine(cond) && Disciplined(body, n, hi)
    ensures Disciplined(WhileCode(cond, r, n, body), n - 1, hi)
  {
    StraightLineLabels(cond);
    OneInstr(Mark(Test(n)));
    var c1 := [Mark(Test(n))] + cond;
    Join([Mark(Test(n))], cond);
    var c2 := c1 + [Beqz(r, Lexit(n))];
    Append(c1, Beqz(r, Lexit(n)));
    var c3 := c2 + body;
    Join(c2, body);
    var c4 := c3 + [Jump(Test(n))];
    Append(c3, Jump(Test(n)));
    Append(c4, Mark(Lexit(n)));
    assert WhileCode(cond, r, n, body) == c4 + [Mark(Lexit(n))];
  }

  /** For every statement: labels defined at most once, all jumps to defined labels, and all numbers
      between the counter before and the counter after. */
  lemma {:induction false} StatementLabels(s: Stmt, labels: nat, flags: Flags)
    requires CompileStmt(s, labels, flags).StmtCode?
    ensures Disciplined(CompileStmt(s, labels, flags).code, labels, CompileStmt(s, labels, flags).labels)
  {
    hide CompileExpr, CompileAssign;
    match s
    case Empty =>
    case Assign(v, e) =>
      AssignStraight(v, e, flags);
      StraightLineLabels(CompileAssign(v, e, flags).code);
    case Seq(a, b) =>
      StatementLabels(a, labels, flags);
      var c1 := CompileStmt(a, labels, flags);
      StatementLabels(b, c1.labels, c1.flags);
      var c2 := CompileStmt(b, c1.labels, c1.flags);
      SeqDiscipline(c1.code, c2.code, labels, c1.labels, c2.labels);
    case Block(b) =>
      StatementLabels(b, labels, flags);
      OneInstr(Nop);
      Join([Nop], CompileStmt(b, labels, flags).code);
    case If(cond, t, e) =>
      ExprStraight(cond, flags);
      var c := CompileCond(cond, flags);
      StatementLabels(t, labels + 1, c.flags);
      var c1 := CompileStmt(t, labels + 1, c.flags);
      StatementLabels(e, c1.labels, c1.flags);
      var c2 := CompileStmt(e, c1.labels, c1.flags);
      IfDiscipline(c.code, c.place.r, labels + 1, c1.code, c2.code, c1.labels, c2.labels);
    case While(cond, b) =>
      ExprStraight(cond, flags);
      var c := CompileCond(cond, flags);
      StatementLabels(b, labels + 1, c.flags);
      var c1 := CompileStmt(b, labels + 1, c.flags);
      WhileDiscipline(c.code, c.place.r, labels + 1, c1.code, c1.labels);
  }

  /** In disciplined code a label leads to its one definition. */
  lemma PositionIsUnique(code: seq<Instr>, i: nat)
    requires Unique(code) && i < |code| && code[i].Mark?
    ensures Position(code, code[i].l) == i
  {
    var p := Position(code, code[i].l);
    assert p <= i;
  }
}
