/** Meaning preservation: the emitted labelled code does what the C-- statement does, wherever its
    expressions are computed as C has them. */
module Meaning {
  import opened Bits
  import opened CMinus
  import opened Wrappers
  import opened Mips
  import opened GeneratorSpec
  import opened Labels
  import opened ExprMeaning

  /** What a fragment of length len must do for a statement with outcome o on budget fuel:
      a finished statement leaves the machine at the end of the fragment with the same memory;
      one that uses up its budget keeps the machine inside for at least that many steps; and one that
      meets an expression without a value stops it inside. */
  ghost predicate Simulated(code: seq<Instr>, start: Config, len: nat, o: Outcome, fuel: nat, n: nat, c: Config) {
    match o
    case Done(m, left) =>
      Reaches(code, start, n, c) && n + left >= fuel && c.pc == start.pc + len && c.mem == m
    case Timeout =>
      Reaches(code, start, n, c) && n >= fuel && start.pc <= c.pc < start.pc + len
    case Undefined => Stuck(code, start, len, n, c)
  }

  /** Some run of the machine does so. */
  ghost predicate Simulates(code: seq<Instr>, start: Config, len: nat, o: Outcome, fuel: nat) {
    exists n: nat, c: Config :: Simulated(code, start, len, o, fuel, n, c)
  }

  /** s may be run here. */
  ghost predicate Runnable(code: seq<Instr>, base: nat, s: Stmt, labels: nat, flags: Flags) {
    && Unique(code)
    && CompileStmt(s, labels, flags).StmtCode?
    && At(code, base, CompileStmt(s, labels, flags).code)
  }

  // ----- single instructions -----

  lemma StepNext(code: seq<Instr>, c: Config)
    requires c.pc < |code| && (code[c.pc].Nop? || code[c.pc].Mark?)
    ensures Reaches(code, c, 1, c.(pc := c.pc + 1))
  {
    assert Run(code, c.(pc := c.pc + 1), 0) == Some(c.(pc := c.pc + 1));
  }

  lemma StepJump(code: seq<Instr>, c: Config, p: nat)
    requires Unique(code) && c.pc < |code| && code[c.pc].Jump? && p < |code| && code[p] == Mark(code[c.pc].target)
    ensures Reaches(code, c, 1, c.(pc := p))
  {
    PositionIsUnique(code, p);
    assert Run(code, c.(pc := p), 0) == Some(c.(pc := p));
  }

  lemma StepBranch(code: seq<Instr>, c: Config, p: nat)
    requires Unique(code) && c.pc < |code| && code[c.pc].Beqz? && p < |code| && code[p] == Mark(code[c.pc].target)
    ensures Reaches(code, c, 1, c.(pc := if c.regs[code[c.pc].rs - 8] != 0 then c.pc + 1 else p))
  {
    PositionIsUnique(code, p);
    var c' := c.(pc := if c.regs[code[c.pc].rs - 8] != 0 then c.pc + 1 else p);
    assert Run(code, c', 0) == Some(c');
  }

  /** A condition and its branch: falls through on a non-zero value, else goes to the label. */
  lemma ConditionRuns(code: seq<Instr>, base: nat, e: Expr, flags: Flags, regs: Regs, m: Memory, l: Label, p: nat)
    returns (regs': Regs)
    requires Unique(code) && CodeValue(e, m).Some? && CompileCond(e, flags).ExprCode?
    requires At(code, base, CompileCond(e, flags).code)
    requires base + |CompileCond(e, flags).code| < |code|
    requires code[base + |CompileCond(e, flags).code|] == Beqz(CompileCond(e, flags).place.r, l)
    requires p < |code| && code[p] == Mark(l)
    ensures var len := |CompileCond(e, flags).code|;
            Reaches(code, Config(base, regs, m), len + 1,
                    Config(if CodeValue(e, m).value != 0 then base + len + 1 else p, regs', m))
  {
    hide At, Unique, Run, CodeValue, CompileExpr;
    var c := CompileCond(e, flags);
    assert Ready(code, base, e, flags);
    regs' := ExprRuns(code, base, e, flags, regs, m);
    var mid := Config(base + |c.code|, regs', m);
    StepBranch(code, mid, p);
    RunJoin(code, Config(base, regs, m), |c.code|, mid, 1, mid.(pc := if CodeValue(e,
        m).value != 0 then mid.pc + 1 else p));
  }

  lemma AssignRuns(code: seq<Instr>, base: nat, v: Var, e: Expr, flags: Flags, regs: Regs, m: Memory)
    returns (regs': Regs)
    requires CodeValue(e, m).Some? && CompileAssign(v, e, flags).ExprCode?
    requires At(code, base, CompileAssign(v, e, flags).code)
    ensures var len := |CompileAssign(v, e, flags).code|;
            Reaches(code, Config(base, regs, m), len, Config(base + len, regs', m[v := CodeValue(e, m).value]))
  {
    hide Run, CodeValue, CompileExpr, Load;
    var c := CompileExpr(e, flags);
    var l := Load(c.place, c.flags);
    AtSplit(code, base, c.code + l.code, [Sw(l.place.r, v)]);
    AtSplit(code, base, c.code, l.code);
    assert Ready(code, base, e, flags);
    var r1 := ExprRuns(code, base, e, flags, regs, m);
    regs' := LoadRuns(code, base + |c.code|, c.place, c.flags, r1, m);
    ComputesJoin(code, base, c.code, l.code, regs, m, r1, regs');
    StoreRuns(code, base + |c.code + l.code|, l.place.r, v, regs', m);
    RunJoin(code, Config(base, regs, m), |c.code + l.code|, Config(base + |c.code + l.code|, regs', m), 1,
            Config(base + |c.code + l.code| + 1, regs', m[v := regs'[l.place.r - 8]]));
  }

  lemma StoreRuns(code: seq<Instr>, base: nat, r: Temp, v: Var, regs: Regs, m: Memory)
    requires At(code, base, [Sw(r, v)])
    ensures Reaches(code, Config(base, regs, m), 1, Config(base + 1, regs, m[v := regs[r - 8]]))
  {
    AtIndex(code, base, [Sw(r, v)], 0);
    OneStep(code, Config(base, regs, m), Sw(r, v));
  }

  // ----- where the parts of a statement's code lie -----

  ghost predicate IfLayout(code: seq<Instr>, base: nat, cond: seq<Instr>, r: Temp, n: nat, thn: seq<Instr>,
                           els: seq<Instr>) {
    var b1 := base + |cond|;
    var b2 := b1 + 1 + |thn|;
    var b3 := b2 + 2 + |els|;
    && At(code, base, cond) && At(code, b1 + 1, thn) && At(code, b2 + 2, els)
    && b3 < |code|
    && code[b1] == Beqz(r, Lelse(n))
    && code[b2] == Jump(Lexit(n)) && code[b2 + 1] == Mark(Lelse(n))
    && code[b3] == Mark(Lexit(n))
    && |IfCode(cond, r, n, thn, els)| == |cond| + |thn| + |els| + 4
  }

  lemma IfLaidOut(code: seq<Instr>, base: nat, cond: seq<Instr>, r: Temp, n: nat, thn: seq<Instr>, els: seq<Instr>)
    requires At(code, base, IfCode(cond, r, n, thn, els))
    ensures IfLayout(code, base, cond, r, n, thn, els)
  {
    hide At;
    var p1 := cond + [Beqz(r, Lelse(n))];
    var p2 := p1 + thn;
    var p3 := p2 + [Jump(Lexit(n)), Mark(Lelse(n))];
    var p4 := p3 + els;
    AtSplit(code, base, p4, [Mark(Lexit(n))]);
    AtSplit(code, base, p3, els);
    AtSplit(code, base, p2, [Jump(Lexit(n)), Mark(Lelse(n))]);
    AtSplit(code, base, p1, thn);
    AtSplit(code, base, cond, [Beqz(r, Lelse(n))]);
    AtIndex(code, base + |p4|, [Mark(Lexit(n))], 0);
    AtIndex(code, base + |p2|, [Jump(Lexit(n)), Mark(Lelse(n))], 0);
    AtIndex(code, base + |p2|, [Jump(Lexit(n)), Mark(Lelse(n))], 1);
    AtIndex(code, base + |cond|, [Beqz(r, Lelse(n))], 0);
  }

  ghost predicate WhileLayout(code: seq<Instr>, base: nat, cond: seq<Instr>, r: Temp, n: nat, body: seq<Instr>) {
    var b1 := base + 1 + |cond|;
    var b2 := b1 + 1 + |body|;
    && b2 + 1 < |code|
    && code[base] == Mark(Test(n))
    && At(code, base + 1, cond) && code[b1] == Beqz(r, Lexit(n))
    && At(code, b1 + 1, body) && code[b2] == Jump(Test(n)) && code[b2 + 1] == Mark(Lexit(n))
    && |WhileCode(cond, r, n, body)| == |cond| + |body| + 4
  }

  lemma WhileLaidOut(code: seq<Instr>, base: nat, cond: seq<Instr>, r: Temp, n: nat, body: seq<Instr>)
    requires At(code, base, WhileCode(cond, r, n, body))
    ensures WhileLayout(code, base, cond, r, n, body)
  {
    hide At;
    var p1 := [Mark(Test(n))] + cond;
    var p2 := p1 + [Beqz(r, Lexit(n))];
    var p3 := p2 + body;
    AtSplit(code, base, p3, [Jump(Test(n)), Mark(Lexit(n))]);
    AtSplit(code, base, p2, body);
    AtSplit(code, base, p1, [Beqz(r, Lexit(n))]);
    AtSplit(code, base, [Mark(Test(n))], cond);
    AtIndex(code, base, [Mark(Test(n))], 0);
    AtIndex(code, base + |p1|, [Beqz(r, Lexit(n))], 0);
    AtIndex(code, base + |p3|, [Jump(Test(n)), Mark(Lexit(n))], 0);
    AtIndex(code, base + |p3|, [Jump(Test(n)), Mark(Lexit(n))], 1);
  }

  // ----- putting simulations together -----

  /** A fragment inside a larger one: k steps lead to it, and k2 steps from its end to the end of the
      larger one; spent is what the prefix uses of the budget. */
  lemma Enclose(code: seq<Instr>, start: Config, len: nat, k: nat, inner: Config, innerLen: nat,
                o: Outcome, fuel: nat, spent: nat, k2: nat, end: nat)
    requires Reaches(code, start, k, inner) && spent <= k
    requires Simulates(code, inner, innerLen, o, fuel)
    requires start.pc <= inner.pc && inner.pc + innerLen <= start.pc + len
    requires end == start.pc + len
    requires forall c: Config :: c.pc == inner.pc + innerLen ==> Reaches(code, c, k2, c.(pc := end))
    ensures Simulates(code, start, len, o, fuel + spent)
  {
    hide Run;
    var n: nat, c: Config :| Simulated(code, inner, innerLen, o, fuel, n, c);
    RunJoin(code, start, k, inner, n, c);
    if o.Done? {
      RunJoin(code, start, k + n, c, k2, c.(pc := end));
      assert Simulated(code, start, len, o, fuel + spent, k + n + k2, c.(pc := end));
    } else {
      assert Simulated(code, start, len, o, fuel + spent, k + n, c);
    }
  }

  /** The fate of the part that runs next, after the first one has finished. */
  lemma Continue(code: seq<Instr>, start: Config, len: nat, n1: nat, mid: Config, o: Outcome, fuel: nat, left: nat,
                 midLen: nat)
    requires Reaches(code, start, n1, mid) && n1 + left >= fuel
    requires Simulates(code, mid, midLen, o, left)
    requires start.pc <= mid.pc && mid.pc + midLen == start.pc + len
    ensures Simulates(code, start, len, o, fuel)
  {
    hide Run;
    var n: nat, c: Config :| Simulated(code, mid, midLen, o, left, n, c);
    RunJoin(code, start, n1, mid, n, c);
    assert Simulated(code, start, len, o, fuel, n1 + n, c);
  }

  lemma Refl(code: seq<Instr>, c: Config)
    ensures Reaches(code, c, 0, c)
  {
  }

  /** A finished simulation, as a run. */
  lemma Finished(code: seq<Instr>, start: Config, len: nat, o: Outcome, fuel: nat) returns (n: nat, c: Config)
    requires o.Done? && Simulates(code, start, len, o, fuel)
    ensures Reaches(code, start, n, c) && n + o.left >= fuel
    ensures c == Config(start.pc + len, c.regs, o.mem)
  {
    hide Run, Reaches;
    n, c :| Simulated(code, start, len, o, fuel, n, c);
  }

  /** The rest of the fragment does not matter to a run that never gets there. */
  lemma Unfinished(code: seq<Instr>, start: Config, len: nat, k: nat, inner: Config, innerLen: nat,
                   o: Outcome, fuel: nat, spent: nat)
    requires !o.Done? && Reaches(code, start, k, inner) && spent <= k
    requires Simulates(code, inner, innerLen, o, fuel)
    requires start.pc <= inner.pc && inner.pc + innerLen <= start.pc + len
    ensures Simulates(code, start, len, o, fuel + spent)
  {
    hide Run;
    var n: nat, c: Config :| Simulated(code, inner, innerLen, o, fuel, n, c);
    RunJoin(code, start, k, inner, n, c);
    assert Simulated(code, start, len, o, fuel + spent, k + n, c);
  }

  lemma Direct(code: seq<Instr>, start: Config, len: nat, fuel: nat, n: nat, c: Config)
    requires Reaches(code, start, n, c) && c.pc == start.pc + len
    ensures Simulates(code, start, len, Done(c.mem, fuel), fuel)
  {
    hide Run, Reaches;
    assert Simulated(code, start, len, Done(c.mem, fuel), fuel, n, c);
  }

  lemma ExitByMark(code: seq<Instr>, p: nat)
    requires p < |code| && code[p].Mark?
    ensures forall c: Config :: c.pc == p ==> Reaches(code, c, 1, c.(pc := p + 1))
  {
    forall c: Config | c.pc == p ensures Reaches(code, c, 1, c.(pc := p + 1)) {
      StepNext(code, c);
    }
  }

  lemma ExitByJump(code: seq<Instr>, p: nat, q: nat)
    requires Unique(code) && p < |code| && code[p].Jump? && q < |code| && code[q] == Mark(code[p].target)
    ensures forall c: Config :: c.pc == p ==> Reaches(code, c, 2, c.(pc := q + 1))
  {
    forall c: Config | c.pc == p ensures Reaches(code, c, 2, c.(pc := q + 1)) {
      hide Run, Reaches;
      StepJump(code, c, q);
      StepNext(code, c.(pc := q));
      RunJoin(code, c, 1, c.(pc := q), 1, c.(pc := q + 1));
    }
  }

  // ----- the statements -----

  lemma BlockReady(code: seq<Instr>, base: nat, s: Stmt, labels: nat, flags: Flags)
    requires s.Block? && Runnable(code, base, s, labels, flags)
    ensures Runnable(code, base + 1, s.body, labels, flags)
    ensures base < |code| && code[base] == Nop
    ensures |CompileStmt(s, labels, flags).code| == |CompileStmt(s.body, labels, flags).code| + 1
  {
    var c := CompileStmt(s.body, labels, flags);
    AtSplit(code, base, [Nop], c.code);
    AtIndex(code, base, [Nop], 0);
  }

  lemma SeqReady(code: seq<Instr>, base: nat, s: Stmt, labels: nat, flags: Flags)
    requires s.Seq? && Runnable(code, base, s, labels, flags)
    ensures Runnable(code, base, s.list, labels, flags)
    ensures var c1 := CompileStmt(s.list, labels, flags);
            && Runnable(code, base + |c1.code|, s.last, c1.labels, c1.flags)
            && |CompileStmt(s, labels, flags).code| == |c1.code| + |CompileStmt(s.last, c1.labels, c1.flags).code|
  {
    var c1 := CompileStmt(s.list, labels, flags);
    AtSplit(code, base, c1.code, CompileStmt(s.last, c1.labels, c1.flags).code);
  }

  lemma IfReady(code: seq<Instr>, base: nat, s: Stmt, labels: nat, flags: Flags)
    requires s.If? && Runnable(code, base, s, labels, flags)
    ensures var c := CompileCond(s.cond, flags);
            c.ExprCode? &&
            var c1 := CompileStmt(s.thn, labels + 1, c.flags);
            c1.StmtCode? &&
            var c2 := CompileStmt(s.els, c1.labels, c1.flags);
            && c2.StmtCode?
            && IfLayout(code, base, c.code, c.place.r, labels + 1, c1.code, c2.code)
            && Runnable(code, base + |c.code| + 1, s.thn, labels + 1, c.flags)
            && Runnable(code, base + |c.code| + |c1.code| + 3, s.els, c1.labels, c1.flags)
            && |CompileStmt(s, labels, flags).code| == |c.code| + |c1.code| + |c2.code| + 4
  {
    hide CompileExpr, At, Unique;
    var c := CompileCond(s.cond, flags);
    var c1 := CompileStmt(s.thn, labels + 1, c.flags);
    var c2 := CompileStmt(s.els, c1.labels, c1.flags);
    IfLaidOut(code, base, c.code, c.place.r, labels + 1, c1.code, c2.code);
  }

  lemma WhileReady(code: seq<Instr>, base: nat, s: Stmt, labels: nat, flags: Flags)
    requires s.While? && Runnable(code, base, s, labels, flags)
    ensures var c := CompileCond(s.cond, flags);
            c.ExprCode? &&
            var c1 := CompileStmt(s.body, labels + 1, c.flags);
            && c1.StmtCode?
            && WhileLayout(code, base, c.code, c.place.r, labels + 1, c1.code)
            && Runnable(code, base + |c.code| + 2, s.body, labels + 1, c.flags)
            && |CompileStmt(s, labels, flags).code| == |c.code| + |c1.code| + 4
  {
    hide CompileExpr, At, Unique;
    var c := CompileCond(s.cond, flags);
    var c1 := CompileStmt(s.body, labels + 1, c.flags);
    WhileLaidOut(code, base, c.code, c.place.r, labels + 1, c1.code);
  }

  /** From the start of a conditional to the start of the branch taken. */
  lemma IfEnters(code: seq<Instr>, base: nat, s: Stmt, labels: nat, flags: Flags, regs: Regs, m: Memory)
    returns (k: nat, inner: Config)
    requires s.If? && Runnable(code, base, s, labels, flags) && CodeValue(s.cond, m).Some?
    requires CompileCond(s.cond, flags).ExprCode?
    requires CompileStmt(s.thn, labels + 1, CompileCond(s.cond, flags).flags).StmtCode?
    ensures Reaches(code, Config(base, regs, m), k, inner)
    ensures var c := CompileCond(s.cond, flags);
            var c1 := CompileStmt(s.thn, labels + 1, c.flags);
            inner == Config(if CodeValue(s.cond, m).value != 0
                            then base + |c.code| + 1 else base + |c.code| + |c1.code| + 3,
                            inner.regs, m)
  {
    hide CompileExpr, At, Unique, Run, Reaches, CodeValue;
    IfReady(code, base, s, labels, flags);
    var c := CompileCond(s.cond, flags);
    var c1 := CompileStmt(s.thn, labels + 1, c.flags);
    var p := base + |c.code| + |c1.code| + 2;
    var r1 := ConditionRuns(code, base, s.cond, flags, regs, m, Lelse(labels + 1), p);
    k := |c.code| + 1;
    if CodeValue(s.cond, m).value != 0 {
      inner := Config(base + |c.code| + 1, r1, m);
    } else {
      inner := Config(p + 1, r1, m);
      StepNext(code, Config(p, r1, m));
      RunJoin(code, Config(base, regs, m), k, Config(p, r1, m), 1, inner);
      k := k + 1;
    }
  }

  /** From the end of the branch taken to the end of the conditional. */
  lemma IfLeaves(code: seq<Instr>, base: nat, s: Stmt, labels: nat, flags: Flags, start: Config, k: nat, inner: Config,
                 o: Outcome, fuel: nat, taken: bool)
    requires s.If? && Runnable(code, base, s, labels, flags) && start.pc == base
    requires Reaches(code, start, k, inner)
    requires CompileCond(s.cond, flags).ExprCode?
    requires var c := CompileCond(s.cond, flags);
             var c1 := CompileStmt(s.thn, labels + 1, c.flags);
             c1.StmtCode? &&
             var c2 := CompileStmt(s.els, c1.labels, c1.flags);
             c2.StmtCode? &&
             if taken
             then inner.pc == base + |c.code| + 1 && Simulates(code, inner, |c1.code|, o, fuel)
             else inner.pc == base + |c.code| + |c1.code| + 3 && Simulates(code, inner, |c2.code|, o, fuel)
    ensures Simulates(code, start, |CompileStmt(s, labels, flags).code|, o, fuel)
  {
    hide CompileExpr, At, Unique, Run, Reaches, Simulates;
    IfReady(code, base, s, labels, flags);
    var c := CompileCond(s.cond, flags);
    var c1 := CompileStmt(s.thn, labels + 1, c.flags);
    var c2 := CompileStmt(s.els, c1.labels, c1.flags);
    var len := |CompileStmt(s, labels, flags).code|;
    var q := base + |c.code| + |c1.code| + 3 + |c2.code|;
    if taken {
      ExitByJump(code, base + |c.code| + 1 + |c1.code|, q);
      Enclose(code, start, len, k, inner, |c1.code|, o, fuel, 0, 2, q + 1);
    } else {
      ExitByMark(code, q);
      Enclose(code, start, len, k, inner, |c2.code|, o, fuel, 0, 1, q + 1);
    }
  }

  /** The test of a loop: to the body, or out. */
  lemma WhileEnters(code: seq<Instr>, base: nat, s: Stmt, labels: nat, flags: Flags, regs: Regs, m: Memory)
    returns (k: nat, inner: Config)
    requires s.While? && Runnable(code, base, s, labels, flags) && CodeValue(s.cond, m).Some?
    requires CompileCond(s.cond, flags).ExprCode?
    ensures k >= 1 && Reaches(code, Config(base, regs, m), k, inner)
    ensures inner == Config(if CodeValue(s.cond, m).value != 0 then base + |CompileCond(s.cond, flags).code| + 2
                            else base + |CompileStmt(s, labels, flags).code|, inner.regs, m)
  {
    hide CompileExpr, At, Unique, Run, Reaches, CodeValue;
    WhileReady(code, base, s, labels, flags);
    var c := CompileCond(s.cond, flags);
    var c1 := CompileStmt(s.body, labels + 1, c.flags);
    var start := Config(base, regs, m);
    var p := base + |c.code| + |c1.code| + 3;
    StepNext(code, start);
    var r1 := ConditionRuns(code, base + 1, s.cond, flags, regs, m, Lexit(labels + 1), p);
    k := |c.code| + 2;
    if CodeValue(s.cond, m).value != 0 {
      inner := Config(base + |c.code| + 2, r1, m);
      RunJoin(code, start, 1, Config(base + 1, regs, m), |c.code| + 1, inner);
    } else {
      inner := Config(p + 1, r1, m);
      RunJoin(code, start, 1, Config(base + 1, regs, m), |c.code| + 1, Config(p, r1, m));
      StepNext(code, Config(p, r1, m));
      RunJoin(code, start, k, Config(p, r1, m), 1, inner);
      k := k + 1;
    }
  }

  /** The jump back from the end of a loop body. */
  lemma WhileLoops(code: seq<Instr>, base: nat, s: Stmt, labels: nat, flags: Flags, start: Config, k: nat,
                   inner: Config,
                   o: Outcome, fuel: nat) returns (n: nat, again: Config)
    requires s.While? && Runnable(code, base, s, labels, flags) && k >= 1 && Reaches(code, start, k, inner)
    requires CompileCond(s.cond, flags).ExprCode? && inner.pc == base + |CompileCond(s.cond, flags).code| + 2
    requires var c1 := CompileStmt(s.body, labels + 1, CompileCond(s.cond, flags).flags);
             c1.StmtCode? && o.Done? && Simulates(code, inner, |c1.code|, o, fuel)
    ensures Reaches(code, start, n, again) && n + o.left >= fuel + 1
    ensures again == Config(base, again.regs, o.mem)
  {
    hide CompileExpr, At, Unique, Run, Reaches, Simulates;
    WhileReady(code, base, s, labels, flags);
    var c := CompileCond(s.cond, flags);
    var c1 := CompileStmt(s.body, labels + 1, c.flags);
    var n1, out := Finished(code, inner, |c1.code|, o, fuel);
    again := out.(pc := base);
    StepJump(code, out, base);
    RunJoin(code, start, k, inner, n1, out);
    RunJoin(code, start, k + n1, out, 1, again);
    n := k + n1 + 1;
  }

  /** Every statement, anywhere in a program with unique labels, with every budget. */
  lemma {:induction false} StmtRuns(code: seq<Instr>, base: nat, s: Stmt, labels: nat, flags: Flags,
                                    fuel: nat, regs: Regs, m: Memory)
    requires Runnable(code, base, s, labels, flags)
    ensures Simulates(code, Config(base, regs, m), |CompileStmt(s, labels, flags).code|,
                      Exec(CodeValue, s, fuel, m), fuel)
    decreases fuel, s
  {
    hide CompileExpr, At, Unique, Run, Reaches, Simulates, CodeValue;
    match s
    case Empty => EmptyRuns(code, base, labels, flags, fuel, regs, m);
    case Assign(v, e) => AssignSimulates(code, base, v, e, labels, flags, fuel, regs, m);
    case Seq(list, last) =>
      SeqReady(code, base, s, labels, flags);
      StmtRuns(code, base, list, labels, flags, fuel, regs, m);
      SeqContinues(code, base, s, labels, flags, fuel, regs, m);
    case Block(body) =>
      BlockReady(code, base, s, labels, flags);
      StmtRuns(code, base + 1, body, labels, flags, fuel, regs, m);
      BlockSimulates(code, base, s, labels, flags, fuel, regs, m);
    case If(cond, thn, els) =>
      if CodeValue(cond, m).Some? { IfSimulates(code, base, s, labels, flags, fuel, regs, m); }
      else { IfWrong(code, base, s, labels, flags, fuel, regs, m); }
    case While(cond, body) =>
      if CodeValue(cond, m).Some? { WhileSimulates(code, base, s, labels, flags, fuel, regs, m); }
      else { WhileWrong(code, base, s, labels, flags, fuel, regs, m); }
  }

  lemma Stops(code: seq<Instr>, start: Config, len: nat, fuel: nat, n: nat, c: Config)
    requires Stuck(code, start, len, n, c)
    ensures Simulates(code, start, len, Undefined, fuel)
  {
    hide Run, Stuck;
    assert Simulated(code, start, len, Undefined, fuel, n, c);
  }

  /** A part that stops the machine, some steps after the start. */
  lemma StopsInside(code: seq<Instr>, start: Config, len: nat, fuel: nat, k: nat, inner: Config, innerLen: nat,
                    n: nat, c: Config)
    requires Reaches(code, start, k, inner) && Stuck(code, inner, innerLen, n, c)
    requires start.pc <= inner.pc && inner.pc + innerLen <= start.pc + len
    ensures Simulates(code, start, len, Undefined, fuel)
  {
    hide Run;
    StuckInside(code, start, len, k, inner, innerLen, n, c);
    Stops(code, start, len, fuel, k + n, c);
  }

  /** An assignment of an expression without a value stops the machine inside its code. */
  lemma AssignWrong(code: seq<Instr>, base: nat, v: Var, e: Expr, labels: nat, flags: Flags, fuel: nat,
                    regs: Regs, m: Memory)
    requires Runnable(code, base, Assign(v, e), labels, flags) && CodeValue(e, m).None?
    ensures Simulates(code, Config(base, regs, m), |CompileStmt(Assign(v, e), labels, flags).code|,
                      Exec(CodeValue, Assign(v, e), fuel, m), fuel)
  {
    hide CompileExpr, CompileAssign, At, Unique, Run, Reaches, CodeValue, Simulates, Stuck;
    var start := Config(base, regs, m);
    AssignParts(code, base, v, e, flags);
    var n, c := ExprTraps(code, base, e, flags, regs, m);
    Refl(code, start);
    StopsInside(code, start, |CompileAssign(v, e, flags).code|, fuel, 0, start, |CompileExpr(e, flags).code|, n, c);
  }

  /** And so does a condition without a value. */
  lemma IfWrong(code: seq<Instr>, base: nat, s: Stmt, labels: nat, flags: Flags, fuel: nat, regs: Regs, m: Memory)
    requires s.If? && Runnable(code, base, s, labels, flags) && CodeValue(s.cond, m).None?
    ensures Simulates(code, Config(base, regs, m), |CompileStmt(s, labels, flags).code|,
                      Exec(CodeValue, s, fuel, m), fuel)
  {
    hide CompileExpr, At, Unique, Run, Reaches, CodeValue, Simulates, Stuck;
    var start := Config(base, regs, m);
    IfReady(code, base, s, labels, flags);
    var n, c := ExprTraps(code, base, s.cond, flags, regs, m);
    Refl(code, start);
    StopsInside(code, start, |CompileStmt(s, labels, flags).code|, fuel, 0, start,
                |CompileExpr(s.cond, flags).code|, n, c);
  }

  lemma WhileWrong(code: seq<Instr>, base: nat, s: Stmt, labels: nat, flags: Flags, fuel: nat, regs: Regs, m: Memory)
    requires s.While? && Runnable(code, base, s, labels, flags) && CodeValue(s.cond, m).None?
    ensures Simulates(code, Config(base, regs, m), |CompileStmt(s, labels, flags).code|,
                      Exec(CodeValue, s, fuel, m), fuel)
  {
    hide CompileExpr, At, Unique, Run, Reaches, CodeValue, Simulates, Stuck;
    var start := Config(base, regs, m);
    WhileReady(code, base, s, labels, flags);
    var n, c := ExprTraps(code, base + 1, s.cond, flags, regs, m);
    StepNext(code, start);
    StopsInside(code, start, |CompileStmt(s, labels, flags).code|, fuel, 1, Config(base + 1, regs, m),
                |CompileExpr(s.cond, flags).code|, n, c);
  }

  lemma AssignParts(code: seq<Instr>, base: nat, v: Var, e: Expr, flags: Flags)
    requires CompileAssign(v, e, flags).ExprCode? && At(code, base, CompileAssign(v, e, flags).code)
    ensures Ready(code, base, e, flags)
    ensures |CompileExpr(e, flags).code| <= |CompileAssign(v, e, flags).code|
  {
    hide CompileExpr, At;
    var c := CompileExpr(e, flags);
    var l := Load(c.place, c.flags);
    AtSplit(code, base, c.code + l.code, [Sw(l.place.r, v)]);
    AtSplit(code, base, c.code, l.code);
  }

  lemma EmptyRuns(code: seq<Instr>, base: nat, labels: nat, flags: Flags, fuel: nat, regs: Regs, m: Memory)
    ensures Simulates(code, Config(base, regs, m), 0, Exec(CodeValue, Empty, fuel, m), fuel)
  {
    Refl(code, Config(base, regs, m));
    Direct(code, Config(base, regs, m), 0, fuel, 0, Config(base, regs, m));
  }

  lemma AssignSimulates(code: seq<Instr>, base: nat, v: Var, e: Expr, labels: nat, flags: Flags, fuel: nat,
                        regs: Regs, m: Memory)
    requires Runnable(code, base, Assign(v, e), labels, flags)
    ensures Simulates(code, Config(base, regs, m), |CompileStmt(Assign(v, e), labels, flags).code|,
                      Exec(CodeValue, Assign(v, e), fuel, m), fuel)
  {
    hide CompileExpr, CompileAssign, At, Unique, Run, Reaches, Simulates, CodeValue;
    if CodeValue(e, m).None? {
      AssignWrong(code, base, v, e, labels, flags, fuel, regs, m);
    } else {
      var r := AssignRuns(code, base, v, e, flags, regs, m);
      var len := |CompileAssign(v, e, flags).code|;
      Direct(code, Config(base, regs, m), len, fuel, len, Config(base + len, r, m[v := CodeValue(e, m).value]));
    }
  }

  lemma SeqContinues(code: seq<Instr>, base: nat, s: Stmt, labels: nat, flags: Flags, fuel: nat, regs: Regs, m: Memory)
    requires s.Seq? && Runnable(code, base, s, labels, flags)
    requires CompileStmt(s.list, labels, flags).StmtCode?
    requires Simulates(code, Config(base, regs, m), |CompileStmt(s.list, labels, flags).code|, Exec(CodeValue,
             s.list, fuel, m), fuel)
    ensures Simulates(code, Config(base, regs, m), |CompileStmt(s, labels, flags).code|,
                      Exec(CodeValue, s, fuel, m), fuel)
    decreases fuel, s, 0
  {
    hide CompileExpr, At, Unique, Run, Reaches, Simulates, CodeValue;
    SeqReady(code, base, s, labels, flags);
    var start := Config(base, regs, m);
    var len := |CompileStmt(s, labels, flags).code|;
    var c1 := CompileStmt(s.list, labels, flags);
    var o := Exec(CodeValue, s.list, fuel, m);
    if o.Done? {
      var n1, mid := Finished(code, start, |c1.code|, o, fuel);
      StmtRuns(code, base + |c1.code|, s.last, c1.labels, c1.flags, o.left, mid.regs, o.mem);
      Continue(code, start, len, n1, mid, Exec(CodeValue, s.last, o.left, o.mem), fuel, o.left,
               |CompileStmt(s.last, c1.labels, c1.flags).code|);
    } else {
      Refl(code, start);
      Unfinished(code, start, len, 0, start, |c1.code|, o, fuel, 0);
    }
  }

  lemma BlockSimulates(code: seq<Instr>, base: nat, s: Stmt, labels: nat, flags: Flags, fuel: nat, regs: Regs,
                       m: Memory)
    requires s.Block? && Runnable(code, base, s, labels, flags)
    requires CompileStmt(s.body, labels, flags).StmtCode?
    requires Simulates(code, Config(base + 1, regs, m), |CompileStmt(s.body, labels, flags).code|, Exec(CodeValue,
             s.body, fuel, m), fuel)
    ensures Simulates(code, Config(base, regs, m), |CompileStmt(s, labels, flags).code|,
                      Exec(CodeValue, s, fuel, m), fuel)
  {
    hide CompileExpr, At, Unique, Run, Reaches, Simulates, CodeValue;
    BlockReady(code, base, s, labels, flags);
    StepNext(code, Config(base, regs, m));
    Continue(code, Config(base, regs, m), |CompileStmt(s, labels, flags).code|, 1, Config(base + 1, regs, m),
             Exec(CodeValue, s.body, fuel, m), fuel, fuel, |CompileStmt(s.body, labels, flags).code|);
  }

  lemma IfSimulates(code: seq<Instr>, base: nat, s: Stmt, labels: nat, flags: Flags, fuel: nat, regs: Regs, m: Memory)
    requires s.If? && Runnable(code, base, s, labels, flags) && CodeValue(s.cond, m).Some?
    ensures Simulates(code, Config(base, regs, m), |CompileStmt(s, labels, flags).code|,
                      Exec(CodeValue, s, fuel, m), fuel)
    decreases fuel, s, 0
  {
    hide CompileExpr, At, Unique, Run, Reaches, Simulates, CodeValue;
    IfReady(code, base, s, labels, flags);
    var c := CompileCond(s.cond, flags);
    var c1 := CompileStmt(s.thn, labels + 1, c.flags);
    var k, inner := IfEnters(code, base, s, labels, flags, regs, m);
    if CodeValue(s.cond, m).value != 0 {
      StmtRuns(code, inner.pc, s.thn, labels + 1, c.flags, fuel, inner.regs, m);
      IfLeaves(code, base, s, labels, flags, Config(base, regs, m), k, inner, Exec(CodeValue, s, fuel, m), fuel, true);
    } else {
      StmtRuns(code, inner.pc, s.els, c1.labels, c1.flags, fuel, inner.regs, m);
      IfLeaves(code, base, s, labels, flags, Config(base, regs, m), k, inner, Exec(CodeValue, s, fuel, m), fuel, false);
    }
  }

  lemma WhileSimulates(code: seq<Instr>, base: nat, s: Stmt, labels: nat, flags: Flags, fuel: nat, regs: Regs,
                       m: Memory)
    requires s.While? && Runnable(code, base, s, labels, flags) && CodeValue(s.cond, m).Some?
    ensures Simulates(code, Config(base, regs, m), |CompileStmt(s, labels, flags).code|,
                      Exec(CodeValue, s, fuel, m), fuel)
    decreases fuel, s, 0
  {
    hide CompileExpr, At, Unique, Run, Reaches, Simulates, CodeValue;
    WhileReady(code, base, s, labels, flags);
    var start := Config(base, regs, m);
    var len := |CompileStmt(s, labels, flags).code|;
    var c := CompileCond(s.cond, flags);
    var c1 := CompileStmt(s.body, labels + 1, c.flags);
    var k, inner := WhileEnters(code, base, s, labels, flags, regs, m);
    if CodeValue(s.cond, m).value == 0 {
      Direct(code, start, len, fuel, k, inner);
    } else if fuel == 0 {
      StillInside(code, start, len, k, inner);
    } else {
      StmtRuns(code, inner.pc, s.body, labels + 1, c.flags, fuel - 1, inner.regs, m);
      var o := Exec(CodeValue, s.body, fuel - 1, m);
      if o.Done? {
        var n, again := WhileLoops(code, base, s, labels, flags, start, k, inner, o, fuel - 1);
        StmtRuns(code, base, s, labels, flags, o.left, again.regs, o.mem);
        Continue(code, start, len, n, again, Exec(CodeValue, s, o.left, o.mem), fuel, o.left, len);
      } else {
        Unfinished(code, start, len, k, inner, |c1.code|, o, fuel - 1, 1);
      }
    }
  }

  lemma StillInside(code: seq<Instr>, start: Config, len: nat, k: nat, c: Config)
    requires Reaches(code, start, k, c) && start.pc <= c.pc < start.pc + len
    ensures Simulates(code, start, len, Timeout, 0)
  {
    hide Run, Reaches;
    assert Simulated(code, start, len, Timeout, 0, k, c);
  }

  // ----- whole programs -----

  /** The machine, started at the beginning of the code, comes to its end with memory m'. */
  ghost predicate Halts(code: seq<Instr>, regs: Regs, m: Memory, m': Memory) {
    exists n: nat, r: Regs :: Reaches(code, Config(0, regs, m), n, Config(|code|, r, m'))
  }

  lemma Compiled(s: Stmt, labels: nat, flags: Flags)
    requires CompileStmt(s, labels, flags).StmtCode?
    ensures Runnable(CompileStmt(s, labels, flags).code, 0, s, labels, flags)
  {
    hide CompileStmt;
    var code := CompileStmt(s, labels, flags).code;
    StatementLabels(s, labels, flags);
    assert code[0..|code|] == code;
  }

  /** A terminating run is matched by the emitted code, from any register contents. */
  lemma Forward(s: Stmt, labels: nat, flags: Flags, regs: Regs, m: Memory, m': Memory)
    requires CompileStmt(s, labels, flags).StmtCode?
    requires Terminates(CodeValue, s, m, m')
    ensures Halts(CompileStmt(s, labels, flags).code, regs, m, m')
  {
    hide CompileStmt, Exec, Run, Runnable, Simulates;
    var code := CompileStmt(s, labels, flags).code;
    var fuel: nat :| Exec(CodeValue, s, fuel, m).Done? && Exec(CodeValue, s, fuel, m).mem == m';
    Compiled(s, labels, flags);
    StmtRuns(code, 0, s, labels, flags, fuel, regs, m);
    var n, c := Finished(code, Config(0, regs, m), |code|, Exec(CodeValue, s, fuel, m), fuel);
    assert Reaches(code, Config(0, regs, m), n, Config(|code|, c.regs, m'));
  }

  /** A diverging run keeps the machine inside the code for ever. */
  lemma Divergence(s: Stmt, labels: nat, flags: Flags, regs: Regs, m: Memory, m': Memory)
    requires CompileStmt(s, labels, flags).StmtCode?
    requires Diverges(CodeValue, s, m)
    ensures !Halts(CompileStmt(s, labels, flags).code, regs, m, m')
  {
    hide CompileStmt, Exec, Run, Runnable;
    var code := CompileStmt(s, labels, flags).code;
    var start := Config(0, regs, m);
    Compiled(s, labels, flags);
    forall n: nat, r: Regs ensures !Reaches(code, start, n, Config(|code|, r, m')) {
      StmtRuns(code, 0, s, labels, flags, n + 1, regs, m);
      var k: nat, c: Config :| Simulated(code, start, |code|, Exec(CodeValue, s, n + 1, m), n + 1, k, c);
      if Reaches(code, start, n, Config(|code|, r, m')) {
        EndIsUnique(code, start, n, Config(|code|, r, m'), k, c);
      }
    }
  }

  /** A run that meets an expression without a value never comes to the end. */
  lemma Trap(s: Stmt, labels: nat, flags: Flags, regs: Regs, m: Memory, m': Memory)
    requires CompileStmt(s, labels, flags).StmtCode?
    requires GoesWrong(CodeValue, s, m)
    ensures !Halts(CompileStmt(s, labels, flags).code, regs, m, m')
  {
    hide CompileStmt, Exec, Run, Runnable;
    var code := CompileStmt(s, labels, flags).code;
    var start := Config(0, regs, m);
    var fuel: nat :| Exec(CodeValue, s, fuel, m).Undefined?;
    Compiled(s, labels, flags);
    StmtRuns(code, 0, s, labels, flags, fuel, regs, m);
    var k: nat, c: Config :| Simulated(code, start, |code|, Undefined, fuel, k, c);
    forall n: nat, r: Regs ensures !Reaches(code, start, n, Config(|code|, r, m')) {
      if Reaches(code, start, n, Config(|code|, r, m')) {
        StuckIsUnique(code, start, n, Config(|code|, r, m'), k, c);
      }
    }
  }

  /** A machine does not get past an instruction it cannot execute. */
  lemma StuckIsUnique(code: seq<Instr>, start: Config, a: nat, end: Config, b: nat, c: Config)
    requires Reaches(code, start, a, end) && end.pc >= |code|
    requires Reaches(code, start, b, c) && Step(code, c).None?
    ensures c == end
  {
    if a < b { RunAdd(code, start, a, b - a); } else { RunAdd(code, start, b, a - b); }
  }

  /** What the emitted code does, for every statement: it halts with memory m' exactly when the statement
      does so with its expressions computed by the code. */
  lemma CodeMeaning(s: Stmt, labels: nat, flags: Flags, regs: Regs, m: Memory, m': Memory)
    requires CompileStmt(s, labels, flags).StmtCode?
    ensures Halts(CompileStmt(s, labels, flags).code, regs, m, m') <==> Terminates(CodeValue, s, m, m')
  {
    hide CompileStmt, Exec, Run, Terminates, Diverges, GoesWrong;
    var code := CompileStmt(s, labels, flags).code;
    Fates(CodeValue, s, m);
    if Terminates(CodeValue, s, m, m') {
      Forward(s, labels, flags, regs, m, m');
    } else if Diverges(CodeValue, s, m) {
      Divergence(s, labels, flags, regs, m, m');
    } else if GoesWrong(CodeValue, s, m) {
      Trap(s, labels, flags, regs, m, m');
    } else if Halts(code, regs, m, m') {
      var m'' :| Terminates(CodeValue, s, m, m'');
      Forward(s, labels, flags, regs, m, m'');
      OneEnd(code, regs, m, m', m'');
    }
  }

  lemma OneEnd(code: seq<Instr>, regs: Regs, m: Memory, m1: Memory, m2: Memory)
    requires Halts(code, regs, m, m1) && Halts(code, regs, m, m2)
    ensures m1 == m2
  {
    hide Run, Reaches;
    var n1: nat, r1: Regs :| Reaches(code, Config(0, regs, m), n1, Config(|code|, r1, m1));
    var n2: nat, r2: Regs :| Reaches(code, Config(0, regs, m), n2, Config(|code|, r2, m2));
    EndIsUnique(code, Config(0, regs, m), n1, Config(|code|, r1, m1), n2, Config(|code|, r2, m2));
  }

  // ----- against C -----

  /** The code computes every expression of s wherever C defines it. */
  ghost predicate AgreesStmt(s: Stmt) {
    match s
    case Empty => true
    case Assign(_, e) => Agrees(e)
    case Seq(a, b) => AgreesStmt(a) && AgreesStmt(b)
    case Block(b) => AgreesStmt(b)
    case If(c, t, e) => Agrees(c) && AgreesStmt(t) && AgreesStmt(e)
    case While(c, b) => Agrees(c) && AgreesStmt(b)
  }

  predicate FaithfulStmt(s: Stmt) {
    match s
    case Empty => true
    case Assign(_, e) => Faithful(e)
    case Seq(a, b) => FaithfulStmt(a) && FaithfulStmt(b)
    case Block(b) => FaithfulStmt(b)
    case If(c, t, e) => Faithful(c) && FaithfulStmt(t) && FaithfulStmt(e)
    case While(c, b) => Faithful(c) && FaithfulStmt(b)
  }

  /** A condition on the tree that is enough. */
  lemma {:induction false} FaithfulAgreesStmt(s: Stmt)
    requires FaithfulStmt(s)
    ensures AgreesStmt(s)
  {
    hide Faithful, Eval, CodeValue;
    match s
    case Empty =>
    case Assign(_, e) => FaithfulExpr(e);
    case Seq(a, b) => FaithfulAgreesStmt(a); FaithfulAgreesStmt(b);
    case Block(b) => FaithfulAgreesStmt(b);
    case If(c, t, e) => FaithfulExpr(c); FaithfulAgreesStmt(t); FaithfulAgreesStmt(e);
    case While(c, b) => FaithfulExpr(c); FaithfulAgreesStmt(b);
  }

  lemma FaithfulExpr(e: Expr)
    requires Faithful(e)
    ensures Agrees(e)
  {
    hide Faithful, Eval, CodeValue;
    forall m | Eval(e, m).Some? ensures CodeValue(e, m) == Eval(e, m) { FaithfulAgrees(e, m); }
  }

  lemma {:induction false} SameRun(s: Stmt, fuel: nat, m: Memory)
    requires AgreesStmt(s) && !Exec(Eval, s, fuel, m).Undefined?
    ensures Exec(CodeValue, s, fuel, m) == Exec(Eval, s, fuel, m)
    decreases fuel, s
  {
    hide Eval, CodeValue;
    match s
    case Empty =>
    case Assign(v, e) => assert Eval(e, m).Some?;
    case Seq(list, last) =>
      SameRun(list, fuel, m);
      var o := Exec(Eval, list, fuel, m);
      if o.Done? { SameRun(last, o.left, o.mem); }
    case Block(body) => SameRun(body, fuel, m);
    case If(c, thn, els) =>
      assert Eval(c, m).Some?;
      if Eval(c, m).value != 0 { SameRun(thn, fuel, m); } else { SameRun(els, fuel, m); }
    case While(c, body) =>
      assert Eval(c, m).Some?;
      if Eval(c, m).value != 0 && fuel > 0 {
        SameRun(body, fuel - 1, m);
        var o := Exec(Eval, body, fuel - 1, m);
        if o.Done? { SameRun(s, o.left, o.mem); }
      }
  }

  /** Meaning preservation, both ways: unless the C run meets an undefined operation, the code halts with
      memory m' exactly when the statement terminates with memory m'. */
  lemma MeaningPreserved(s: Stmt, labels: nat, flags: Flags, regs: Regs, m: Memory, m': Memory)
    requires AgreesStmt(s) && CompileStmt(s, labels, flags).StmtCode?
    requires !GoesWrong(Eval, s, m)
    ensures Halts(CompileStmt(s, labels, flags).code, regs, m, m') <==> Terminates(Eval, s, m, m')
  {
    hide CompileStmt, AgreesStmt, Exec, Halts;
    CodeMeaning(s, labels, flags, regs, m, m');
    forall fuel: nat ensures Exec(CodeValue, s, fuel, m) == Exec(Eval, s, fuel, m) {
      SameRun(s, fuel, m);
    }
  }

  lemma OneAssignment(ev: Evaluator, v: Var, e: Expr, m: Memory, m': Memory)
    ensures Terminates(ev, Assign(v, e), m, m') <==> ev(e, m).Some? && m' == m[v := ev(e, m).value]
  {
    var s := Assign(v, e);
    if ev(e, m).Some? && m' == m[v := ev(e, m).value] {
      assert Exec(ev, s, 0, m).Done? && Exec(ev, s, 0, m).mem == m';
    }
  }

  /** One assignment: where C defines the value, the code stores it exactly when it computes it. */
  lemma AssignmentExactly(v: Var, e: Expr, labels: nat, flags: Flags, regs: Regs, m: Memory)
    requires CompileStmt(Assign(v, e), labels, flags).StmtCode? && Eval(e, m).Some?
    ensures Halts(CompileStmt(Assign(v, e), labels, flags).code, regs, m, m[v := Eval(e, m).value]) <==>
            CodeValue(e, m) == Eval(e, m)
  {
    hide CompileStmt, Eval, CodeValue, Halts, Terminates;
    var x := Eval(e, m).value;
    CodeMeaning(Assign(v, e), labels, flags, regs, m, m[v := x]);
    OneAssignment(CodeValue, v, e, m, m[v := x]);
    if CodeValue(e, m).Some? && m[v := x] == m[v := CodeValue(e, m).value] {
      assert m[v := x][v] == m[v := CodeValue(e, m).value][v];
    }
  }

  /** `v = l && r` and `v = l || r` for any operands whose own code is right: the code, which computes
      both and combines them bit by bit, stores what C does exactly when the right operand does not
      trap, whether C evaluates it or not, and the two values agree bitwise. */
  lemma LogicalOperands(op: BinOp, v: Var, l: Expr, r: Expr, labels: nat, flags: Flags, regs: Regs, m: Memory)
    requires op in {And, Or}
    requires CompileStmt(Assign(v, Binary(op, l, r)), labels, flags).StmtCode?
    requires Eval(Binary(op, l, r), m).Some?
    requires CodeValue(l, m) == Eval(l, m)
    requires Eval(r, m).Some? ==> CodeValue(r, m) == Eval(r, m)
    ensures var e := Binary(op, l, r);
            Halts(CompileStmt(Assign(v, e), labels, flags).code, regs, m, m[v := Eval(e, m).value]) <==>
            CodeValue(r, m).Some? && OperandsAgree(op, Eval(l, m).value, CodeValue(r, m).value)
  {
    hide CompileStmt, Halts, Alu;
    var e := Binary(op, l, r);
    AssignmentExactly(v, e, labels, flags, regs, m);
    if CodeValue(r, m).Some? {
      var a, b := Eval(l, m).value, CodeValue(r, m).value;
      assert Eval(e, m) == Apply(op, a, b);
      OperatorExactly(op, a, b);
    }
  }

  /** On variables, which never trap, that leaves their values. */
  lemma LogicalExactly(op: BinOp, v: Var, a: Var, b: Var, labels: nat, flags: Flags, regs: Regs, m: Memory)
    requires op in {And, Or}
    requires CompileStmt(Assign(v, Binary(op, Ref(a), Ref(b))), labels, flags).StmtCode?
    ensures var e := Binary(op, Ref(a), Ref(b));
            && Eval(e, m) == Apply(op, Read(m, a), Read(m, b)) && Eval(e, m).Some?
            && (Halts(CompileStmt(Assign(v, e), labels, flags).code, regs, m, m[v := Eval(e, m).value]) <==>
                OperandsAgree(op, Read(m, a), Read(m, b)))
  {
    hide CompileStmt, Halts, Alu;
    var e := Binary(op, Ref(a), Ref(b));
    assert Eval(Ref(a), m) == Some(Read(m, a)) && Eval(Ref(b), m) == Some(Read(m, b));
    assert CodeValue(Ref(a), m) == Some(Read(m, a)) && CodeValue(Ref(b), m) == Some(Read(m, b));
    BothApplied(e, m);
    LogicalOperands(op, v, Ref(a), Ref(b), labels, flags, regs, m);
  }

  /** `v = 1 && 2` stores 1 in C; the emitted `and` stores 0. */
  lemma BitwiseAndDiffers(v: Var, labels: nat, flags: Flags, regs: Regs, m: Memory)
    requires CompileStmt(Assign(v, Binary(And, Const(1), Const(2))), labels, flags).StmtCode?
    ensures var s := Assign(v, Binary(And, Const(1), Const(2)));
            && Terminates(Eval, s, m, m[v := 1])
            && Halts(CompileStmt(s, labels, flags).code, regs, m, m[v := 0])
            && !Halts(CompileStmt(s, labels, flags).code, regs, m, m[v := 1])
  {
    hide CompileStmt, Halts, Terminates;
    var e := Binary(And, Const(1), Const(2));
    assert Eval(Const(1), m) == Some(1) && Eval(Const(2), m) == Some(2) && Eval(e, m) == Some(1);
    assert BitAnd(1, 2) == 0 by { assert BitAnd(0, 1) == 0; }
    assert CodeValue(Const(1), m) == Some(1) && CodeValue(Const(2), m) == Some(2) && CodeValue(e, m) == Some(0);
    OneAssignment(Eval, v, e, m, m[v := 1]);
    OneAssignment(CodeValue, v, e, m, m[v := 0]);
    CodeMeaning(Assign(v, e), labels, flags, regs, m, m[v := 0]);
    AssignmentExactly(v, e, labels, flags, regs, m);
  }

  /** x != 0 && 8 / x > 0 */
  function Guarded(x: Var): Expr {
    Binary(And, Binary(Ne, Ref(x), Const(0)), Binary(Gt, Binary(Divide, Const(8), Ref(x)), Const(0)))
  }

  /** `x = x != 0 && 8 / x > 0` stores 0 in C when x is 0; the emitted code divides first, and never ends. */
  lemma NoShortCircuit(x: Var, labels: nat, flags: Flags, regs: Regs, m: Memory)
    requires CompileStmt(Assign(x, Guarded(x)), labels, flags).StmtCode? && Read(m, x) == 0
    ensures Terminates(Eval, Assign(x, Guarded(x)), m, m[x := 0])
    ensures forall m' :: !Halts(CompileStmt(Assign(x, Guarded(x)), labels, flags).code, regs, m, m')
  {
    hide CompileStmt, Halts, Terminates;
    var e := Guarded(x);
    assert Eval(Const(0), m) == Some(0) && Eval(e.left, m) == Some(0) && Eval(e, m) == Some(0);
    assert CodeValue(Const(0), m) == Some(0) && CodeValue(Const(8), m) == Some(8) && CodeValue(Ref(x), m) == Some(0);
    assert CodeValue(e.right.left, m) == None && CodeValue(e.right, m) == None && CodeValue(e, m) == None;
    OneAssignment(Eval, x, e, m, m[x := 0]);
    forall m' ensures !Halts(CompileStmt(Assign(x, e), labels, flags).code, regs, m, m') {
      CodeMeaning(Assign(x, e), labels, flags, regs, m, m');
      OneAssignment(CodeValue, x, e, m, m');
    }
  }
}
