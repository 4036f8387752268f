/** The generator itself: the semantic actions that fill the register table, count labels, use the
    label stack and append instructions.  Each method is proved to do what the functions of
    GeneratorSpec say. */
module CodeGen {
  import opened CMinus
  import opened Mips
  import opened GeneratorSpec

  const STACK_SIZ: int := 1000

  /** What becomes of a label that is pushed. */
  datatype Pushed = Stored | Refused | PastArray

  /** s_push: the guard, and where the write goes. */
  function PushAt(index: int): Pushed {
    if index >= STACK_SIZ then Refused else if index + 1 >= STACK_SIZ then PastArray else Stored
  }

  /** k pushes one after the other, up to the first that is not stored. */
  function Pushes(index: int, k: nat): Pushed
    decreases k
  {
    if k == 0 then Stored
    else if PushAt(index).Stored? then Pushes(index + 1, k - 1)
    else PushAt(index)
  }

  /** The guard never says no in time: labels nested deeper than the stack is long are written past the
      array, and all others are stored. */
  lemma {:induction false} PushesExactly(index: int, k: nat)
    requires -1 <= index < 1000
    ensures Pushes(index, k) == if index + k < 1000 then Stored else PastArray
    decreases k
  {
    if k > 0 && index + 1 < STACK_SIZ { PushesExactly(index + 1, k - 1); }
  }

  /** intstack_t. */
  class LabelStack {
    const stack: array<int>
    var index: int

    ghost predicate Valid()
      reads this, stack
    {
      stack.Length == STACK_SIZ && -1 <= index < STACK_SIZ
    }

    /** The entries, bottom first. */
    ghost function Contents(): seq<int>
      requires Valid()
      reads this, stack
    {
      stack[..index + 1]
    }

    constructor ()
      ensures Valid() && fresh(stack) && Contents() == []
    {
      stack := new int[STACK_SIZ];
      index := -1;
    }

    /** The guard tests the index before it is moved.  What a write past the array leaves behind is not
        said. */
    method Push(n: int) returns (outcome: Pushed)
      requires Valid()
      modifies this, stack
      ensures outcome == PushAt(old(index))
      ensures outcome.PastArray? <==> old(|Contents()|) == STACK_SIZ
      ensures outcome.Stored? ==> Valid() && Contents() == old(Contents()) + [n]
      ensures outcome.Refused? ==> Valid() && Contents() == old(Contents())
    {
      if index >= STACK_SIZ {
        return Refused;
      }
      index := index + 1;
      if index >= stack.Length {
        return PastArray;
      }
      stack[index] := n;
      return Stored;
    }

    method Get() returns (n: int)
      requires Valid()
      ensures n == if Contents() == [] then -1 else Contents()[|Contents()| - 1]
    {
      if index < 0 {
        return -1;
      }
      return stack[index];
    }

    method Pop() returns (ok: bool)
      requires Valid()
      modifies this`index
      ensures Valid()
      ensures ok == (old(Contents()) != [])
      ensures Contents() == if ok then old(Contents())[..|old(Contents())| - 1] else []
    {
      if index < 0 {
        return false;
      }
      index := index - 1;
      return true;
    }
  }

  /** Labels on the stack at once while s is translated. */
  function Depth(s: Stmt): nat {
    match s
    case Empty => 0
    case Assign(_, _) => 0
    case Seq(a, b) => if Depth(a) < Depth(b) then Depth(b) else Depth(a)
    case Block(b) => Depth(b)
    case If(_, t, e) => 1 + (if Depth(t) < Depth(e) then Depth(e) else Depth(t))
    case While(_, b) => 1 + Depth(b)
  }

  /** n slots of the frame from the given one on. */
  function Slots(from: nat, n: nat): seq<Var> {
    seq(n, (i: nat) => Local(from + i))
  }

  /** The number of names in some declarations. */
  function Declared(decls: seq<seq<string>>): nat {
    if decls == [] then 0 else Declared(decls[..|decls| - 1]) + |decls[|decls| - 1]|
  }

  class Generator {
    const tempReg: array<int>
    const labelStack: LabelStack
    var labelNo: nat
    var localVarCounter: nat
    var out: seq<Instr>

    ghost predicate Valid()
      reads this, tempReg, labelStack, labelStack.stack
    {
      && tempReg.Length == 8
      && labelStack.Valid()
      && labelStack.stack != tempReg
    }

    ghost function RegFlags(): Flags
      requires tempReg.Length == 8
      reads tempReg
    {
      tempReg[..]
    }

    constructor ()
      ensures Valid() && fresh(tempReg) && fresh(labelStack) && fresh(labelStack.stack)
      ensures labelStack.Contents() == [] && labelNo == 0 && out == [] && localVarCounter == 1
      ensures RegFlags() == [0, 0, 0, 0, 0, 0, 0, 0]
    {
      tempReg := new int[8](_ => 0);
      labelStack := new LabelStack();
      labelNo := 0;
      localVarCounter := 1;
      out := [];
    }

    /** The place of a declared variable: a local takes the next slot of the frame. */
    method DeclareVariable(local: bool, name: string) returns (v: Var)
      modifies this`localVarCounter
      ensures if local
              then v == Local(old(localVarCounter)) && localVarCounter == old(localVarCounter) + 1
              else v == Global(name) && localVarCounter == old(localVarCounter)
    {
      if local {
        v := Local(localVarCounter);
        localVarCounter := localVarCounter + 1;
      } else {
        v := Global(name);
      }
    }

    /** One declaration: the places of its names, in order. */
    method DeclareList(local: bool, names: seq<string>) returns (vs: seq<Var>)
      modifies this`localVarCounter
      ensures |vs| == |names|
      ensures local ==> vs == Slots(old(localVarCounter), |names|)
      ensures !local ==> forall i :: 0 <= i < |vs| ==> vs[i] == Global(names[i])
      ensures localVarCounter == old(localVarCounter) + if local then |names| else 0
    {
      vs := [];
      for i := 0 to |names|
        invariant |vs| == i
        invariant local ==> vs == Slots(old(localVarCounter), i)
        invariant !local ==> forall j :: 0 <= j < i ==> vs[j] == Global(names[j])
        invariant localVarCounter == old(localVarCounter) + if local then i else 0
      {
        var v := DeclareVariable(local, names[i]);
        vs := vs + [v];
      }
    }

    /** The locals of one function, over all its declarations, in nested blocks as well: their slots are
        1, 2, 3, .. without gap or repetition, and the next function starts at 1 again. */
    method DeclareFunction(decls: seq<seq<string>>) returns (vs: seq<Var>)
      requires localVarCounter == 1
      modifies this`localVarCounter
      ensures |vs| == Declared(decls) && (forall i :: 0 <= i < |vs| ==> vs[i] == Local(i + 1))
      ensures forall i, j :: 0 <= i < j < |vs| ==> vs[i] != vs[j]
      ensures localVarCounter == 1
    {
      vs := [];
      for i := 0 to |decls|
        invariant vs == Slots(1, Declared(decls[..i])) && localVarCounter == 1 + |vs|
      {
        var more := DeclareList(true, decls[i]);
        vs := vs + more;
        assert decls[..i + 1][..i] == decls[..i];
      }
      assert decls[..|decls|] == decls;
      EndFunction();
    }

    method EndFunction()
      modifies this`localVarCounter
      ensures localVarCounter == 1
    {
      localVarCounter := 1;
    }

    /** First-fit allocation; -1 when all eight are taken. */
    method GetFreeTempReg() returns (r: int)
      requires tempReg.Length == 8
      modifies tempReg
      ensures FirstFree(old(RegFlags())) == 8 ==> r == -1 && RegFlags() == old(RegFlags())
      ensures FirstFree(old(RegFlags())) < 8 ==>
                r == FirstFree(old(RegFlags())) + 8 && RegFlags() == old(RegFlags())[r - 8 := 1]
    {
      for i := 0 to 8
        invariant forall j :: 0 <= j < i ==> tempReg[j] != 0
        invariant tempReg[..] == old(tempReg[..])
      {
        if tempReg[i] == 0 {
          tempReg[i] := 1;
          return i + 8;
        }
      }
      return -1;
    }

    /** Places that are not registers are left alone. */
    method MarkTempRegFree(p: Place)
      requires tempReg.Length == 8
      modifies tempReg
      ensures RegFlags() == if p.InReg? then old(RegFlags())[p.r - 8 := 0] else old(RegFlags())
    {
      if p.InReg? {
        tempReg[p.r - 8] := 0;
      }
    }

    method Emit(x: Instr)
      modifies this`out
      ensures out == old(out) + [x]
    {
      out := out + [x];
    }

    /** An operand as a register: itself, or a load into a fresh one. */
    method OperandRegister(p: Place) returns (ok: bool, r: Temp)
      requires tempReg.Length == 8
      modifies this`out, tempReg
      ensures ok == Load(p, old(RegFlags())).ExprCode?
      ensures ok ==> var l := Load(p, old(RegFlags()));
                     out == old(out) + l.code && InReg(r) == l.place && RegFlags() == l.flags
    {
      if p.InReg? {
        return true, p.r;
      }
      var reg := GetFreeTempReg();
      if reg == -1 {
        return false, 8;
      }
      r := reg;
      Emit(Lw(r, p.v));
      return true, r;
    }

    /** The actions of `expr`, run as the parser reduces: operands first, then loads, operation and
        release.  ok is false when a register was asked for and none was free. */
    method GenExpr(e: Expr) returns (ok: bool, p: Place)
      requires tempReg.Length == 8
      modifies this`out, tempReg
      ensures ok == CompileExpr(e, old(RegFlags())).ExprCode?
      ensures ok ==> var c := CompileExpr(e, old(RegFlags()));
                     out == old(out) + c.code && p == c.place && RegFlags() == c.flags
      decreases e
    {
      match e
      case Ref(v) =>
        return true, InMem(v);
      case Const(n) =>
        var reg := GetFreeTempReg();
        if reg == -1 {
          return false, InReg(8);
        }
        Emit(Li(reg, n));
        return true, InReg(reg);
      case Binary(op, l, r) =>
        var p1, p2;
        ok, p1 := GenExpr(l);
        if !ok { return false, InReg(8); }
        ok, p2 := GenExpr(r);
        if !ok { return false, InReg(8); }
        ghost var c1 := CompileExpr(l, old(RegFlags()));
        ghost var c2 := CompileExpr(r, c1.flags);
        ok, p := GenOperation(op, p1, p2);
        if ok { Regroup(old(out), c1.code, c2.code, Operation(op, p1, p2, c2.flags).code); }
    }

    /** The action of `expr binop expr`, run when both operands have been reduced. */
    method GenOperation(op: BinOp, p1: Place, p2: Place) returns (ok: bool, p: Place)
      requires tempReg.Length == 8
      modifies this`out, tempReg
      ensures ok == Operation(op, p1, p2, old(RegFlags())).ExprCode?
      ensures ok ==> var c := Operation(op, p1, p2, old(RegFlags()));
                     out == old(out) + c.code && p == c.place && RegFlags() == c.flags
    {
      hide FirstFree;
      var r1, r2;
      ok, r1 := OperandRegister(p1);
      if !ok { return false, InReg(8); }
      ok, r2 := OperandRegister(p2);
      if !ok { return false, InReg(8); }
      var dest := GetFreeTempReg();
      if dest == -1 {
        return false, InReg(8);
      }
      Emit(Arith(Mnem(op), dest, r1, r2));
      p := InReg(dest);
      Release(r1, r2, p1, p2);
    }

    /** Both operand registers are marked free, and then both places, which changes nothing more. */
    method Release(r1: Temp, r2: Temp, p1: Place, p2: Place)
      requires tempReg.Length == 8
      requires (p1.InReg? ==> p1.r == r1) && (p2.InReg? ==> p2.r == r2)
      modifies tempReg
      ensures RegFlags() == old(RegFlags())[r1 - 8 := 0][r2 - 8 := 0]
    {
      MarkTempRegFree(InReg(r1));
      MarkTempRegFree(InReg(r2));
      ghost var both := RegFlags();
      MarkTempRegFree(p1);
      assert RegFlags() == both;
      MarkTempRegFree(p2);
    }

    /** The action of `assign_expr`. */
    method GenAssign(v: Var, e: Expr) returns (ok: bool)
      requires tempReg.Length == 8
      modifies this`out, tempReg
      ensures ok == CompileAssign(v, e, old(RegFlags())).ExprCode?
      ensures ok ==> var c := CompileAssign(v, e, old(RegFlags()));
                     out == old(out) + c.code && RegFlags() == c.flags
    {
      hide CompileExpr;
      var p, r;
      ok, p := GenExpr(e);
      if !ok { return false; }
      ghost var c := CompileExpr(e, old(RegFlags()));
      ok, r := OperandRegister(p);
      if !ok { return false; }
      Emit(Sw(r, v));
      MarkTempRegFree(p);
      MarkTempRegFree(InReg(r));
      assert out == old(out) + (c.code + Load(p, c.flags).code + [Sw(r, v)]);
    }

    /** A condition: its code; the register stays taken. */
    method GenCond(e: Expr) returns (ok: bool, r: Temp)
      requires tempReg.Length == 8
      modifies this`out, tempReg
      ensures ok == CompileCond(e, old(RegFlags())).ExprCode?
      ensures ok ==> var c := CompileCond(e, old(RegFlags()));
                     out == old(out) + c.code && InReg(r) == c.place && RegFlags() == c.flags
    {
      var p;
      ok, p := GenExpr(e);
      if !ok || p.InMem? { return false, 8; }
      return true, p.r;
    }

    /** What a statement must do: append its code, move the counter, leave the label stack as it was. */
    twostate predicate Generated(s: Stmt, ok: bool)
      requires old(Valid())
      reads this, tempReg, labelStack, labelStack.stack
    {
      var c := CompileStmt(s, old(labelNo), old(RegFlags()));
      && Valid()
      && ok == c.StmtCode?
      && (ok ==>
            && out == old(out) + c.code && labelNo == c.labels && RegFlags() == c.flags
            && labelStack.Contents() == old(labelStack.Contents()))
    }

    method GenStmt(s: Stmt) returns (ok: bool)
      requires Valid() && labelStack.index + Depth(s) < STACK_SIZ
      modifies this`out, this`labelNo, tempReg, labelStack, labelStack.stack
      ensures Generated(s, ok)
      decreases s
    {
      hide CompileExpr, CompileAssign, CompileCond;
      match s
      case Empty =>
        assert out == old(out) + [];
        return true;
      case Seq(list, last) =>
        ok := GenSeq(s);
      case Assign(v, e) =>
        ok := GenAssign(v, e);
      case Block(body) =>
        Emit(Nop);
        ok := GenStmt(body);
        if ok { assert out == old(out) + ([Nop] + CompileStmt(body, old(labelNo), old(RegFlags())).code); }
      case If(cond, thn, els) =>
        ok := GenIf(s);
      case While(cond, body) =>
        ok := GenWhile(s);
    }

    method GenSeq(s: Stmt) returns (ok: bool)
      requires s.Seq?
      requires Valid() && labelStack.index + Depth(s) < STACK_SIZ
      modifies this`out, this`labelNo, tempReg, labelStack, labelStack.stack
      ensures Generated(s, ok)
      decreases s, 0
    {
      ok := GenStmt(s.list);
      if !ok { return false; }
      ghost var c1 := CompileStmt(s.list, old(labelNo), old(RegFlags()));
      ok := GenStmt(s.last);
      if ok { Regroup(old(out), c1.code, CompileStmt(s.last, c1.labels, c1.flags).code, []); }
    }

    /** After the condition of an `if`: branch to a new else label, which is pushed. */
    method OpenIf(r: Temp)
      requires Valid() && labelStack.index < STACK_SIZ - 1
      modifies this`out, this`labelNo, labelStack, labelStack.stack
      ensures Valid() && labelNo == old(labelNo) + 1
      ensures out == old(out) + [Beqz(r, Lelse(labelNo))]
      ensures labelStack.Contents() == old(labelStack.Contents()) + [labelNo] && RegFlags() == old(RegFlags())
    {
      labelNo := labelNo + 1;
      Emit(Beqz(r, Lelse(labelNo)));
      var _ := labelStack.Push(labelNo);
    }

    /** Between the branches: labels from the top of the stack. */
    method MiddleIf(ghost n: nat)
      requires Valid() && labelStack.Contents() != [] && labelStack.Contents()[|labelStack.Contents()| - 1] == n
      modifies this`out
      ensures out == old(out) + [Jump(Lexit(n)), Mark(Lelse(n))]
    {
      var top := labelStack.Get();
      Emit(Jump(Lexit(top)));
      top := labelStack.Get();
      Emit(Mark(Lelse(top)));
    }

    method CloseIf(ghost n: nat)
      requires Valid() && labelStack.Contents() != [] && labelStack.Contents()[|labelStack.Contents()| - 1] == n
      modifies this`out, labelStack`index
      ensures Valid() && out == old(out) + [Mark(Lexit(n))]
      ensures labelStack.Contents() == old(labelStack.Contents()[..|labelStack.Contents()| - 1])
    {
      var top := labelStack.Get();
      Emit(Mark(Lexit(top)));
      var _ := labelStack.Pop();
    }

    method GenIf(s: Stmt) returns (ok: bool)
      requires s.If?
      requires Valid() && labelStack.index + Depth(s) < STACK_SIZ
      modifies this`out, this`labelNo, tempReg, labelStack, labelStack.stack
      ensures Generated(s, ok)
      decreases s, 0
    {
      hide CompileStmt, CompileExpr, CompileCond, IfCode, FirstFree;
      IfIs(s.cond, s.thn, s.els, labelNo, RegFlags());
      var r;
      ok, r := GenCond(s.cond);
      if !ok { return false; }
      ghost var n := old(labelNo) + 1;
      ghost var c := CompileCond(s.cond, old(RegFlags()));
      OpenIf(r);
      ok := GenStmt(s.thn);
      if !ok { return false; }
      ghost var c1 := CompileStmt(s.thn, n, c.flags);
      MiddleIf(n);
      ok := GenStmt(s.els);
      if !ok { return false; }
      CloseIf(n);
      IfEmitted(old(out), c.code, r, n, c1.code, CompileStmt(s.els, c1.labels, c1.flags).code);
    }

    /** At `while (`: a new test label, pushed. */
    method OpenWhile()
      requires Valid() && labelStack.index < STACK_SIZ - 1
      modifies this`out, this`labelNo, labelStack, labelStack.stack
      ensures Valid() && labelNo == old(labelNo) + 1
      ensures out == old(out) + [Mark(Test(labelNo))]
      ensures labelStack.Contents() == old(labelStack.Contents()) + [labelNo] && RegFlags() == old(RegFlags())
    {
      labelNo := labelNo + 1;
      Emit(Mark(Test(labelNo)));
      var _ := labelStack.Push(labelNo);
    }

    /** At the end of the body: labels from the top of the stack. */
    method CloseWhile(ghost n: nat)
      requires Valid() && labelStack.Contents() != [] && labelStack.Contents()[|labelStack.Contents()| - 1] == n
      modifies this`out, labelStack`index
      ensures Valid() && out == old(out) + [Jump(Test(n)), Mark(Lexit(n))]
      ensures labelStack.Contents() == old(labelStack.Contents()[..|labelStack.Contents()| - 1])
    {
      var top := labelStack.Get();
      Emit(Jump(Test(top)));
      top := labelStack.Get();
      Emit(Mark(Lexit(top)));
      var _ := labelStack.Pop();
    }

    /** The exit label in the test is read from the counter, the one at the end from the stack. */
    method GenWhile(s: Stmt) returns (ok: bool)
      requires s.While?
      requires Valid() && labelStack.index + Depth(s) < STACK_SIZ
      modifies this`out, this`labelNo, tempReg, labelStack, labelStack.stack
      ensures Generated(s, ok)
      decreases s, 0
    {
      hide CompileExpr, CompileCond, WhileCode;
      var r;
      OpenWhile();
      ghost var n := labelNo;
      ok, r := GenCond(s.cond);
      if !ok { return false; }
      ghost var c := CompileCond(s.cond, old(RegFlags()));
      Emit(Beqz(r, Lexit(labelNo)));
      ok := GenStmt(s.body);
      if !ok { return false; }
      CloseWhile(n);
      WhileEmitted(old(out), c.code, r, n, CompileStmt(s.body, n, c.flags).code);
    }
  }

  lemma IfIs(cond: Expr, thn: Stmt, els: Stmt, labels: nat, flags: Flags)
    ensures CompileStmt(If(cond, thn, els), labels, flags) ==
            var c := CompileCond(cond, flags);
            if c.NoRegister? then Failed else
            var c1 := CompileStmt(thn, labels + 1, c.flags);
            if c1.Failed? then Failed else
            var c2 := CompileStmt(els, c1.labels, c1.flags);
            if c2.Failed? then Failed else
            StmtCode(IfCode(c.code, c.place.r, labels + 1, c1.code, c2.code), c2.labels, c2.flags)
  {
  }

  lemma Regroup(before: seq<Instr>, a: seq<Instr>, b: seq<Instr>, c: seq<Instr>)
    ensures before + a + b + c == before + (a + b + c)
  {
  }

  lemma IfEmitted(before: seq<Instr>, cond: seq<Instr>, r: Temp, n: nat, thn: seq<Instr>, els: seq<Instr>)
    ensures before + cond + [Beqz(r, Lelse(n))] + thn + [Jump(Lexit(n)), Mark(Lelse(n))] + els + [Mark(Lexit(n))]
            == before + IfCode(cond, r, n, thn, els)
  {
  }

  lemma WhileEmitted(before: seq<Instr>, cond: seq<Instr>, r: Temp, n: nat, body: seq<Instr>)
    ensures before + [Mark(Test(n))] + cond + [Beqz(r, Lexit(n))] + body + [Jump(Test(n)), Mark(Lexit(n))]
            == before + WhileCode(cond, r, n, body)
  {
  }
}
