/** The C-- statements and expressions for which the generator emits control flow and code, with
    their meaning.  Trees are as the parser builds them; names are already resolved to variables. */
module CMinus {
  import opened Bits
  import opened Wrappers

  /** A variable is a numbered local of the current function or a named global. */
  datatype Var = Local(k: nat) | Global(name: string)

  type Memory = map<Var, Word>

  datatype BinOp = Plus | Minus | Times | Divide | And | Or | Le | Ge | Lt | Gt | Eq | Ne

  datatype Expr =
    | Ref(v: Var)
    | Const(n: Word)
    | Binary(op: BinOp, left: Expr, right: Expr)

  /** `Seq(list, stmt)` and `Empty` are the two productions of `stmt_list`; a missing else part is
      `Empty` too. */
  datatype Stmt =
    | Empty
    | Seq(list: Stmt, last: Stmt)
    | Assign(v: Var, e: Expr)
    | Block(body: Stmt)
    | If(cond: Expr, thn: Stmt, els: Stmt)
    | While(cond: Expr, body: Stmt)

  function Read(m: Memory, v: Var): Word {
    if v in m then m[v] else 0
  }

  function Truth(b: bool): Word {
    if b then 1 else 0
  }

  function InRange(x: int): Option<Word> {
    if InWord(x) then Some(x) else None
  }

  /** C arithmetic on int: overflow and a bad division have no defined value. */
  function Apply(op: BinOp, a: Word, b: Word): Option<Word> {
    match op
    case Plus => InRange(a + b)
    case Minus => InRange(a - b)
    case Times => InRange(a * b)
    case Divide => if b == 0 then None else InRange(TruncDiv(a, b))
    case And => Some(Truth(a != 0 && b != 0))
    case Or => Some(Truth(a != 0 || b != 0))
    case Le => Some(Truth(a <= b))
    case Ge => Some(Truth(a >= b))
    case Lt => Some(Truth(a < b))
    case Gt => Some(Truth(a > b))
    case Eq => Some(Truth(a == b))
    case Ne => Some(Truth(a != b))
  }

  /** C evaluation, with the short circuits of && and ||. */
  function Eval(e: Expr, m: Memory): Option<Word> {
    match e
    case Ref(v) => Some(Read(m, v))
    case Const(n) => Some(n)
    case Binary(op, l, r) =>
      match Eval(l, m)
      case None => None
      case Some(a) =>
        if op == And && a == 0 then Some(0)
        else if op == Or && a != 0 then Some(1)
        else match Eval(r, m)
          case None => None
          case Some(b) => Apply(op, a, b)
  }

  /** A reading of expressions: as C has them, or as the emitted code computes them. */
  type Evaluator = (Expr, Memory) -> Option<Word>

  /** Result of running a statement on a budget of loop iterations. */
  datatype Outcome =
    | Done(mem: Memory, left: nat)
    | Timeout
    | Undefined

  /** Running a statement whose expressions are read by ev.  Each entry of a loop body spends one unit; what is
      left over is passed on. */
  function Exec(ev: Evaluator, s: Stmt, fuel: nat, m: Memory): (o: Outcome)
    ensures o.Done? ==> o.left <= fuel
    decreases fuel, s
  {
    match s
    case Empty => Done(m, fuel)
    case Seq(list, last) =>
      var o := Exec(ev, list, fuel, m);
      if o.Done? then Exec(ev, last, o.left, o.mem) else o
    case Assign(v, e) =>
      var x := ev(e, m);
      if x.Some? then Done(m[v := x.value], fuel) else Undefined
    case Block(body) => Exec(ev, body, fuel, m)
    case If(c, thn, els) =>
      var x := ev(c, m);
      if x.None? then Undefined else if x.value != 0 then Exec(ev, thn, fuel, m) else Exec(ev, els, fuel, m)
    case While(c, body) =>
      var x := ev(c, m);
      if x.None? then Undefined
      else if x.value == 0 then Done(m, fuel)
      else if fuel == 0 then Timeout
      else
        var o := Exec(ev, body, fuel - 1, m);
        if o.Done? then Exec(ev, s, o.left, o.mem) else o
  }

  /** The run of s from m ends in m'. */
  ghost predicate Terminates(ev: Evaluator, s: Stmt, m: Memory, m': Memory) {
    exists fuel: nat :: Exec(ev, s, fuel, m).Done? && Exec(ev, s, fuel, m).mem == m'
  }

  /** The run of s from m goes on for ever. */
  ghost predicate Diverges(ev: Evaluator, s: Stmt, m: Memory) {
    forall fuel: nat :: Exec(ev, s, fuel, m).Timeout?
  }

  /** The run of s from m meets an undefined operation. */
  ghost predicate GoesWrong(ev: Evaluator, s: Stmt, m: Memory) {
    exists fuel: nat :: Exec(ev, s, fuel, m).Undefined?
  }

  /** A larger budget changes nothing but what is left over. */
  ghost predicate Stable(ev: Evaluator, s: Stmt, fuel: nat, extra: nat, m: Memory) {
    var o := Exec(ev, s, fuel, m);
    match o
    case Done(m', left) => Exec(ev, s, fuel + extra, m) == Done(m', left + extra)
    case Undefined => Exec(ev, s, fuel + extra, m) == Undefined
    case Timeout => true
  }

  lemma {:induction false} MoreFuel(ev: Evaluator, s: Stmt, fuel: nat, extra: nat, m: Memory)
    ensures Stable(ev, s, fuel, extra, m)
    decreases fuel, s
  {
    match s
    case Empty =>
    case Assign(v, e) =>
    case Seq(list, last) =>
      MoreFuel(ev, list, fuel, extra, m);
      var o := Exec(ev, list, fuel, m);
      if o.Done? { MoreFuel(ev, last, o.left, extra, o.mem); }
    case Block(body) => MoreFuel(ev, body, fuel, extra, m);
    case If(c, thn, els) =>
      MoreFuel(ev, thn, fuel, extra, m);
      MoreFuel(ev, els, fuel, extra, m);
    case While(c, body) =>
      if fuel > 0 && ev(c, m).Some? && ev(c, m).value != 0 {
        MoreFuel(ev, body, fuel - 1, extra, m);
        var o := Exec(ev, body, fuel - 1, m);
        if o.Done? { MoreFuel(ev, s, o.left, extra, o.mem); }
        WhileStable(ev, c, body, fuel, extra, m);
      }
  }

  lemma WhileStable(ev: Evaluator, c: Expr, body: Stmt, fuel: nat, extra: nat, m: Memory)
    requires fuel > 0 && ev(c, m).Some? && ev(c, m).value != 0
    requires Stable(ev, body, fuel - 1, extra, m)
    requires Exec(ev, body, fuel - 1, m).Done? ==>
               Stable(ev, While(c, body), Exec(ev, body, fuel - 1, m).left, extra, Exec(ev, body, fuel - 1, m).mem)
    ensures Stable(ev, While(c, body), fuel, extra, m)
  {
    assert (fuel + extra) - 1 == (fuel - 1) + extra;
  }

  /** Exactly one of the three fates holds, and the final memory is unique. */
  lemma Fates(ev: Evaluator, s: Stmt, m: Memory)
    ensures Diverges(ev, s, m) || GoesWrong(ev, s, m) || exists m' :: Terminates(ev, s, m, m')
    ensures !(Diverges(ev, s, m) && GoesWrong(ev, s, m))
    ensures forall m' :: Terminates(ev, s, m, m') ==> !Diverges(ev, s, m) && !GoesWrong(ev, s, m)
    ensures forall m1, m2 :: Terminates(ev, s, m, m1) && Terminates(ev, s, m, m2) ==> m1 == m2
  {
    if !Diverges(ev, s, m) && !GoesWrong(ev, s, m) {
      var fuel: nat :| !Exec(ev, s, fuel, m).Timeout?;
      assert Terminates(ev, s, m, Exec(ev, s, fuel, m).mem);
    }
    forall f: nat, g: nat | !Exec(ev, s, f, m).Timeout? && !Exec(ev, s, g, m).Timeout?
      ensures Exec(ev, s, f, m).Done? == Exec(ev, s, g, m).Done?
      ensures Exec(ev, s, f, m).Done? ==> Exec(ev, s, f, m).mem == Exec(ev, s, g, m).mem
    {
      MoreFuel(ev, s, f, g, m);
      MoreFuel(ev, s, g, f, m);
    }
  }
}
