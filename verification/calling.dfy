/** The calling sequence: prolog, epilog, call site and frame layout, over runs of any depth. */
module Calling {
  import opened Wrappers

  datatype Reg = SP | FP | RA | V0 | T(i: nat)

  /** The instructions the prolog, the epilog and a call site are made of. */
  datatype FrameInstr =
    | Sw(r: Reg, off: int, base: Reg)
    | Lw(r: Reg, off: int, base: Reg)
    | AddImm(rd: Reg, rs: Reg, imm: int)
    | LwFrameSize(rd: Reg)
    | SubReg(rd: Reg, rs: Reg, rt: Reg)

  /** t holds $8..$15. */
  datatype Cpu = Cpu(sp: int, fp: int, ra: int, v0: int, t: seq<int>, mem: map<int, int>)

  function Word(mem: map<int, int>, a: int): int {
    if a in mem then mem[a] else 0
  }

  function Get(c: Cpu, r: Reg): int {
    match r
    case SP => c.sp
    case FP => c.fp
    case RA => c.ra
    case V0 => c.v0
    case T(i) => if i < |c.t| then c.t[i] else 0
  }

  function Set(c: Cpu, r: Reg, x: int): Cpu {
    match r
    case SP => c.(sp := x)
    case FP => c.(fp := x)
    case RA => c.(ra := x)
    case V0 => c.(v0 := x)
    case T(i) => if i < |c.t| then c.(t := c.t[i := x]) else c
  }

  /** fs is the word `_framesize_<name>`. */
  function Do(x: FrameInstr, c: Cpu, fs: int): Cpu {
    match x
    case Sw(r, off, b) => c.(mem := c.mem[Get(c, b) + off := Get(c, r)])
    case Lw(r, off, b) => Set(c, r, Word(c.mem, Get(c, b) + off))
    case AddImm(rd, rs, imm) => Set(c, rd, Get(c, rs) + imm)
    case LwFrameSize(rd) => Set(c, rd, fs)
    case SubReg(rd, rs, rt) => Set(c, rd, Get(c, rs) - Get(c, rt))
  }

  function RunCode(code: seq<FrameInstr>, c: Cpu, fs: int): Cpu {
    if |code| == 0 then c else RunCode(code[1..], Do(code[0], c, fs), fs)
  }

  /** sw $(8+i), 32-4i($sp) for i, i+1, .., 7. */
  function Saves(i: nat): seq<FrameInstr>
    decreases 8 - i
  {
    if i >= 8 then [] else [Sw(T(i), 32 - 4 * i, SP)] + Saves(i + 1)
  }

  function Restores(i: nat): seq<FrameInstr>
    decreases 8 - i
  {
    if i >= 8 then [] else [Lw(T(i), 32 - 4 * i, SP)] + Restores(i + 1)
  }

  function PrologHead(): seq<FrameInstr> {
    [Sw(RA, 0, SP), Sw(FP, -4, SP), AddImm(FP, SP, -4), AddImm(SP, SP, -8), LwFrameSize(V0), SubReg(SP, SP, V0)]
  }

  function Prolog(): seq<FrameInstr> {
    PrologHead() + Saves(0)
  }

  function EpilogTail(): seq<FrameInstr> {
    [Lw(RA, 4, FP), AddImm(SP, FP, 4), Lw(FP, 0, FP)]
  }

  function Epilog(): seq<FrameInstr> {
    Restores(0) + EpilogTail()
  }

  const FRAME_SIZE := 32
  const MAIN_FRAME_SIZE := 36

  /** What one activation of a function does between prolog and epilog, with arbitrary values: set a
      temporary, assign local k (at -4k($fp)), or call a function, which leaves its own link in $ra. */
  datatype Activity =
    | Finish
    | SetTemp(i: nat, x: int, rest: Activity)
    | SetLocal(k: nat, x: int, rest: Activity)
    | Call(callee: Activity, link: int, rest: Activity)

  /** Locals are numbered from 1, in every activation. */
  predicate LocalsFromOne(a: Activity) {
    match a
    case Finish => true
    case SetTemp(_, _, rest) => LocalsFromOne(rest)
    case SetLocal(k, _, rest) => k >= 1 && LocalsFromOne(rest)
    case Call(f, _, rest) => LocalsFromOne(f) && LocalsFromOne(rest)
  }

  function RunBody(a: Activity, c: Cpu): Cpu
    decreases a, 0
  {
    match a
    case Finish => c
    case SetTemp(i, x, rest) => RunBody(rest, Set(c, T(i), x))
    case SetLocal(k, x, rest) => RunBody(rest, c.(mem := c.mem[c.fp - 4 * k := x]))
    case Call(f, link, rest) => RunBody(rest, CallSite(f, link, c))
  }

  /** addi $sp, $sp, -4; jal; addi $sp, $sp, 4. */
  function CallSite(f: Activity, link: int, c: Cpu): Cpu
    decreases f, 2
  {
    var r := RunFunction(f, c.(sp := c.sp - 4, ra := link), FRAME_SIZE);
    r.(sp := r.sp + 4)
  }

  function RunFunction(f: Activity, c: Cpu, fs: int): Cpu
    decreases f, 1
  {
    RunCode(Epilog(), RunBody(f, RunCode(Prolog(), c, fs)), fs)
  }

  /** The last value this activation gave to its local k. */
  function LastStored(a: Activity, k: nat): Option<int> {
    match a
    case Finish => None
    case SetTemp(_, _, rest) => LastStored(rest, k)
    case SetLocal(j, x, rest) =>
      if LastStored(rest, k).Some? then LastStored(rest, k) else if j == k then Some(x) else None
    case Call(_, _, rest) => LastStored(rest, k)
  }

  function OrElse(o: Option<int>, d: int): int {
    if o.Some? then o.value else d
  }

  // ----- prolog and epilog -----

  lemma {:induction false} RunConcat(a: seq<FrameInstr>, b: seq<FrameInstr>, c: Cpu, fs: int)
    ensures RunCode(a + b, c, fs) == RunCode(b, RunCode(a, c, fs), fs)
    decreases a
  {
    if a == [] {
      assert a + b == b;
    } else {
      assert (a + b)[0] == a[0] && (a + b)[1..] == a[1..] + b;
      RunConcat(a[1..], b, Do(a[0], c, fs), fs);
    }
  }

  lemma {:induction false} SavesEffect(i: nat, c: Cpu, fs: int)
    requires |c.t| == 8 && i <= 8
    ensures var r := RunCode(Saves(i), c, fs);
            && r == c.(mem := r.mem)
            && (forall j :: i <= j < 8 ==> Word(r.mem, c.sp + 32 - 4 * j) == c.t[j])
            && (forall a :: a > c.sp + 32 - 4 * i || a < c.sp + 4 ==> Word(r.mem, a) == Word(c.mem, a))
    decreases 8 - i
  {
    if i < 8 {
      var x := Sw(T(i), 32 - 4 * i, SP);
      Unroll(x, Saves(i + 1), c, fs);
      hide RunCode;
      var d := c.(mem := c.mem[c.sp + 32 - 4 * i := c.t[i]]);
      assert Do(x, c, fs) == d;
      SavesEffect(i + 1, d, fs);
    }
  }

  lemma {:induction false} RestoresEffect(i: nat, c: Cpu, fs: int)
    requires |c.t| == 8 && i <= 8
    ensures var r := RunCode(Restores(i), c, fs);
            && r == c.(t := r.t) && |r.t| == 8
            && (forall j :: i <= j < 8 ==> r.t[j] == Word(c.mem, c.sp + 32 - 4 * j))
            && (forall j :: 0 <= j < i ==> r.t[j] == c.t[j])
    decreases 8 - i
  {
    if i < 8 {
      var x := Lw(T(i), 32 - 4 * i, SP);
      Unroll(x, Restores(i + 1), c, fs);
      hide RunCode;
      RestoresEffect(i + 1, Do(x, c, fs), fs);
    }
  }

  lemma Unroll(x: FrameInstr, rest: seq<FrameInstr>, c: Cpu, fs: int)
    ensures RunCode([x] + rest, c, fs) == RunCode(rest, Do(x, c, fs), fs)
  {
    assert ([x] + rest)[1..] == rest;
  }

  lemma PrologHeadEffect(c: Cpu, fs: int)
    ensures RunCode(PrologHead(), c, fs) ==
            c.(sp := c.sp - 8 - fs, fp := c.sp - 4, v0 := fs, mem := c.mem[c.sp := c.ra][c.sp - 4 := c.fp])
  {
    var i := PrologHead();
    var c1 := Do(i[0], c, fs);
    var c2 := Do(i[1], c1, fs);
    var c3 := Do(i[2], c2, fs);
    var c4 := Do(i[3], c3, fs);
    var c5 := Do(i[4], c4, fs);
    Unroll(i[0], i[1..], c, fs);
    Unroll(i[1], i[2..], c1, fs);
    Unroll(i[2], i[3..], c2, fs);
    Unroll(i[3], i[4..], c3, fs);
    Unroll(i[4], i[5..], c4, fs);
    Unroll(i[5], [], c5, fs);
    assert i == [i[0]] + i[1..] && i[1..] == [i[1]] + i[2..] && i[2..] == [i[2]] + i[3..];
    assert i[3..] == [i[3]] + i[4..] && i[4..] == [i[4]] + i[5..] && i[5..] == [i[5]] + [];
  }

  /** The frame the prolog builds below the stack pointer s at entry. */
  ghost predicate Framed(e: Cpu, p: Cpu, fs: int) {
    && |p.t| == 8 && p.t == e.t
    && p.sp == e.sp - 8 - fs && p.fp == e.sp - 4
    && Word(p.mem, e.sp) == e.ra && Word(p.mem, e.sp - 4) == e.fp
    && (forall j :: 0 <= j < 8 ==> Word(p.mem, p.sp + 32 - 4 * j) == e.t[j])
    && (forall a :: a > e.sp ==> Word(p.mem, a) == Word(e.mem, a))
  }

  lemma PrologEffect(c: Cpu, fs: int)
    requires |c.t| == 8 && fs >= 32
    ensures Framed(c, RunCode(Prolog(), c, fs), fs)
  {
    hide RunCode, Saves, PrologHead;
    PrologHeadEffect(c, fs);
    RunConcat(PrologHead(), Saves(0), c, fs);
    SavesEffect(0, RunCode(PrologHead(), c, fs), fs);
  }

  lemma EpilogEffect(c: Cpu, fs: int)
    requires |c.t| == 8
    ensures var r := RunCode(Epilog(), c, fs);
            && r == Cpu(c.fp + 4, Word(c.mem, c.fp), Word(c.mem, c.fp + 4), c.v0, r.t, c.mem) && |r.t| == 8
            && (forall j :: 0 <= j < 8 ==> r.t[j] == Word(c.mem, c.sp + 32 - 4 * j))
  {
    RunConcat(Restores(0), EpilogTail(), c, fs);
    RestoresEffect(0, c, fs);
    var d := RunCode(Restores(0), c, fs);
    var i := EpilogTail();
    var d1 := Do(i[0], d, fs);
    var d2 := Do(i[1], d1, fs);
    Unroll(i[0], i[1..], d, fs);
    Unroll(i[1], i[2..], d1, fs);
    Unroll(i[2], [], d2, fs);
    assert i == [i[0]] + i[1..] && i[1..] == [i[1]] + i[2..] && i[2..] == [i[2]] + [];
  }

  // ----- every run -----

  /** What a body keeps in a frame with frame pointer fp and stack pointer sp: both pointers, all
      memory above the first local slot, and the first locals up to the slot at sp: each of those
      slots holds the last value stored in it, or what it held before. */
  ghost predicate BodyKeeps(a: Activity, c: Cpu, r: Cpu) {
    && r.sp == c.sp && r.fp == c.fp && |r.t| == 8
    && (forall x :: x > c.fp - 4 ==> Word(r.mem, x) == Word(c.mem, x))
    && (forall k: nat :: 1 <= k && c.fp - 4 * k >= c.sp ==>
          Word(r.mem, c.fp - 4 * k) == OrElse(LastStored(a, k), Word(c.mem, c.fp - 4 * k)))
  }

  /** What a call keeps: pointers, return address, everything above the stack pointer at entry; and
      $(8+j) comes back as the last value of local j+1 if there is one, else unchanged. */
  ghost predicate CallKeeps(f: Activity, c: Cpu, r: Cpu) {
    && |c.t| == 8 && r.sp == c.sp && r.fp == c.fp && r.ra == c.ra && |r.t| == 8
    && (forall x :: x > c.sp ==> Word(r.mem, x) == Word(c.mem, x))
    && (forall j :: 0 <= j < 8 ==> r.t[j] == OrElse(LastStored(f, j + 1), c.t[j]))
  }

  lemma BodyCall(f: Activity, link: int, rest: Activity, c: Cpu, d: Cpu, r: Cpu)
    requires c.sp <= c.fp && CallKeeps(f, c.(sp := c.sp - 4, ra := link), d) && BodyKeeps(rest, d.(sp := d.sp + 4), r)
    ensures BodyKeeps(Call(f, link, rest), c, r)
  {
    forall k: nat | 1 <= k && c.fp - 4 * k >= c.sp
      ensures Word(r.mem, c.fp - 4 * k) == OrElse(LastStored(rest, k), Word(c.mem, c.fp - 4 * k))
    {
      assert Word(d.mem, c.fp - 4 * k) == Word(c.mem, c.fp - 4 * k);
    }
  }

  lemma BodyStore(k: nat, x: int, rest: Activity, c: Cpu, r: Cpu)
    requires k >= 1 && BodyKeeps(rest, c.(mem := c.mem[c.fp - 4 * k := x]), r)
    ensures BodyKeeps(SetLocal(k, x, rest), c, r)
  {
    var d := c.(mem := c.mem[c.fp - 4 * k := x]);
    forall j: nat | 1 <= j && c.fp - 4 * j >= c.sp
      ensures Word(r.mem, c.fp - 4 * j) == OrElse(LastStored(SetLocal(k, x, rest), j), Word(c.mem, c.fp - 4 * j))
    {
      assert Word(r.mem, c.fp - 4 * j) == OrElse(LastStored(rest, j), Word(d.mem, c.fp - 4 * j));
    }
  }

  lemma {:induction false} BodyRuns(a: Activity, c: Cpu)
    requires LocalsFromOne(a) && |c.t| == 8 && c.sp <= c.fp
    ensures BodyKeeps(a, c, RunBody(a, c))
    decreases a, 0
  {
    match a
    case Finish =>
    case SetTemp(i, x, rest) => BodyRuns(rest, Set(c, T(i), x));
    case SetLocal(k, x, rest) =>
      BodyRuns(rest, c.(mem := c.mem[c.fp - 4 * k := x]));
      BodyStore(k, x, rest, c, RunBody(a, c));
    case Call(f, link, rest) =>
      var e := c.(sp := c.sp - 4, ra := link);
      FunctionReturns(f, e);
      BodyRuns(rest, CallSite(f, link, c));
      BodyCall(f, link, rest, c, RunFunction(f, e, FRAME_SIZE), RunBody(a, c));
  }

  /** Every call that returns, to any depth of recursion: stack pointer, frame pointer and return
      address as at entry, nothing above changed, and an exact account of $8..$15. */
  lemma {:induction false} FunctionReturns(f: Activity, c: Cpu)
    requires LocalsFromOne(f) && |c.t| == 8
    ensures CallKeeps(f, c, RunFunction(f, c, FRAME_SIZE))
    decreases f, 1
  {
    PrologEffect(c, FRAME_SIZE);
    var p := RunCode(Prolog(), c, FRAME_SIZE);
    BodyRuns(f, p);
    var b := RunBody(f, p);
    EpilogEffect(b, FRAME_SIZE);
    FrameUndone(f, c, p, b, RunFunction(f, c, FRAME_SIZE));
  }

  lemma FrameUndone(f: Activity, c: Cpu, p: Cpu, b: Cpu, r: Cpu)
    requires |c.t| == 8 && Framed(c, p, FRAME_SIZE) && BodyKeeps(f, p, b)
    requires r == Cpu(b.fp + 4, Word(b.mem, b.fp), Word(b.mem, b.fp + 4), b.v0, r.t, b.mem) && |r.t| == 8
    requires forall j :: 0 <= j < 8 ==> r.t[j] == Word(b.mem, b.sp + 32 - 4 * j)
    ensures CallKeeps(f, c, r)
  {
    forall j | 0 <= j < 8 ensures r.t[j] == OrElse(LastStored(f, j + 1), c.t[j]) {
      var k: nat := j + 1;
      assert p.fp - 4 * k == p.sp + 32 - 4 * j;
      assert Word(b.mem, p.fp - 4 * k) == OrElse(LastStored(f, k), Word(p.mem, p.fp - 4 * k));
    }
  }

  /** At most n locals are assigned. */
  predicate LocalsUpTo(a: Activity, n: nat) {
    match a
    case Finish => true
    case SetTemp(_, _, rest) => LocalsUpTo(rest, n)
    case SetLocal(k, _, rest) => 1 <= k <= n && LocalsUpTo(rest, n)
    case Call(_, _, rest) => LocalsUpTo(rest, n)
  }

  lemma {:induction false} NeverStored(a: Activity, n: nat, k: nat)
    requires LocalsUpTo(a, n) && k > n
    ensures LastStored(a, k) == None
  {
    match a
    case Finish =>
    case SetTemp(_, _, rest) => NeverStored(rest, n, k);
    case SetLocal(_, _, rest) => NeverStored(rest, n, k);
    case Call(_, _, rest) => NeverStored(rest, n, k);
  }

  /** A callee with n locals preserves $(8+n)..$15. */
  lemma CalleePreserves(f: Activity, n: nat, c: Cpu, j: nat)
    requires LocalsFromOne(f) && LocalsUpTo(f, n) && |c.t| == 8 && n <= j < 8
    ensures |RunFunction(f, c, FRAME_SIZE).t| == 8 && RunFunction(f, c, FRAME_SIZE).t[j] == c.t[j]
  {
    hide RunFunction, RunBody, RunCode, CallSite, Set, LocalsFromOne, LocalsUpTo, LastStored;
    FunctionReturns(f, c);
    NeverStored(f, n, j + 1);
  }

  /** The first nine locals of a function survive any call it makes. */
  lemma NineLocalsSurvive(f: Activity, link: int, c: Cpu, k: nat)
    requires LocalsFromOne(f) && |c.t| == 8 && c.sp == c.fp - 4 - FRAME_SIZE && 1 <= k <= 9
    ensures Word(CallSite(f, link, c).mem, c.fp - 4 * k) == Word(c.mem, c.fp - 4 * k)
  {
    FunctionReturns(f, c.(sp := c.sp - 4, ra := link));
  }

  /** Below the stack pointer any call leaves its return address and the frame pointer. */
  lemma LinkBelow(f: Activity, link: int, c: Cpu)
    requires LocalsFromOne(f) && |c.t| == 8
    ensures Word(CallSite(f, link, c).mem, c.sp - 4) == link
    ensures Word(CallSite(f, link, c).mem, c.sp - 8) == c.fp
  {
    var e := c.(sp := c.sp - 4, ra := link);
    PrologEffect(e, FRAME_SIZE);
    var p := RunCode(Prolog(), e, FRAME_SIZE);
    BodyRuns(f, p);
    EpilogEffect(RunBody(f, p), FRAME_SIZE);
  }

  /** And below these, the locals of the callee. */
  lemma LocalBelow(j: nat, x: int, link: int, c: Cpu)
    requires |c.t| == 8 && j >= 1
    ensures Word(CallSite(SetLocal(j, x, Finish), link, c).mem, c.sp - 8 - 4 * j) == x
  {
    var f := SetLocal(j, x, Finish);
    var e := c.(sp := c.sp - 4, ra := link);
    PrologEffect(e, FRAME_SIZE);
    var p := RunCode(Prolog(), e, FRAME_SIZE);
    var b := p.(mem := p.mem[p.fp - 4 * j := x]);
    assert RunBody(f, p) == RunBody(Finish, b) == b;
    EpilogEffect(b, FRAME_SIZE);
  }

  /** The tenth local does not survive: any call overwrites it with the return address of that call. */
  lemma TenthLocalLost(f: Activity, link: int, c: Cpu)
    requires LocalsFromOne(f) && |c.t| == 8 && c.sp == c.fp - 4 - FRAME_SIZE
    ensures Word(CallSite(f, link, c).mem, c.fp - 4 * 10) == link
  {
    LinkBelow(f, link, c);
  }

  /** The eleventh is overwritten with the saved frame pointer. */
  lemma EleventhLocalLost(f: Activity, link: int, c: Cpu)
    requires LocalsFromOne(f) && |c.t| == 8 && c.sp == c.fp - 4 - FRAME_SIZE
    ensures Word(CallSite(f, link, c).mem, c.fp - 4 * 11) == c.fp
  {
    LinkBelow(f, link, c);
  }

  /** Any later one is overwritten by a callee that assigns its own local k - 11. */
  lemma LaterLocalLost(k: nat, x: int, link: int, c: Cpu)
    requires |c.t| == 8 && c.sp == c.fp - 4 - FRAME_SIZE && k >= 12
    ensures Word(CallSite(SetLocal(k - 11, x, Finish), link, c).mem, c.fp - 4 * k) == x
  {
    LocalBelow(k - 11, x, link, c);
  }

  /** Local k of a function with a frame of fs bytes survives every call it can make. */
  ghost predicate Survives(k: nat, fs: int) {
    forall f: Activity, link: int, c: Cpu ::
      LocalsFromOne(f) && |c.t| == 8 && c.sp == c.fp - 4 - fs ==>
        Word(CallSite(f, link, c).mem, c.fp - 4 * k) == Word(c.mem, c.fp - 4 * k)
  }

  /** Exactly the locals above the stack pointer are safe. */
  lemma SurvivesInFrame(k: nat, fs: nat)
    requires k >= 1 && fs % 4 == 0
    ensures Survives(k, fs) <==> 4 * k <= fs + 4
  {
    hide RunFunction;
    var c := Cpu(-4 - fs, 0, 0, 0, [0, 0, 0, 0, 0, 0, 0, 0], map[]);
    if 4 * k <= fs + 4 {
      forall f: Activity, link: int, c: Cpu | LocalsFromOne(f) && |c.t| == 8 && c.sp == c.fp - 4 - fs
        ensures Word(CallSite(f, link, c).mem, c.fp - 4 * k) == Word(c.mem, c.fp - 4 * k)
      {
        FunctionReturns(f, c.(sp := c.sp - 4, ra := link));
      }
    } else if 4 * k == fs + 8 {
      LinkBelow(Finish, 1, c);
    } else if 4 * k == fs + 12 {
      c := c.(sp := 0 - fs, fp := 4);
      LinkBelow(Finish, 1, c);
    } else {
      var j := k - 3 - fs / 4;
      LocalBelow(j, 1, 0, c);
      assert LocalsFromOne(SetLocal(j, 1, Finish));
    }
  }

  /** Exactly the first nine locals are safe, and in main the first ten. */
  lemma SurvivesExactly(k: nat)
    requires k >= 1
    ensures Survives(k, FRAME_SIZE) <==> k <= 9
    ensures Survives(k, MAIN_FRAME_SIZE) <==> k <= 10
  {
    SurvivesInFrame(k, FRAME_SIZE);
    SurvivesInFrame(k, MAIN_FRAME_SIZE);
  }

  /** main has a larger frame, whose first ten locals survive; it exits instead of returning. */
  lemma MainKeepsTenLocals(a: Activity, c: Cpu, k: nat)
    requires LocalsFromOne(a) && |c.t| == 8 && 1 <= k <= 10
    ensures var p := RunCode(Prolog(), c, MAIN_FRAME_SIZE);
            Word(RunBody(a, p).mem, p.fp - 4 * k) == OrElse(LastStored(a, k), Word(p.mem, p.fp - 4 * k))
  {
    hide RunCode, RunBody;
    PrologEffect(c, MAIN_FRAME_SIZE);
    BodyRuns(a, RunCode(Prolog(), c, MAIN_FRAME_SIZE));
  }
}
