/** What the redundant-store pass preserves, and exactly when. */
module StoreSound {
  import opened StorePass

  /** A memory word: its value and the store that wrote it, if one of this block did. */
  datatype Cell = Cell(value: int, from: int)

  const INITIAL := -1

  type Memory = map<int, Cell>

  /** What a load or a call was given to see. */
  datatype Seen = Loaded(c: Cell) | Called(m: Memory)

  /** The outside of the block: the address each pointer operand stands for, what computations give,
      and what a called function does to memory. */
  datatype Env = Env(
    addr: Operand -> int,
    compute: (int, int) -> int,
    effect: (nat, Memory) -> (int, Memory))

  datatype State = State(vals: map<Operand, int>, mem: Memory)

  function Val(s: State, o: Operand): int {
    if o in s.vals then s.vals[o] else 0
  }

  function At(m: Memory, a: int): Cell {
    if a in m then m[a] else Cell(0, INITIAL)
  }

  function Next(x: Inst, env: Env, s: State): State {
    match x
    case Store(id, v, p) => s.(mem := s.mem[env.addr(p) := Cell(Val(s, v), id)])
    case Load(d, p) => s.(vals := s.vals[d := At(s.mem, env.addr(p)).value])
    case Compute(d, a, b) => s.(vals := s.vals[d := env.compute(Val(s, a), Val(s, b))])
    case Invoke(d, f) =>
      var r := env.effect(f, s.mem);
      State(s.vals[d := r.0], r.1)
  }

  function Sees(x: Inst, env: Env, s: State): seq<Seen> {
    match x
    case Load(_, p) => [Loaded(At(s.mem, env.addr(p)))]
    case Invoke(_, _) => [Called(s.mem)]
    case _ => []
  }

  function Final(insts: seq<Inst>, env: Env, s: State): State
    decreases |insts|
  {
    if insts == [] then s else Final(insts[1..], env, Next(insts[0], env, s))
  }

  function Trace(insts: seq<Inst>, env: Env, s: State): seq<Seen>
    decreases |insts|
  {
    if insts == [] then [] else Sees(insts[0], env, s) + Trace(insts[1..], env, Next(insts[0], env, s))
  }

  /** x may read the word at address a. */
  predicate Reads(x: Inst, env: Env, a: int) {
    x.Invoke? || (x.Load? && env.addr(x.src) == a)
  }

  predicate StoresPtr(x: Inst, p: Operand) {
    x.Store? && x.ptr == p
  }

  /** The word p points to is read before the next store through p. */
  predicate ReadBeforeNext(insts: seq<Inst>, env: Env, p: Operand) {
    insts != [] && !StoresPtr(insts[0], p) &&
    (Reads(insts[0], env, env.addr(p)) || ReadBeforeNext(insts[1..], env, p))
  }

  /** No word is read between two stores through the same named pointer. */
  predicate Unread(insts: seq<Inst>, env: Env) {
    insts == [] ||
    (Unread(insts[1..], env) &&
     (Redundant(insts[0], insts[1..]) ==> !ReadBeforeNext(insts[1..], env, insts[0].ptr)))
  }

  // ----- soundness -----

  /** The word p points to will be stored through p again before anyone reads it. */
  predicate Pending(todo: seq<Inst>, env: Env, p: Operand) {
    StoresThrough(todo, p) > 0 && !ReadBeforeNext(todo, env, p)
  }

  ghost predicate SameAt(m: Memory, m': Memory, a: int) {
    (a in m <==> a in m') && (a in m ==> m[a] == m'[a])
  }

  ghost predicate PendingAt(todo: seq<Inst>, env: Env, a: int) {
    exists p :: Pending(todo, env, p) && env.addr(p) == a
  }

  /** Same values; memories differ in pending words only. */
  ghost predicate Agree(todo: seq<Inst>, env: Env, s: State, t: State) {
    s.vals == t.vals && forall a :: SameAt(s.mem, t.mem, a) || PendingAt(todo, env, a)
  }

  lemma SameEverywhere(m: Memory, m': Memory)
    requires forall a :: SameAt(m, m', a)
    ensures m == m'
  {
    forall a ensures (a in m <==> a in m') && (a in m ==> m[a] == m'[a]) {
      assert SameAt(m, m', a);
    }
  }

  /** A pending word stays pending past anything but its store. */
  lemma StillPending(todo: seq<Inst>, env: Env, p: Operand)
    requires todo != [] && Pending(todo, env, p) && !StoresPtr(todo[0], p)
    ensures Pending(todo[1..], env, p) && !Reads(todo[0], env, env.addr(p))
  {
  }

  lemma PastRead(todo: seq<Inst>, env: Env, s: State, t: State)
    requires todo != [] && !todo[0].Store? && Agree(todo, env, s, t)
    ensures Sees(todo[0], env, s) == Sees(todo[0], env, t)
    ensures Agree(todo[1..], env, Next(todo[0], env, s), Next(todo[0], env, t))
  {
    var x := todo[0];
    forall a | PendingAt(todo, env, a) ensures PendingAt(todo[1..], env, a) && !Reads(x, env, a) {
      var p :| Pending(todo, env, p) && env.addr(p) == a;
      StillPending(todo, env, p);
    }
    if x.Load? {
      assert SameAt(s.mem, t.mem, env.addr(x.src));
    } else if x.Invoke? {
      SameEverywhere(s.mem, t.mem);
    }
  }

  /** A store that is kept. */
  lemma PastStore(todo: seq<Inst>, env: Env, s: State, t: State)
    requires todo != [] && todo[0].Store? && Agree(todo, env, s, t)
    ensures Agree(todo[1..], env, Next(todo[0], env, s), Next(todo[0], env, t))
  {
    var x := todo[0];
    forall a | PendingAt(todo, env, a) && a != env.addr(x.ptr) ensures PendingAt(todo[1..], env, a) {
      var p :| Pending(todo, env, p) && env.addr(p) == a;
      StillPending(todo, env, p);
    }
    var s', t' := Next(x, env, s), Next(x, env, t);
    forall a ensures SameAt(s'.mem, t'.mem, a) || PendingAt(todo[1..], env, a) {
      assert SameAt(s.mem, t.mem, a) || PendingAt(todo, env, a);
    }
  }

  /** A store that is removed. */
  lemma PastRedundant(todo: seq<Inst>, env: Env, s: State, t: State)
    requires todo != [] && Redundant(todo[0], todo[1..]) && Unread(todo, env) && Agree(todo, env, s, t)
    ensures Agree(todo[1..], env, Next(todo[0], env, s), t)
  {
    var x := todo[0];
    assert Pending(todo[1..], env, x.ptr);
    assert PendingAt(todo[1..], env, env.addr(x.ptr));
    forall a | PendingAt(todo, env, a) && a != env.addr(x.ptr) ensures PendingAt(todo[1..], env, a) {
      var p :| Pending(todo, env, p) && env.addr(p) == a;
      StillPending(todo, env, p);
    }
    var s' := Next(x, env, s);
    forall a ensures SameAt(s'.mem, t.mem, a) || PendingAt(todo[1..], env, a) {
      assert SameAt(s.mem, t.mem, a) || PendingAt(todo, env, a);
    }
  }

  lemma {:induction false} Sound(todo: seq<Inst>, env: Env, s: State, t: State)
    requires Unread(todo, env) && Agree(todo, env, s, t)
    ensures Final(KeepLast(todo), env, t) == Final(todo, env, s)
    ensures Trace(KeepLast(todo), env, t) == Trace(todo, env, s)
    decreases |todo|
  {
    if todo == [] {
      SameEverywhere(s.mem, t.mem);
    } else {
      var x, rest := todo[0], todo[1..];
      var s' := Next(x, env, s);
      if Redundant(x, rest) {
        PastRedundant(todo, env, s, t);
        Sound(rest, env, s', t);
      } else {
        if x.Store? { PastStore(todo, env, s, t); } else { PastRead(todo, env, s, t); }
        Sound(rest, env, s', Next(x, env, t));
        assert ([x] + KeepLast(rest))[1..] == KeepLast(rest);
      }
    }
  }

  /** If no name stored as a value is an operand of stores a second time, no two pointers stored through
      have one name, and no word is read between two stores through the same pointer, the pass changes
      neither the final state nor anything a load or a call sees, whatever the block starts from and
      whichever pointers alias. */
  lemma PassIsSound(insts: seq<Inst>, env: Env, s: State)
    requires ValueNamesOnce(insts) && NamesTell(insts) && Unread(insts, env)
    ensures Scan(insts, Collect(insts)).Ok?
    ensures var r := Scan(insts, Collect(insts)).kept;
            Final(r, env, s) == Final(insts, env, s) && Trace(r, env, s) == Trace(insts, env, s)
  {
    PassKeepsLast(insts);
    assert Agree(insts, env, s, s);
    Sound(insts, env, s, s);
  }

  // ----- and only then -----

  /** Different operands stand for different addresses, be their names equal or not, and every store of the
      block has its own identity. */
  ghost predicate Distinct(insts: seq<Inst>, env: Env) {
    && (forall p, q :: env.addr(p) == env.addr(q) ==> p == q)
    && (forall i, j :: 0 <= i < j < |insts| && insts[i].Store? && insts[j].Store? ==> insts[i].id != insts[j].id)
  }

  ghost predicate NeverFrom(m: Memory, id: int) {
    forall a :: a in m ==> m[a].from != id
  }

  /** Called functions do not invent cells written by this block. */
  ghost predicate Honest(env: Env) {
    forall f, m, id :: NeverFrom(m, id) ==> NeverFrom(env.effect(f, m).1, id)
  }

  lemma KeepFirst(x: Inst, rest: seq<Inst>, env: Env, t: State)
    requires !Redundant(x, rest)
    ensures Trace(KeepLast([x] + rest), env, t) == Sees(x, env, t) + Trace(KeepLast(rest), env, Next(x, env, t))
  {
    assert ([x] + rest)[1..] == rest && ([x] + KeepLast(rest))[1..] == KeepLast(rest);
  }

  /** A reader of the word at a sees who wrote it. */
  lemma ReaderTells(x: Inst, env: Env, s: State, t: State, a: int, id: int)
    requires Reads(x, env, a) && a in s.mem && s.mem[a].from == id && id != INITIAL && NeverFrom(t.mem, id)
    ensures Sees(x, env, s) != Sees(x, env, t)
  {
    if x.Load? {
      assert At(s.mem, a).from == id && At(t.mem, a).from != id;
    } else {
      assert s.mem != t.mem;
    }
  }

  /** If the original run holds a store's mark where p points, the optimized run nowhere, and the word is
      read before the next store through p, then the two runs see different things. */
  lemma {:induction false} ReaderDiffers(todo: seq<Inst>, env: Env, s: State, t: State, p: Operand, id: nat)
    requires ReadBeforeNext(todo, env, p)
    requires Honest(env) && (forall p, q :: env.addr(p) == env.addr(q) ==> p == q)
    requires forall i :: 0 <= i < |todo| && todo[i].Store? ==> todo[i].id != id
    requires env.addr(p) in s.mem && s.mem[env.addr(p)].from == id && NeverFrom(t.mem, id)
    ensures Trace(KeepLast(todo), env, t) != Trace(todo, env, s)
    decreases |todo|
  {
    var x, rest := todo[0], todo[1..];
    var a := env.addr(p);
    var s' := Next(x, env, s);
    assert [x] + rest == todo;
    if Reads(x, env, a) {
      ReaderTells(x, env, s, t, a, id);
      KeepFirst(x, rest, env, t);
      assert |Sees(x, env, s)| == 1 && |Sees(x, env, t)| == 1;
      assert Trace(todo, env, s)[0] == Sees(x, env, s)[0];
      assert Trace(KeepLast(todo), env, t)[0] == Sees(x, env, t)[0];
    } else {
      assert a in s'.mem && s'.mem[a].from == id;
      assert forall i :: 0 <= i < |rest| ==> rest[i] == todo[i + 1];
      if Redundant(x, rest) {
        ReaderDiffers(rest, env, s', t, p, id);
      } else {
        var t' := Next(x, env, t);
        ReaderDiffers(rest, env, s', t', p, id);
        KeepFirst(x, rest, env, t);
        SuffixDiffers(Sees(x, env, s), Trace(rest, env, s'), Sees(x, env, t), Trace(KeepLast(rest), env, t'));
      }
    }
  }

  lemma SuffixDiffers<T>(a: seq<T>, b: seq<T>, c: seq<T>, d: seq<T>)
    requires |a| == |c| && b != d
    ensures a + b != c + d
  {
    assert (a + b)[|a|..] == b;
    assert (c + d)[|c|..] == d;
  }

  /** Nothing in memory is marked with a store of the block. */
  ghost predicate Unmarked(m: Memory, insts: seq<Inst>) {
    forall i :: 0 <= i < |insts| && insts[i].Store? ==> NeverFrom(m, insts[i].id)
  }

  /** The hypotheses of the exact statement, on the part of the block still to run. */
  ghost predicate Observable(todo: seq<Inst>, env: Env, t: State) {
    Distinct(todo, env) && Honest(env) && Unmarked(t.mem, todo)
  }

  lemma ObservableRest(todo: seq<Inst>, env: Env, t: State)
    requires todo != [] && Observable(todo, env, t)
    ensures Observable(todo[1..], env, t) && Observable(todo[1..], env, Next(todo[0], env, t))
  {
    var rest := todo[1..];
    assert forall i :: 0 <= i < |rest| ==> rest[i] == todo[i + 1];
    var t' := Next(todo[0], env, t);
    forall i | 0 <= i < |rest| && rest[i].Store? ensures NeverFrom(t'.mem, rest[i].id) {
      assert NeverFrom(t.mem, todo[i + 1].id);
    }
  }

  lemma RemovedIsSeen(todo: seq<Inst>, env: Env, s: State, t: State)
    requires todo != [] && Observable(todo, env, t) && Redundant(todo[0], todo[1..])
    requires ReadBeforeNext(todo[1..], env, todo[0].ptr)
    ensures Trace(KeepLast(todo), env, t) != Trace(todo, env, s)
  {
    var x, rest := todo[0], todo[1..];
    assert forall i :: 0 <= i < |rest| ==> rest[i] == todo[i + 1];
    ReaderDiffers(rest, env, Next(x, env, s), t, x.ptr, x.id);
  }

  lemma {:induction false} ReadIsSeen(todo: seq<Inst>, env: Env, s: State, t: State)
    requires Observable(todo, env, t) && !Unread(todo, env)
    ensures Trace(KeepLast(todo), env, t) != Trace(todo, env, s)
    decreases |todo|
  {
    hide Distinct, Honest, Unmarked, Next;
    var x, rest := todo[0], todo[1..];
    var s' := Next(x, env, s);
    assert [x] + rest == todo;
    ObservableRest(todo, env, t);
    if Redundant(x, rest) {
      if ReadBeforeNext(rest, env, x.ptr) {
        RemovedIsSeen(todo, env, s, t);
      } else {
        ReadIsSeen(rest, env, s', t);
      }
    } else {
      var t' := Next(x, env, t);
      ReadIsSeen(rest, env, s', t');
      KeepFirst(x, rest, env, t);
      SeesLength(x, env, s, t);
      SuffixDiffers(Sees(x, env, s), Trace(rest, env, s'), Sees(x, env, t), Trace(KeepLast(rest), env, t'));
    }
  }

  lemma SeesLength(x: Inst, env: Env, s: State, t: State)
    ensures |Sees(x, env, s)| == |Sees(x, env, t)|
  {
  }

  // ----- a lost last store is seen -----

  /** Loads, calls and the final state tell nothing about the store that was removed. */
  ghost predicate Same(kept: seq<Inst>, insts: seq<Inst>, env: Env, s: State, t: State) {
    Trace(kept, env, t) == Trace(insts, env, s) && Final(kept, env, t) == Final(insts, env, s)
  }

  lemma SameRest(x: Inst, kept: seq<Inst>, rest: seq<Inst>, env: Env, s: State, t: State)
    requires Same([x] + kept, [x] + rest, env, s, t)
    ensures Same(kept, rest, env, Next(x, env, s), Next(x, env, t)) && Sees(x, env, s) == Sees(x, env, t)
  {
    assert ([x] + kept)[1..] == kept && ([x] + rest)[1..] == rest;
    SeesLength(x, env, s, t);
    var a, b := Trace(kept, env, Next(x, env, t)), Trace(rest, env, Next(x, env, s));
    assert (Sees(x, env, t) + a)[..|Sees(x, env, t)|] == Sees(x, env, t);
    assert (Sees(x, env, s) + b)[..|Sees(x, env, s)|] == Sees(x, env, s);
    if a != b { SuffixDiffers(Sees(x, env, t), a, Sees(x, env, s), b); }
  }

  /** If the original run holds a store's mark at an address that is never stored to again, and the
      other run nowhere, then the two runs differ in what is seen or in the end. */
  lemma {:induction false} LostStoreIsSeen(todo: seq<Inst>, names: seq<string>, env: Env, s: State, t: State,
                                           a: int, id: nat)
    requires Scan(todo, names).Ok? && Honest(env)
    requires forall i :: 0 <= i < |todo| && todo[i].Store? ==> todo[i].id != id && env.addr(todo[i].ptr) != a
    requires a in s.mem && s.mem[a].from == id && NeverFrom(t.mem, id)
    ensures !Same(Scan(todo, names).kept, todo, env, s, t)
    decreases |todo|
  {
    if todo != [] {
      var x, rest := todo[0], todo[1..];
      assert [x] + rest == todo && forall i :: 0 <= i < |rest| ==> rest[i] == todo[i + 1];
      if x.Store? && GetName(x.ptr) != "" && Count(names, GetName(x.ptr)) > 1 {
        LostStoreIsSeen(rest, RemoveFirst(names, GetName(x.ptr)), env, Next(x, env, s), t, a, id);
      } else {
        var kept := Scan(rest, names).kept;
        if Same([x] + kept, [x] + rest, env, s, t) {
          SameRest(x, kept, rest, env, s, t);
          if Reads(x, env, a) {
            ReaderTells(x, env, s, t, a, id);
          } else {
            LostStoreIsSeen(rest, names, env, Next(x, env, s), Next(x, env, t), a, id);
          }
        }
      }
    }
  }

  /** A store erased though it is the last one to its pointer. */
  lemma LastErasedIsSeen(x: Inst, rest: seq<Inst>, names: seq<string>, env: Env, s: State, t: State)
    requires Observable([x] + rest, env, t) && Scan(rest, names).Ok?
    requires x.Store? && StoresThrough(rest, x.ptr) == 0
    ensures !Same(Scan(rest, names).kept, rest, env, Next(x, env, s), t)
  {
    var all := [x] + rest;
    assert all[0] == x && forall i :: 0 <= i < |rest| ==> rest[i] == all[i + 1];
    forall i | 0 <= i < |rest| && rest[i].Store?
      ensures rest[i].id != x.id && env.addr(rest[i].ptr) != env.addr(x.ptr)
    {
      NoStoreThrough(rest, x.ptr, i);
    }
    LostStoreIsSeen(rest, names, env, Next(x, env, s), t, env.addr(x.ptr), x.id);
  }

  lemma {:induction false} NoStoreThrough(insts: seq<Inst>, p: Operand, i: nat)
    requires StoresThrough(insts, p) == 0 && i < |insts|
    ensures insts[i].Store? ==> insts[i].ptr != p
  {
    if i > 0 { NoStoreThrough(insts[1..], p, i - 1); }
  }

  /** A lost last store shows, if the scan is defined at all. */
  lemma {:induction false} LostIsSeen(todo: seq<Inst>, names: seq<string>, env: Env, s: State, t: State)
    requires LosesLast(todo, names) && Observable(todo, env, t) && Scan(todo, names).Ok?
    ensures !Same(Scan(todo, names).kept, todo, env, s, t)
    decreases |todo|
  {
    hide Observable, Next, Same, Scan;
    var x, rest, names' := todo[0], todo[1..], NamesAfter(todo[0], names);
    assert [x] + rest == todo;
    ScanHead(todo, names);
    ObservableRest(todo, env, t);
    var kept := Scan(rest, names').kept;
    if Erased(x, names) {
      if Redundant(x, rest) {
        LostIsSeen(rest, names', env, Next(x, env, s), t);
      } else {
        LastErasedIsSeen(x, rest, names', env, s, t);
      }
      SameErased(kept, x, rest, env, s, t);
    } else {
      LostIsSeen(rest, names', env, Next(x, env, s), Next(x, env, t));
      if Same([x] + kept, [x] + rest, env, s, t) { SameRest(x, kept, rest, env, s, t); }
    }
  }

  /** A store shows in nothing but what follows. */
  lemma SameErased(kept: seq<Inst>, x: Inst, rest: seq<Inst>, env: Env, s: State, t: State)
    requires x.Store?
    ensures Same(kept, [x] + rest, env, s, t) <==> Same(kept, rest, env, Next(x, env, s), t)
  {
    assert ([x] + rest)[1..] == rest;
    assert Sees(x, env, s) + Trace(rest, env, Next(x, env, s)) == Trace(rest, env, Next(x, env, s));
  }

  /** Exactly when: for a block whose pointers do not alias, the pass is defined, every load and call sees
      the same words from the same stores, and the final state is the same, if and only if no name stored
      as a value is an operand of stores a second time, no two pointers stored through have one name, and
      no word is read between two stores through its pointer. */
  lemma SoundExactly(insts: seq<Inst>, env: Env, s: State)
    requires Distinct(insts, env) && Honest(env) && Unmarked(s.mem, insts)
    ensures (Scan(insts, Collect(insts)).Ok? && Same(Scan(insts, Collect(insts)).kept, insts, env, s, s))
            <==> ValueNamesOnce(insts) && NamesTell(insts) && Unread(insts, env)
  {
    if !(ValueNamesOnce(insts) && NamesTell(insts)) {
      if Scan(insts, Collect(insts)).Ok? {
        PassLoses(insts);
        LostIsSeen(insts, Collect(insts), env, s, s);
      }
    } else if Unread(insts, env) {
      PassIsSound(insts, env, s);
    } else {
      PassKeepsLast(insts);
      ReadIsSeen(insts, env, s, s);
    }
  }

  lemma RunThree(x: Inst, y: Inst, z: Inst, env: Env, s: State)
    ensures Final([x, y, z], env, s) == Next(z, env, Next(y, env, Next(x, env, s)))
    ensures Final([y, z], env, s) == Next(z, env, Next(y, env, s))
    ensures Trace([x, y, z], env, s) == Sees(x, env, s) + Trace([y, z], env, Next(x, env, s))
    ensures Trace([y, z], env, s) == Sees(y, env, s) + Sees(z, env, Next(y, env, s))
  {
    hide Next, Sees;
    assert [x, y, z][1..] == [y, z] && [y, z][1..] == [z] && [z][1..] == [];
    forall t ensures Final([z], env, t) == Next(z, env, t) && Trace([z], env, t) == Sees(z, env, t) {
      assert Trace([z], env, t) == Sees(z, env, t) + Trace([], env, Next(z, env, t));
      assert Final([z], env, t) == Final([], env, Next(z, env, t));
    }
  }

  /** Two stores through p with a load of p between them. */
  function LoadBetween(p: Operand): seq<Inst> {
    [Store(0, Unnamed(1), p), Load(Unnamed(2), p), Store(1, Unnamed(3), p)]
  }

  lemma LoadBetweenScan(p: Operand, env: Env)
    requires GetName(p) != ""
    ensures var b := LoadBetween(p);
            && ValueNamesOnce(b) && NamesTell(b) && !Unread(b, env)
            && b[1..] == [b[1], b[2]] && Scan(b, Collect(b)) == Ok(b[1..])
  {
    hide GetName;
    var b := LoadBetween(p);
    assert b[1..] == [b[1], b[2]] && b[1..][1..] == [b[2]] && [b[2]][1..] == [];
    assert GetName(Unnamed(1)) == GetName(Unnamed(3)) == "" by { NoName(1); NoName(3); }
    forall n | n != "" ensures ValuesNamed(b, n) == 0 {
      assert ValuesNamed([], n) == 0 && ValuesNamed([b[2]], n) == 0 && ValuesNamed(b[1..], n) == 0;
    }
    assert StoresThrough([], p) == 0 && StoresThrough([b[2]], p) == 1 && StoresThrough(b[1..], p) == 1;
    assert ReadBeforeNext(b[1..], env, p);
    assert KeepLast([]) == [] && KeepLast([b[2]]) == [b[2]] && KeepLast(b[1..]) == b[1..];
    PassKeepsLast(b);
  }

  lemma NoName(n: nat)
    ensures GetName(Unnamed(n)) == ""
  {
  }

  /** The pass deletes the first store, and the load gives what was there before. */
  lemma LoadBetweenIsWrong(p: Operand, env: Env, s: State)
    requires GetName(p) != ""
    ensures var b := LoadBetween(p);
            && ValueNamesOnce(b) && NamesTell(b) && !Unread(b, env)
            && Scan(b, Collect(b)) == Ok(b[1..])
            && Trace(b, env, s) == [Loaded(Cell(Val(s, Unnamed(1)), 0))]
            && Trace(b[1..], env, s) == [Loaded(At(s.mem, env.addr(p)))]
            && (Val(s, Unnamed(1)) != At(s.mem, env.addr(p)).value ==> Trace(b[1..], env, s) != Trace(b, env, s))
            && Val(Final(b, env, s), Unnamed(2)) == Val(s, Unnamed(1))
            && Val(Final(b[1..], env, s), Unnamed(2)) == At(s.mem, env.addr(p)).value
  {
    hide ValueNamesOnce, NamesTell, Unread, Scan, Collect, Final, Trace;
    var b := LoadBetween(p);
    LoadBetweenScan(p, env);
    assert b == [b[0], b[1], b[2]];
    RunThree(b[0], b[1], b[2], env, s);
    RunThree(b[0], b[1], b[2], env, Next(b[0], env, s));
  }
}
