/** The redundant-store pass: what it does to a basic block, in place. */
module StorePass {

  /** An operand is a global, a local with a name, or an unnamed local or constant. A global and a local
      may have the same name; getName() tells them apart no more than two unnamed operands. */
  datatype Operand = Global(name: string) | Local(name: string) | Unnamed(number: nat)

  /** id is the identity of the instruction. */
  datatype Inst =
    | Store(id: nat, value: Operand, ptr: Operand)
    | Load(dst: Operand, src: Operand)
    | Compute(dst: Operand, a: Operand, b: Operand)
    | Invoke(dst: Operand, callee: nat)

  function GetName(o: Operand): string {
    if o.Unnamed? then "" else o.name
  }

  /** The names a store adds to the vector. */
  function OperandNames(x: Inst): seq<string> {
    if !x.Store? then []
    else (if GetName(x.value) == "" then [] else [GetName(x.value)])
         + (if GetName(x.ptr) == "" then [] else [GetName(x.ptr)])
  }

  function Collect(insts: seq<Inst>): seq<string> {
    if insts == [] then [] else OperandNames(insts[0]) + Collect(insts[1..])
  }

  function Count(names: seq<string>, n: string): nat {
    if names == [] then 0 else (if names[0] == n then 1 else 0) + Count(names[1..], n)
  }

  function RemoveFirst(names: seq<string>, n: string): seq<string> {
    if names == [] then [] else if names[0] == n then names[1..] else [names[0]] + RemoveFirst(names[1..], n)
  }

  /** Outcome of the second scan; Corrupted when a store is erased while its operands are still being
      iterated over, which is undefined behaviour. */
  datatype Scanned = Ok(kept: seq<Inst>) | Corrupted

  function Scan(todo: seq<Inst>, names: seq<string>): Scanned
    decreases |todo|
  {
    if todo == [] then Ok([])
    else
      var x := todo[0];
      if x.Store? && GetName(x.value) != "" && Count(names, GetName(x.value)) > 1 then Corrupted
      else if x.Store? && GetName(x.ptr) != "" && Count(names, GetName(x.ptr)) > 1 then
        Scan(todo[1..], RemoveFirst(names, GetName(x.ptr)))
      else
        var r := Scan(todo[1..], names);
        if r.Ok? then Ok([x] + r.kept) else r
  }

  function StoresTo(insts: seq<Inst>, n: string): nat {
    if insts == [] then 0
    else (if insts[0].Store? && GetName(insts[0].ptr) == n then 1 else 0) + StoresTo(insts[1..], n)
  }

  function StoresThrough(insts: seq<Inst>, p: Operand): nat {
    if insts == [] then 0
    else (if insts[0].Store? && insts[0].ptr == p then 1 else 0) + StoresThrough(insts[1..], p)
  }

  /** Each store through a named pointer goes if there is a later one through the same pointer. */
  predicate Redundant(x: Inst, rest: seq<Inst>) {
    x.Store? && GetName(x.ptr) != "" && StoresThrough(rest, x.ptr) > 0
  }

  function KeepLast(insts: seq<Inst>): seq<Inst> {
    if insts == [] then []
    else if Redundant(insts[0], insts[1..]) then KeepLast(insts[1..])
    else [insts[0]] + KeepLast(insts[1..])
  }

  function ValuesNamed(insts: seq<Inst>, n: string): nat {
    if insts == [] then 0
    else (if insts[0].Store? && GetName(insts[0].value) == n then 1 else 0) + ValuesNamed(insts[1..], n)
  }

  /** Every name that is the value of some store occurs once among the operands of all stores. */
  ghost predicate ValueNamesOnce(insts: seq<Inst>) {
    forall n :: n != "" && ValuesNamed(insts, n) > 0 ==> Count(Collect(insts), n) == 1
  }

  /** Two stores through one name. */
  predicate SameName(x: Inst, y: Inst) {
    x.Store? && y.Store? && GetName(x.ptr) != "" && GetName(x.ptr) == GetName(y.ptr)
  }

  /** The name of a pointer tells which pointer it is. */
  ghost predicate NamesTell(insts: seq<Inst>) {
    forall x, y :: x in insts && y in insts && SameName(x, y) ==> x.ptr == y.ptr
  }

  // ----- the vector of names -----

  lemma {:induction false} CountAppend(a: seq<string>, b: seq<string>, n: string)
    ensures Count(a + b, n) == Count(a, n) + Count(b, n)
  {
    if a == [] {
      assert a + b == b;
    } else {
      assert (a + b)[0] == a[0] && (a + b)[1..] == a[1..] + b;
      CountAppend(a[1..], b, n);
    }
  }

  lemma {:induction false} CountAfterRemove(names: seq<string>, n: string, k: string)
    requires Count(names, n) > 0
    ensures Count(RemoveFirst(names, n), k) == Count(names, k) - (if k == n then 1 else 0)
  {
    if names[0] != n {
      CountAfterRemove(names[1..], n, k);
      var r := RemoveFirst(names[1..], n);
      assert ([names[0]] + r)[1..] == r;
    }
  }

  /** The vector holds each name once for every use of it as a value and once for every use as a pointer. */
  lemma {:induction false} CollectCounts(insts: seq<Inst>, n: string)
    requires n != ""
    ensures Count(Collect(insts), n) == ValuesNamed(insts, n) + StoresTo(insts, n)
  {
    if insts != [] {
      CollectCounts(insts[1..], n);
      var o := OperandNames(insts[0]);
      CountAppend(o, Collect(insts[1..]), n);
      if insts[0].Store? {
        var v := if GetName(insts[0].value) == "" then [] else [GetName(insts[0].value)];
        var p := if GetName(insts[0].ptr) == "" then [] else [GetName(insts[0].ptr)];
        CountAppend(v, p, n);
        CountFew(v, n);
        CountFew(p, n);
      }
    }
  }

  lemma CountFew(names: seq<string>, n: string)
    requires |names| <= 1
    ensures Count(names, n) == if names == [n] then 1 else 0
  {
    if |names| == 1 { assert names[1..] == [] && Count([], n) == 0; }
  }

  // ----- when the pass keeps the last stores -----

  lemma {:induction false} StoresAt(insts: seq<Inst>, x: Inst)
    requires x in insts && x.Store?
    ensures StoresThrough(insts, x.ptr) > 0 && StoresTo(insts, GetName(x.ptr)) > 0
  {
    if insts[0] != x { StoresAt(insts[1..], x); }
  }

  lemma {:induction false} FindStore(insts: seq<Inst>, p: Operand) returns (x: Inst)
    requires StoresThrough(insts, p) > 0
    ensures x in insts && x.Store? && x.ptr == p
  {
    if insts[0].Store? && insts[0].ptr == p { x := insts[0]; } else { x := FindStore(insts[1..], p); }
  }

  lemma {:induction false} FindStoreTo(insts: seq<Inst>, n: string) returns (x: Inst)
    requires StoresTo(insts, n) > 0
    ensures x in insts && x.Store? && GetName(x.ptr) == n
  {
    if insts[0].Store? && GetName(insts[0].ptr) == n { x := insts[0]; } else { x := FindStoreTo(insts[1..], n); }
  }

  /** The counting invariant: for every name still to be stored to, the vector holds it once for each
      remaining store; and a name still to be used as a value is held once. */
  ghost predicate Balanced(todo: seq<Inst>, names: seq<string>) {
    && (forall n :: n != "" && StoresTo(todo, n) > 0 ==> Count(names, n) == StoresTo(todo, n))
    && (forall n :: n != "" && ValuesNamed(todo, n) > 0 ==> Count(names, n) == 1 && StoresTo(todo, n) == 0)
  }

  lemma {:induction false} ScanKeepsLast(todo: seq<Inst>, names: seq<string>)
    requires Balanced(todo, names) && NamesTell(todo)
    ensures Scan(todo, names) == Ok(KeepLast(todo))
    decreases |todo|
  {
    if todo != [] {
      var x, rest := todo[0], todo[1..];
      BalancedHead(todo, names);
      BalancedRest(todo, names);
      ScanKeepsLast(rest, if Redundant(x, rest) then RemoveFirst(names, GetName(x.ptr)) else names);
    }
  }

  /** Names that tell pointers apart are as good as pointers. */
  lemma RedundantByName(x: Inst, rest: seq<Inst>)
    requires NamesTell([x] + rest) && x.Store? && GetName(x.ptr) != ""
    ensures Redundant(x, rest) <==> StoresTo(rest, GetName(x.ptr)) > 0
  {
    if StoresTo(rest, GetName(x.ptr)) > 0 {
      var y := FindStoreTo(rest, GetName(x.ptr));
      assert x in [x] + rest && y in [x] + rest && SameName(x, y);
      StoresAt(rest, y);
    }
    if Redundant(x, rest) {
      var y := FindStore(rest, x.ptr);
      StoresAt(rest, y);
    }
  }

  /** Under the invariant the scan erases exactly the redundant stores. */
  lemma BalancedHead(todo: seq<Inst>, names: seq<string>)
    requires todo != [] && Balanced(todo, names) && NamesTell(todo)
    ensures var x, rest := todo[0], todo[1..];
            x.Store? ==>
              && (GetName(x.value) != "" ==> Count(names, GetName(x.value)) == 1)
              && (GetName(x.ptr) != "" ==> (Count(names, GetName(x.ptr)) > 1 <==> Redundant(x, rest)))
  {
    var x, rest := todo[0], todo[1..];
    if x.Store? {
      assert ValuesNamed(todo, GetName(x.value)) == 1 + ValuesNamed(rest, GetName(x.value));
      assert StoresTo(todo, GetName(x.ptr)) == 1 + StoresTo(rest, GetName(x.ptr));
      assert [x] + rest == todo;
      if GetName(x.ptr) != "" { RedundantByName(x, rest); }
    }
  }

  lemma BalancedRest(todo: seq<Inst>, names: seq<string>)
    requires todo != [] && Balanced(todo, names) && NamesTell(todo)
    ensures NamesTell(todo[1..])
    ensures var x, rest := todo[0], todo[1..];
            Balanced(rest, if Redundant(x, rest) then RemoveFirst(names, GetName(x.ptr)) else names)
  {
    var x, rest := todo[0], todo[1..];
    assert [x] + rest == todo;
    var names' := if Redundant(x, rest) then RemoveFirst(names, GetName(x.ptr)) else names;
    if x.Store? && GetName(x.ptr) != "" {
      RedundantByName(x, rest);
      assert StoresTo(todo, GetName(x.ptr)) > 0;
    }
    forall n | n != "" && StoresTo(rest, n) > 0 ensures Count(names', n) == StoresTo(rest, n) {
      assert StoresTo(todo, n) > 0;
      if Redundant(x, rest) { CountAfterRemove(names, GetName(x.ptr), n); }
    }
    forall n | n != "" && ValuesNamed(rest, n) > 0 ensures Count(names', n) == 1 && StoresTo(rest, n) == 0 {
      assert ValuesNamed(todo, n) > 0;
      if Redundant(x, rest) { CountAfterRemove(names, GetName(x.ptr), n); }
    }
  }

  // ----- what the scan does to every block -----

  function Uses(todo: seq<Inst>, n: string): nat {
    ValuesNamed(todo, n) + StoresTo(todo, n)
  }

  /** The vector holds every name at least as often as it is still to be used. */
  ghost predicate Enough(todo: seq<Inst>, names: seq<string>) {
    forall n :: n != "" ==> Count(names, n) >= Uses(todo, n)
  }

  predicate Erased(x: Inst, names: seq<string>) {
    x.Store? && GetName(x.ptr) != "" && Count(names, GetName(x.ptr)) > 1
  }

  function NamesAfter(x: Inst, names: seq<string>): seq<string> {
    if Erased(x, names) then RemoveFirst(names, GetName(x.ptr)) else names
  }

  /** Where the scan is defined, an instruction goes or stays, and it stays only if its names are held at
      most once. */
  lemma ScanHead(todo: seq<Inst>, names: seq<string>)
    requires todo != [] && Scan(todo, names).Ok?
    ensures var x, rest := todo[0], Scan(todo[1..], NamesAfter(todo[0], names));
            && (x.Store? && GetName(x.value) != "" ==> Count(names, GetName(x.value)) <= 1)
            && rest.Ok?
            && Scan(todo, names).kept == if Erased(x, names) then rest.kept else [x] + rest.kept
  {
  }

  lemma EnoughRest(todo: seq<Inst>, names: seq<string>)
    requires todo != [] && Enough(todo, names)
    ensures Enough(todo[1..], NamesAfter(todo[0], names))
  {
    var x, rest := todo[0], todo[1..];
    forall n | n != "" ensures Count(NamesAfter(x, names), n) >= Uses(rest, n) {
      assert Count(names, n) >= Uses(todo, n);
      if Erased(x, names) { CountAfterRemove(names, GetName(x.ptr), n); }
    }
  }

  lemma EnoughAtStart(insts: seq<Inst>)
    ensures Enough(insts, Collect(insts))
  {
    forall n | n != "" ensures Count(Collect(insts), n) >= Uses(insts, n) {
      CollectCounts(insts, n);
    }
  }

  /** The scan keeps at most one use of each name. */
  lemma {:induction false} KeptOnce(todo: seq<Inst>, names: seq<string>, n: string)
    requires n != "" && Enough(todo, names) && Scan(todo, names).Ok?
    ensures Uses(Scan(todo, names).kept, n) <= 1
    ensures Uses(Scan(todo, names).kept, n) <= Uses(todo, n)
    decreases |todo|
  {
    hide Scan, Enough;
    if todo == [] {
      assert Scan(todo, names) == Ok([]) by { ScanNothing(names); }
    } else {
      var x, names' := todo[0], NamesAfter(todo[0], names);
      ScanHead(todo, names);
      EnoughRest(todo, names);
      KeptOnce(todo[1..], names', n);
      var r := Scan(todo[1..], names').kept;
      assert ([x] + r)[1..] == r;
      assert Count(names, n) >= Uses(todo, n) by { EnoughFor(todo, names, n); }
    }
  }

  lemma ScanNothing(names: seq<string>)
    ensures Scan([], names) == Ok([])
  {
  }

  lemma EnoughFor(todo: seq<Inst>, names: seq<string>, n: string)
    requires n != "" && Enough(todo, names)
    ensures Count(names, n) >= Uses(todo, n)
  {
  }

  lemma {:induction false} NothingTwice(todo: seq<Inst>, names: seq<string>)
    requires forall n :: n != "" ==> Count(names, n) <= 1
    ensures Scan(todo, names) == Ok(todo)
    decreases |todo|
  {
    if todo != [] {
      NothingTwice(todo[1..], names);
      assert [todo[0]] + todo[1..] == todo;
    }
  }

  /** A second run of the pass finds nothing to remove, on every block on which the first is defined. */
  lemma PassIsIdempotent(insts: seq<Inst>)
    requires Scan(insts, Collect(insts)).Ok?
    ensures var r := Scan(insts, Collect(insts)).kept; Scan(r, Collect(r)) == Ok(r)
  {
    var r := Scan(insts, Collect(insts)).kept;
    EnoughAtStart(insts);
    forall n | n != "" ensures Count(Collect(r), n) <= 1 {
      KeptOnce(insts, Collect(insts), n);
      CollectCounts(r, n);
    }
    NothingTwice(r, Collect(r));
  }

  // ----- when a last store is lost -----

  /** Somewhere the scan erases a store though it is the last one through its pointer. */
  predicate LosesLast(todo: seq<Inst>, names: seq<string>)
    decreases |todo|
  {
    todo != [] &&
    ((Erased(todo[0], names) && !Redundant(todo[0], todo[1..])) ||
     LosesLast(todo[1..], NamesAfter(todo[0], names)))
  }

  lemma {:induction false} ThroughIsTo(insts: seq<Inst>, p: Operand)
    ensures StoresThrough(insts, p) <= StoresTo(insts, GetName(p))
  {
    if insts != [] { ThroughIsTo(insts[1..], p); }
  }

  /** With enough names every redundant store is erased. */
  lemma RedundantIsErased(todo: seq<Inst>, names: seq<string>)
    requires todo != [] && Enough(todo, names) && Redundant(todo[0], todo[1..])
    ensures Erased(todo[0], names)
  {
    ThroughIsTo(todo[1..], todo[0].ptr);
    EnoughFor(todo, names, GetName(todo[0].ptr));
  }

  lemma {:induction false} ScanOnlyErases(todo: seq<Inst>, names: seq<string>, p: Operand)
    requires Scan(todo, names).Ok?
    ensures StoresThrough(Scan(todo, names).kept, p) <= StoresThrough(todo, p)
    decreases |todo|
  {
    if todo != [] {
      var x, names' := todo[0], NamesAfter(todo[0], names);
      ScanHead(todo, names);
      ScanOnlyErases(todo[1..], names', p);
      var r := Scan(todo[1..], names').kept;
      assert ([x] + r)[1..] == r;
    }
  }

  lemma {:induction false} LostIsMissing(todo: seq<Inst>, names: seq<string>)
    requires Enough(todo, names) && LosesLast(todo, names) && Scan(todo, names).Ok?
    ensures Scan(todo, names).kept != KeepLast(todo)
    decreases |todo|
  {
    var x, rest, names' := todo[0], todo[1..], NamesAfter(todo[0], names);
    ScanHead(todo, names);
    EnoughRest(todo, names);
    if Redundant(x, rest) { RedundantIsErased(todo, names); }
    var r, k := Scan(rest, names').kept, KeepLast(rest);
    assert ([x] + r)[1..] == r && ([x] + k)[1..] == k;
    if Erased(x, names) && !Redundant(x, rest) {
      ScanOnlyErases(rest, names', x.ptr);
      assert StoresThrough([x] + k, x.ptr) == 1 + StoresThrough(k, x.ptr);
    } else {
      LostIsMissing(rest, names');
    }
  }

  /** The name n, still to be used as a value, is held at least twice. */
  ghost predicate Shared(todo: seq<Inst>, names: seq<string>, n: string) {
    n != "" && ValuesNamed(todo, n) > 0 && Count(names, n) >= 2
  }

  /** A shared value name makes the scan lose a last store, or erase a store whose operands it still
      reads. */
  lemma {:induction false} SharedLoses(todo: seq<Inst>, names: seq<string>, n: string)
    requires Enough(todo, names) && Shared(todo, names, n) && Scan(todo, names).Ok?
    ensures LosesLast(todo, names)
    decreases |todo|
  {
    var x, rest, names' := todo[0], todo[1..], NamesAfter(todo[0], names);
    ScanHead(todo, names);
    EnoughRest(todo, names);
    if Erased(x, names) ==> Redundant(x, rest) {
      if Erased(x, names) {
        CountAfterRemove(names, GetName(x.ptr), n);
        ThroughIsTo(rest, x.ptr);
        EnoughFor(todo, names, n);
      }
      SharedLoses(rest, names', n);
    }
  }

  lemma {:induction false} TwoStores(insts: seq<Inst>, x: Inst, y: Inst)
    requires x in insts && y in insts && x != y && SameName(x, y)
    ensures StoresTo(insts, GetName(x.ptr)) >= 2
  {
    if insts[0] == x {
      StoresAt(insts[1..], y);
    } else if insts[0] == y {
      StoresAt(insts[1..], x);
    } else {
      TwoStores(insts[1..], x, y);
    }
  }

  /** So do two pointers with one name. */
  lemma {:induction false} MixedLoses(todo: seq<Inst>, names: seq<string>, a: Inst, b: Inst)
    requires a in todo && b in todo && SameName(a, b) && a.ptr != b.ptr
    requires Enough(todo, names) && Scan(todo, names).Ok?
    ensures LosesLast(todo, names)
    decreases |todo|
  {
    var x, rest, names' := todo[0], todo[1..], NamesAfter(todo[0], names);
    ScanHead(todo, names);
    EnoughRest(todo, names);
    TwoStores(todo, a, b);
    EnoughFor(todo, names, GetName(a.ptr));
    if Redundant(x, rest) {
      var y := FindStore(rest, x.ptr);
      MixedLoses(rest, names', if a == x then y else a, if b == x then y else b);
    } else if !Erased(x, names) {
      MixedLoses(rest, names', a, b);
    }
  }

  /** A value name that does not occur once, or a pointer name that does not tell, costs a last store. */
  lemma PassLoses(insts: seq<Inst>)
    requires !(ValueNamesOnce(insts) && NamesTell(insts)) && Scan(insts, Collect(insts)).Ok?
    ensures Enough(insts, Collect(insts)) && LosesLast(insts, Collect(insts))
  {
    EnoughAtStart(insts);
    if !ValueNamesOnce(insts) {
      var n :| n != "" && ValuesNamed(insts, n) > 0 && Count(Collect(insts), n) != 1;
      EnoughFor(insts, Collect(insts), n);
      SharedLoses(insts, Collect(insts), n);
    } else {
      var x, y :| x in insts && y in insts && SameName(x, y) && x.ptr != y.ptr;
      MixedLoses(insts, Collect(insts), x, y);
    }
  }

  /** Exactly when: the pass keeps the last store through each named pointer, and everything else, if and
      only if no name that is stored as a value is an operand of stores a second time, and no two pointers
      stored through have one name. */
  lemma PassKeepsLast(insts: seq<Inst>)
    ensures Scan(insts, Collect(insts)) == Ok(KeepLast(insts)) <==> ValueNamesOnce(insts) && NamesTell(insts)
  {
    if ValueNamesOnce(insts) && NamesTell(insts) {
      forall n | n != "" ensures Count(Collect(insts), n) == ValuesNamed(insts, n) + StoresTo(insts, n) {
        CollectCounts(insts, n);
      }
      ScanKeepsLast(insts, Collect(insts));
    } else if Scan(insts, Collect(insts)).Ok? {
      PassLoses(insts);
      LostIsMissing(insts, Collect(insts));
    }
  }

  lemma {:induction false} KeepLastCounts(insts: seq<Inst>, p: Operand)
    ensures GetName(p) != "" ==> StoresThrough(KeepLast(insts), p) == if StoresThrough(insts, p) > 0 then 1 else 0
    ensures GetName(p) == "" ==> StoresThrough(KeepLast(insts), p) == StoresThrough(insts, p)
  {
    if insts != [] {
      KeepLastCounts(insts[1..], p);
      var r := KeepLast(insts[1..]);
      assert ([insts[0]] + r)[1..] == r;
    }
  }

  /** A block that keeps only its last stores has no redundant one, and where the pass reduces a block to
      that, a second run leaves it alone. */
  lemma {:induction false} KeepLastStable(insts: seq<Inst>)
    ensures KeepLast(KeepLast(insts)) == KeepLast(insts)
    ensures ValueNamesOnce(insts) && NamesTell(insts) ==>
              Scan(KeepLast(insts), Collect(KeepLast(insts))) == Ok(KeepLast(insts))
  {
    PassKeepsLast(insts);
    if ValueNamesOnce(insts) && NamesTell(insts) { PassIsIdempotent(insts); }
    if insts != [] {
      KeepLastStable(insts[1..]);
      var r := KeepLast(insts[1..]);
      if !Redundant(insts[0], insts[1..]) {
        assert ([insts[0]] + r)[1..] == r;
        if insts[0].Store? && GetName(insts[0].ptr) != "" { KeepLastCounts(insts[1..], insts[0].ptr); }
      }
    }
  }

  /** Two stores of one named value: the first is erased while its operands are still being read. */
  lemma NamedValueCorrupts(p: string, q: string, a: string)
    requires p != "" && q != "" && a != "" && p != q && p != a && q != a
    ensures var b := [Store(0, Local(a), Local(p)), Store(1, Local(a), Local(q))];
            KeepLast(b) == b && Scan(b, Collect(b)) == Corrupted
  {
    var b := [Store(0, Local(a), Local(p)), Store(1, Local(a), Local(q))];
    assert b[1..] == [Store(1, Local(a), Local(q))] && b[1..][1..] == [];
    assert StoresThrough(b[1..], Local(p)) == 0 by { assert StoresThrough([], Local(p)) == 0; }
    assert KeepLast(b[1..]) == b[1..] by { assert KeepLast([]) == []; assert StoresThrough([], Local(q)) == 0; }
    assert Collect(b[1..]) == [a, q] by { assert Collect([]) == []; }
    var names := [a, p, a, q];
    assert Collect(b) == names;
    assert names[1..] == [p, a, q] && names[1..][1..] == [a, q];
    assert Count([a, q], a) >= 1;
    assert Count([p, a, q], a) >= 1;
  }

  /** A pointer that is stored to and then stored itself: the pass is defined, and silently deletes the
      only store to it. */
  lemma StoredPointerLosesItsStore(p: string, q: string)
    requires p != "" && q != "" && p != q
    ensures var b := [Store(0, Unnamed(7), Local(p)), Store(1, Local(p), Local(q))];
            KeepLast(b) == b && Scan(b, Collect(b)) == Ok([b[1]])
  {
    var b := [Store(0, Unnamed(7), Local(p)), Store(1, Local(p), Local(q))];
    assert b[1..] == [b[1]] && b[1..][1..] == [];
    assert StoresThrough(b[1..], Local(p)) == 0 by { assert StoresThrough([], Local(p)) == 0; }
    assert KeepLast(b[1..]) == b[1..] by { assert KeepLast([]) == []; assert StoresThrough([], Local(q)) == 0; }
    assert Collect(b[1..]) == [p, q] by { assert Collect([]) == []; }
    var names := [p, p, q];
    assert Collect(b) == names;
    assert names[1..] == [p, q] && [p, q][1..] == [q] && [q][1..] == [];
    assert Count([], p) == 0 && Count([], q) == 0;
    assert Count([q], p) == 0 && Count([p, q], p) == 1 && Count(names, p) == 2;
    assert Count([q], q) == 1 && Count([p, q], q) == 1;
    assert RemoveFirst(names, p) == [p, q];
    assert Scan([], [p, q]) == Ok([]);
    assert Scan(b[1..], [p, q]) == Ok([b[1]]);
  }

  /** A store to a global, then one to a local of the same name: the pass deletes the only store to the
      global. */
  lemma ShadowedGlobalLosesItsStore(n: string)
    requires n != ""
    ensures var b := [Store(0, Unnamed(1), Global(n)), Store(1, Unnamed(2), Local(n))];
            ValueNamesOnce(b) && KeepLast(b) == b && Scan(b, Collect(b)) == Ok([b[1]])
  {
    var b := [Store(0, Unnamed(1), Global(n)), Store(1, Unnamed(2), Local(n))];
    assert b[1..] == [b[1]] && b[1..][1..] == [];
    assert StoresThrough(b[1..], Global(n)) == 0 by { assert StoresThrough([], Global(n)) == 0; }
    assert KeepLast(b[1..]) == b[1..] by { assert KeepLast([]) == []; assert StoresThrough([], Local(n)) == 0; }
    assert forall m :: ValuesNamed([], m) == 0;
    assert forall m :: m != "" ==> ValuesNamed(b[1..], m) == 0;
    assert forall m :: m != "" ==> ValuesNamed(b, m) == 0;
    assert Collect(b[1..]) == [n] by { assert Collect([]) == []; }
    assert Collect(b) == [n, n];
    assert [n, n][1..] == [n] && [n][1..] == [] && Count([], n) == 0;
    assert Count([n], n) == 1 && Count([n, n], n) == 2 && RemoveFirst([n, n], n) == [n];
    assert Scan([], [n]) == Ok([]);
    assert Scan(b[1..], [n]) == Ok([b[1]]);
  }

  // ----- the pass -----

  lemma {:induction false} CollectAppend(a: seq<Inst>, b: seq<Inst>)
    ensures Collect(a + b) == Collect(a) + Collect(b)
  {
    if a == [] {
      assert a + b == b;
    } else {
      assert (a + b)[0] == a[0] && (a + b)[1..] == a[1..] + b;
      CollectAppend(a[1..], b);
    }
  }

  lemma CollectStep(insts: seq<Inst>, i: nat)
    requires i < |insts|
    ensures Collect(insts[..i + 1]) == Collect(insts[..i]) + OperandNames(insts[i])
  {
    assert insts[..i + 1] == insts[..i] + [insts[i]];
    CollectAppend(insts[..i], [insts[i]]);
    assert Collect([insts[i]]) == OperandNames(insts[i]) + Collect([]);
  }

  lemma CountStep(names: seq<string>, n: string, i: nat)
    requires i < |names|
    ensures Count(names[..i + 1], n) == Count(names[..i], n) + (if names[i] == n then 1 else 0)
    ensures n in names[..i + 1] <==> n in names[..i] || names[i] == n
  {
    assert names[..i + 1] == names[..i] + [names[i]];
    CountAppend(names[..i], [names[i]], n);
    assert Count([names[i]], n) == (if names[i] == n then 1 else 0) + Count([], n);
  }

  lemma {:induction false} RemoveFirstAt(names: seq<string>, n: string, first: nat)
    requires first < |names| && names[first] == n && n !in names[..first]
    ensures RemoveFirst(names, n) == names[..first] + names[first + 1..]
    decreases names
  {
    if first > 0 {
      assert names[0] in names[..first];
      assert forall k :: 0 <= k < first - 1 ==> names[1..][k] == names[..first][k + 1];
      RemoveFirstAt(names[1..], n, first - 1);
      assert names[..first] == [names[0]] + names[1..][..first - 1];
      assert names[first + 1..] == names[1..][first..];
    }
  }

  class BasicBlock {
    var insts: seq<Inst>

    constructor (insts: seq<Inst>)
      ensures this.insts == insts
    {
      this.insts := insts;
    }

    /** First scan: the names of all operands of all stores. */
    method CollectNames() returns (names: seq<string>)
      ensures names == Collect(insts)
    {
      hide OperandNames;
      names := [];
      var i := 0;
      while i < |insts|
        invariant 0 <= i <= |insts|
        invariant names == Collect(insts[..i])
      {
        CollectStep(insts, i);
        names := PushNames(insts[i], names);
        i := i + 1;
      }
      assert insts[..i] == insts;
    }

    /** What one instruction pushes. */
    static method PushNames(x: Inst, before: seq<string>) returns (names: seq<string>)
      ensures names == before + OperandNames(x)
    {
      names := before;
      if x.Store? {
        if GetName(x.value) != "" { names := names + [GetName(x.value)]; }
        if GetName(x.ptr) != "" { names := names + [GetName(x.ptr)]; }
      }
    }

    /** The innermost loop: occurrences, and the index of the first one. */
    static method CountName(names: seq<string>, n: string) returns (count: nat, first: int)
      ensures count == Count(names, n)
      ensures count > 0 ==> 0 <= first < |names| && names[..first] + names[first + 1..] == RemoveFirst(names, n)
    {
      hide RemoveFirst;
      count, first := 0, -1;
      for i := 0 to |names|
        invariant count == Count(names[..i], n)
        invariant count == 0 ==> n !in names[..i]
        invariant count > 0 ==> 0 <= first < i && names[first] == n && n !in names[..first]
      {
        CountStep(names, n, i);
        if names[i] == n {
          count := count + 1;
          if count == 1 { first := i; }
        }
      }
      assert names[..|names|] == names;
      if count > 0 { RemoveFirstAt(names, n, first); }
    }

    method EraseAt(i: nat)
      requires i < |insts|
      modifies this
      ensures insts == old(insts)[..i] + old(insts)[i + 1..]
    {
      insts := insts[..i] + insts[i + 1..];
    }

    /** Some name of an operand is held more than once: which operand comes first, and where. */
    static method HeldTwice(names: seq<string>, n: string) returns (twice: bool, shorter: seq<string>)
      ensures twice == (n != "" && Count(names, n) > 1)
      ensures twice ==> shorter == RemoveFirst(names, n)
    {
      shorter := names;
      if n == "" { return false, names; }
      var count, first := CountName(names, n);
      twice := count > 1;
      if twice { shorter := names[..first] + names[first + 1..]; }
    }

    /** Second scan: erases a store when a name of one of its operands is still held more than once.
        defined is false when that happens at the first operand. */
    method RunOnBasicBlock() returns (changed: bool, defined: bool)
      modifies this
      ensures defined == Scan(old(insts), Collect(old(insts))).Ok?
      ensures defined ==> insts == Scan(old(insts), Collect(old(insts))).kept
      ensures defined ==> changed == (|insts| < |old(insts)|)
    {
      hide Scan, Count, RemoveFirst, Collect, GetName;
      var names := CollectNames();
      changed := false;
      var di := 0;
      ghost var goal := Scan(insts, names);
      SplitStart(insts, names);
      while di < |insts|
        invariant 0 <= di <= |insts| <= |old(insts)|
        invariant changed == (|insts| < |old(insts)|)
        invariant Ahead(insts, di, names, goal)
        decreases |insts| - di
      {
        var x := insts[di];
        ghost var before := insts;
        var twice, shorter := false, names;
        if x.Store? {
          twice, shorter := HeldTwice(names, GetName(x.value));
          if twice {
            CorruptedHere(insts, di, names, goal);
            return true, false;
          }
          twice, shorter := HeldTwice(names, GetName(x.ptr));
        }
        if twice {
          EraseAt(di);
          ErasedHere(before, di, names, goal);
          names := shorter;
          changed := true;
        } else {
          KeptHere(insts, di, names, goal);
          di := di + 1;
        }
      }
      SplitEnd(insts, names, goal);
      return changed, true;
    }
  }

  /** The block has the kept part behind di, and the rest of the scan ahead of it. */
  ghost predicate Ahead(insts: seq<Inst>, di: nat, names: seq<string>, goal: Scanned)
    requires di <= |insts|
  {
    var r := Scan(insts[di..], names);
    goal.Ok? == r.Ok? && (r.Ok? ==> goal.kept == insts[..di] + r.kept)
  }

  lemma SplitStart(insts: seq<Inst>, names: seq<string>)
    ensures Ahead(insts, 0, names, Scan(insts, names))
  {
    assert insts[0..] == insts;
  }

  lemma SplitEnd(insts: seq<Inst>, names: seq<string>, goal: Scanned)
    requires Ahead(insts, |insts|, names, goal)
    ensures goal == Ok(insts)
  {
    assert insts[|insts|..] == [] && insts[..|insts|] + [] == insts;
  }

  lemma CorruptedHere(insts: seq<Inst>, di: nat, names: seq<string>, goal: Scanned)
    requires di < |insts| && Ahead(insts, di, names, goal)
    requires insts[di].Store? && GetName(insts[di].value) != "" && Count(names, GetName(insts[di].value)) > 1
    ensures goal.Corrupted?
  {
  }

  lemma ErasedHere(insts: seq<Inst>, di: nat, names: seq<string>, goal: Scanned)
    requires di < |insts| && Ahead(insts, di, names, goal) && insts[di].Store?
    requires !(GetName(insts[di].value) != "" && Count(names, GetName(insts[di].value)) > 1)
    requires GetName(insts[di].ptr) != "" && Count(names, GetName(insts[di].ptr)) > 1
    ensures Ahead(insts[..di] + insts[di + 1..], di, RemoveFirst(names, GetName(insts[di].ptr)), goal)
  {
    hide Count, RemoveFirst;
    var after := insts[..di] + insts[di + 1..];
    assert after[di..] == insts[di..][1..] && after[..di] == insts[..di];
  }

  lemma KeptHere(insts: seq<Inst>, di: nat, names: seq<string>, goal: Scanned)
    requires di < |insts| && Ahead(insts, di, names, goal)
    requires insts[di].Store? ==>
               !(GetName(insts[di].value) != "" && Count(names, GetName(insts[di].value)) > 1) &&
               !(GetName(insts[di].ptr) != "" && Count(names, GetName(insts[di].ptr)) > 1)
    ensures Ahead(insts, di + 1, names, goal)
  {
    hide Count, RemoveFirst;
    assert insts[di + 1..] == insts[di..][1..] && insts[..di + 1] == insts[..di] + [insts[di]];
    var r := Scan(insts[di + 1..], names);
    if r.Ok? { assert insts[..di] + ([insts[di]] + r.kept) == insts[..di + 1] + r.kept; }
  }
}
