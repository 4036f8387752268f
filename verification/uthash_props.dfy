/** What uthash promises: the arithmetic of an expansion, and every run of adds, deletes and sorts. */
module UthashProps {
  import opened Bits
  import opened Sequences
  import opened MergeSort
  import opened UthashSpec

  // ----- the arithmetic of an expansion -----

  function Sum(m: seq<nat>): nat {
    if m == [] then 0 else Sum(m[..|m| - 1]) + m[|m| - 1]
  }

  /** The shift and the masked test of the expansion compute the ceiling; it is positive when there is
      an item, so that nothing is divided by zero. */
  lemma IdealIsCeiling(items: nat, log2: nat)
    ensures ShiftRight(items, log2 + 1) + (if BitAnd(items, Pow2(log2) * 2 - 1) != 0 then 1 else 0)
            == Ceil(items, 2 * Pow2(log2))
    ensures Ceil(items, 2 * Pow2(log2)) == 0 <==> items == 0
    ensures Ceil(items, 2 * Pow2(log2)) * (2 * Pow2(log2)) >= items
  {
    ShiftMaskIsCeil(items, log2 + 1);
    CeilBounds(items, Pow2(log2 + 1));
  }

  lemma CeilBounds(n: nat, d: nat)
    requires d > 0
    ensures Ceil(n, d) * d >= n
    ensures Ceil(n, d) == 0 <==> n == 0
  {
    var m := n + d - 1;
    assert m == (m / d) * d + m % d;
  }

  lemma MultBound(n: nat, ideal: nat)
    ensures MultOf(n, ideal) * ideal <= n
  {
    if n > ideal && ideal > 0 { assert n == (n / ideal) * ideal + n % ideal; }
  }

  lemma {:induction false} MultsTotal(chains: seq<seq<Elem>>, ideal: nat)
    ensures Sum(MultsOf(chains, ideal)) * ideal <= Total(chains)
    decreases |chains|
  {
    if chains != [] {
      var n := |chains| - 1;
      MultsTotal(chains[..n], ideal);
      assert MultsOf(chains, ideal)[..n] == MultsOf(chains[..n], ideal);
      MultBound(|chains[n]|, ideal);
      Distribute(Sum(MultsOf(chains[..n], ideal)), MultOf(|chains[n]|, ideal), ideal);
    }
  }

  lemma Distribute(a: nat, b: nat, d: nat)
    ensures (a + b) * d == a * d + b * d
  {
  }

  lemma CancelFactor(a: nat, b: nat, d: nat)
    requires d > 0 && a * d <= b * d
    ensures a <= b
  {
    if a > b { Distribute(b, a - b, d); Multiple(a - b, d); }
  }

  /** After an expansion of a table with items, the multipliers add up to at most the number of buckets. */
  lemma MultsBounded(t: Table, hash: Key -> nat)
    requires Consistent(t, hash) && t.order != []
    ensures Sum(Expand(t, hash).mults) <= |Expand(t, hash).chains|
  {
    hide SpreadChains, MultsOf, Total, Excess, Sum;
    var x := Expand(t, hash);
    ExpandConsistent(t, hash);
    MultsTotal(x.chains, x.ideal);
    CeilBounds(|t.order|, 2 * |t.chains|);
    CancelFactor(Sum(x.mults), |x.chains|, x.ideal);
  }

  /** An expansion of a table is as good as can be exactly when no chain is longer than the ideal. */
  lemma {:induction false} NoExcess(chains: seq<seq<Elem>>, ideal: nat)
    ensures Excess(chains, ideal) == 0 <==> forall b :: 0 <= b < |chains| ==> |chains[b]| <= ideal
    decreases |chains|
  {
    if chains != [] {
      var n := |chains| - 1;
      NoExcess(chains[..n], ideal);
      assert forall b :: 0 <= b < n ==> chains[..n][b] == chains[b];
    }
  }

  // ----- finding -----

  /** Place of the first element with key k, or the length. */
  function FindKey(s: seq<Elem>, k: Key): (i: nat)
    ensures i <= |s|
    ensures i < |s| ==> s[i].key == k
    ensures forall j :: 0 <= j < i ==> s[j].key != k
  {
    if s == [] then 0 else if s[0].key == k then 0 else 1 + FindKey(s[1..], k)
  }

  /** A linear search. */
  function First(s: seq<Elem>, k: Key): Elem? {
    var i := FindKey(s, k);
    if i < |s| then s[i] else null
  }

  /** HASH_FIND, with a Bloom filter or without. */
  function FindIn(t: Table, hash: Key -> nat, nbits: nat, bloom: bool, k: Key): Elem?
    requires |t.chains| > 0
  {
    if t.order == [] || (bloom && BloomBit(hash, k, nbits) !in t.bloom) then null
    else First(t.chains[hash(k) % |t.chains|], k)
  }

  ghost predicate UniqueKeys(s: seq<Elem>) {
    forall i, j :: 0 <= i < j < |s| ==> s[i].key != s[j].key
  }

  /** Keys being unique, the chain search finds what a linear search of the order finds; the Bloom
      filter never hides an element. */
  lemma FindAgrees(t: Table, hash: Key -> nat, nbits: nat, bloom: bool, k: Key)
    requires WellFormed(t, hash, nbits) && UniqueKeys(t.order)
    ensures FindIn(t, hash, nbits, bloom, k) == First(t.order, k)
  {
    var b := hash(k) % |t.chains|;
    var c := t.chains[b];
    var i, j := FindKey(t.order, k), FindKey(c, k);
    if i < |t.order| {
      var e := t.order[i];
      assert e in t.order;
      assert e in t.chains[Slot(hash, e, |t.chains|)];
      var m :| 0 <= m < |c| && c[m] == e;
      assert j < |c| && c[j] in t.order;
      var n :| 0 <= n < |t.order| && t.order[n] == c[j];
      assert n == i;
    } else {
      forall e | e in c ensures e.key != k {
        assert e in t.order;
      }
    }
  }

  /** What a replacement leaves: the element with the same key goes, the new one comes last. */
  lemma ReplacedOrder(l: seq<Elem>, e: Elem)
    requires UniqueKeys(l)
    ensures var r := First(l, e.key);
            && (r != null ==> r in l && r.key == e.key)
            && var l' := if r != null && r in l then Without(l, Find(l, r)) else l;
               UniqueKeys(l' + [e]) && e !in l'
  {
    hide UniqueKeys;
    var i := FindKey(l, e.key);
    if i < |l| {
      KeyFound(l, i);
      WithoutKey(l, e, i);
    } else {
      NewKey(l, e);
    }
  }

  lemma KeyFound(l: seq<Elem>, i: nat)
    requires UniqueKeys(l) && i < |l|
    ensures Find(l, l[i]) == i
  {
  }

  lemma WithoutKey(l: seq<Elem>, e: Elem, i: nat)
    requires UniqueKeys(l) && i < |l| && l[i].key == e.key
    ensures UniqueKeys(Without(l, i) + [e]) && e !in Without(l, i)
  {
    var w := Without(l, i);
    assert forall j :: 0 <= j < |w| ==> w[j] == l[if j < i then j else j + 1];
  }

  lemma NewKey(l: seq<Elem>, e: Elem)
    requires UniqueKeys(l) && FindKey(l, e.key) == |l|
    ensures UniqueKeys(l + [e])
  {
  }

  // ----- runs -----

  datatype Op =
    | OpAdd(e: Elem)
    | OpDelete(e: Elem)
    | OpSort(cmp: (Elem, Elem) -> int)

  function Step(t: Table, hash: Key -> nat, nbits: nat, op: Op): Table
    requires |t.chains| > 0 && |t.mults| == |t.chains|
  {
    match op
    case OpAdd(e) => Add(t, hash, nbits, e)
    case OpDelete(e) => Delete(t, hash, e)
    case OpSort(cmp) => t.(order := Sort(t.order, 1, cmp))
  }

  /** A list in insertion order, until it is sorted. */
  function ListStep(l: seq<Elem>, op: Op): seq<Elem> {
    match op
    case OpAdd(e) => l + [e]
    case OpDelete(e) => if e in l then Without(l, Find(l, e)) else l
    case OpSort(cmp) => Sort(l, 1, cmp)
  }

  /** Adds of absent keys, deletes of present elements. */
  ghost predicate Legal(l: seq<Elem>, op: Op) {
    match op
    case OpAdd(e) => forall x :: x in l ==> x.key != e.key
    case OpDelete(e) => e in l
    case OpSort(_) => true
  }

  ghost predicate AllLegal(l: seq<Elem>, ops: seq<Op>)
    decreases |ops|
  {
    ops == [] || (Legal(l, ops[0]) && AllLegal(ListStep(l, ops[0]), ops[1..]))
  }

  /** The table after a sort: another order of the same elements. */
  lemma SortWellFormed(t: Table, hash: Key -> nat, nbits: nat, cmp: (Elem, Elem) -> int)
    requires WellFormed(t, hash, nbits)
    ensures WellFormed(t.(order := Sort(t.order, 1, cmp)), hash, nbits)
  {
    hide Sort, Total, PowerOfTwo;
    SortPermutes(t.order, 1, cmp);
    SameMembers(Sort(t.order, 1, cmp), t.order);
  }

  lemma StepKeeps(t: Table, hash: Key -> nat, nbits: nat, op: Op)
    requires WellFormed(t, hash, nbits) && Legal(t.order, op)
    ensures |t.chains| > 0 && |t.mults| == |t.chains|
    ensures WellFormed(Step(t, hash, nbits, op), hash, nbits)
    ensures Step(t, hash, nbits, op).order == ListStep(t.order, op)
  {
    hide WellFormed, Add, Delete, Sort;
    NotEmpty(t, hash, nbits);
    match op
    case OpAdd(e) => AddWellFormed(t, hash, nbits, e);
    case OpDelete(e) => DeleteWellFormed(t, hash, nbits, e);
    case OpSort(cmp) => SortWellFormed(t, hash, nbits, cmp);
  }

  lemma UniqueStep(l: seq<Elem>, op: Op)
    requires UniqueKeys(l) && Legal(l, op)
    ensures UniqueKeys(ListStep(l, op))
  {
    match op
    case OpAdd(e) =>
    case OpDelete(e) =>
    case OpSort(cmp) => SortUnique(l, cmp);
  }

  lemma SortUnique(l: seq<Elem>, cmp: (Elem, Elem) -> int)
    requires UniqueKeys(l)
    ensures UniqueKeys(Sort(l, 1, cmp))
  {
    hide Sort;
    var r := Sort(l, 1, cmp);
    SortPermutes(l, 1, cmp);
    SameMembers(r, l);
    assert NoDup(l);
    forall i, j | 0 <= i < j < |r| ensures r[i].key != r[j].key {
      assert r[i] in l && r[j] in l && r[i] != r[j];
    }
  }

  function Run(t: Table, hash: Key -> nat, nbits: nat, ops: seq<Op>): Table
    requires WellFormed(t, hash, nbits) && AllLegal(t.order, ops)
    decreases |ops|
  {
    if ops == [] then t
    else
      StepKeeps(t, hash, nbits, ops[0]);
      Run(Step(t, hash, nbits, ops[0]), hash, nbits, ops[1..])
  }

  function ListRun(l: seq<Elem>, ops: seq<Op>): seq<Elem>
    decreases |ops|
  {
    if ops == [] then l else ListRun(ListStep(l, ops[0]), ops[1..])
  }

  /** Every run of legal operations: the invariant holds, the order is that of a plain list, and every
      search agrees with a linear search of that list, with the Bloom filter and without. */
  lemma {:induction false} RunKeeps(t: Table, hash: Key -> nat, nbits: nat, ops: seq<Op>)
    requires WellFormed(t, hash, nbits) && UniqueKeys(t.order) && AllLegal(t.order, ops)
    ensures var r := Run(t, hash, nbits, ops);
            && WellFormed(r, hash, nbits) && UniqueKeys(r.order) && |r.chains| > 0
            && r.order == ListRun(t.order, ops)
            && forall k, bloom :: FindIn(r, hash, nbits, bloom, k) == First(ListRun(t.order, ops), k)
    decreases |ops|
  {
    hide WellFormed, Step, ListStep, UniqueKeys, FindIn, First;
    if ops == [] {
      NotEmpty(t, hash, nbits);
      forall k, bloom ensures FindIn(t, hash, nbits, bloom, k) == First(t.order, k) {
        FindAgrees(t, hash, nbits, bloom, k);
      }
    } else {
      StepKeeps(t, hash, nbits, ops[0]);
      UniqueStep(t.order, ops[0]);
      RunKeeps(Step(t, hash, nbits, ops[0]), hash, nbits, ops[1..]);
    }
  }

  lemma FromNewTable(hash: Key -> nat, nbits: nat, ops: seq<Op>)
    requires AllLegal([], ops)
    ensures WellFormed(NewTable(), hash, nbits)
    ensures Run(NewTable(), hash, nbits, ops).order == ListRun([], ops)
  {
    NewTableWellFormed(hash, nbits);
    RunKeeps(NewTable(), hash, nbits, ops);
  }

  // ----- adding a key that is present -----

  /** Spreading a chain reverses it: the last element with key k comes first. */
  lemma {:induction false} SpreadFindsLast(c: seq<Elem>, hash: Key -> nat, m: nat, b: nat, k: Key, i: nat)
    requires m > 0 && hash(k) % m == b && i < |c| && c[i].key == k && forall j :: i < j < |c| ==> c[j].key != k
    ensures First(Spread(c, hash, m, b), k) == c[i]
    decreases |c|
  {
    var n := |c| - 1;
    var e, rest := c[n], Spread(c[..n], hash, m, b);
    assert ([e] + rest)[1..] == rest;
    if i < n {
      SpreadFindsLast(c[..n], hash, m, b, k, i);
    }
  }

  lemma FirstFound(s: seq<Elem>, k: Key, i: nat)
    requires i < |s| && s[i].key == k && forall j :: 0 <= j < i ==> s[j].key != k
    ensures First(s, k) == s[i]
  {
  }

  /** What an add leaves in the chain of the key it brings in. */
  lemma ChainAfterAdd(t: Table, hash: Key -> nat, nbits: nat, e: Elem)
    requires WellFormed(t, hash, nbits)
    ensures |t.chains| > 0 && |t.mults| == |t.chains|
    ensures var l, b := Linked(t, hash, e), Slot(hash, e, |t.chains|);
            var x := Add(t, hash, nbits, e);
            && b < |l.chains| && |l.chains| == |t.chains| && |x.chains| > 0 && l.chains[b] == [e] + t.chains[b]
            && x.order == t.order + [e] && BloomBit(hash, e.key, nbits) in x.bloom
            && x.chains[hash(e.key) % |x.chains|] ==
               (if Crowded(l, b) then Spread([e] + t.chains[b], hash, 2 * |t.chains|, hash(e.key) % (2 * |t.chains|))
                else [e] + t.chains[b])
  {
    hide Spread;
    var l, b := Linked(t, hash, e), Slot(hash, e, |t.chains|);
    HighOrLow(hash(e.key), |t.chains|);
    SpreadAt(l.chains, hash, b);
  }

  /** An element with the key of e, if there is one, is in the chain that e goes to. */
  lemma InChainOfKey(t: Table, hash: Key -> nat, nbits: nat, a: Elem, e: Elem) returns (i: nat)
    requires WellFormed(t, hash, nbits) && UniqueKeys(t.order) && a in t.order && a.key == e.key
    ensures |t.chains| > 0
    ensures var c := t.chains[Slot(hash, e, |t.chains|)];
            i < |c| && c[i] == a && forall j :: 0 <= j < |c| && j != i ==> c[j].key != e.key
  {
    var c := t.chains[Slot(hash, e, |t.chains|)];
    assert a in c;
    i :| 0 <= i < |c| && c[i] == a;
    assert NoDup(c);
    forall j | 0 <= j < |c| && j != i ensures c[j].key != e.key {
      assert c[j] in c && c[j] in t.order && c[j] != a;
      var x :| 0 <= x < |t.order| && t.order[x] == c[j];
      var y :| 0 <= y < |t.order| && t.order[y] == a;
    }
  }

  /** A second element with a key that is present: a search finds the new one, unless the add sets off an
      expansion, which reverses the chain; a linear search finds the old one. */
  lemma DuplicateKey(t: Table, hash: Key -> nat, nbits: nat, bloom: bool, e: Elem, a: Elem)
    requires WellFormed(t, hash, nbits) && UniqueKeys(t.order) && e !in t.order && a in t.order && a.key == e.key
    ensures |t.chains| > 0 && |t.mults| == |t.chains|
    ensures var l, x := Linked(t, hash, e), Add(t, hash, nbits, e);
            && |x.chains| > 0
            && FindIn(x, hash, nbits, bloom, e.key) == (if Crowded(l, Slot(hash, e, |t.chains|)) then a else e)
            && First(x.order, e.key) == a
  {
    hide WellFormed, Spread, Add, Crowded;
    ChainAfterAdd(t, hash, nbits, e);
    var i := InChainOfKey(t, hash, nbits, a, e);
    var l, b := Linked(t, hash, e), Slot(hash, e, |t.chains|);
    var d := [e] + t.chains[b];
    if Crowded(l, b) {
      assert d[i + 1] == a && forall j :: i + 1 < j < |d| ==> d[j].key != e.key;
      SpreadFindsLast(d, hash, 2 * |t.chains|, hash(e.key) % (2 * |t.chains|), e.key, i + 1);
    } else {
      FirstFound(d, e.key, 0);
    }
    var y :| 0 <= y < |t.order| && t.order[y] == a;
    FirstFound(t.order + [e], e.key, y);
  }

  /** Exactly when: after an add to a table of unique keys, a search for that key agrees with a linear
      search if and only if the key was absent, or the add sets off an expansion. */
  lemma SearchAfterAdd(t: Table, hash: Key -> nat, nbits: nat, bloom: bool, e: Elem)
    requires WellFormed(t, hash, nbits) && UniqueKeys(t.order) && e !in t.order
    ensures |t.chains| > 0 && |t.mults| == |t.chains|
    ensures var x := Add(t, hash, nbits, e);
            && |x.chains| > 0
            && (FindIn(x, hash, nbits, bloom, e.key) == First(x.order, e.key) <==>
                First(t.order, e.key) == null || Crowded(Linked(t, hash, e), Slot(hash, e, |t.chains|)))
  {
    hide WellFormed, FindIn, Add, Crowded;
    ChainAfterAdd(t, hash, nbits, e);
    var i := FindKey(t.order, e.key);
    if i < |t.order| {
      DuplicateKey(t, hash, nbits, bloom, e, t.order[i]);
    } else {
      AddWellFormed(t, hash, nbits, e);
      NewKey(t.order, e);
      FindAgrees(Add(t, hash, nbits, e), hash, nbits, bloom, e.key);
    }
  }
}
