/** uthash as a value: the application order, the bucket chains and the expansion bookkeeping, and what
    adding, deleting and finding do to them.  `uthash.dfy` holds the linked structure. */
module UthashSpec {
  import opened Bits
  import opened Sequences

  type Key = seq<bv8>

  /** A user's structure with its hash handle; element and handle are one object here. */
  class Elem {
    const key: Key
    var hashv: nat
    var next: Elem?
    var prev: Elem?
    var hhNext: Elem?
    var hhPrev: Elem?

    constructor (key: Key)
      ensures this.key == key
    {
      this.key := key;
      hashv := 0;
      next, prev, hhNext, hhPrev := null, null, null, null;
    }
  }

  const INITIAL_NUM_BUCKETS := 32
  const BKT_CAPACITY_THRESH := 10

  datatype Table = Table(
    order: seq<Elem>,
    chains: seq<seq<Elem>>,
    mults: seq<nat>,
    ideal: nat,
    nonideal: nat,
    ineffective: nat,
    noexpand: bool,
    bloom: set<nat>)

  /** HASH_MAKE_TABLE; also what is left when the last element goes. */
  function NewTable(): Table {
    Table([], seq(INITIAL_NUM_BUCKETS, _ => []), seq(INITIAL_NUM_BUCKETS, _ => 0), 0, 0, 0, false, {})
  }

  function Slot(hash: Key -> nat, e: Elem, n: nat): (b: nat)
    requires n > 0
    ensures b < n
  {
    hash(e.key) % n
  }

  // ----- expansion -----

  /** The elements of c that go to bucket b of m, each put in front of those before it. */
  function Spread(c: seq<Elem>, hash: Key -> nat, m: nat, b: nat): seq<Elem>
    requires m > 0
  {
    if c == [] then []
    else
      var e, rest := c[|c| - 1], Spread(c[..|c| - 1], hash, m, b);
      if Slot(hash, e, m) == b then [e] + rest else rest
  }

  function SpreadChains(chains: seq<seq<Elem>>, hash: Key -> nat): (r: seq<seq<Elem>>)
    requires |chains| > 0
    ensures |r| == 2 * |chains|
  {
    seq(2 * |chains|, b requires 0 <= b < 2 * |chains| =>
      Spread(chains[b % |chains|], hash, 2 * |chains|, b))
  }

  function Total(chains: seq<seq<Elem>>): nat {
    if chains == [] then 0 else Total(chains[..|chains| - 1]) + |chains[|chains| - 1]|
  }

  function Over(n: nat, ideal: nat): nat {
    if n > ideal then n - ideal else 0
  }

  /** Elements beyond the ideal length of their chain. */
  function Excess(chains: seq<seq<Elem>>, ideal: nat): nat {
    if chains == [] then 0 else Excess(chains[..|chains| - 1], ideal) + Over(|chains[|chains| - 1]|, ideal)
  }

  function MultOf(n: nat, ideal: nat): nat {
    if n > ideal && ideal > 0 then n / ideal else 0
  }

  function MultsOf(chains: seq<seq<Elem>>, ideal: nat): (m: seq<nat>)
    ensures |m| == |chains| && forall b :: 0 <= b < |m| ==> m[b] == MultOf(|chains[b]|, ideal)
  {
    seq(|chains|, b requires 0 <= b < |chains| => MultOf(|chains[b]|, ideal))
  }

  function Ceil(n: nat, d: nat): nat
    requires d > 0
  {
    (n + d - 1) / d
  }

  /** HASH_EXPAND_BUCKETS. */
  function Expand(t: Table, hash: Key -> nat): Table
    requires |t.chains| > 0
  {
    var chains := SpreadChains(t.chains, hash);
    var ideal := Ceil(|t.order|, 2 * |t.chains|);
    var nonideal := Excess(chains, ideal);
    var ineffective := if nonideal > |t.order| / 2 then t.ineffective + 1 else 0;
    t.(chains := chains, mults := MultsOf(chains, ideal), ideal := ideal, nonideal := nonideal,
       ineffective := ineffective, noexpand := t.noexpand || ineffective > 1)
  }

  // ----- add and delete -----

  /** e at the end of the order and in front of its chain. */
  function Linked(t: Table, hash: Key -> nat, e: Elem): Table
    requires |t.chains| > 0
  {
    var b := Slot(hash, e, |t.chains|);
    t.(order := t.order + [e], chains := t.chains[b := [e] + t.chains[b]])
  }

  /** The bucket that has just received e is too long. */
  predicate Crowded(t: Table, b: nat)
    requires b < |t.chains| && b < |t.mults|
  {
    |t.chains[b]| >= (t.mults[b] + 1) * BKT_CAPACITY_THRESH && !t.noexpand
  }

  function BloomBit(hash: Key -> nat, k: Key, nbits: nat): (i: nat)
    ensures i < Pow2(nbits)
  {
    hash(k) % Pow2(nbits)
  }

  /** HASH_ADD_KEYPTR. */
  function Add(t: Table, hash: Key -> nat, nbits: nat, e: Elem): Table
    requires |t.chains| > 0 && |t.mults| == |t.chains|
  {
    var l := Linked(t, hash, e);
    var x := if Crowded(l, Slot(hash, e, |t.chains|)) then Expand(l, hash) else l;
    x.(bloom := x.bloom + {BloomBit(hash, e.key, nbits)})
  }

  function Unlinked(t: Table, hash: Key -> nat, e: Elem): Table
    requires |t.chains| > 0
  {
    var b := Slot(hash, e, |t.chains|);
    var i, j := Find(t.order, e), Find(t.chains[b], e);
    t.(order := if i < |t.order| then Without(t.order, i) else t.order,
       chains := if j < |t.chains[b]| then t.chains[b := Without(t.chains[b], j)] else t.chains)
  }

  /** HASH_DELETE: the last element takes the table with it. */
  function Delete(t: Table, hash: Key -> nat, e: Elem): Table
    requires |t.chains| > 0
  {
    if |t.order| <= 1 then NewTable() else Unlinked(t, hash, e)
  }

  // ----- the invariant -----

  /** Each element is in the chain of its hash. */
  ghost predicate AtHome(chains: seq<seq<Elem>>, hash: Key -> nat) {
    |chains| > 0 && forall b, e :: 0 <= b < |chains| && e in chains[b] ==> Slot(hash, e, |chains|) == b
  }

  ghost predicate SameElements(order: seq<Elem>, chains: seq<seq<Elem>>, hash: Key -> nat)
    requires |chains| > 0
  {
    && (forall b, e :: 0 <= b < |chains| && e in chains[b] ==> e in order)
    && (forall e :: e in order ==> e in chains[Slot(hash, e, |chains|)])
  }

  ghost predicate AllDistinct(chains: seq<seq<Elem>>) {
    forall b :: 0 <= b < |chains| ==> NoDup(chains[b])
  }

  ghost predicate Flagged(t: Table, hash: Key -> nat, nbits: nat) {
    forall e :: e in t.order ==> BloomBit(hash, e.key, nbits) in t.bloom
  }

  /** Order and chains hold the same elements, each once, each in the chain of its hash. */
  ghost predicate Consistent(t: Table, hash: Key -> nat) {
    && PowerOfTwo(|t.chains|) && |t.mults| == |t.chains|
    && AtHome(t.chains, hash) && SameElements(t.order, t.chains, hash)
    && NoDup(t.order) && AllDistinct(t.chains) && Total(t.chains) == |t.order|
  }

  /** And every key of the table has its Bloom bit. */
  ghost predicate WellFormed(t: Table, hash: Key -> nat, nbits: nat) {
    Consistent(t, hash) && Flagged(t, hash, nbits)
  }

  lemma NotEmpty(t: Table, hash: Key -> nat, nbits: nat)
    requires WellFormed(t, hash, nbits)
    ensures |t.chains| > 0 && |t.mults| == |t.chains|
  {
  }

  lemma NewTableWellFormed(hash: Key -> nat, nbits: nat)
    ensures WellFormed(NewTable(), hash, nbits)
  {
    assert 32 == Pow2(5);
    EmptyTotal(INITIAL_NUM_BUCKETS);
  }

  lemma {:induction false} EmptyTotal(n: nat)
    ensures Total(seq(n, _ => [])) == 0
  {
    if n > 0 {
      var c: seq<seq<Elem>> := seq(n, _ => []);
      assert c[..n - 1] == seq(n - 1, _ => []);
      EmptyTotal(n - 1);
    }
  }

  /** Changing one chain changes the total by the difference in length. */
  lemma {:induction false} TotalUpdate(chains: seq<seq<Elem>>, b: nat, c: seq<Elem>)
    requires b < |chains|
    ensures Total(chains[b := c]) == Total(chains) - |chains[b]| + |c|
    decreases |chains|
  {
    var n := |chains| - 1;
    if b < n {
      assert chains[b := c][..n] == chains[..n][b := c];
      TotalUpdate(chains[..n], b, c);
    } else {
      assert chains[b := c][..n] == chains[..n];
    }
  }

  lemma LinkedConsistent(t: Table, hash: Key -> nat, e: Elem)
    requires Consistent(t, hash) && e !in t.order
    ensures Consistent(Linked(t, hash, e), hash)
  {
    hide PowerOfTwo, Total, Slot;
    var b := Slot(hash, e, |t.chains|);
    TotalUpdate(t.chains, b, [e] + t.chains[b]);
  }

  lemma UnlinkedAt(t: Table, hash: Key -> nat, e: Elem)
    requires Consistent(t, hash) && e in t.order
    ensures var b := Slot(hash, e, |t.chains|);
            var i, j := Find(t.order, e), Find(t.chains[b], e);
            && i < |t.order| && j < |t.chains[b]| && t.order[i] == e && t.chains[b][j] == e
            && Unlinked(t, hash, e) == t.(order := Without(t.order, i), chains := t.chains[b := Without(t.chains[b],
               j)])
  {
  }

  lemma UnlinkedWellFormed(t: Table, hash: Key -> nat, nbits: nat, e: Elem)
    requires WellFormed(t, hash, nbits) && e in t.order
    ensures WellFormed(Unlinked(t, hash, e), hash, nbits)
  {
    hide PowerOfTwo, Total, Slot, Find, Unlinked, Without;
    UnlinkedAt(t, hash, e);
    var b := Slot(hash, e, |t.chains|);
    var i, j := Find(t.order, e), Find(t.chains[b], e);
    WithoutMembers(t.order, i);
    WithoutMembers(t.chains[b], j);
    TotalUpdate(t.chains, b, Without(t.chains[b], j));
    WithoutLength(t.order, i);
    WithoutLength(t.chains[b], j);
    var u := Unlinked(t, hash, e);
    assert AtHome(u.chains, hash);
    assert AllDistinct(u.chains);
    assert Total(u.chains) == |u.order|;
    assert Flagged(u, hash, nbits);
    assert SameElements(u.order, u.chains, hash);
  }

  lemma WithoutLength<T>(s: seq<T>, i: nat)
    requires i < |s|
    ensures |Without(s, i)| == |s| - 1
  {
  }

  // ----- expansion keeps everything -----

  lemma {:induction false} SpreadMembers(c: seq<Elem>, hash: Key -> nat, m: nat, b: nat)
    requires m > 0
    ensures forall e :: e in Spread(c, hash, m, b) ==> e in c && Slot(hash, e, m) == b
    ensures forall e :: e in c && Slot(hash, e, m) == b ==> e in Spread(c, hash, m, b)
    ensures NoDup(c) ==> NoDup(Spread(c, hash, m, b))
    decreases |c|
  {
    if c != [] {
      var c' := c[..|c| - 1];
      SpreadMembers(c', hash, m, b);
      assert c == c' + [c[|c| - 1]];
    }
  }

  /** A chain of n buckets goes to two of the 2n. */
  lemma {:induction false} SpreadLengths(c: seq<Elem>, hash: Key -> nat, n: nat, b: nat)
    requires n > 0 && b < n && forall e :: e in c ==> Slot(hash, e, n) == b
    ensures |Spread(c, hash, 2 * n, b)| + |Spread(c, hash, 2 * n, b + n)| == |c|
    decreases |c|
  {
    if c != [] {
      var e := c[|c| - 1];
      SpreadLengths(c[..|c| - 1], hash, n, b);
      HighOrLow(hash(e.key), n);
      assert e in c;
    }
  }

  /** The remainder by 2n is the remainder by n, or that plus n. */
  lemma HighOrLow(h: nat, n: nat)
    requires n > 0
    ensures h % (2 * n) == h % n || h % (2 * n) == h % n + n
  {
    Halve(h, n, h / (2 * n), h % (2 * n));
  }

  lemma Halve(h: nat, n: nat, q: nat, r: nat)
    requires r < 2 * n && h == q * (2 * n) + r
    ensures h % n == if r < n then r else r - n
  {
    assert (2 * q) * n == q * (2 * n) && (2 * q + 1) * n == (2 * q) * n + n;
    if r < n {
      UniqueRemainder(h, n, 2 * q, r);
    } else {
      UniqueRemainder(h, n, 2 * q + 1, r - n);
    }
  }

  lemma {:induction false} TotalSplit(chains: seq<seq<Elem>>, more: seq<seq<Elem>>)
    ensures Total(chains + more) == Total(chains) + Total(more)
    decreases |more|
  {
    if more == [] {
      assert chains + more == chains;
    } else {
      var n := |more| - 1;
      TotalSplit(chains, more[..n]);
      assert (chains + more)[..|chains| + n] == chains + more[..n];
    }
  }

  lemma SpreadAt(chains: seq<seq<Elem>>, hash: Key -> nat, b: nat)
    requires b < |chains|
    ensures var r, n := SpreadChains(chains, hash), |chains|;
            r[b] == Spread(chains[b], hash, 2 * n, b) && r[b + n] == Spread(chains[b], hash, 2 * n, b + n)
  {
    UniqueRemainder(b, |chains|, 0, b);
    UniqueRemainder(b + |chains|, |chains|, 1, b);
  }

  lemma {:induction false} SpreadTotals(chains: seq<seq<Elem>>, hash: Key -> nat, k: nat)
    requires AtHome(chains, hash) && k <= |chains|
    ensures var r := SpreadChains(chains, hash);
            Total(r[..k]) + Total(r[|chains|..][..k]) == Total(chains[..k])
    decreases k
  {
    hide Spread, SpreadChains, Slot;
    if k > 0 {
      var r, n, j := SpreadChains(chains, hash), |chains|, k - 1;
      SpreadTotals(chains, hash, j);
      SpreadAt(chains, hash, j);
      SpreadLengths(chains[j], hash, n, j);
      TotalLast(r, j);
      TotalLast(r[n..], j);
      TotalLast(chains, j);
    }
  }

  lemma TotalLast(chains: seq<seq<Elem>>, j: nat)
    requires j < |chains|
    ensures Total(chains[..j + 1]) == Total(chains[..j]) + |chains[j]|
  {
    assert chains[..j + 1][..j] == chains[..j];
  }

  /** The new chains hold as many elements as the old ones. */
  lemma SpreadTotal(chains: seq<seq<Elem>>, hash: Key -> nat)
    requires AtHome(chains, hash)
    ensures Total(SpreadChains(chains, hash)) == Total(chains)
  {
    hide SpreadChains, Total;
    var r, n := SpreadChains(chains, hash), |chains|;
    SpreadTotals(chains, hash, n);
    TotalSplit(r[..n], r[n..]);
    assert r[..n] + r[n..] == r && r[n..][..n] == r[n..] && chains[..n] == chains;
  }

  /** Every element of bucket b of n goes to bucket b or b + n of 2n, by its hash, and each of these two
      gets nothing else. */
  lemma SpreadBucket(chains: seq<seq<Elem>>, hash: Key -> nat, b: nat)
    requires AtHome(chains, hash) && b < |chains|
    ensures var r, n := SpreadChains(chains, hash), |chains|;
            && (forall e :: e in r[b] ==> e in chains[b] && Slot(hash, e, 2 * n) == b)
            && (forall e :: e in r[b + n] ==> e in chains[b] && Slot(hash, e, 2 * n) == b + n)
            && (forall e :: e in chains[b] ==>
                  if Slot(hash, e, 2 * n) == b then e in r[b] else Slot(hash, e, 2 * n) == b + n && e in r[b + n])
            && |r[b]| + |r[b + n]| == |chains[b]|
            && (NoDup(chains[b]) ==> NoDup(r[b]) && NoDup(r[b + n]))
  {
    hide Spread, SpreadChains;
    SpreadAt(chains, hash, b);
    SpreadMembers(chains[b], hash, 2 * |chains|, b);
    SpreadMembers(chains[b], hash, 2 * |chains|, b + |chains|);
    SpreadLengths(chains[b], hash, |chains|, b);
    forall e | e in chains[b] ensures Slot(hash, e, 2 * |chains|) == b || Slot(hash, e, 2 * |chains|) == b + |chains| {
      HighOrLow(hash(e.key), |chains|);
    }
  }

  lemma SpreadHome(order: seq<Elem>, chains: seq<seq<Elem>>, hash: Key -> nat)
    requires AtHome(chains, hash) && SameElements(order, chains, hash) && AllDistinct(chains)
    ensures var r := SpreadChains(chains, hash);
            AtHome(r, hash) && SameElements(order, r, hash) && AllDistinct(r)
  {
    hide Spread, SpreadChains, Slot, NoDup;
    var r, n := SpreadChains(chains, hash), |chains|;
    forall b | 0 <= b < 2 * n
      ensures NoDup(r[b]) && forall e :: e in r[b] ==> Slot(hash, e, 2 * n) == b && e in order
    {
      var c := if b < n then b else b - n;
      SpreadBucket(chains, hash, c);
      assert b == c || b == c + n;
    }
    forall e | e in order ensures e in r[Slot(hash, e, 2 * n)] {
      SpreadBucket(chains, hash, Slot(hash, e, n));
    }
  }

  lemma TwicePower(n: nat)
    requires PowerOfTwo(n)
    ensures PowerOfTwo(2 * n)
  {
    var k: nat :| n == Pow2(k);
    assert 2 * n == Pow2(k + 1);
  }

  /** Expansion keeps the elements, their order and the Bloom bits. */
  lemma ExpandConsistent(t: Table, hash: Key -> nat)
    requires Consistent(t, hash)
    ensures Consistent(Expand(t, hash), hash)
    ensures Expand(t, hash).bloom == t.bloom
    ensures Expand(t, hash).order == t.order && |Expand(t, hash).chains| == 2 * |t.chains|
  {
    hide Spread, SpreadChains, NoDup, PowerOfTwo, Total, Excess, SameElements, AllDistinct;
    SpreadTotal(t.chains, hash);
    SpreadHome(t.order, t.chains, hash);
    TwicePower(|t.chains|);
  }

  lemma AddWellFormed(t: Table, hash: Key -> nat, nbits: nat, e: Elem)
    requires WellFormed(t, hash, nbits) && e !in t.order
    ensures WellFormed(Add(t, hash, nbits, e), hash, nbits)
    ensures Add(t, hash, nbits, e).order == t.order + [e]
  {
    LinkedConsistent(t, hash, e);
    var l := Linked(t, hash, e);
    hide Expand, Total, NoDup, PowerOfTwo;
    if Crowded(l, Slot(hash, e, |t.chains|)) { ExpandConsistent(l, hash); }
  }

  /** Adding in the order the code does it. */
  lemma AddIs(t: Table, hash: Key -> nat, nbits: nat, e: Elem)
    requires Consistent(t, hash)
    ensures |t.chains| > 0 && |t.mults| == |t.chains|
    ensures var l := Linked(t, hash, e);
            var b := Slot(hash, e, |t.chains|);
            && l.order == t.order + [e] && |l.chains| == |t.chains| && |l.mults| == |t.chains| && b < |t.chains|
            && var x := if Crowded(l, b) then Expand(l, hash) else l;
               && Add(t, hash, nbits, e) == x.(bloom := x.bloom + {hash(e.key) % Pow2(nbits)})
               && x.order == l.order
  {
  }

  lemma DeleteWellFormed(t: Table, hash: Key -> nat, nbits: nat, e: Elem)
    requires WellFormed(t, hash, nbits) && e in t.order
    ensures WellFormed(Delete(t, hash, e), hash, nbits)
    ensures Delete(t, hash, e).order == Without(t.order, Find(t.order, e))
  {
    if |t.order| <= 1 {
      NewTableWellFormed(hash, nbits);
    } else {
      UnlinkedWellFormed(t, hash, nbits, e);
    }
  }
}
