/** When a uthash table grows, how good the growth was, and when it gives up growing. */
module UthashGrowth {
  import opened Bits
  import opened Sequences
  import opened MergeSort
  import opened UthashSpec
  import opened UthashProps

  // ----- one expansion -----

  /** The elements that lie beyond the ideal length of their chain, as bucket and place. */
  function Beyond(chains: seq<seq<Elem>>, ideal: nat): set<(nat, nat)> {
    set b: nat, i: nat | b < |chains| && ideal <= i < |chains[b]| :: (b, i)
  }

  function LastBeyond(b: nat, n: nat, ideal: nat): set<(nat, nat)> {
    set i: nat | ideal <= i < n :: (b, i)
  }

  lemma {:induction false} LastBeyondSize(b: nat, n: nat, ideal: nat)
    ensures |LastBeyond(b, n, ideal)| == Over(n, ideal)
    decreases n
  {
    if n <= ideal {
      assert LastBeyond(b, n, ideal) == {};
    } else {
      LastBeyondSize(b, n - 1, ideal);
      assert LastBeyond(b, n, ideal) == LastBeyond(b, n - 1, ideal) + {(b, n - 1)};
    }
  }

  /** nonideal_items counts exactly these. */
  lemma {:induction false} ExcessCounts(chains: seq<seq<Elem>>, ideal: nat)
    ensures Excess(chains, ideal) == |Beyond(chains, ideal)|
    decreases |chains|
  {
    if chains == [] {
      assert Beyond(chains, ideal) == {};
    } else {
      var n := |chains| - 1;
      var rest, last := Beyond(chains[..n], ideal), LastBeyond(n, |chains[n]|, ideal);
      ExcessCounts(chains[..n], ideal);
      LastBeyondSize(n, |chains[n]|, ideal);
      assert Beyond(chains, ideal) == rest + last;
      assert rest !! last;
    }
  }

  lemma CeilIsLeast(n: nat, d: nat, x: nat)
    requires d > 0
    ensures Ceil(n, d) <= x <==> x * d >= n
  {
    CeilBounds(n, d);
    if x * d >= n {
      var m := n + d - 1;
      assert m == Ceil(n, d) * d + m % d;
      if x < Ceil(n, d) { Spare(x, Ceil(n, d), d); }
    } else if Ceil(n, d) <= x {
      Distribute(Ceil(n, d), x - Ceil(n, d), d);
    }
  }

  lemma Spare(x: nat, y: nat, d: nat)
    requires x < y
    ensures y * d >= x * d + d
  {
    Distribute(x, y - x, d);
    Multiple(y - x, d);
  }

  lemma MultIsQuotient(n: nat, ideal: nat)
    requires n > ideal
    ensures ideal > 0 ==> MultOf(n, ideal) * ideal <= n < (MultOf(n, ideal) + 1) * ideal
  {
    if ideal > 0 { assert n == (n / ideal) * ideal + n % ideal; }
  }

  /** What an expansion writes down: the ideal length is the least one that holds all items; a chain within it
      gets multiplier 0, any other the number of times it is that long; nonideal_items counts the items
      beyond it. */
  lemma ExpansionBookkeeping(t: Table, hash: Key -> nat)
    requires Consistent(t, hash)
    ensures var x := Expand(t, hash);
            && |x.chains| == 2 * |t.chains| && |x.mults| == |x.chains|
            && (forall d: nat :: x.ideal <= d <==> d * |x.chains| >= |x.order|)
            && (forall b :: 0 <= b < |x.chains| ==>
                  if |x.chains[b]| <= x.ideal then x.mults[b] == 0
                  else x.mults[b] * x.ideal <= |x.chains[b]| < (x.mults[b] + 1) * x.ideal)
            && x.nonideal == |Beyond(x.chains, x.ideal)|
  {
    hide SpreadChains, Total, Excess, Spread, MultOf, Ceil;
    var x := Expand(t, hash);
    ExpandConsistent(t, hash);
    ExcessCounts(x.chains, x.ideal);
    forall d: nat ensures x.ideal <= d <==> d * |x.chains| >= |x.order| {
      CeilIsLeast(|t.order|, 2 * |t.chains|, d);
    }
    forall b | 0 <= b < |x.chains|
      ensures if |x.chains[b]| <= x.ideal then x.mults[b] == 0
              else x.mults[b] * x.ideal <= |x.chains[b]| < (x.mults[b] + 1) * x.ideal
    {
      ShortChain(|x.chains[b]|, x.ideal);
      if |x.chains[b]| > x.ideal {
        ChainHasItems(x, hash, b);
        CeilBounds(|t.order|, 2 * |t.chains|);
        MultIsQuotient(|x.chains[b]|, x.ideal);
      }
    }
  }

  lemma ShortChain(n: nat, ideal: nat)
    ensures n <= ideal ==> MultOf(n, ideal) == 0
  {
  }

  lemma ChainHasItems(t: Table, hash: Key -> nat, b: nat)
    requires Consistent(t, hash) && b < |t.chains| && t.chains[b] != []
    ensures t.order != []
  {
    var e := t.chains[b][0];
    assert e in t.chains[b];
    assert e in t.order;
  }

  /** An expansion counts as ineffective exactly when more than half of the items lie beyond the ideal length;
      the second one in a row stops expansion for good, and one that is effective starts the count again. */
  lemma ExpansionVerdict(t: Table, hash: Key -> nat)
    requires Consistent(t, hash)
    ensures var x := Expand(t, hash);
            if 2 * |Beyond(x.chains, x.ideal)| > |x.order|
            then x.ineffective == t.ineffective + 1 && x.noexpand == (t.noexpand || t.ineffective >= 1)
            else x.ineffective == 0 && x.noexpand == t.noexpand
    ensures var x := Expand(t, hash);
            (forall b :: 0 <= b < |x.chains| ==> |x.chains[b]| <= x.ideal) ==>
              x.ineffective == 0 && x.noexpand == t.noexpand
  {
    hide SpreadChains, Total, Spread, MultsOf, Ceil;
    var x := Expand(t, hash);
    ExcessCounts(x.chains, x.ideal);
    NoExcess(x.chains, x.ideal);
  }

  // ----- when a table expands -----

  /** An add doubles the buckets exactly when the bucket it adds to then holds ten items, or ten more for
      each unit of its multiplier, and expansion has not been stopped; otherwise it changes no bookkeeping.
      The Bloom filter gains the bit of the key. */
  lemma AddExpandsExactly(t: Table, hash: Key -> nat, nbits: nat, e: Elem)
    requires WellFormed(t, hash, nbits) && e !in t.order
    ensures |t.chains| > 0 && |t.mults| == |t.chains|
    ensures var x, b := Add(t, hash, nbits, e), hash(e.key) % |t.chains|;
            && x.bloom == t.bloom + {hash(e.key) % Pow2(nbits)}
            && (|x.chains| == 2 * |t.chains| <==> |t.chains[b]| + 1 >= 10 * (t.mults[b] + 1) && !t.noexpand)
            && (|x.chains| != 2 * |t.chains| ==>
                  && |x.chains| == |t.chains| && |x.chains[b]| == |t.chains[b]| + 1
                  && (forall d :: 0 <= d < |t.chains| && d != b ==> x.chains[d] == t.chains[d])
                  && x.mults == t.mults && x.ideal == t.ideal && x.nonideal == t.nonideal
                  && x.ineffective == t.ineffective && x.noexpand == t.noexpand)
  {
    hide WellFormed, Expand, Add, Consistent;
    NotEmpty(t, hash, nbits);
    LinkedChains(t, hash, nbits, e);
    AddIs(t, hash, nbits, e);
    ExpandDoubles(Linked(t, hash, e), hash);
  }

  lemma LinkedChains(t: Table, hash: Key -> nat, nbits: nat, e: Elem)
    requires WellFormed(t, hash, nbits) && e !in t.order
    ensures |t.chains| > 0 && |t.mults| == |t.chains|
    ensures Consistent(t, hash) && Consistent(Linked(t, hash, e), hash)
  {
    LinkedConsistent(t, hash, e);
  }

  lemma ExpandDoubles(t: Table, hash: Key -> nat)
    requires Consistent(t, hash)
    ensures |t.chains| > 0 && |Expand(t, hash).chains| == 2 * |t.chains| && Expand(t, hash).bloom == t.bloom
  {
    ExpandConsistent(t, hash);
  }

  // ----- every run -----

  /** A chain of n items with multiplier m is short of its threshold, or as good as the last expansion could
      make it. */
  predicate Short(n: nat, m: nat, ideal: nat) {
    n < 10 * (m + 1) || n <= ideal * (m + 1)
  }

  /** Chains are bounded unless expansion has been stopped; it is stopped by two ineffective expansions in a
      row and nothing else; and a table without items is a new one. */
  ghost predicate Growing(t: Table) {
    && |t.mults| == |t.chains|
    && (!t.noexpand ==> forall b :: 0 <= b < |t.chains| ==> Short(|t.chains[b]|, t.mults[b], t.ideal))
    && (t.noexpand <==> t.ineffective == 2) && t.ineffective <= 2
    && (t.order == [] ==>
          && |t.chains| == 32 && (forall b :: 0 <= b < 32 ==> t.chains[b] == [] && t.mults[b] == 0)
          && t.ideal == 0 && t.ineffective == 0 && t.bloom == {})
  }

  lemma ExpandedGrowing(t: Table, hash: Key -> nat)
    requires Consistent(t, hash) && t.order != [] && !t.noexpand && t.ineffective <= 1
    ensures Growing(Expand(t, hash))
  {
    hide SpreadChains, Total, Excess, Spread, MultsOf, Ceil;
    ExpansionBookkeeping(t, hash);
    ExpansionVerdict(t, hash);
    var x := Expand(t, hash);
    forall b | 0 <= b < |x.chains| ensures Short(|x.chains[b]|, x.mults[b], x.ideal) {
      Swap(x.ideal, x.mults[b] + 1);
    }
  }

  lemma Swap(a: nat, b: nat)
    ensures a * b == b * a && (b >= 1 ==> a <= a * b)
  {
    if b >= 1 { Multiple(b, a); }
  }

  lemma AddGrowing(t: Table, hash: Key -> nat, nbits: nat, e: Elem)
    requires WellFormed(t, hash, nbits) && Growing(t) && e !in t.order
    ensures |t.chains| > 0 && Growing(Add(t, hash, nbits, e))
  {
    hide Expand, Total, Short, PowerOfTwo;
    AddExpandsExactly(t, hash, nbits, e);
    AddWellFormed(t, hash, nbits, e);
    LinkedChains(t, hash, nbits, e);
    var x, b := Add(t, hash, nbits, e), hash(e.key) % |t.chains|;
    var l := Linked(t, hash, e);
    if |x.chains| == 2 * |t.chains| {
      AddIsExpand(t, hash, nbits, e);
      ExpandedGrowing(l, hash);
    } else if !t.noexpand {
      assert Short(|x.chains[b]|, x.mults[b], x.ideal) by { ShortByCount(|x.chains[b]|, x.mults[b], x.ideal); }
    }
  }

  lemma ShortByCount(n: nat, m: nat, ideal: nat)
    requires n < 10 * (m + 1)
    ensures Short(n, m, ideal)
  {
  }

  /** An add that doubles the buckets is an expansion, but for the Bloom bit. */
  lemma AddIsExpand(t: Table, hash: Key -> nat, nbits: nat, e: Elem)
    requires WellFormed(t, hash, nbits) && e !in t.order
    ensures |t.chains| > 0 && |t.mults| == |t.chains|
    ensures var x, y := Add(t, hash, nbits, e), Expand(Linked(t, hash, e), hash);
            |x.chains| == 2 * |t.chains| ==> x == y.(bloom := x.bloom)
  {
    hide Expand;
  }

  lemma DeleteGrowing(t: Table, hash: Key -> nat, nbits: nat, e: Elem)
    requires WellFormed(t, hash, nbits) && Growing(t) && e in t.order
    ensures |t.chains| > 0 && Growing(Delete(t, hash, e))
  {
    hide Total, PowerOfTwo, Find, Short;
    if |t.order| > 1 {
      UnlinkedAt(t, hash, e);
      var b := Slot(hash, e, |t.chains|);
      var x := Delete(t, hash, e);
      WithoutLength(t.order, Find(t.order, e));
      WithoutLength(t.chains[b], Find(t.chains[b], e));
      Shorter(|x.chains[b]|, |t.chains[b]|, t.mults[b], t.ideal);
    } else {
      NewIsGrowing();
    }
  }

  lemma Shorter(n: nat, n': nat, m: nat, ideal: nat)
    requires n <= n'
    ensures Short(n', m, ideal) ==> Short(n, m, ideal)
  {
  }

  lemma NewIsGrowing()
    ensures Growing(NewTable())
  {
  }

  lemma SortGrowing(t: Table, cmp: (Elem, Elem) -> int)
    requires Growing(t)
    ensures Growing(t.(order := Sort(t.order, 1, cmp)))
  {
    SortPermutes(t.order, 1, cmp);
  }

  lemma StepGrowing(t: Table, hash: Key -> nat, nbits: nat, op: Op)
    requires WellFormed(t, hash, nbits) && Growing(t) && Legal(t.order, op)
    ensures |t.chains| > 0 && |t.mults| == |t.chains| && Growing(Step(t, hash, nbits, op))
  {
    hide WellFormed, Growing, Add, Delete, Sort;
    NotEmpty(t, hash, nbits);
    match op
    case OpAdd(e) => AddGrowing(t, hash, nbits, e);
    case OpDelete(e) => DeleteGrowing(t, hash, nbits, e);
    case OpSort(cmp) => SortGrowing(t, cmp);
  }

  lemma {:induction false} RunGrowing(t: Table, hash: Key -> nat, nbits: nat, ops: seq<Op>)
    requires WellFormed(t, hash, nbits) && Growing(t) && AllLegal(t.order, ops)
    ensures Growing(Run(t, hash, nbits, ops))
    decreases |ops|
  {
    hide WellFormed, Growing, Step, ListStep;
    if ops != [] {
      StepKeeps(t, hash, nbits, ops[0]);
      StepGrowing(t, hash, nbits, ops[0]);
      RunGrowing(Step(t, hash, nbits, ops[0]), hash, nbits, ops[1..]);
    }
  }

  /** In every state that legal adds, deletes and sorts reach from a new table: unless two ineffective
      expansions in a row have stopped expansion, every chain has fewer than ten items for each unit of its
      multiplier and one, or at most the ideal length for each. */
  lemma ChainsStayShort(hash: Key -> nat, nbits: nat, ops: seq<Op>)
    requires AllLegal([], ops)
    ensures WellFormed(NewTable(), hash, nbits)
    ensures var t := Run(NewTable(), hash, nbits, ops);
            && |t.mults| == |t.chains|
            && (t.noexpand <==> t.ineffective == 2)
            && (t.order == [] ==> |t.chains| == 32 && t.ineffective == 0 && t.bloom == {})
            && (!t.noexpand ==>
                  forall b :: 0 <= b < |t.chains| ==>
                    |t.chains[b]| < 10 * (t.mults[b] + 1) || |t.chains[b]| <= t.ideal * (t.mults[b] + 1))
  {
    NewTableWellFormed(hash, nbits);
    NewIsGrowing();
    RunGrowing(NewTable(), hash, nbits, ops);
    var t := Run(NewTable(), hash, nbits, ops);
    if !t.noexpand {
      forall b | 0 <= b < |t.chains|
        ensures |t.chains[b]| < 10 * (t.mults[b] + 1) || |t.chains[b]| <= t.ideal * (t.mults[b] + 1)
      {
        assert Short(|t.chains[b]|, t.mults[b], t.ideal);
      }
    }
  }
}
