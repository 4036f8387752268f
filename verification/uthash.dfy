/** uthash: the table hung off its first element.  Every operation is proved to do what UthashSpec says. */
module Uthash {
  import opened Bits
  import opened Sequences
  import opened UthashSpec
  import opened UthashLinks
  import opened UthashProps
  import opened UthashSort
  import opened MergeSort
  import Bloom

  /** The element an operation brings in. */
  ghost function Touched(op: Op): set<Elem> {
    if op.OpAdd? then {op.e} else {}
  }

  ghost function TouchedByAll(ops: seq<Op>): set<Elem> {
    set i | 0 <= i < |ops| && ops[i].OpAdd? :: ops[i].e
  }

  lemma TouchedFirst(l: seq<Elem>, ops: seq<Op>)
    requires ops != []
    ensures Touched(ops[0]) <= TouchedByAll(ops) && TouchedByAll(ops[1..]) <= TouchedByAll(ops)
    ensures Elements(ListStep(l, ops[0])) <= Elements(l) + Touched(ops[0])
  {
    hide Sort;
    forall e | e in TouchedByAll(ops[1..]) ensures e in TouchedByAll(ops) {
      var i :| 0 <= i < |ops[1..]| && ops[1..][i].OpAdd? && ops[1..][i].e == e;
      assert ops[i + 1].OpAdd? && ops[i + 1].e == e;
    }
    match ops[0]
    case OpAdd(e) =>
    case OpDelete(e) => if e in l { WithoutElements(l, Find(l, e)); }
    case OpSort(cmp) =>
      SortPermutes(l, 1, cmp);
      SameMembers(Sort(l, 1, cmp), l);
  }

  /** The head pointer together with the table it leads to. */
  class Hash {
    const hash: Key -> nat

    /** HASH_BLOOM: the filter is compiled in or not, with 2^nbits bits. */
    const bloomOn: bool
    const nbits: nat

    var head: Elem?
    var tail: Elem?
    var buckets: array<Bucket>
    var numBuckets: nat
    var log2NumBuckets: nat
    var numItems: nat
    var idealChainMaxlen: nat
    var nonidealItems: nat
    var ineffExpands: nat
    var noexpand: bool
    var bloomBv: array<bv8>

    /** The table as a value. */
    ghost var t: Table

    ghost predicate Settings(t': Table)
      reads this`numBuckets, this`log2NumBuckets, this`idealChainMaxlen, this`nonidealItems, this`ineffExpands,
            this`noexpand
    {
      && numBuckets == |t'.chains| == Pow2(log2NumBuckets)
      && idealChainMaxlen == t'.ideal && nonidealItems == t'.nonideal
      && ineffExpands == t'.ineffective && noexpand == t'.noexpand
    }

    ghost predicate Filter(bits: set<nat>)
      reads this`bloomBv, bloomBv
    {
      bloomOn ==> Bloom.Holds(bloomBv[..], bits, nbits)
    }

    /** Buckets, settings and filter are those of t'. */
    ghost predicate Body(t': Table)
      reads this`numBuckets, this`log2NumBuckets, this`idealChainMaxlen, this`nonidealItems, this`ineffExpands,
            this`noexpand,
            this`buckets, this`bloomBv, buckets, bloomBv, AllOf(t'.chains)`hhNext, AllOf(t'.chains)`hhPrev
    {
      && Chained(buckets, t'.chains, t'.mults)
      && Settings(t') && Filter(t'.bloom) && bloomBv as object != buckets && buckets.Length == |t'.chains|
    }

    /** The application list is s. */
    ghost predicate App(s: seq<Elem>)
      reads this`head, this`tail, s`next, s`prev
    {
      IsApp(s) && head == At(s, 0) && tail == At(s, |s| - 1)
    }

    ghost predicate Rep()
      reads this, buckets, bloomBv, t.order, AllOf(t.chains)`hhNext, AllOf(t.chains)`hhPrev
    {
      App(t.order) && Hashed(t.order, hash) && numItems == |t.order| && Body(t)
    }

    ghost predicate Valid()
      reads this, buckets, bloomBv, t.order, AllOf(t.chains)`hhNext, AllOf(t.chains)`hhPrev
    {
      WellFormed(t, hash, nbits) && if head == null then t == NewTable() else Rep()
    }

    constructor (hash: Key -> nat, bloomOn: bool, nbits: nat)
      ensures Valid() && t == NewTable() && head == null
    {
      this.hash := hash;
      this.bloomOn := bloomOn;
      this.nbits := nbits;
      head, tail := null, null;
      buckets := new Bucket[0];
      numBuckets, log2NumBuckets, numItems := 0, 0, 0;
      idealChainMaxlen, nonidealItems, ineffExpands, noexpand := 0, 0, 0, false;
      bloomBv := new bv8[0];
      t := NewTable();
      new;
      NewTableWellFormed(hash, nbits);
    }

    // ----- add -----

    /** HASH_MAKE_TABLE for the first element. */
    method MakeTable()
      modifies this
      ensures Body(NewTable()) && fresh(buckets) && fresh(bloomBv)
      ensures head == old(head) && t == old(t) && tail == head && numItems == 0
    {
      hide Bloom.Holds;
      tail := head;
      numBuckets := INITIAL_NUM_BUCKETS;
      log2NumBuckets := 5;
      numItems := 0;
      idealChainMaxlen, nonidealItems, ineffExpands, noexpand := 0, 0, 0, false;
      buckets := NewBuckets(INITIAL_NUM_BUCKETS);
      bloomBv := Bloom.MakeVector(nbits);
    }

    /** The application list and the count of HASH_ADD_KEYPTR. */
    method AppendApp(e: Elem)
      requires Valid() && e !in t.order
      modifies this, t.order`next, e`next, e`prev
      ensures head != null && App(t.order + [e]) && Hashed(t.order, hash) && numItems == |t.order| + 1 && Body(t)
      ensures t == old(t)
      ensures buckets == old(buckets) || fresh(buckets)
      ensures bloomBv == old(bloomBv) || fresh(bloomBv)
    {
      hide Chained, Consistent, Flagged, Filter, Settings, WellFormed, IsApp;
      e.next := null;
      if head == null {
        FirstApp(e);
        assert t.order + [e] == [e];
      } else {
        NextApp(e);
      }
      numItems := numItems + 1;
    }

    method FirstApp(e: Elem)
      requires head == null && e.next == null
      modifies this, e`prev
      ensures head != null && App([e]) && numItems == 0 && Body(NewTable()) && t == old(t)
      ensures fresh(buckets) && fresh(bloomBv)
    {
      hide Body;
      head := e;
      head.prev := null;
      MakeTable();
    }

    method NextApp(e: Elem)
      requires App(t.order) && t.order != [] && e !in t.order && e.next == null && Body(t)
      modifies this`tail, t.order`next, e`prev
      ensures App(t.order + [e]) && Body(t)
    {
      hide Body;
      tail.next := e;
      e.prev := tail;
      tail := e;
    }

    /** HASH_FCN and HASH_ADD_TO_BKT, up to the test for expansion. */
    method AddHandle(e: Elem) returns (b: nat)
      requires Consistent(t, hash) && Body(t) && e !in t.order && App(t.order + [e]) && Hashed(t.order, hash)
      modifies this`t, buckets, AllOf(t.chains)`hhPrev, e`hhNext, e`hhPrev, e`hashv
      ensures b == Slot(hash, e, |old(t.chains)|) && t == Linked(old(t), hash, e)
      ensures Body(t) && App(t.order) && Hashed(t.order, hash) && e.hashv == hash(e.key)
    {
      hide Consistent, Chained, Apart, AllOf, Filter, PowerOfTwo;
      NotChained(t, hash, e);
      ChainsApart(t, hash);
      e.hashv := hash(e.key);
      b := BitAnd(e.hashv, numBuckets - 1);
      MaskOfPower(e.hashv, numBuckets);
      AddToBucket(buckets, b, e, t.chains, t.mults);
      t := Linked(t, hash, e);
    }

    /** HASH_BLOOM_ADD. */
    method BloomAdd(hashv: nat)
      requires Body(t)
      modifies this`t, bloomBv
      ensures Body(t) && t == old(t).(bloom := old(t).bloom + {hashv % Pow2(nbits)})
    {
      if bloomOn {
        var i := BitAnd(hashv, Pow2(nbits) - 1);
        MaskIsMod(hashv, nbits);
        Bloom.SetBit(bloomBv, i, t.bloom, nbits);
      }
      t := t.(bloom := t.bloom + {hashv % Pow2(nbits)});
    }

    /** HASH_EXPAND_BUCKETS. */
    method ExpandBuckets()
      requires Consistent(t, hash) && Body(t) && Hashed(t.order, hash) && numItems == |t.order| && t.order != []
      requires App(t.order)
      modifies this, AllOf(t.chains)`hhNext, AllOf(t.chains)`hhPrev
      ensures t == Expand(old(t), hash) && Body(t) && fresh(buckets) && App(t.order) && Hashed(t.order, hash)
      ensures head == old(head) && tail == old(tail) && numItems == old(numItems) && bloomBv == old(bloomBv)
    {
      hide Chained, Hashed, SpreadChains, MultsOf, Excess, AllOf, Moving, Expand, Filter, PowerOfTwo, AtHome,
           AllDistinct,
           SameElements, NoDup, Total;
      var newBuckets := NewBuckets(2 * numBuckets);
      var ideal := ShiftRight(numItems, log2NumBuckets + 1)
                   + (if BitAnd(numItems, numBuckets * 2 - 1) != 0 then 1 else 0);
      IdealIsCeiling(numItems, log2NumBuckets);
      AllHashed();
      ExpandConsistent(t, hash);
      var nonideal := MoveChains(buckets, newBuckets, ideal, numBuckets, t.chains, t.mults, hash);
      Install(newBuckets, ideal, nonideal);
    }

    /** The new buckets in place of the old. */
    method Install(newBuckets: array<Bucket>, ideal: nat, nonideal: nat)
      requires |t.chains| > 0 && Settings(t) && Filter(t.bloom) && numItems == |t.order| &&
               bloomBv as object != newBuckets
      requires newBuckets.Length == 2 * |t.chains|
      requires Moving(newBuckets, SpreadChains(t.chains, hash), ideal, nonideal) &&
               ideal == Ceil(|t.order|, 2 * |t.chains|)
      modifies this
      ensures t == Expand(old(t), hash) && Body(t) && buckets == newBuckets
      ensures head == old(head) && tail == old(tail) && numItems == old(numItems) && bloomBv == old(bloomBv)
    {
      hide SpreadChains, MultsOf, Excess, Filter, Settings, Ceil, Chained;
      SpreadSameElements(t.chains, hash);
      CountExpansion(ideal, nonideal);
      buckets := newBuckets;
      t := Expand(t, hash);
    }

    /** The bookkeeping at the end of an expansion. */
    method CountExpansion(ideal: nat, nonideal: nat)
      requires |t.chains| > 0 && Settings(t) && numItems == |t.order|
      requires ideal == Expand(t, hash).ideal && nonideal == Expand(t, hash).nonideal
      modifies this`idealChainMaxlen, this`nonidealItems, this`numBuckets, this`log2NumBuckets, this`ineffExpands,
               this`noexpand
      ensures Settings(Expand(t, hash))
    {
      hide SpreadChains, MultsOf, Excess;
      ShiftIsDivision(numItems, 1);
      assert Pow2(1) == 2;
      idealChainMaxlen, nonidealItems := ideal, nonideal;
      numBuckets := numBuckets * 2;
      log2NumBuckets := log2NumBuckets + 1;
      ineffExpands := if nonidealItems > ShiftRight(numItems, 1) then ineffExpands + 1 else 0;
      if ineffExpands > 1 {
        noexpand := true;
      }
    }

    lemma AllHashed()
      requires Consistent(t, hash) && Hashed(t.order, hash)
      ensures forall b :: 0 <= b < |t.chains| ==> Hashed(t.chains[b], hash)
    {
      forall b, j | 0 <= b < |t.chains| && 0 <= j < |t.chains[b]|
        ensures t.chains[b][j].hashv == hash(t.chains[b][j].key)
      {
        assert t.chains[b][j] in t.chains[b];
        assert t.chains[b][j] in t.order;
        var i :| 0 <= i < |t.order| && t.order[i] == t.chains[b][j];
        assert t.order[i].hashv == hash(t.order[i].key);
      }
    }

    /** The test for expansion at the end of HASH_ADD_TO_BKT. */
    method ExpandIfCrowded(b: nat)
      requires Consistent(t, hash) && Body(t) && Hashed(t.order, hash) && numItems == |t.order| && t.order != []
      requires App(t.order) && b < |t.chains|
      modifies this, AllOf(t.chains)`hhNext, AllOf(t.chains)`hhPrev
      ensures b < |old(t.mults)| && t == if Crowded(old(t), b) then Expand(old(t), hash) else old(t)
      ensures Body(t) && App(t.order) && Hashed(t.order, hash)
      ensures buckets == old(buckets) || fresh(buckets)
      ensures head == old(head) && tail == old(tail) && numItems == old(numItems) && bloomBv == old(bloomBv)
    {
      hide Consistent, Expand, App, Hashed, Filter;
      if buckets[b].count >= (buckets[b].mult + 1) * BKT_CAPACITY_THRESH && !noexpand {
        ExpandBuckets();
      }
    }

    /** The bucket part of HASH_ADD_KEYPTR. */
    method EnterBucket(e: Elem)
      requires Consistent(t, hash) && Body(t) && e !in t.order && App(t.order + [e]) && Hashed(t.order, hash)
      requires numItems == |t.order| + 1
      modifies this, buckets, AllOf(t.chains)`hhNext, AllOf(t.chains)`hhPrev, e`hhNext, e`hhPrev, e`hashv
      ensures |old(t.chains)| > 0
      ensures var l, b := Linked(old(t), hash, e), Slot(hash, e, |old(t.chains)|);
              b < |l.chains| && b < |l.mults| && t == if Crowded(l, b) then Expand(l, hash) else l
      ensures Rep() && e.hashv == hash(e.key) && head == old(head)
      ensures buckets == old(buckets) || fresh(buckets)
      ensures bloomBv == old(bloomBv)
    {
      hide WellFormed, Consistent, App, Hashed, Body, Crowded, Expand, Slot, AllOf;
      NotEmptyChains(t, hash);
      ghost var l := Linked(t, hash, e);
      LinkedConsistent(t, hash, e);
      LinkedWithin(t, hash, e);
      var b := AddHandle(e);
      ExpandIfCrowded(b);
      ExpandedOrder(l, hash);
    }

    /** HASH_ADD_KEYPTR. */
    method HashAdd(e: Elem)
      requires Valid() && e !in t.order
      modifies this, buckets, bloomBv, t.order, e
      ensures Valid() && t == Add(old(t), hash, nbits, e)
      ensures buckets == old(buckets) || fresh(buckets)
      ensures bloomBv == old(bloomBv) || fresh(bloomBv)
    {
      hide WellFormed, Consistent, App, Hashed, Body, Add, Crowded, Expand, Linked, Slot, AllOf;
      ValidConsistent();
      AddIs(t, hash, nbits, e);
      AddWellFormed(t, hash, nbits, e);
      ChainsWithin(t, hash);
      AppendApp(e);
      EnterBucket(e);
      BloomAdd(e.hashv);
    }

    // ----- delete -----

    /** The application list of HASH_DELETE, when other elements stay. */
    method UnlinkApp(e: Elem, ghost i: nat)
      requires App(t.order) && |t.order| > 1 && i < |t.order| && t.order[i] == e && Body(t) && Consistent(t, hash)
      requires Hashed(t.order, hash)
      modifies this`head, this`tail, t.order`next, t.order`prev
      ensures App(Without(t.order, i)) && head != null && Body(t)
      ensures Hashed(Without(t.order, i), hash) && e.hashv == hash(e.key)
    {
      hide IsApp, Without, Body, Consistent, AllOf, Hashed;
      ChainsWithin(t, hash);
      WithoutLength(t.order, i);
      head, tail := UnlinkFromApp(e, head, tail, t.order, i);
      HashedWithout(t.order, i);
    }

    /** HASH_TO_BKT and HASH_DEL_IN_BKT, and the count. */
    method RemoveHandle(e: Elem, ghost s: seq<Elem>)
      requires Consistent(t, hash) && Body(t) && e in t.order && e.hashv == hash(e.key)
      requires App(s) && Hashed(s, hash) && s == Unlinked(t, hash, e).order && numItems > 0
      modifies this`t, this`numItems, buckets, AllOf(t.chains)`hhNext, AllOf(t.chains)`hhPrev
      ensures t == Unlinked(old(t), hash, e) && Body(t) && App(t.order) && Hashed(t.order, hash)
      ensures numItems == old(numItems) - 1
    {
      hide Consistent, Chained, Apart, AllOf, Filter, PowerOfTwo, Unlinked, Without, Find, App, Hashed;
      ChainsApart(t, hash);
      UnlinkedAt(t, hash, e);
      var b := BitAnd(e.hashv, numBuckets - 1);
      MaskOfPower(e.hashv, numBuckets);
      DelInBucket(buckets, b, e, t.chains, t.mults, Find(t.chains[b], e));
      numItems := numItems - 1;
      t := Unlinked(t, hash, e);
    }

    /** HASH_DELETE. */
    method HashDelete(e: Elem)
      requires Valid() && e in t.order
      modifies this, buckets, t.order
      ensures Valid() && t == Delete(old(t), hash, e)
      ensures buckets == old(buckets) && bloomBv == old(bloomBv)
    {
      hide WellFormed, Consistent, Body, Unlinked, AllOf, NewTable, Without, Hashed, App;
      ValidConsistent();
      ChainsWithin(t, hash);
      DeleteWellFormed(t, hash, nbits, e);
      LastOne(e);
      if e.prev == null && e.next == null {
        head := null;
        t := NewTable();
      } else {
        DeleteOne(e);
      }
    }

    method DeleteOne(e: Elem)
      requires Consistent(t, hash) && Rep() && e in t.order && |t.order| > 1
      modifies this, buckets, AllOf(t.chains)`hhNext, AllOf(t.chains)`hhPrev, t.order`next, t.order`prev
      ensures t == Unlinked(old(t), hash, e) && Rep() && head != null
      ensures buckets == old(buckets) && bloomBv == old(bloomBv)
    {
      hide Consistent, Body, App, Hashed, Unlinked, AllOf, Without;
      ghost var i := Find(t.order, e);
      UnlinkedAt(t, hash, e);
      WithoutLength(t.order, i);
      UnlinkApp(e, i);
      RemoveHandle(e, Without(t.order, i));
    }

    /** The test for the last element. */
    lemma LastOne(e: Elem)
      requires Valid() && e in t.order
      ensures Rep() && (e.prev == null && e.next == null <==> |t.order| <= 1)
    {
      var i: int := Find(t.order, e);
      assert t.order[i].next == At(t.order, i + 1) && t.order[i].prev == At(t.order, i - 1);
    }

    lemma HashedWithout(s: seq<Elem>, i: nat)
      requires Hashed(s, hash) && i < |s|
      ensures Hashed(Without(s, i), hash) && s[i].hashv == hash(s[i].key)
    {
    }

    // ----- find and replace -----

    /** HASH_FIND_IN_BKT. */
    method FindInBucket(b: nat, k: Key) returns (out: Elem?)
      requires Body(t) && b < |t.chains|
      ensures out == First(t.chains[b], k)
    {
      ghost var c := t.chains[b];
      ghost var j := 0;
      out := buckets[b].head;
      while out != null
        invariant 0 <= j <= |c| && out == At(c, j)
        invariant forall i :: 0 <= i < j ==> c[i].key != k
        decreases |c| - j
      {
        if out.key == k {
          return;
        }
        out := out.hhNext;
        j := j + 1;
      }
    }

    /** HASH_FIND. */
    method HashFind(k: Key) returns (out: Elem?)
      requires Valid()
      ensures Valid() && |t.chains| > 0 && out == FindIn(t, hash, nbits, bloomOn, k)
    {
      hide WellFormed, Consistent, IsApp, Hashed, Chained, AllOf, First;
      ValidConsistent();
      ChainsWithin(t, hash);
      NotEmpty(t, hash, nbits);
      out := null;
      if head != null {
        var h := hash(k);
        var b := BitAnd(h, numBuckets - 1);
        ChainsApart(t, hash);
        MaskOfPower(h, numBuckets);
        var maybe := BloomTest(h);
        if maybe {
          out := FindInBucket(b, k);
        }
      }
    }

    /** HASH_BLOOM_TEST; without the filter it is always passed. */
    method BloomTest(hashv: nat) returns (maybe: bool)
      requires Body(t)
      ensures maybe <==> !bloomOn || hashv % Pow2(nbits) in t.bloom
    {
      if bloomOn {
        var i := BitAnd(hashv, Pow2(nbits) - 1);
        MaskIsMod(hashv, nbits);
        maybe := Bloom.TestBit(bloomBv, i, t.bloom, nbits);
      } else {
        maybe := true;
      }
    }

    /** HASH_REPLACE. */
    method HashReplace(e: Elem) returns (replaced: Elem?)
      requires Valid() && UniqueKeys(t.order)
      modifies this, buckets, bloomBv, t.order, e
      ensures Valid() && UniqueKeys(t.order) && replaced == First(old(t.order), e.key)
      ensures t.order == (if replaced != null && replaced in old(t.order)
                          then Without(old(t.order), Find(old(t.order), replaced)) else old(t.order)) + [e]
      ensures replaced != null ==> replaced in old(t.order) && replaced.key == e.key
    {
      hide WellFormed, Consistent, Valid, UniqueKeys, Add, Delete, Without, First, FindIn;
      ValidConsistent();
      FindAgrees(t, hash, nbits, bloomOn, e.key);
      ReplacedOrder(t.order, e);
      replaced := HashFind(e.key);
      if replaced != null {
        DeleteWellFormed(t, hash, nbits, replaced);
        WithoutElements(t.order, Find(t.order, replaced));
        HashDelete(replaced);
      }
      assert forall i :: 0 <= i < |t.order| ==> t.order[i] in old(t.order);
      ValidConsistent();
      AddWellFormed(t, hash, nbits, e);
      HashAdd(e);
    }

    // ----- sort -----

    /** HASH_SRT: the application list is sorted, nothing else is touched. */
    method HashSort(cmp: (Elem, Elem) -> int)
      requires Valid()
      modifies this`t, this`head, this`tail, t.order`next, t.order`prev
      ensures Valid() && t == old(t).(order := Sort(old(t.order), 1, cmp))
    {
      hide WellFormed, Consistent, Body, Hashed, AllOf, Sort, IsApp, NewTable;
      ValidConsistent();
      SortWellFormed(t, hash, nbits, cmp);
      if head != null {
        SortApp(cmp);
      } else {
        SortNothing(t, cmp);
      }
      t := t.(order := Sort(t.order, 1, cmp));
    }

    method SortApp(cmp: (Elem, Elem) -> int)
      requires Consistent(t, hash) && Rep() && head != null
      modifies this`head, this`tail, t.order`next, t.order`prev
      ensures var t' := t.(order := Sort(t.order, 1, cmp));
              |t'.order| == |t.order| && App(t'.order) && Hashed(t'.order, hash) && Body(t') && head != null
    {
      hide Consistent, Body, Hashed, AllOf, Sort, IsApp;
      ChainsWithin(t, hash);
      ghost var r := Sort(t.order, 1, cmp);
      head, tail := SortList(head, cmp, t.order);
      SortPermutes(t.order, 1, cmp);
      SameMembers(r, t.order);
      HashedPermuted(t.order, r);
      OrderNotInBody(t.(order := r));
    }

    lemma SortNothing(t: Table, cmp: (Elem, Elem) -> int)
      requires t == NewTable()
      ensures t.(order := Sort(t.order, 1, cmp)) == t
    {
    }

    lemma HashedPermuted(s: seq<Elem>, r: seq<Elem>)
      requires Hashed(s, hash) && forall x :: x in r ==> x in s
      ensures Hashed(r, hash)
    {
      forall j | 0 <= j < |r| ensures r[j].hashv == hash(r[j].key) {
        assert r[j] in s;
        var i :| 0 <= i < |s| && s[i] == r[j];
        assert s[i].hashv == hash(s[i].key);
      }
    }

    lemma OrderNotInBody(t': Table)
      requires Body(t) && t'.(order := t.order) == t
      ensures Body(t')
    {
    }

    lemma ValidConsistent()
      requires Valid()
      ensures WellFormed(t, hash, nbits) && Consistent(t, hash)
    {
    }

    // ----- HASH_FSCK -----

    /** The chains and the list can be followed to their ends; nothing else is asked of them. */
    ghost predicate Followable(chains: seq<seq<Elem>>, s: seq<Elem>)
      reads this, buckets, AllOf(chains)`hhNext, s`next
    {
      && buckets.Length == numBuckets == |chains| && head == At(s, 0) && head != null
      && (forall b :: 0 <= b < |chains| ==> buckets[b].head == At(chains[b], 0))
      && (forall b, j {:trigger chains[b][j].hhNext} :: 0 <= b < |chains| && 0 <= j < |chains[b]| ==>
            chains[b][j].hhNext == At(chains[b], j + 1))
      && (forall j {:trigger s[j].next} :: 0 <= j < |s| ==> s[j].next == At(s, j + 1))
    }

    ghost predicate BackLinked(c: seq<Elem>)
      reads c`hhPrev
    {
      forall j {:trigger c[j].hhPrev} :: 0 <= j < |c| ==> c[j].hhPrev == At(c, j - 1)
    }

    ghost predicate BackLinkedApp(s: seq<Elem>)
      reads s`prev
    {
      forall j {:trigger s[j].prev} :: 0 <= j < |s| ==> s[j].prev == At(s, j - 1)
    }

    /** The loop over one bucket; stops at the first wrong hhPrev. */
    method CheckBucket(b: nat, ghost c: seq<Elem>) returns (ok: bool, count: nat)
      requires b < buckets.Length && buckets[b].head == At(c, 0)
      requires forall j {:trigger c[j].hhNext} :: 0 <= j < |c| ==> c[j].hhNext == At(c, j + 1)
      ensures ok <==> BackLinked(c) && buckets[b].count == |c|
      ensures ok ==> count == |c|
    {
      var thh := buckets[b].head;
      var prev: Elem? := null;
      count := 0;
      while thh != null
        invariant count <= |c| && thh == At(c, count) && prev == At(c, count - 1)
        invariant forall j {:trigger c[j].hhPrev} :: 0 <= j < count ==> c[j].hhPrev == At(c, j - 1)
        decreases |c| - count
      {
        if prev != thh.hhPrev {
          assert c[count].hhPrev != At(c, count - 1);
          return false, count;
        }
        count := count + 1;
        prev := thh;
        thh := thh.hhNext;
      }
      ok := buckets[b].count == count;
    }

    method CheckApp(ghost s: seq<Elem>) returns (ok: bool, count: nat)
      requires head == At(s, 0)
      requires forall j {:trigger s[j].next} :: 0 <= j < |s| ==> s[j].next == At(s, j + 1)
      ensures ok <==> BackLinkedApp(s)
      ensures ok ==> count == |s|
    {
      var thh := head;
      var prev: Elem? := null;
      count := 0;
      while thh != null
        invariant count <= |s| && thh == At(s, count) && prev == At(s, count - 1)
        invariant forall j {:trigger s[j].prev} :: 0 <= j < count ==> s[j].prev == At(s, j - 1)
        decreases |s| - count
      {
        if prev != thh.prev {
          assert s[count].prev != At(s, count - 1);
          return false, count;
        }
        count := count + 1;
        prev := thh;
        thh := thh.next;
      }
      ok := true;
    }

    /** HASH_FSCK is silent exactly when every back link, every bucket count and the item count are right. */
    method Fsck(ghost chains: seq<seq<Elem>>, ghost s: seq<Elem>) returns (ok: bool)
      requires Followable(chains, s)
      ensures ok <==>
                && (forall b :: 0 <= b < |chains| ==> BackLinked(chains[b]) && buckets[b].count == |chains[b]|)
                && Total(chains) == numItems && BackLinkedApp(s) && |s| == numItems
    {
      hide BackLinked, BackLinkedApp;
      var count := 0;
      for b := 0 to numBuckets
        invariant count == Total(chains[..b])
        invariant forall c :: 0 <= c < b ==> BackLinked(chains[c]) && buckets[c].count == |chains[c]|
      {
        var fine, n := CheckBucket(b, chains[b]);
        if !fine {
          return false;
        }
        assert chains[..b + 1][..b] == chains[..b];
        count := count + n;
      }
      assert chains[..|chains|] == chains;
      if count != numItems {
        return false;
      }
      ok, count := CheckApp(s);
      ok := ok && count == numItems;
    }

    /** In a table that only adds, deletes and sorts have touched, HASH_FSCK never fires. */
    method FsckIsSilent() returns (ok: bool)
      requires Valid()
      ensures Valid() && ok
    {
      if head == null {
        return true;
      }
      ValidConsistent();
      ok := Fsck(t.chains, t.order);
    }

    // ----- a client -----

    /** One operation of a client, with the check that every add, delete and sort ends with. */
    method Perform(op: Op) returns (ok: bool)
      requires Valid() && Legal(t.order, op)
      modifies this, buckets, bloomBv, Elements(t.order) + Touched(op)
      ensures Valid() && |old(t.chains)| > 0 && |old(t.mults)| == |old(t.chains)|
      ensures t == Step(old(t), hash, nbits, op) && ok
      ensures buckets == old(buckets) || fresh(buckets)
      ensures bloomBv == old(bloomBv) || fresh(bloomBv)
    {
      hide WellFormed, Consistent, Valid, Add, Delete, Sort;
      ValidConsistent();
      NotEmpty(t, hash, nbits);
      match op {
        case OpAdd(e) => HashAdd(e);
        case OpDelete(e) => HashDelete(e);
        case OpSort(cmp) => HashSort(cmp);
      }
      ok := FsckIsSilent();
    }

    /** Every legal run of operations on the linked table: the same table as on values, and HASH_FSCK is
        silent after each of them. */
    method PerformAll(ops: seq<Op>) returns (ok: bool)
      requires Valid() && AllLegal(t.order, ops)
      modifies this, buckets, bloomBv, Elements(t.order) + TouchedByAll(ops)
      ensures Valid() && WellFormed(old(t), hash, nbits) && t == Run(old(t), hash, nbits, ops) && ok
      decreases |ops|
    {
      hide WellFormed, Consistent, Valid, Step, ListStep, Legal, Elements, Touched;
      ValidConsistent();
      if ops == [] {
        return true;
      }
      StepKeeps(t, hash, nbits, ops[0]);
      TouchedFirst(t.order, ops);
      var first := Perform(ops[0]);
      var rest := PerformAll(ops[1..]);
      ok := first && rest;
    }
  }
}
