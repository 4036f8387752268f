/** ght_hash_table_t: arrays of chain heads and counts, and the age list threaded through the same
    entries.  Every operation is proved to do what GhtSpec says. */
module GhtTable {
  import opened Bits
  import opened Sequences
  import opened GhtSpec
  import opened GhtLinks
  import opened GhtNodes
  import opened GhtProps

  /** ght_iterator_t. */
  class GhtIterator {
    var entry: Entry?
    var next: Entry?

    constructor ()
    {
      entry, next := null, null;
    }
  }

  class HashTable {
    const hash: Key -> nat
    var size: nat
    var mask: nat
    var items: nat
    var heuristic: Heuristic
    var automaticRehash: bool
    var bucketLimit: nat
    var entries: array<Entry?>
    var nr: array<int>
    var oldest: Entry?
    var newest: Entry?

    /** The table as a value, and the entry of each key. */
    ghost var t: Table
    ghost var node: map<Key, Entry>

    ghost predicate Shape()
      reads this
    {
      && WellFormed(t, hash) && Covers(node, t) && Keyed(node)
      && t.heuristic == heuristic && t.autoRehash == automaticRehash && t.limit == bucketLimit
      && size == |t.buckets| && mask == size - 1 && PowerOfTwo(size)
      && entries.Length == size && nr.Length == size
      && items == |t.order|
    }

    ghost function Chains(): seq<seq<Entry>>
      requires Covers(node, t)
      reads this
    {
      ChainsOf(node, t)
    }

    ghost function Age(): seq<Entry>
      requires Covers(node, t)
      reads this
    {
      AgeOf(node, t)
    }

    /** The two lists are those of the table t'. */
    ghost predicate Lists(t': Table)
      requires Covers(node, t')
      reads this`entries, this`oldest, this`newest, this`node, entries,
            node.Values`next, node.Values`prev, node.Values`newer, node.Values`older
    {
      && Chained(entries, ChainsOf(node, t'))
      && IsAge(AgeOf(node, t'))
      && oldest == At(AgeOf(node, t'), 0) && newest == At(AgeOf(node, t'), |t'.order| - 1)
    }

    /** And so are the counts and the data. */
    ghost predicate Rep(t': Table)
      requires Covers(node, t')
      reads this`entries, this`nr, this`oldest, this`newest, this`node, entries, nr, node.Values
    {
      Lists(t') && nr[..] == Lengths(t'.buckets) && Holds(node, t'.order)
    }

    ghost predicate Valid()
      reads this, entries, nr, node.Values
    {
      Shape() && Rep(t)
    }

    /** ght_create. */
    constructor (n: nat, hash: Key -> nat)
      ensures Valid() && t == Create(n) && this.hash == hash
      ensures t.heuristic == NoHeuristic && !t.autoRehash && t.limit == 0 && t.order == []
      ensures heuristic == NoHeuristic && !automaticRehash && bucketLimit == 0 && items == 0
      ensures size == |t.buckets| && PowerOfTwo(size) && size >= n
      ensures forall q: nat :: PowerOfTwo(q) && q >= n ==> size <= q
      ensures fresh(entries) && fresh(nr) && node == map[]
    {
      var i := 1;
      var size := 1;
      while size < n
        invariant i >= 1 && size == Pow2(i - 1) && RoundUp(n, size) == RoundUp(n, 1)
        decreases n - size
      {
        size := Pow2(i);
        i := i + 1;
      }
      this.hash := hash;
      this.size := size;
      mask := Pow2(i - 1) - 1;
      items := 0;
      heuristic := NoHeuristic;
      automaticRehash := false;
      bucketLimit := 0;
      entries := new Entry?[size](_ => null);
      nr := new int[size](_ => 0);
      oldest, newest := null, null;
      t := Create(n);
      node := map[];
      new;
      BlankWellFormed(size, hash);
      BlankLists(size);
      RoundUpIsLeast(n);
    }

    lemma ValidWellFormed()
      requires Valid()
      ensures Shape() && WellFormed(t, hash) && t.autoRehash == automaticRehash && items == |t.order| &&
              size == |t.buckets|
    {
    }

    lemma ValidSettings()
      requires Valid()
      ensures t.heuristic == heuristic && t.autoRehash == automaticRehash && t.limit == bucketLimit
    {
    }

    /** ght_set_heuristics, ght_set_rehash and the limit of ght_set_bounded_buckets. */
    method Configure(h: Heuristic, rehash: bool, limit: nat)
      requires Valid()
      modifies this`t, this`heuristic, this`automaticRehash, this`bucketLimit
      ensures Valid() && t == old(t).(heuristic := h, autoRehash := rehash, limit := limit)
    {
      hide WellFormed, Covers, Chained, IsAge, PowerOfTwo, Keyed, Holds, Lengths, NoDup, AgeOf, ChainsOf;
      SameLists(node, t, hash, t.(heuristic := h, autoRehash := rehash, limit := limit));
      heuristic := h;
      automaticRehash := rehash;
      bucketLimit := limit;
      t := t.(heuristic := h, autoRehash := rehash, limit := limit);
    }

    // ----- searching -----

    /** hash & mask. */
    method SlotOf(k: Key) returns (l: nat)
      requires Shape()
      ensures l == Slot(hash, k, size) && l < size
    {
      l := BitAnd(hash(k), mask);
      MaskOfPower(hash(k), size);
    }

    /** The loop of search_in_bucket, up to the matching entry. */
    method FindInBucket(l: nat, k: Key) returns (e: Entry?)
      requires Valid() && l == Slot(hash, k, size)
      ensures e == At(Chains()[l], Find(t.buckets[l], k))
    {
      ghost var s := Chains()[l];
      ghost var ks := t.buckets[l];
      ghost var i := 0;
      e := entries[l];
      while e != null
        invariant 0 <= i <= |s| && e == At(s, i)
        invariant k !in ks[..i]
        decreases |s| - i
      {
        if e.key == k {
          FirstMatch(ks, k, i);
          return;
        }
        assert ks[..i + 1] == ks[..i] + [ks[i]];
        e := e.next;
        i := i + 1;
      }
      assert ks[..i] == ks;
    }

    /** The heuristic on a found entry. */
    method ApplyHeuristic(l: nat, k: Key, e: Entry, h: Heuristic)
      requires Valid() && l == Slot(hash, k, size)
      requires Find(t.buckets[l], k) < |t.buckets[l]| && e == Chains()[l][Find(t.buckets[l], k)]
      modifies this`t, entries, node.Values`next, node.Values`prev
      ensures Valid() && t == SearchedWith(old(t), hash, k, h)
    {
      hide WellFormed, SearchedWith, Touch, Chained, Apart, IsAge, Find;
      ChainsAreApart(node, t, hash);
      SearchedNodes(node, t, hash, k, h);
      TouchChain(h, entries, l, e, Chains(), Find(t.buckets[l], k));
      t := SearchedWith(t, hash, k, h);
    }

    /** search_in_bucket. */
    method SearchInBucket(l: nat, k: Key, h: Heuristic) returns (e: Entry?)
      requires Valid() && l == Slot(hash, k, size)
      modifies this`t, entries, node.Values`next, node.Values`prev
      ensures Valid() && t == SearchedWith(old(t), hash, k, h)
      ensures t.order == old(t.order) && (e == null) == !Has(old(t), k)
      ensures e != null ==> e == node[k]
    {
      e := FindInBucket(l, k);
      SearchedWithWellFormed(t, hash, k, h);
      if e != null {
        ApplyHeuristic(l, k, e, h);
      }
    }

    // ----- get and replace -----

    method GhtGet(k: Key) returns (data: Ptr)
      requires Valid()
      modifies this`t, entries, node.Values`next, node.Values`prev
      ensures Valid() && (t, data) == Get(old(t), hash, k)
    {
      var l := SlotOf(k);
      var e := SearchInBucket(l, k, heuristic);
      data := if e != null then e.data else NULL;
    }

    method GhtReplace(k: Key, data: Ptr) returns (was: Ptr)
      requires Valid()
      modifies this`t, entries, node.Values`next, node.Values`prev, node.Values`data
      ensures Valid() && (t, was) == Replace(old(t), hash, k, data)
    {
      hide WellFormed, Chained, IsAge, Find, KeysOf, SearchedWith, Replace, Covers, Keyed, DataOf;
      var l := SlotOf(k);
      var e := SearchInBucket(l, k, heuristic);
      ReplaceFound(old(t), hash, k, data);
      if e == null {
        return NULL;
      }
      was := OverwriteData(e, k, data);
    }

    /** The exchange of the data of a found entry. */
    method OverwriteData(e: Entry, k: Key, data: Ptr) returns (was: Ptr)
      requires Valid() && Has(t, k) && e == node[k]
      modifies this`t, node.Values`data
      ensures Valid() && t == old(t).(order := old(t).order[Find(KeysOf(old(t).order), k) := (k, data)])
      ensures was == DataOf(old(t).order, k)
    {
      hide Chained, IsAge, WellFormed, KeysOf, Find, NoDup, Lengths, PowerOfTwo, AllOf, NodesOf, ChainsOf, AgeOf;
      ghost var i := Find(KeysOf(t.order), k);
      FoundNode(node, t, hash, k);
      was := e.data;
      e.data := data;
      OverwrittenNodes(node, t, hash, k, data);
      t := t.(order := t.order[i := (k, data)]);
    }

    // ----- remove -----

    method GhtRemove(k: Key) returns (data: Ptr)
      requires Valid()
      modifies this`t, this`items, this`oldest, this`newest, entries, nr, node.Values
      ensures Valid() && (t, data) == Remove(old(t), hash, k)
    {
      hide WellFormed, Chained, IsAge, Find, KeysOf, SearchedWith, Dropped, Keyed, Apart, Without, NoDup;
      var l := SlotOf(k);
      NoHeuristicNoChange(t, hash, k);
      var p := SearchInBucket(l, k, NoHeuristic);
      data := NULL;
      if p != null {
        FoundNode(node, t, hash, k);
        data := p.data;
        Detach(l, k, p);
      } else {
        NothingToDrop(t, hash, k);
      }
    }

    /** Both lists after the removal of an entry. */
    method DetachLists(l: nat, k: Key, p: Entry)
      requires Valid() && Has(t, k) && l == Slot(hash, k, size) && p == node[k]
      modifies this`oldest, this`newest, entries, node.Values`next, node.Values`prev, node.Values`older,
               node.Values`newer
      ensures Covers(node, Dropped(t, hash, k)) && Lists(Dropped(t, hash, k))
    {
      hide WellFormed, Chained, IsAge, Find, KeysOf, Dropped, Keyed, Apart, Without, NoDup, Lengths, PowerOfTwo, Holds,
           AllOf, NodesOf, ChainsOf, AgeOf;
      ChainsAreApart(node, t, hash);
      DroppedNodes(node, t, hash, k);
      ghost var i, j := Find(KeysOf(t.order), k), Find(t.buckets[l], k);
      oldest, newest := DetachEntry(entries, l, p, Chains(), j, oldest, newest, Age(), i);
    }

    /** And the counts. */
    method DetachLinks(l: nat, k: Key, p: Entry)
      requires Valid() && Has(t, k) && l == Slot(hash, k, size) && p == node[k]
      modifies this`items, this`oldest, this`newest, entries, nr,
               node.Values`next, node.Values`prev, node.Values`older, node.Values`newer
      ensures items == old(items) - 1
      ensures Covers(node, Dropped(t, hash, k)) && Rep(Dropped(t, hash, k))
    {
      hide WellFormed, Find, KeysOf, Dropped, Keyed, Without, Lengths, PowerOfTwo, Lists, Holds, Covers;
      DroppedNodes(node, t, hash, k);
      ghost var i, j := Find(KeysOf(t.order), k), Find(t.buckets[l], k);
      DetachLists(l, k, p);
      HoldsWithout(node, t.order, i);
      LengthsUpdate(t.buckets, l, Without(t.buckets[l], j));
      Count(l, -1);
    }

    /** What ght_remove does to an entry it has found. */
    method Detach(l: nat, k: Key, p: Entry)
      requires Valid() && Has(t, k) && l == Slot(hash, k, size) && p == node[k]
      modifies this`t, this`items, this`oldest, this`newest, entries, nr,
               node.Values`next, node.Values`prev, node.Values`older, node.Values`newer
      ensures Valid() && t == Dropped(old(t), hash, k)
    {
      hide WellFormed, Find, KeysOf, Dropped, Keyed, Without, PowerOfTwo, Rep, Covers;
      DroppedNodes(node, t, hash, k);
      DetachLinks(l, k, p);
      t := Dropped(t, hash, k);
    }

    /** i_items and p_nr after one entry more or less. */
    method Count(l: nat, d: int)
      requires l < nr.Length && items + d >= 0
      modifies this`items, nr
      ensures items == old(items) + d
      ensures nr[..] == old(nr[..])[l := old(nr[l]) + d]
    {
      items := items + d;
      nr[l] := nr[l] + d;
    }

    // ----- insert -----

    /** An entry first in a chain that evicts nothing, and one more counted. */
    method PushEntry(l: nat, k: Key, e: Entry)
      requires Valid() && l < size && e !in node.Values
      modifies this`items, entries, nr, node.Values`prev, e`next, e`prev
      ensures Chained(entries, ChainsOf(node, t)[l := [e] + ChainsOf(node, t)[l]])
      ensures IsAge(AgeOf(node, t))
      ensures items == |t.order| + 1 && nr[..] == Lengths(t.buckets[l := [k] + t.buckets[l]])
    {
      hide WellFormed, KeysOf, Keyed, NoDup, PowerOfTwo, Holds, Chained, IsAge, AllOf, Lengths, Apart;
      ChainsAreApart(node, t, hash);
      PushedEntries(Chains(), l, e);
      LengthsUpdate(t.buckets, l, [k] + t.buckets[l]);
      PushOnChains(entries, l, e, Chains());
      Count(l, 1);
    }

    /** The links of an insert into a full chain; counts do not change. */
    method PushAndEvictEntry(l: nat, k: Key, e: Entry)
      requires Valid() && l == Slot(hash, k, size) && e !in node.Values && Victim(t, hash, k) != []
      modifies this`oldest, this`newest, entries,
               node.Values`next, node.Values`prev, node.Values`older, node.Values`newer, e`next, e`prev
      ensures var t1 := Evicted(t, hash, k);
              && WellFormed(t1, hash) && Covers(node, t1) && |t1.buckets| == size
              && Chained(entries, ChainsOf(node, t1)[l := [e] + ChainsOf(node, t1)[l]])
              && IsAge(AgeOf(node, t1)) && oldest == At(AgeOf(node, t1), 0) &&
                 newest == At(AgeOf(node, t1), |t1.order| - 1)
      ensures e.newer == old(e.newer)
    {
      hide WellFormed, Keyed, NoDup, PowerOfTwo, Holds, Dropped, Evicted, Victim, KeysOf, Find, Chained, IsAge, Apart,
           AllOf, Without, Lengths;
      ChainsAreApart(node, t, hash);
      EvictedNodes(node, t, hash, k, e);
      ghost var i := Find(KeysOf(t.order), Victim(t, hash, k)[0]);
      oldest, newest := PushAndEvict(entries, l, e, Chains(), oldest, newest, Age(), i);
    }

    /** The chain and the counts of an insert, with the eviction. */
    method InsertInChain(l: nat, k: Key, e: Entry)
      requires Valid() && l == Slot(hash, k, size) && e !in node.Values
      modifies this`items, this`oldest, this`newest, entries, nr,
               node.Values`next, node.Values`prev, node.Values`older, node.Values`newer, e`next, e`prev
      ensures var t1 := Evicted(t, hash, k);
              && WellFormed(t1, hash) && Covers(node, t1) && |t1.buckets| == size
              && Chained(entries, ChainsOf(node, t1)[l := [e] + ChainsOf(node, t1)[l]])
              && IsAge(AgeOf(node, t1)) && oldest == At(AgeOf(node, t1), 0) &&
                 newest == At(AgeOf(node, t1), |t1.order| - 1)
              && items == |t1.order| + 1 && nr[..] == Lengths(t1.buckets[l := [k] + t1.buckets[l]])
      ensures e.newer == old(e.newer)
    {
      hide WellFormed, Keyed, NoDup, PowerOfTwo, Holds, Dropped, KeysOf, Find, Chained, IsAge, Apart, AllOf, Without,
           Lengths, Evicted, Victim, Covers, NodesOf;
      NothingEvicted(t, hash, k);
      assert nr[l] == |t.buckets[l]| by { LengthsUpdate(t.buckets, l, []); }
      if bucketLimit != 0 && nr[l] >= bucketLimit {
        EvictedNodes(node, t, hash, k, e);
        EvictedLengths(t, hash, k, l);
        PushAndEvictEntry(l, k, e);
      } else {
        PushEntry(l, k, e);
      }
    }

    /** The new entry at the end of the age list. */
    method LinkNewest(e: Entry, ghost c: seq<seq<Entry>>, ghost a: seq<Entry>)
      requires Chained(entries, c) && IsAge(a) && e !in a && e.newer == null
      requires oldest == At(a, 0) && newest == At(a, |a| - 1)
      modifies this`oldest, this`newest, a`newer, e`older
      ensures Chained(entries, c) && IsAge(a + [e]) && oldest == At(a + [e], 0) && newest == At(a + [e], |a|)
    {
      hide IsAge;
      oldest, newest := AppendToAge(e, oldest, newest, a);
    }

    /** The lists of an insert. */
    method InsertLinks(l: nat, k: Key, v: Ptr, e: Entry)
      requires Valid() && !Has(t, k) && l == Slot(hash, k, size) && e !in node.Values && e.newer == null
      modifies this`items, this`oldest, this`newest, this`node, entries, nr,
               node.Values`next, node.Values`prev, node.Values`older, node.Values`newer, e`next, e`prev, e`older
      ensures node == old(node)[k := e] && Covers(node, Placed(t, hash, k, v)) && Lists(Placed(t, hash, k, v))
      ensures items == |Placed(t, hash, k, v).order| && nr[..] == Lengths(Placed(t, hash, k, v).buckets)
    {
      hide WellFormed, Keyed, NoDup, PowerOfTwo, Holds, Dropped, KeysOf, Find, Chained, IsAge, Apart, AllOf, Without,
           Lengths, Evicted, Victim, NodesOf, Placed, Covers, ChainsOf, AgeOf;
      ghost var t1 := Evicted(t, hash, k);
      InsertInChain(l, k, e);
      PlacedNodes(node, t, hash, k, v, e);
      LinkNewest(e, ChainsOf(node, t1)[l := [e] + ChainsOf(node, t1)[l]], AgeOf(node, t1));
      node := node[k := e];
    }

    /** What ght_insert does with a new entry. */
    method InsertEntry(l: nat, k: Key, v: Ptr, e: Entry)
      requires Valid() && !Has(t, k) && l == Slot(hash, k, size) && e !in node.Values
      requires e.newer == null && e.key == k && e.data == v
      modifies this`t, this`items, this`oldest, this`newest, this`node, entries, nr,
               node.Values`next, node.Values`prev, node.Values`older, node.Values`newer, e`next, e`prev, e`older
      ensures Valid() && t == Placed(old(t), hash, k, v) && node == old(node)[k := e]
    {
      hide WellFormed, NoDup, PowerOfTwo, Find, Without, Lengths, Evicted, NodesOf, Placed, Covers, Lists, KeysOf;
      EvictedKeeps(node, t, hash, k);
      PlacedNodes(node, t, hash, k, v, e);
      HoldsPlaced(node, t, hash, k, v, e);
      InsertLinks(l, k, v, e);
      t := Placed(t, hash, k, v);
    }

    // ----- iteration -----

    /** The iterator's next entry is the first one of rest, the end of the age list. */
    ghost predicate Pending(it: GhtIterator, rest: seq<(Key, Ptr)>)
      reads this, it
    {
      && Covers(node, t) && |rest| <= |t.order| && rest == t.order[|t.order| - |rest|..]
      && it.next == At(Age(), |t.order| - |rest|)
    }

    /** first_keysize. */
    method GhtFirst(it: GhtIterator) returns (data: Ptr)
      requires Valid()
      modifies it
      ensures it.entry == At(Age(), 0) && data == (if t.order == [] then NULL else t.order[0].1)
      ensures it.entry != null ==> it.entry.data == data
      ensures (it.entry == null) == (t.order == []) && (t.order != [] ==> it.entry.key == t.order[0].0)
      ensures Pending(it, if t.order == [] then [] else t.order[1..])
    {
      it.entry := oldest;
      if it.entry != null {
        it.next := it.entry.newer;
        return it.entry.data;
      }
      it.next := null;
      data := NULL;
    }

    /** next_keysize. */
    method GhtNext(it: GhtIterator, ghost rest: seq<(Key, Ptr)>) returns (data: Ptr)
      requires Valid() && Pending(it, rest)
      modifies it
      ensures it.entry == At(Age(), |t.order| - |rest|) && data == (if rest == [] then NULL else rest[0].1)
      ensures it.entry != null ==> it.entry.data == data
      ensures (it.entry == null) == (rest == []) && (rest != [] ==> it.entry.key == rest[0].0)
      ensures Pending(it, if rest == [] then [] else rest[1..])
    {
      ghost var i := |t.order| - |rest|;
      if it.next != null {
        assert rest[0] == t.order[i] && rest[1..] == t.order[i + 1..];
        it.entry := it.next;
        it.next := it.next.newer;
        return it.entry.data;
      }
      it.entry := null;
      it.next := null;
      data := NULL;
    }

    /** ght_remove during an iteration, of an entry the iterator has reached or passed. */
    method RemovePassed(it: GhtIterator, k: Key, ghost rest: seq<(Key, Ptr)>) returns (data: Ptr)
      requires Valid() && Pending(it, rest) && k !in KeysOf(rest)
      modifies this`t, this`items, this`oldest, this`newest, entries, nr, node.Values
      ensures Valid() && (t, data) == Remove(old(t), hash, k) && Pending(it, rest)
      ensures forall x :: Has(t, x) <==> Has(old(t), x) && x != k
    {
      hide WellFormed, Chained, IsAge, Find, KeysOf, Dropped, Keyed, Without, NoDup, Lists, Rep, PowerOfTwo, Holds,
           Lengths,
           AllOf, NodesOf, ChainsOf;
      NotEmpty(t, hash);
      RestStays(t, hash, k, rest);
      DroppedHas(t, hash, k);
      data := GhtRemove(k);
    }

    method RemoveEach(it: GhtIterator, ks: seq<Key>, ghost rest: seq<(Key, Ptr)>)
      requires Valid() && Pending(it, rest) && forall k :: k in ks ==> k !in KeysOf(rest)
      modifies this`t, this`items, this`oldest, this`newest, entries, nr, node.Values
      ensures Valid() && Pending(it, rest)
      ensures forall x :: Has(t, x) <==> Has(old(t), x) && x !in ks
    {
      hide *;
      for i := 0 to |ks|
        invariant Valid() && Pending(it, rest)
        invariant forall x :: Has(t, x) <==> Has(old(t), x) && x !in ks[..i]
      {
        var _ := RemovePassed(it, ks[i], rest);
        assert ks[..i + 1] == ks[..i] + [ks[i]];
      }
      assert ks[..|ks|] == ks;
    }

    /** An iteration over all, of which what the plan says has been removed so far. */
    ghost predicate Visiting(it: GhtIterator, all: seq<(Key, Ptr)>, plan: nat -> seq<Key>, visited: seq<(Key, Ptr)>,
                             data: Ptr)
      reads this, entries, nr, node.Values, it
    {
      && Valid() && Upto(all, visited, data) && Pending(it, Rest(all, |visited|))
      && (|visited| < |all| ==> it.entry != null && it.entry.key == all[|visited|].0)
      && PassedOnly(plan, all)
      && (forall x :: Has(t, x) <==> x in KeysOf(all) && !Planned(plan, |visited|, x))
    }

    /** One round of that iteration. */
    method VisitOne(it: GhtIterator, ghost all: seq<(Key, Ptr)>, plan: nat -> seq<Key>, visited: seq<(Key, Ptr)>,
                    data: Ptr)
      returns (visited': seq<(Key, Ptr)>, data': Ptr)
      requires Visiting(it, all, plan, visited, data) && data != NULL
      modifies it, this`t, this`items, this`oldest, this`newest, entries, nr, node.Values
      ensures |visited| < |all| && |visited'| == |visited| + 1 && |visited'| <= |all| &&
              Visiting(it, all, plan, visited', data')
    {
      hide WellFormed, Find, KeysOf, Shape, Rep, Pending, Rest, Upto, Covers, NoDup, Has, Planned, PassedOnly;
      ghost var rest := Rest(all, |visited|);
      UptoNext(all, visited, data);
      PassedKeys(plan, all, |visited|);
      var n := |visited|;
      visited' := visited + [(it.entry.key, data)];
      RemoveEach(it, plan(n), rest);
      PlannedNext(plan, n);
      data' := GhtNext(it, rest);
    }

    /** The iteration loop, when each step removes any entries that were already visited, the current one
        included. */
    method VisitAll(plan: nat -> seq<Key>) returns (visited: seq<(Key, Ptr)>)
      requires Valid()
      requires PassedOnly(plan, t.order)
      modifies this`t, this`items, this`oldest, this`newest, entries, nr, node.Values
      ensures Valid() && visited == UntilNull(old(t.order))
      ensures forall x :: Has(t, x) <==> x in KeysOf(old(t.order)) && !Planned(plan, |visited|, x)
    {
      hide *;
      ghost var all := t.order;
      var it := new GhtIterator();
      var data := StartVisit(it, plan);
      visited := [];
      while data != NULL
        invariant Visiting(it, all, plan, visited, data) && |visited| <= |all|
        decreases |all| - |visited|
      {
        visited, data := VisitOne(it, all, plan, visited, data);
      }
      EndVisit(it, all, plan, visited);
    }

    method StartVisit(it: GhtIterator, ghost plan: nat -> seq<Key>) returns (data: Ptr)
      requires Valid() && PassedOnly(plan, t.order)
      modifies it
      ensures Visiting(it, t.order, plan, [], data)
    {
      hide WellFormed, Find, KeysOf, Shape, Rep, Pending, Rest, Upto, Covers, NoDup, Planned, PassedOnly;
      NothingPlanned(plan);
      AtStart(t.order);
      data := GhtFirst(it);
    }

    lemma EndVisit(it: GhtIterator, all: seq<(Key, Ptr)>, plan: nat -> seq<Key>, visited: seq<(Key, Ptr)>)
      requires Visiting(it, all, plan, visited, NULL)
      ensures Valid() && visited == UntilNull(all)
      ensures forall x :: Has(t, x) <==> x in KeysOf(all) && !Planned(plan, |visited|, x)
    {
      hide Valid, Pending, Rest, Upto, Planned, PassedOnly, UntilNull;
      StopsAtNull(all, visited, NULL);
    }

    /** An iteration over all that removes each entry it comes to. */
    ghost predicate Clearing(it: GhtIterator, all: seq<(Key, Ptr)>, visited: seq<(Key, Ptr)>, data: Ptr)
      reads this, entries, nr, node.Values, it
    {
      && Valid() && Upto(all, visited, data) && Pending(it, Rest(all, |visited|))
      && (|visited| < |all| ==> it.entry != null && it.entry.key == all[|visited|].0)
      && NoDup(KeysOf(all)) && Unvisited(t, all, visited)
    }

    /** One round of that iteration. */
    method RemoveCurrent(it: GhtIterator, ghost all: seq<(Key, Ptr)>, ghost visited: seq<(Key, Ptr)>, data: Ptr)
      returns (data': Ptr)
      requires Clearing(it, all, visited, data) && data != NULL
      modifies it, this`t, this`items, this`oldest, this`newest, entries, nr, node.Values
      ensures |visited| < |all| && all[|visited|].1 == data &&
              Clearing(it, all, visited + [(all[|visited|].0, data)], data')
    {
      hide WellFormed, Find, KeysOf, Shape, Rep, Pending, Rest, Upto, Covers, NoDup, Unvisited, Has, Remove;
      ghost var rest, was := Rest(all, |visited|), t;
      UptoNext(all, visited, data);
      CurrentIsFirst(all, |visited|);
      var _ := RemovePassed(it, it.entry.key, rest);
      UnvisitedNext(was, t, all, visited, all[|visited|].0, data);
      data' := GhtNext(it, rest);
    }

    /** The iteration loop, when each step removes the current entry. */
    method RemoveAll()
      requires Valid()
      modifies this`t, this`items, this`oldest, this`newest, entries, nr, node.Values
      ensures Valid() && (NoNulls(old(t.order)) ==> items == 0 && forall k :: !Has(t, k))
    {
      hide WellFormed, Find, KeysOf, Shape, Rep, Pending, Rest, Upto, Covers, NoDup, Unvisited, Has, UntilNull, NoNulls;
      ghost var all := t.order;
      ghost var visited: seq<(Key, Ptr)> := [];
      var it := new GhtIterator();
      var data := GhtFirst(it);
      AtStart(all);
      ValidWellFormed();
      NoneVisited(t, hash);
      while data != NULL
        invariant Clearing(it, all, visited, data)
        decreases |all| - |visited|
      {
        ghost var n := |visited|;
        data := RemoveCurrent(it, all, visited, data);
        visited := visited + [(all[n].0, all[n].1)];
      }
      StopsAtNull(all, visited, data);
      ValidWellFormed();
      AllVisited(t, all);
    }

    // ----- insert and rehash -----

    /** ght_insert. */
    method GhtInsert(k: Key, v: Ptr) returns (ret: int)
      requires Valid()
      modifies this, entries, nr, node.Values
      ensures Valid() && (t, ret) == Insert(old(t), hash, k, v)
      ensures automaticRehash == old(automaticRehash)
      ensures entries == old(entries) || fresh(entries)
      ensures nr == old(nr) || fresh(nr)
      ensures fresh(node.Values - old(node.Values))
      decreases if automaticRehash then 2 else 0, 4
    {
      hide *;
      ValidWellFormed();
      NotEmpty(t, hash);
      InsertIs(t, hash, k, v);
      NoHeuristicNoChange(t, hash, k);
      var l := SlotOf(k);
      var found := SearchInBucket(l, k, NoHeuristic);
      if found != null {
        return -1;
      }
      var e := new Entry(k, v);
      l := MakeRoom(l, k);
      OneMoreEntry(node, k, e);
      InsertEntry(l, k, v, e);
      ret := 0;
    }

    /** Rehash if the number of items is too high. */
    method MakeRoom(l: nat, k: Key) returns (l': nat)
      requires Valid() && !Has(t, k) && l == Slot(hash, k, size)
      modifies this
      ensures Valid() && t == Roomier(old(t), hash) && !Has(t, k) && l' == Slot(hash, k, size)
      ensures automaticRehash == old(automaticRehash)
      ensures entries == old(entries) || fresh(entries)
      ensures nr == old(nr) || fresh(nr)
      ensures node == old(node) || fresh(node.Values)
      decreases if automaticRehash then 1 else 0, 3
    {
      hide WellFormed, Find, KeysOf, Rehash, Rep, Covers, Has;
      l' := l;
      if automaticRehash && items > 2 * size {
        RehashHas(t, hash, 2 * size, k);
        GhtRehash(2 * size);
        l' := SlotOf(k);
      }
    }

    /** The other table shares nothing with this one. */
    ghost predicate Separate(tmp: HashTable)
      reads this, tmp
    {
      tmp != this && tmp.entries != entries && tmp.nr != nr && tmp.node.Values !! node.Values
    }

    /** An iteration over this table has put the entries visited so far into tmp. */
    ghost predicate Copying(tmp: HashTable, it: GhtIterator, t0: Table, visited: seq<(Key, Ptr)>, data: Ptr)
      reads this, entries, nr, node.Values, tmp, tmp.entries, tmp.nr, tmp.node.Values, it
    {
      && Valid() && tmp.Valid() && tmp.hash == hash && !tmp.automaticRehash
      && Upto(t.order, visited, data) && Pending(it, Rest(t.order, |visited|))
      && (|visited| < |t.order| ==> it.entry != null && it.entry.key == t.order[|visited|].0)
      && WellFormed(t0, hash) && t0.order == [] && t0.limit == 0 && !t0.autoRehash
      && tmp.t == PlaceAll(t0, hash, visited)
    }

    /** One round of that iteration. */
    method CopyEntry(tmp: HashTable, it: GhtIterator, ghost t0: Table, ghost visited: seq<(Key, Ptr)>, data: Ptr)
      returns (data': Ptr)
      requires Separate(tmp) && Copying(tmp, it, t0, visited, data) && data != NULL
      modifies it, tmp, tmp.entries, tmp.nr, tmp.node.Values
      ensures |visited| < |t.order| && Copying(tmp, it, t0, visited + [t.order[|visited|]], data')
      ensures tmp.entries == old(tmp.entries) || fresh(tmp.entries)
      ensures tmp.nr == old(tmp.nr) || fresh(tmp.nr)
      ensures fresh(tmp.node.Values - old(tmp.node.Values))
      decreases 1, 0
    {
      hide WellFormed, Find, KeysOf, PlaceAll, Insert, Shape, Rep, Pending, Rest, Upto, Covers;
      ghost var rest := Rest(t.order, |visited|);
      ValidWellFormed();
      UptoNext(t.order, visited, data);
      PlaceOneMore(t0, hash, t, |visited|);
      UptoPrefix(t.order, visited, data);
      var r := tmp.GhtInsert(it.entry.key, data);
      data' := GhtNext(it, rest);
    }

    /** The loop of ght_rehash: the entries go into the temporary table. */
    method CopyInto(tmp: HashTable)
      requires Valid() && tmp.Valid() && Separate(tmp) && tmp.hash == hash && !tmp.automaticRehash
      requires tmp.t.order == [] && tmp.t.limit == 0
      modifies tmp, tmp.entries, tmp.nr, tmp.node.Values
      ensures tmp.Valid() && tmp.t == PlaceAll(old(tmp.t), hash, UntilNull(t.order))
      ensures fresh(tmp.node.Values - old(tmp.node.Values))
      ensures tmp.entries == old(tmp.entries) || fresh(tmp.entries)
      ensures tmp.nr == old(tmp.nr) || fresh(tmp.nr)
      decreases 1, 1
    {
      hide Valid, Copying, PlaceAll, UntilNull, Upto, Rest, Pending, WellFormed, Covers;
      ghost var t0 := tmp.t;
      ghost var visited: seq<(Key, Ptr)> := [];
      var it := new GhtIterator();
      var data := StartCopy(tmp, it);
      while data != NULL
        invariant Copying(tmp, it, t0, visited, data) && Separate(tmp)
        invariant tmp.entries == old(tmp.entries) || fresh(tmp.entries)
        invariant tmp.nr == old(tmp.nr) || fresh(tmp.nr)
        invariant fresh(tmp.node.Values - old(tmp.node.Values))
        decreases |t.order| - |visited|
      {
        data := CopyEntry(tmp, it, t0, visited, data);
        visited := visited + [t.order[|visited|]];
      }
      EndCopy(tmp, it, t0, visited, data);
    }

    method StartCopy(tmp: HashTable, it: GhtIterator) returns (data: Ptr)
      requires Valid() && tmp.Valid() && tmp.hash == hash && !tmp.automaticRehash && tmp.t.order == [] &&
               tmp.t.limit == 0
      modifies it
      ensures Copying(tmp, it, tmp.t, [], data)
    {
      hide WellFormed, Find, KeysOf, PlaceAll, Shape, Rep, Pending, Rest, Upto, Covers;
      data := GhtFirst(it);
      AtStart(t.order);
      ValidWellFormed();
      tmp.ValidWellFormed();
      PlaceNone(tmp.t, hash);
    }

    lemma EndCopy(tmp: HashTable, it: GhtIterator, t0: Table, visited: seq<(Key, Ptr)>, data: Ptr)
      requires Copying(tmp, it, t0, visited, data) && data == NULL
      ensures tmp.Valid() && |t0.buckets| > 0 && tmp.t == PlaceAll(t0, hash, UntilNull(t.order))
    {
      hide Valid, Shape, Rep, Pending, PlaceAll, UntilNull, Upto;
      StopsAtNull(t.order, visited, data);
    }

    /** ght_rehash. */
    method GhtRehash(n: nat)
      requires Valid()
      modifies this
      ensures Valid() && t == Rehash(old(t), hash, n)
      ensures automaticRehash == old(automaticRehash)
      ensures fresh(entries) && fresh(nr) && fresh(node.Values)
      decreases 1, 2
    {
      hide WellFormed, PlaceAll, UntilNull, Valid, RoundUp;
      ghost var was := t;
      ValidSettings();
      var tmp := new HashTable(n, hash);
      tmp.ValidSettings();
      CopyInto(tmp);
      TakeFields(tmp);
      TakenOver(tmp, was);
    }

    method TakeFields(tmp: HashTable)
      requires tmp != this
      modifies this
      ensures t == old(t).(buckets := tmp.t.buckets, order := tmp.t.order)
      ensures heuristic == old(heuristic) && automaticRehash == old(automaticRehash) && bucketLimit == old(bucketLimit)
      ensures size == tmp.size && mask == tmp.mask && items == tmp.items && entries == tmp.entries && nr == tmp.nr
      ensures oldest == tmp.oldest && newest == tmp.newest && node == tmp.node
    {
      size := tmp.size;
      mask := tmp.mask;
      items := tmp.items;
      entries := tmp.entries;
      nr := tmp.nr;
      oldest := tmp.oldest;
      newest := tmp.newest;
      node := tmp.node;
      t := t.(buckets := tmp.t.buckets, order := tmp.t.order);
    }

    /** A table that has taken the lists of another. */
    lemma TakenOver(tmp: HashTable, was: Table)
      requires tmp.Valid() && tmp.hash == hash && t == was.(buckets := tmp.t.buckets, order := tmp.t.order)
      requires heuristic == was.heuristic && automaticRehash == was.autoRehash && bucketLimit == was.limit
      requires size == tmp.size && mask == tmp.mask && items == tmp.items && entries == tmp.entries && nr == tmp.nr
      requires oldest == tmp.oldest && newest == tmp.newest && node == tmp.node
      ensures Valid()
    {
      hide Chained, IsAge, PowerOfTwo, Keyed, Holds, Lengths, NoDup;
      assert AgeOf(node, t) == AgeOf(node, tmp.t);
      assert ChainsOf(node, t) == ChainsOf(node, tmp.t);
    }

    // ----- a client -----

    /** One operation of a client. */
    method Perform(op: Op) returns (ret: int)
      requires Valid()
      modifies this, entries, nr, node.Values
      ensures Valid() && |old(t.buckets)| > 0 && (t, ret) == Step(old(t), hash, op)
      ensures entries == old(entries) || fresh(entries)
      ensures nr == old(nr) || fresh(nr)
      ensures fresh(node.Values - old(node.Values))
    {
      hide WellFormed, Valid, Insert, Get, Replace, Remove, Rehash;
      ValidWellFormed();
      NotEmpty(t, hash);
      match op {
        case OpInsert(k, v) => ret := GhtInsert(k, v);
        case OpGet(k) => ret := GhtGet(k);
        case OpReplace(k, v) => ret := GhtReplace(k, v);
        case OpRemove(k) => ret := GhtRemove(k);
        case OpRehash(n) => GhtRehash(n); ret := 0;
        case OpHeuristic(h) => ValidSettings(); Configure(h, automaticRehash, bucketLimit); ret := 0;
        case OpAutoRehash(on) => ValidSettings(); Configure(heuristic, on, bucketLimit); ret := 0;
        case OpLimit(n) => ValidSettings(); Configure(heuristic, automaticRehash, n); ret := 0;
      }
    }

    /** Every run of operations on the linked table: the results and the final table are those of the
        run on values. */
    method PerformAll(ops: seq<Op>) returns (rets: seq<int>)
      requires Valid()
      modifies this, entries, nr, node.Values
      ensures Valid() && WellFormed(old(t), hash) && (t, rets) == Run(old(t), hash, ops)
      ensures entries == old(entries) || fresh(entries)
      ensures nr == old(nr) || fresh(nr)
      ensures fresh(node.Values - old(node.Values))
      decreases |ops|
    {
      hide WellFormed, Valid, Step;
      ValidWellFormed();
      if ops == [] {
        return [];
      }
      StepWellFormed(t, hash, ops[0]);
      var first := Perform(ops[0]);
      var rest := PerformAll(ops[1..]);
      rets := [first] + rest;
    }
  }
}
