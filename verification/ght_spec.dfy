/** libghthash as a value: bucket chains and insertion order as sequences of keys, and every operation
    on them.  `ght_table.dfy` holds the linked structure that is proved to do exactly this. */
module GhtSpec {
  import opened Sequences

  type Key = seq<bv8>

  /** A stored data pointer; 0 is NULL. */
  type Ptr = nat

  const NULL: Ptr := 0

  datatype Heuristic = NoHeuristic | Transpose | MoveToFront

  datatype Table = Table(
    heuristic: Heuristic,
    autoRehash: bool,
    limit: nat,
    buckets: seq<seq<Key>>,
    order: seq<(Key, Ptr)>)

  function KeysOf(order: seq<(Key, Ptr)>): (ks: seq<Key>)
    ensures |ks| == |order| && forall i :: 0 <= i < |ks| ==> ks[i] == order[i].0
  {
    seq(|order|, i requires 0 <= i < |order| => order[i].0)
  }

  // ----- operations -----

  function Slot(hash: Key -> nat, k: Key, size: nat): nat
    requires size > 0
  {
    hash(k) % size
  }

  /** Effect of a successful search on the chain. */
  function Touch<T>(h: Heuristic, s: seq<T>, i: nat): seq<T>
    requires i < |s|
  {
    match h
    case NoHeuristic => s
    case Transpose => Swapped(s, i)
    case MoveToFront => Fronted(s, i)
  }

  /** The table after a search for k that applies heuristic h. */
  function SearchedWith(t: Table, hash: Key -> nat, k: Key, h: Heuristic): Table
    requires |t.buckets| > 0
  {
    var b := Slot(hash, k, |t.buckets|);
    var i := Find(t.buckets[b], k);
    if i < |t.buckets[b]| then t.(buckets := t.buckets[b := Touch(h, t.buckets[b], i)]) else t
  }

  function Searched(t: Table, hash: Key -> nat, k: Key): Table
    requires |t.buckets| > 0
  {
    SearchedWith(t, hash, k, t.heuristic)
  }

  predicate Has(t: Table, k: Key) {
    k in KeysOf(t.order)
  }

  function DataOf(order: seq<(Key, Ptr)>, k: Key): Ptr {
    var i := Find(KeysOf(order), k);
    if i < |order| then order[i].1 else NULL
  }

  function Get(t: Table, hash: Key -> nat, k: Key): (Table, Ptr)
    requires |t.buckets| > 0
  {
    (Searched(t, hash, k), DataOf(t.order, k))
  }

  function Replace(t: Table, hash: Key -> nat, k: Key, v: Ptr): (Table, Ptr)
    requires |t.buckets| > 0
  {
    var i := Find(KeysOf(t.order), k);
    var s := Searched(t, hash, k);
    if i < |t.order| then (s.(order := t.order[i := (k, v)]), t.order[i].1) else (s, NULL)
  }

  function Unchained(t: Table, b: nat, k: Key): seq<seq<Key>>
    requires b < |t.buckets|
  {
    var j := Find(t.buckets[b], k);
    if j < |t.buckets[b]| then t.buckets[b := Without(t.buckets[b], j)] else t.buckets
  }

  /** k taken out of its chain and of the age list. */
  function Dropped(t: Table, hash: Key -> nat, k: Key): Table
    requires |t.buckets| > 0
  {
    var i := Find(KeysOf(t.order), k);
    if i < |t.order|
    then t.(buckets := Unchained(t, Slot(hash, k, |t.buckets|), k), order := Without(t.order, i))
    else t
  }

  function Remove(t: Table, hash: Key -> nat, k: Key): (Table, Ptr)
    requires |t.buckets| > 0
  {
    (Dropped(t, hash, k), DataOf(t.order, k))
  }

  /** k put first in its chain and last in the age list. */
  function Linked(t: Table, hash: Key -> nat, k: Key, v: Ptr): Table
    requires |t.buckets| > 0
  {
    var b := Slot(hash, k, |t.buckets|);
    t.(buckets := t.buckets[b := [k] + t.buckets[b]], order := t.order + [(k, v)])
  }

  /** The key an insert of k pushes out: the last one of a full chain. */
  function Victim(t: Table, hash: Key -> nat, k: Key): (v: seq<Key>)
    requires |t.buckets| > 0
    ensures |v| <= 1
  {
    var c := t.buckets[Slot(hash, k, |t.buckets|)];
    if t.limit != 0 && |c| >= t.limit then [c[|c| - 1]] else []
  }

  /** The table after the eviction an insert of k makes. */
  function Evicted(t: Table, hash: Key -> nat, k: Key): Table
    requires |t.buckets| > 0
  {
    var out := Victim(t, hash, k);
    if out == [] then t else Dropped(t, hash, out[0])
  }

  /** An insert of an absent key, without automatic rehash. */
  function Placed(t: Table, hash: Key -> nat, k: Key, v: Ptr): Table
    requires |t.buckets| > 0
  {
    Linked(Evicted(t, hash, k), hash, k, v)
  }

  /** Least power of two that is at least n and at least p. */
  function RoundUp(n: nat, p: nat): (r: nat)
    requires p > 0
    ensures r >= p && r >= n && r > 0
    decreases n - p
  {
    if p >= n then p else RoundUp(n, 2 * p)
  }

  /** The loop over an age list stops at the first entry whose data is NULL. */
  function UntilNull(order: seq<(Key, Ptr)>): seq<(Key, Ptr)> {
    if order == [] || order[0].1 == NULL then [] else [order[0]] + UntilNull(order[1..])
  }

  ghost predicate NoNulls(order: seq<(Key, Ptr)>) {
    forall i :: 0 <= i < |order| ==> order[i].1 != NULL
  }

  /** Inserting the entries one by one. */
  function PlaceAll(t: Table, hash: Key -> nat, entries: seq<(Key, Ptr)>): (r: Table)
    requires |t.buckets| > 0
    ensures |r.buckets| == |t.buckets|
    ensures r.heuristic == t.heuristic && r.autoRehash == t.autoRehash && r.limit == t.limit
    decreases |entries|
  {
    if entries == [] then t
    else
      var e := entries[|entries| - 1];
      Placed(PlaceAll(t, hash, entries[..|entries| - 1]), hash, e.0, e.1)
  }

  function Blank(size: nat): Table {
    Table(NoHeuristic, false, 0, seq(size, _ => []), [])
  }

  function Create(n: nat): Table {
    Blank(RoundUp(n, 1))
  }

  /** Reinsertion into a new table, whose chains and age list are then taken over. */
  function Rehash(t: Table, hash: Key -> nat, n: nat): Table {
    var rebuilt := PlaceAll(Create(n), hash, UntilNull(t.order));
    t.(buckets := rebuilt.buckets, order := rebuilt.order)
  }

  /** Rehash if the number of items is too high. */
  function Roomier(t: Table, hash: Key -> nat): Table {
    if t.autoRehash && |t.order| > 2 * |t.buckets| then Rehash(t, hash, 2 * |t.buckets|) else t
  }

  /** 0 when the entry was inserted, -1 when the key is present. */
  function Insert(t: Table, hash: Key -> nat, k: Key, v: Ptr): (Table, int)
    requires |t.buckets| > 0
  {
    if Has(t, k) then (t, -1) else (Placed(Roomier(t, hash), hash, k, v), 0)
  }

  // ----- what every operation keeps -----

  /** Chains and age list hold the same keys, each once, each in the chain of its hash. */
  ghost predicate WellFormed(t: Table, hash: Key -> nat) {
    && |t.buckets| > 0
    && NoDup(KeysOf(t.order))
    && (forall b :: 0 <= b < |t.buckets| ==> NoDup(t.buckets[b]))
    && (forall b, k :: 0 <= b < |t.buckets| && k in t.buckets[b] ==>
          Slot(hash, k, |t.buckets|) == b && k in KeysOf(t.order))
    && (forall k :: k in KeysOf(t.order) ==> k in t.buckets[Slot(hash, k, |t.buckets|)])
  }

  lemma TouchMembers<T>(h: Heuristic, s: seq<T>, i: nat)
    requires i < |s| && NoDup(s)
    ensures NoDup(Touch(h, s, i)) && |Touch(h, s, i)| == |s|
    ensures forall x :: x in Touch(h, s, i) <==> x in s
  {
    FrontedMembers(s, i);
    SwappedMembers(s, i);
  }

  /** A search permutes one chain and changes nothing else. */
  lemma SearchedWithWellFormed(t: Table, hash: Key -> nat, k: Key, h: Heuristic)
    requires WellFormed(t, hash)
    ensures WellFormed(SearchedWith(t, hash, k, h), hash)
    ensures SearchedWith(t, hash, k, h).order == t.order
    ensures |SearchedWith(t, hash, k, h).buckets| == |t.buckets|
    ensures forall b :: 0 <= b < |t.buckets| ==> |SearchedWith(t, hash, k, h).buckets[b]| == |t.buckets[b]|
  {
    var b := Slot(hash, k, |t.buckets|);
    var i := Find(t.buckets[b], k);
    if i < |t.buckets[b]| { TouchMembers(h, t.buckets[b], i); }
  }

  lemma SearchedWellFormed(t: Table, hash: Key -> nat, k: Key)
    requires WellFormed(t, hash)
    ensures WellFormed(Searched(t, hash, k), hash)
    ensures Searched(t, hash, k).order == t.order
    ensures forall b :: 0 <= b < |t.buckets| ==> |Searched(t, hash, k).buckets[b]| == |t.buckets[b]|
  {
    SearchedWithWellFormed(t, hash, k, t.heuristic);
  }

  lemma ReplaceWellFormed(t: Table, hash: Key -> nat, k: Key, v: Ptr)
    requires WellFormed(t, hash)
    ensures WellFormed(Replace(t, hash, k, v).0, hash)
    ensures KeysOf(Replace(t, hash, k, v).0.order) == KeysOf(t.order)
  {
    SearchedWellFormed(t, hash, k);
    var i := Find(KeysOf(t.order), k);
    if i < |t.order| {
      assert KeysOf(t.order[i := (k, v)]) == KeysOf(t.order);
    }
  }

  /** The table without a key it has. */
  lemma FoundInChain(t: Table, hash: Key -> nat, k: Key)
    requires WellFormed(t, hash) && Has(t, k)
    ensures NoDup(KeysOf(t.order))
    ensures var b := Slot(hash, k, |t.buckets|);
            var i, j := Find(KeysOf(t.order), k), Find(t.buckets[b], k);
            && i < |t.order| && j < |t.buckets[b]| && t.order[i].0 == k && t.buckets[b][j] == k
            && Dropped(t, hash, k) == t.(buckets := t.buckets[b := Without(t.buckets[b], j)],
               order := Without(t.order, i))
            && KeysOf(Without(t.order, i)) == Without(KeysOf(t.order), i)
            && |Without(t.order, i)| == |t.order| - 1 && |Without(t.buckets[b], j)| == |t.buckets[b]| - 1
  {
    var b := Slot(hash, k, |t.buckets|);
    assert k in t.buckets[b];
  }

  lemma DroppedWellFormed(t: Table, hash: Key -> nat, k: Key)
    requires WellFormed(t, hash)
    ensures WellFormed(Dropped(t, hash, k), hash)
    ensures forall x :: x in KeysOf(Dropped(t, hash, k).order) <==> x in KeysOf(t.order) && x != k
    ensures |Dropped(t, hash, k).buckets| == |t.buckets|
  {
    if Has(t, k) {
      FoundInChain(t, hash, k);
      hide Find, Dropped, Without;
      var b := Slot(hash, k, |t.buckets|);
      WithoutMembers(KeysOf(t.order), Find(KeysOf(t.order), k));
      WithoutMembers(t.buckets[b], Find(t.buckets[b], k));
    }
  }

  lemma LinkedWellFormed(t: Table, hash: Key -> nat, k: Key, v: Ptr)
    requires WellFormed(t, hash) && !Has(t, k)
    ensures WellFormed(Linked(t, hash, k, v), hash)
    ensures KeysOf(Linked(t, hash, k, v).order) == KeysOf(t.order) + [k]
  {
    assert KeysOf(t.order + [(k, v)]) == KeysOf(t.order) + [k];
  }

  lemma LastIsFound(c: seq<Key>)
    requires NoDup(c) && c != []
    ensures Find(c, c[|c| - 1]) == |c| - 1 && Without(c, |c| - 1) == c[..|c| - 1]
  {
  }

  lemma VictimPresent(t: Table, hash: Key -> nat, k: Key)
    requires WellFormed(t, hash) && Victim(t, hash, k) != []
    ensures Has(t, Victim(t, hash, k)[0]) && Slot(hash, Victim(t, hash, k)[0], |t.buckets|) == Slot(hash, k,
            |t.buckets|)
  {
    var b := Slot(hash, k, |t.buckets|);
    assert Victim(t, hash, k)[0] in t.buckets[b];
  }

  lemma PlacedWellFormed(t: Table, hash: Key -> nat, k: Key, v: Ptr)
    requires WellFormed(t, hash) && !Has(t, k)
    ensures WellFormed(Placed(t, hash, k, v), hash) && |Placed(t, hash, k, v).buckets| == |t.buckets|
    ensures t.limit == 0 ==> Placed(t, hash, k, v).order == t.order + [(k, v)]
  {
    var out := Victim(t, hash, k);
    if out != [] {
      VictimPresent(t, hash, k);
      DroppedWellFormed(t, hash, out[0]);
      LinkedWellFormed(Dropped(t, hash, out[0]), hash, k, v);
    } else {
      LinkedWellFormed(t, hash, k, v);
    }
  }

  lemma PlaceAllLast(t: Table, hash: Key -> nat, entries: seq<(Key, Ptr)>)
    requires |t.buckets| > 0 && entries != []
    ensures var n := |entries| - 1;
            PlaceAll(t, hash, entries) == Placed(PlaceAll(t, hash, entries[..n]), hash, entries[n].0, entries[n].1)
  {
  }

  lemma AllButLast(order: seq<(Key, Ptr)>, entries: seq<(Key, Ptr)>)
    requires entries != [] && NoDup(KeysOf(order + entries))
    ensures var n := |entries| - 1;
            && NoDup(KeysOf(order + entries[..n]))
            && entries[n].0 !in KeysOf(order + entries[..n])
            && order + entries == order + entries[..n] + [entries[n]]
  {
    var n := |entries| - 1;
    var all := KeysOf(order + entries);
    assert KeysOf(order + entries[..n]) == all[..|order| + n];
    assert all[|order| + n] == entries[n].0;
  }

  lemma {:induction false} PlaceAllOrder(t: Table, hash: Key -> nat, entries: seq<(Key, Ptr)>)
    requires WellFormed(t, hash) && t.limit == 0 && NoDup(KeysOf(t.order + entries))
    ensures WellFormed(PlaceAll(t, hash, entries), hash)
    ensures PlaceAll(t, hash, entries).order == t.order + entries
    decreases |entries|
  {
    hide WellFormed, NoDup, Placed, KeysOf;
    if entries == [] {
      assert t.order + [] == t.order;
    } else {
      var n := |entries| - 1;
      assert |t.buckets| > 0 by { NotEmpty(t, hash); }
      PlaceAllLast(t, hash, entries);
      AllButLast(t.order, entries);
      PlaceAllOrder(t, hash, entries[..n]);
      PlacedWellFormed(PlaceAll(t, hash, entries[..n]), hash, entries[n].0, entries[n].1);
    }
  }

  lemma NotEmpty(t: Table, hash: Key -> nat)
    requires WellFormed(t, hash)
    ensures |t.buckets| > 0
  {
  }

  lemma {:induction false} UntilNullPrefix(order: seq<(Key, Ptr)>)
    ensures UntilNull(order) <= order
    ensures UntilNull(order) == order <==> NoNulls(order)
    ensures forall i :: 0 <= i < |UntilNull(order)| ==> order[i].1 != NULL
    ensures |UntilNull(order)| < |order| ==> order[|UntilNull(order)|].1 == NULL
  {
    if order != [] && order[0].1 != NULL {
      UntilNullPrefix(order[1..]);
    }
  }

  lemma BlankWellFormed(size: nat, hash: Key -> nat)
    requires size > 0
    ensures WellFormed(Blank(size), hash)
  {
  }

  /** What a rehash keeps: the entries before the first NULL, in order. */
  lemma RehashKeeps(t: Table, hash: Key -> nat, n: nat)
    requires WellFormed(t, hash)
    ensures WellFormed(Rehash(t, hash, n), hash)
    ensures |Rehash(t, hash, n).buckets| == RoundUp(n, 1)
    ensures Rehash(t, hash, n).order == UntilNull(t.order)
  {
    hide PlaceAll, UntilNull, RoundUp, NoDup;
    var kept := UntilNull(t.order);
    KeptNoDup(t, hash);
    BlankWellFormed(RoundUp(n, 1), hash);
    assert Create(n).order + kept == kept;
    PlaceAllOrder(Create(n), hash, kept);
  }

  lemma KeptNoDup(t: Table, hash: Key -> nat)
    requires WellFormed(t, hash)
    ensures NoDup(KeysOf(UntilNull(t.order)))
  {
    UntilNullPrefix(t.order);
    var kept := UntilNull(t.order);
    assert KeysOf(kept) == KeysOf(t.order)[..|kept|];
  }

  /** Rehashing retains all elements exactly when no stored data is NULL. */
  lemma RehashRetainsExactly(t: Table, hash: Key -> nat, n: nat)
    requires WellFormed(t, hash)
    ensures Rehash(t, hash, n).order == t.order <==> NoNulls(t.order)
  {
    RehashKeeps(t, hash, n);
    UntilNullPrefix(t.order);
  }

  /** A rehash brings no key in. */
  lemma RehashHas(t: Table, hash: Key -> nat, n: nat, k: Key)
    requires WellFormed(t, hash) && !Has(t, k)
    ensures !Has(Rehash(t, hash, n), k)
  {
    RehashKeeps(t, hash, n);
    UntilNullPrefix(t.order);
    var kept := UntilNull(t.order);
    assert KeysOf(kept) == KeysOf(t.order)[..|kept|];
  }

  lemma InsertWellFormed(t: Table, hash: Key -> nat, k: Key, v: Ptr)
    requires WellFormed(t, hash)
    ensures WellFormed(Insert(t, hash, k, v).0, hash)
  {
    hide WellFormed, Placed, Rehash, Has, UntilNull, RoundUp;
    NotEmpty(t, hash);
    if !Has(t, k) {
      RehashKeeps(t, hash, 2 * |t.buckets|);
      RehashHas(t, hash, 2 * |t.buckets|, k);
      PlacedWellFormed(Roomier(t, hash), hash, k, v);
    }
  }
}
