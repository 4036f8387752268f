/** The entries that stand for the keys of a table, and how they change with it. */
module GhtNodes {
  import opened Sequences
  import opened GhtSpec
  import opened GhtLinks

  // ----- entries and keys -----

  /** The entries that stand for a sequence of keys. */
  ghost function NodesOf(node: map<Key, Entry>, ks: seq<Key>): (s: seq<Entry>)
    requires forall k :: k in ks ==> k in node
    ensures |s| == |ks| && forall i :: 0 <= i < |s| ==> s[i] == node[ks[i]]
    ensures forall e :: e in s ==> e in node.Values
  {
    seq(|ks|, i requires 0 <= i < |ks| => node[ks[i]])
  }

  /** Each entry carries the key it stands for. */
  ghost predicate Keyed(node: map<Key, Entry>) {
    forall k :: k in node ==> node[k].key == k
  }

  /** Every key of the table has an entry. */
  ghost predicate Covers(node: map<Key, Entry>, t: Table) {
    && (forall k :: k in KeysOf(t.order) ==> k in node)
    && (forall b, k :: 0 <= b < |t.buckets| && k in t.buckets[b] ==> k in node)
  }

  ghost function ChainsOf(node: map<Key, Entry>, t: Table): (c: seq<seq<Entry>>)
    requires Covers(node, t)
    ensures |c| == |t.buckets| && forall b :: 0 <= b < |c| ==> c[b] == NodesOf(node, t.buckets[b])
    ensures AllOf(c) <= node.Values
  {
    seq(|t.buckets|, b requires 0 <= b < |t.buckets| => NodesOf(node, t.buckets[b]))
  }

  ghost function AgeOf(node: map<Key, Entry>, t: Table): (s: seq<Entry>)
    requires Covers(node, t)
    ensures |s| == |t.order| && forall i :: 0 <= i < |s| ==> s[i] == node[t.order[i].0]
    ensures forall e :: e in s ==> e in node.Values
  {
    NodesOf(node, KeysOf(t.order))
  }

  /** The data of each pair is in the entry of its key. */
  ghost predicate Holds(node: map<Key, Entry>, order: seq<(Key, Ptr)>)
    reads node.Values`data
  {
    forall i :: 0 <= i < |order| ==> order[i].0 in node && node[order[i].0].data == order[i].1
  }

  lemma HoldsWithout(node: map<Key, Entry>, order: seq<(Key, Ptr)>, i: nat)
    requires i < |order| && Holds(node, order)
    ensures Holds(node, Without(order, i))
  {
  }

  function Lengths(buckets: seq<seq<Key>>): (n: seq<int>)
    ensures |n| == |buckets|
  {
    seq(|buckets|, b requires 0 <= b < |buckets| => |buckets[b]|)
  }

  lemma LengthsUpdate(buckets: seq<seq<Key>>, b: nat, c: seq<Key>)
    requires b < |buckets|
    ensures Lengths(buckets[b := c]) == Lengths(buckets)[b := |c|]
    ensures Lengths(buckets)[b] == |buckets[b]|
  {
  }

  /** Different keys, different entries; and entries of one chain hash to its slot. */
  lemma ChainsAreApart(node: map<Key, Entry>, t: Table, hash: Key -> nat)
    requires WellFormed(t, hash) && Keyed(node) && Covers(node, t)
    ensures Apart(ChainsOf(node, t))
    ensures NoDup(AgeOf(node, t))
  {
    var c := ChainsOf(node, t);
    forall b, e: Entry | 0 <= b < |c| && e in c[b] ensures Slot(hash, e.key, |t.buckets|) == b {
      var i :| 0 <= i < |c[b]| && c[b][i] == e;
      assert t.buckets[b][i] in t.buckets[b];
    }
  }

  lemma NodesTouched(node: map<Key, Entry>, ks: seq<Key>, h: Heuristic, i: nat)
    requires i < |ks| && NoDup(ks) && forall k :: k in ks ==> k in node
    ensures forall k :: k in Touch(h, ks, i) ==> k in node
    ensures NodesOf(node, Touch(h, ks, i)) == Touch(h, NodesOf(node, ks), i)
  {
    TouchMembers(h, ks, i);
    var s := NodesOf(node, ks);
    match h
    case NoHeuristic =>
    case MoveToFront => assert NodesOf(node, Fronted(ks, i)) == Fronted(s, i);
    case Transpose => assert NodesOf(node, Swapped(ks, i)) == Swapped(s, i);
  }

  lemma NodesWithout(node: map<Key, Entry>, ks: seq<Key>, i: nat)
    requires i < |ks| && NoDup(ks) && forall k :: k in ks ==> k in node
    ensures forall k :: k in Without(ks, i) ==> k in node
    ensures NodesOf(node, Without(ks, i)) == Without(NodesOf(node, ks), i)
  {
    WithoutMembers(ks, i);
  }

  /** Entries of the table after a search. */
  lemma SearchedNodes(node: map<Key, Entry>, t: Table, hash: Key -> nat, k: Key, h: Heuristic)
    requires WellFormed(t, hash) && Covers(node, t)
    ensures var t' := SearchedWith(t, hash, k, h);
            var b := Slot(hash, k, |t.buckets|);
            var i := Find(t.buckets[b], k);
            && WellFormed(t', hash) && Covers(node, t') && AgeOf(node, t') == AgeOf(node, t)
            && |t'.buckets| == |t.buckets| && t' == t.(buckets := t'.buckets)
            && Lengths(t'.buckets) == Lengths(t.buckets)
            && (i < |t.buckets[b]| ==>
                  ChainsOf(node, t') == ChainsOf(node, t)[b := Touch(h, ChainsOf(node, t)[b], i)])
  {
    var b := Slot(hash, k, |t.buckets|);
    var i := Find(t.buckets[b], k);
    SearchedWithWellFormed(t, hash, k, h);
    if i < |t.buckets[b]| {
      hide Touch, WellFormed;
      NodesTouchedIn(node, t, hash, b, h, i);
      var t' := SearchedWith(t, hash, k, h);
      assert ChainsOf(node, t') == ChainsOf(node, t)[b := Touch(h, ChainsOf(node, t)[b], i)];
    }
  }

  lemma NodesTouchedIn(node: map<Key, Entry>, t: Table, hash: Key -> nat, b: nat, h: Heuristic, i: nat)
    requires WellFormed(t, hash) && Covers(node, t) && b < |t.buckets| && i < |t.buckets[b]|
    ensures forall k :: k in Touch(h, t.buckets[b], i) ==> k in node
    ensures NodesOf(node, Touch(h, t.buckets[b], i)) == Touch(h, NodesOf(node, t.buckets[b]), i)
  {
    NodesTouched(node, t.buckets[b], h, i);
  }

  lemma ReplaceFound(t: Table, hash: Key -> nat, k: Key, v: Ptr)
    requires |t.buckets| > 0
    ensures var s := SearchedWith(t, hash, k, t.heuristic);
            Replace(t, hash, k, v) ==
            if Has(t, k) then (s.(order := t.order[Find(KeysOf(t.order), k) := (k, v)]), DataOf(t.order,
                k)) else (s, NULL)
  {
  }

  /** The entry of a key that is present, and that it is nobody else's. */
  lemma FoundNode(node: map<Key, Entry>, t: Table, hash: Key -> nat, k: Key)
    requires WellFormed(t, hash) && Covers(node, t) && Keyed(node) && Has(t, k)
    ensures k in node
    ensures var i := Find(KeysOf(t.order), k);
            && i < |t.order| && t.order[i].0 == k && DataOf(t.order, k) == t.order[i].1
            && AgeOf(node, t)[i] == node[k]
            && (forall j :: 0 <= j < |t.order| && j != i ==> node[t.order[j].0] != node[k])
  {
    var i := Find(KeysOf(t.order), k);
    forall j | 0 <= j < |t.order| && j != i ensures node[t.order[j].0] != node[k] {
      assert KeysOf(t.order)[j] != KeysOf(t.order)[i];
    }
  }

  lemma OverwrittenNodes(node: map<Key, Entry>, t: Table, hash: Key -> nat, k: Key, v: Ptr)
    requires WellFormed(t, hash) && Covers(node, t) && Has(t, k)
    ensures var t' := t.(order := t.order[Find(KeysOf(t.order), k) := (k, v)]);
            && WellFormed(t', hash) && Covers(node, t')
            && AgeOf(node, t') == AgeOf(node, t) && ChainsOf(node, t') == ChainsOf(node, t)
  {
    var i := Find(KeysOf(t.order), k);
    assert KeysOf(t.order[i := (k, v)]) == KeysOf(t.order);
  }

  lemma NoHeuristicNoChange(t: Table, hash: Key -> nat, k: Key)
    requires |t.buckets| > 0
    ensures SearchedWith(t, hash, k, NoHeuristic) == t
  {
    var b := Slot(hash, k, |t.buckets|);
    assert t.buckets[b := t.buckets[b]] == t.buckets;
  }

  lemma NothingToDrop(t: Table, hash: Key -> nat, k: Key)
    requires |t.buckets| > 0 && !Has(t, k)
    ensures Remove(t, hash, k) == (t, NULL)
  {
  }

  /** Entries of the table without k. */
  lemma DroppedNodes(node: map<Key, Entry>, t: Table, hash: Key -> nat, k: Key)
    requires WellFormed(t, hash) && Covers(node, t) && Has(t, k)
    ensures var t' := Dropped(t, hash, k);
            var b := Slot(hash, k, |t.buckets|);
            var i, j := Find(KeysOf(t.order), k), Find(t.buckets[b], k);
            && WellFormed(t', hash) && Covers(node, t') && |t'.buckets| == |t.buckets|
            && i < |t.order| && j < |t.buckets[b]|
            && t' == t.(buckets := t'.buckets, order := Without(t.order, i))
            && t'.buckets == t.buckets[b := Without(t.buckets[b], j)]
            && |t'.order| == |t.order| - 1 && |t'.buckets[b]| == |t.buckets[b]| - 1
            && AgeOf(node, t)[i] == node[k] && ChainsOf(node, t)[b][j] == node[k]
            && AgeOf(node, t') == Without(AgeOf(node, t), i)
            && ChainsOf(node, t') == ChainsOf(node, t)[b := Without(ChainsOf(node, t)[b], j)]
  {
    DroppedWellFormed(t, hash, k);
    FoundInChain(t, hash, k);
    var b := Slot(hash, k, |t.buckets|);
    var i, j := Find(KeysOf(t.order), k), Find(t.buckets[b], k);
    NodesWithoutIn(node, t, hash, b, j);
    hide WellFormed, Find, Without, KeysOf, Dropped;
    NodesWithout(node, KeysOf(t.order), i);
    ChainsUpdate(node, t, Dropped(t, hash, k), b, Without(t.buckets[b], j));
  }

  /** Replacing one chain. */
  lemma ChainsUpdate(node: map<Key, Entry>, t: Table, t': Table, b: nat, c: seq<Key>)
    requires Covers(node, t) && b < |t.buckets| && t'.buckets == t.buckets[b := c]
    requires (forall k :: k in c ==> k in node) && (forall k :: k in KeysOf(t'.order) ==> k in node)
    ensures Covers(node, t') && ChainsOf(node, t') == ChainsOf(node, t)[b := NodesOf(node, c)]
  {
  }

  lemma NodesWithoutIn(node: map<Key, Entry>, t: Table, hash: Key -> nat, b: nat, j: nat)
    requires WellFormed(t, hash) && Covers(node, t) && b < |t.buckets| && j < |t.buckets[b]|
    ensures forall k :: k in Without(t.buckets[b], j) ==> k in node
    ensures NodesOf(node, Without(t.buckets[b], j)) == Without(NodesOf(node, t.buckets[b]), j)
  {
    NodesWithout(node, t.buckets[b], j);
  }

  /** A new entry in front of a chain and at the end of the age list. */
  lemma LinkedNodes(node: map<Key, Entry>, t: Table, hash: Key -> nat, k: Key, v: Ptr, e: Entry)
    requires WellFormed(t, hash) && Covers(node, t) && !Has(t, k)
    ensures var t' := Linked(t, hash, k, v);
            var b := Slot(hash, k, |t.buckets|);
            var node' := node[k := e];
            && WellFormed(t', hash) && Covers(node', t') && |t'.buckets| == |t.buckets| && |t'.order| == |t.order| + 1
            && t' == t.(buckets := t'.buckets, order := t'.order)
            && t'.buckets == t.buckets[b := [k] + t.buckets[b]] && t'.order == t.order + [(k, v)]
            && AgeOf(node', t') == AgeOf(node, t) + [e]
            && ChainsOf(node', t') == ChainsOf(node, t)[b := [e] + ChainsOf(node, t)[b]]
  {
    LinkedWellFormed(t, hash, k, v);
    var t' := Linked(t, hash, k, v);
    var b := Slot(hash, k, |t.buckets|);
    var node' := node[k := e];
    AbsentFromChains(t, hash, k);
    hide WellFormed, NoDup;
    assert Covers(node', t');
    assert AgeOf(node', t') == AgeOf(node, t) + [e];
    forall c | 0 <= c < |t.buckets|
      ensures ChainsOf(node', t')[c] == ChainsOf(node, t)[b := [e] + ChainsOf(node, t)[b]][c]
    {
      NodesWithMore(node, t.buckets[c], k, e);
    }
  }

  lemma NodesWithMore(node: map<Key, Entry>, ks: seq<Key>, k: Key, e: Entry)
    requires k !in ks && forall x :: x in ks ==> x in node
    ensures NodesOf(node[k := e], ks) == NodesOf(node, ks)
    ensures NodesOf(node[k := e], [k] + ks) == [e] + NodesOf(node, ks)
  {
  }

  lemma AbsentFromChains(t: Table, hash: Key -> nat, k: Key)
    requires WellFormed(t, hash) && !Has(t, k)
    ensures forall b :: 0 <= b < |t.buckets| ==> k !in t.buckets[b]
    ensures forall i :: 0 <= i < |t.order| ==> t.order[i].0 != k
  {
    forall i | 0 <= i < |t.order| ensures t.order[i].0 != k {
      assert KeysOf(t.order)[i] in KeysOf(t.order);
    }
  }

  /** The entry that a full chain loses. */
  lemma VictimNodes(node: map<Key, Entry>, t: Table, hash: Key -> nat, k: Key)
    requires WellFormed(t, hash) && Covers(node, t) && Victim(t, hash, k) != []
    ensures var out := Victim(t, hash, k)[0];
            var b := Slot(hash, k, |t.buckets|);
            && Has(t, out) && b == Slot(hash, out, |t.buckets|) && t.buckets[b] != []
            && Find(t.buckets[b], out) == |t.buckets[b]| - 1
            && Evicted(t, hash, k) == Dropped(t, hash, out)
  {
    VictimPresent(t, hash, k);
    LastIsFound(t.buckets[Slot(hash, k, |t.buckets|)]);
  }

  /** The entries of the table once a full chain has lost its last one, and with e in front of it. */
  lemma EvictedNodes(node: map<Key, Entry>, t: Table, hash: Key -> nat, k: Key, e: Entry)
    requires WellFormed(t, hash) && Covers(node, t) && Victim(t, hash, k) != []
    ensures var t1 := Evicted(t, hash, k);
            var b := Slot(hash, k, |t.buckets|);
            var c := ChainsOf(node, t);
            var i := Find(KeysOf(t.order), Victim(t, hash, k)[0]);
            && WellFormed(t1, hash) && Covers(node, t1) && |t1.buckets| == |t.buckets|
            && c[b] != [] && i < |t.order| && AgeOf(node, t)[i] == c[b][|c[b]| - 1]
            && AgeOf(node, t1) == Without(AgeOf(node, t), i)
            && t1.order == Without(t.order, i) && |t1.order| == |t.order| - 1
            && ChainsOf(node, t1)[b := [e] + ChainsOf(node, t1)[b]] == c[b := [e] + Without(c[b], |c[b]| - 1)]
            && Lengths(t1.buckets) == Lengths(t.buckets)[b := |t.buckets[b]| - 1]
  {
    hide WellFormed, NoDup, Dropped, Evicted, Victim, KeysOf, Find;
    NotEmpty(t, hash);
    VictimNodes(node, t, hash, k);
    DroppedNodes(node, t, hash, Victim(t, hash, k)[0]);
    var t1 := Evicted(t, hash, k);
    var b := Slot(hash, k, |t.buckets|);
    var c := ChainsOf(node, t);
    LengthsUpdate(t.buckets, b, t1.buckets[b]);
    assert ChainsOf(node, t1)[b := [e] + ChainsOf(node, t1)[b]] == c[b := [e] + Without(c[b], |c[b]| - 1)];
  }

  lemma NothingEvicted(t: Table, hash: Key -> nat, k: Key)
    requires WellFormed(t, hash)
    ensures t.limit != 0 && |t.buckets[Slot(hash, k, |t.buckets|)]| >= t.limit <==> Victim(t, hash, k) != []
    ensures Victim(t, hash, k) == [] ==> Evicted(t, hash, k) == t
  {
  }

  /** An insert that evicts leaves the counts as they are. */
  lemma EvictedLengths(t: Table, hash: Key -> nat, k: Key, b: nat)
    requires WellFormed(t, hash) && b == Slot(hash, k, |t.buckets|) && Victim(t, hash, k) != []
    ensures var t1 := Evicted(t, hash, k);
            |t1.buckets| == |t.buckets| && Lengths(t1.buckets[b := [k] + t1.buckets[b]]) == Lengths(t.buckets)
  {
    VictimPresent(t, hash, k);
    FoundInChain(t, hash, Victim(t, hash, k)[0]);
    DroppedWellFormed(t, hash, Victim(t, hash, k)[0]);
  }

  /** An eviction does not bring the new key in. */
  lemma EvictedLacks(t: Table, hash: Key -> nat, k: Key)
    requires WellFormed(t, hash) && !Has(t, k)
    ensures WellFormed(Evicted(t, hash, k), hash) && !Has(Evicted(t, hash, k), k)
  {
    if Victim(t, hash, k) != [] { DroppedWellFormed(t, hash, Victim(t, hash, k)[0]); }
  }

  /** The entries of the table after an insert. */
  lemma PlacedNodes(node: map<Key, Entry>, t: Table, hash: Key -> nat, k: Key, v: Ptr, e: Entry)
    requires WellFormed(t, hash) && Covers(node, t) && Covers(node, Evicted(t, hash, k)) && !Has(t, k)
    ensures var t1, t' := Evicted(t, hash, k), Placed(t, hash, k, v);
            var b := Slot(hash, k, |t.buckets|);
            var node' := node[k := e];
            && WellFormed(t1, hash) && WellFormed(t', hash) && Covers(node', t')
            && |t1.buckets| == |t.buckets| && |t'.order| == |t1.order| + 1
            && t' == t.(buckets := t'.buckets, order := t'.order)
            && t'.buckets == t1.buckets[b := [k] + t1.buckets[b]] && t'.order == t1.order + [(k, v)]
            && AgeOf(node', t') == AgeOf(node, t1) + [e]
            && ChainsOf(node', t') == ChainsOf(node, t1)[b := [e] + ChainsOf(node, t1)[b]]
            && AllOf(ChainsOf(node', t')) == AllOf(ChainsOf(node, t1)) + {e}
  {
    var t1 := Evicted(t, hash, k);
    EvictedLacks(t, hash, k);
    EvictedSettings(t, hash, k);
    hide WellFormed, KeysOf, Evicted, Linked, AllOf;
    LinkedNodes(node, t1, hash, k, v, e);
    PushedEntries(ChainsOf(node, t1), Slot(hash, k, |t.buckets|), e);
  }

  lemma EvictedSettings(t: Table, hash: Key -> nat, k: Key)
    requires |t.buckets| > 0
    ensures var t1 := Evicted(t, hash, k);
            |t1.buckets| == |t.buckets| && t1 == t.(buckets := t1.buckets, order := t1.order)
  {
  }

  lemma HoldsAppend(node: map<Key, Entry>, order: seq<(Key, Ptr)>, k: Key, v: Ptr, e: Entry)
    requires Holds(node, order) && e.data == v && forall i :: 0 <= i < |order| ==> order[i].0 != k
    ensures Holds(node[k := e], order + [(k, v)])
  {
  }

  lemma EvictedKeeps(node: map<Key, Entry>, t: Table, hash: Key -> nat, k: Key)
    requires WellFormed(t, hash) && Covers(node, t)
    ensures Covers(node, Evicted(t, hash, k))
  {
    if Victim(t, hash, k) != [] {
      VictimPresent(t, hash, k);
      DroppedNodes(node, t, hash, Victim(t, hash, k)[0]);
    }
  }

  /** The data after an insert. */
  lemma HoldsPlaced(node: map<Key, Entry>, t: Table, hash: Key -> nat, k: Key, v: Ptr, e: Entry)
    requires WellFormed(t, hash) && Covers(node, t) && Holds(node, t.order) && !Has(t, k) && e.data == v
    ensures Holds(node[k := e], Placed(t, hash, k, v).order)
  {
    var t1 := Evicted(t, hash, k);
    EvictedLacks(t, hash, k);
    AbsentFromChains(t1, hash, k);
    if Victim(t, hash, k) != [] {
      EvictedNodes(node, t, hash, k, e);
      HoldsWithout(node, t.order, Find(KeysOf(t.order), Victim(t, hash, k)[0]));
    }
    HoldsAppend(node, t1.order, k, v, e);
  }

  /** A new table has no entries. */
  lemma BlankLists(size: nat)
    ensures Covers(map[], Blank(size))
    ensures forall b :: 0 <= b < size ==> ChainsOf(map[], Blank(size))[b] == [] && Lengths(Blank(size).buckets)[b] == 0
  {
  }

  lemma DroppedOrder(t: Table, hash: Key -> nat, k: Key)
    requires WellFormed(t, hash)
    ensures var i := Find(KeysOf(t.order), k);
            Dropped(t, hash, k).order == if i < |t.order| then Without(t.order, i) else t.order
  {
  }

  /** Removing a key that is not in the end of the age list leaves that end. */
  lemma RestStays(t: Table, hash: Key -> nat, k: Key, rest: seq<(Key, Ptr)>)
    requires WellFormed(t, hash) && |rest| <= |t.order| && rest == t.order[|t.order| - |rest|..] && k !in KeysOf(rest)
    ensures var o := Dropped(t, hash, k).order;
            |rest| <= |o| && rest == o[|o| - |rest|..]
  {
    hide WellFormed, Dropped, KeysOf, Find, Without;
    var i, p := Find(KeysOf(t.order), k), |t.order| - |rest|;
    DroppedOrder(t, hash, k);
    if i < |t.order| {
      FoundBefore(t.order, k, p);
      SuffixStays(t.order, i, p);
    }
  }

  lemma FoundBefore(order: seq<(Key, Ptr)>, k: Key, p: nat)
    requires p <= |order| && k in KeysOf(order) && k !in KeysOf(order[p..])
    ensures Find(KeysOf(order), k) < p
  {
    var i := Find(KeysOf(order), k);
    assert forall j :: p <= j < |order| ==> KeysOf(order[p..])[j - p] == KeysOf(order)[j];
  }

  lemma SuffixStays<T>(s: seq<T>, i: nat, p: nat)
    requires i < p <= |s|
    ensures |Without(s, i)| == |s| - 1 && Without(s, i)[p - 1..] == s[p..]
  {
  }

  /** The keys that the first n steps of a removal plan take out. */
  ghost predicate Planned(plan: nat -> seq<Key>, n: nat, k: Key) {
    exists i: nat :: i < n && k in plan(i)
  }

  /** Step i of the plan removes only entries that an iteration over all has reached by then. */
  ghost predicate PassedOnly(plan: nat -> seq<Key>, all: seq<(Key, Ptr)>) {
    forall i, k :: 0 <= i < |all| && k in plan(i) ==> k !in KeysOf(all[i + 1..])
  }

  lemma PassedKeys(plan: nat -> seq<Key>, all: seq<(Key, Ptr)>, n: nat)
    requires PassedOnly(plan, all) && n < |all|
    ensures forall k :: k in plan(n) ==> k !in KeysOf(all[n + 1..])
  {
  }

  lemma NothingPlanned(plan: nat -> seq<Key>)
    ensures forall k :: !Planned(plan, 0, k)
  {
  }

  lemma PlannedNext(plan: nat -> seq<Key>, n: nat)
    ensures forall k :: Planned(plan, n + 1, k) <==> Planned(plan, n, k) || k in plan(n)
  {
  }

  lemma DroppedHas(t: Table, hash: Key -> nat, k: Key)
    requires WellFormed(t, hash)
    ensures forall x :: Has(Dropped(t, hash, k), x) <==> Has(t, x) && x != k
  {
    DroppedWellFormed(t, hash, k);
  }

  /** What is left of an iteration that has come to the entry at n. */
  ghost function Rest(all: seq<(Key, Ptr)>, n: nat): seq<(Key, Ptr)> {
    if n < |all| then all[n + 1..] else []
  }

  /** An iteration over all has visited these, and now has this data. */
  ghost predicate Upto(all: seq<(Key, Ptr)>, visited: seq<(Key, Ptr)>, data: Ptr) {
    && visited <= all && (forall i :: 0 <= i < |visited| ==> all[i].1 != NULL)
    && data == if |visited| < |all| then all[|visited|].1 else NULL
  }

  lemma AtStart(all: seq<(Key, Ptr)>)
    ensures Upto(all, [], if all == [] then NULL else all[0].1)
    ensures Rest(all, 0) == if all == [] then [] else all[1..]
  {
  }

  lemma UptoNext(all: seq<(Key, Ptr)>, visited: seq<(Key, Ptr)>, data: Ptr)
    requires Upto(all, visited, data) && data != NULL
    ensures var n := |visited|;
            var rest := Rest(all, n);
            && n < |all| && rest == all[n + 1..] && all[n].1 == data
            && Upto(all, visited + [(all[n].0, data)], if rest == [] then NULL else rest[0].1)
            && Rest(all, n + 1) == (if rest == [] then [] else rest[1..])
            && (rest == [] <==> n + 1 == |all|) && (rest != [] ==> rest[0] == all[n + 1])
  {
  }

  lemma {:induction false} StopsAtNull(all: seq<(Key, Ptr)>, visited: seq<(Key, Ptr)>, data: Ptr)
    requires Upto(all, visited, data) && data == NULL
    ensures visited == UntilNull(all)
  {
    UntilNullPrefix(all);
  }

  lemma UptoPrefix(all: seq<(Key, Ptr)>, visited: seq<(Key, Ptr)>, data: Ptr)
    requires Upto(all, visited, data)
    ensures |visited| <= |all| && visited == all[..|visited|]
    ensures |visited| < |all| ==> all[..|visited| + 1] == visited + [all[|visited|]]
  {
  }

  /** The entry an iteration comes to is not among those that follow. */
  lemma CurrentIsFirst(all: seq<(Key, Ptr)>, n: nat)
    requires NoDup(KeysOf(all)) && n < |all|
    ensures all[n].0 !in KeysOf(all[n + 1..])
  {
    assert KeysOf(all[n + 1..]) == KeysOf(all)[n + 1..];
  }

  lemma NoneVisited(t: Table, hash: Key -> nat)
    requires WellFormed(t, hash)
    ensures NoDup(KeysOf(t.order)) && Unvisited(t, t.order, [])
  {
  }

  /** A table that has lost every key has no entries. */
  lemma AllVisited(t: Table, all: seq<(Key, Ptr)>)
    requires Unvisited(t, all, UntilNull(all))
    ensures NoNulls(all) ==> t.order == [] && forall x :: !Has(t, x)
  {
    UntilNullPrefix(all);
    if t.order != [] { assert KeysOf(t.order)[0] == t.order[0].0 && Has(t, t.order[0].0); }
  }

  lemma PlaceNone(t: Table, hash: Key -> nat)
    requires WellFormed(t, hash)
    ensures |t.buckets| > 0 && PlaceAll(t, hash, []) == t
  {
  }

  /** The first n entries of a table, and the one after them. */
  lemma FirstEntries(t: Table, hash: Key -> nat, n: nat)
    requires WellFormed(t, hash) && n < |t.order|
    ensures NoDup(KeysOf([] + t.order[..n])) && t.order[n].0 !in KeysOf(t.order[..n])
    ensures t.order[..n + 1] != [] && t.order[..n + 1][..n] == t.order[..n] && t.order[..n + 1][n] == t.order[n]
    ensures [] + t.order[..n] == t.order[..n]
  {
    assert [] + t.order[..n] == t.order[..n];
    assert KeysOf(t.order[..n]) == KeysOf(t.order)[..n];
    assert KeysOf(t.order)[n] == t.order[n].0;
  }

  /** One more entry of t into a new table. */
  lemma PlaceOneMore(t0: Table, hash: Key -> nat, t: Table, n: nat)
    requires WellFormed(t0, hash) && t0.order == [] && t0.limit == 0 && !t0.autoRehash
    requires WellFormed(t, hash) && n < |t.order|
    ensures |t0.buckets| > 0
    ensures var t1 := PlaceAll(t0, hash, t.order[..n]);
            Insert(t1, hash, t.order[n].0, t.order[n].1) == (PlaceAll(t0, hash, t.order[..n + 1]), 0)
  {
    hide WellFormed, NoDup, KeysOf, Placed, PlaceAll, Rehash;
    NotEmpty(t0, hash);
    FirstEntries(t, hash, n);
    PlaceAllOrder(t0, hash, t.order[..n]);
    PlaceAllLast(t0, hash, t.order[..n + 1]);
  }

  /** Entries of all that are still in t have not been visited. */
  ghost predicate Unvisited(t: Table, all: seq<(Key, Ptr)>, visited: seq<(Key, Ptr)>) {
    forall x :: Has(t, x) ==> x in KeysOf(all) && x !in KeysOf(visited)
  }

  lemma UnvisitedNext(t: Table, t': Table, all: seq<(Key, Ptr)>, visited: seq<(Key, Ptr)>, k: Key, data: Ptr)
    requires Unvisited(t, all, visited) && forall x :: Has(t', x) <==> Has(t, x) && x != k
    ensures Unvisited(t', all, visited + [(k, data)])
  {
    assert KeysOf(visited + [(k, data)]) == KeysOf(visited) + [k];
  }

  lemma InsertIs(t: Table, hash: Key -> nat, k: Key, v: Ptr)
    requires |t.buckets| > 0
    ensures |Roomier(t, hash).buckets| > 0
    ensures Insert(t, hash, k, v) == if Has(t, k) then (t, -1) else (Placed(Roomier(t, hash), hash, k, v), 0)
  {
  }

  lemma OneMoreEntry(node: map<Key, Entry>, k: Key, e: Entry)
    ensures node[k := e].Values <= node.Values + {e}
  {
  }

  /** Settings do not matter to the lists. */
  lemma SameLists(node: map<Key, Entry>, t: Table, hash: Key -> nat, t': Table)
    requires WellFormed(t, hash) && Covers(node, t) && t'.buckets == t.buckets && t'.order == t.order
    ensures WellFormed(t', hash) && Covers(node, t')
    ensures AgeOf(node, t') == AgeOf(node, t) && ChainsOf(node, t') == ChainsOf(node, t)
  {
  }

  lemma FirstMatch(ks: seq<Key>, k: Key, i: nat)
    requires i < |ks| && ks[i] == k && k !in ks[..i]
    ensures Find(ks, k) == i
  {
    assert forall j :: 0 <= j < i ==> ks[j] == ks[..i][j];
  }
}
