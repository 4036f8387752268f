/** The two linked lists of libghthash: relinking of entries in their bucket chain and in the age list. */
module GhtLinks {
  import opened Sequences
  import opened GhtSpec

  /** ght_hash_entry_t; the key is copied in when the entry is created. */
  class Entry {
    const key: Key
    var data: Ptr
    var next: Entry?
    var prev: Entry?
    var older: Entry?
    var newer: Entry?

    constructor (key: Key, data: Ptr)
      ensures this.key == key && this.data == data
      ensures next == null && prev == null && older == null && newer == null
    {
      this.key := key;
      this.data := data;
      next, prev, older, newer := null, null, null, null;
    }
  }

  ghost function At(s: seq<Entry>, i: int): Entry? {
    if 0 <= i < |s| then s[i] else null
  }

  /** s is linked by next and prev. */
  ghost predicate IsChain(s: seq<Entry>)
    reads s`next, s`prev
  {
    && NoDup(s)
    && (forall i {:trigger s[i].next} :: 0 <= i < |s| ==> s[i].next == At(s, i + 1))
    && (forall i {:trigger s[i].prev} :: 0 <= i < |s| ==> s[i].prev == At(s, i - 1))
  }

  /** s is linked by newer and older. */
  ghost predicate IsAge(s: seq<Entry>)
    reads s`newer, s`older
  {
    && NoDup(s)
    && (forall i {:trigger s[i].newer} :: 0 <= i < |s| ==> s[i].newer == At(s, i + 1))
    && (forall i {:trigger s[i].older} :: 0 <= i < |s| ==> s[i].older == At(s, i - 1))
  }

  lemma SwappedAt(s: seq<Entry>, i: nat)
    requires 0 < i < |s| && NoDup(s)
    ensures var w := Swapped(s, i);
            && NoDup(w) && |w| == |s| && w[i - 1] == s[i] && w[i] == s[i - 1]
            && (forall j :: 0 <= j < |s| && j != i && j != i - 1 ==> w[j] == s[j])
  {
    SwappedMembers(s, i);
  }

  /** The links after a transposition, entry by entry of the old chain. */
  ghost predicate Transposed(s: seq<Entry>, i: nat)
    requires 0 < i < |s|
    reads s`next, s`prev
  {
    && s[i].next == s[i - 1] && s[i].prev == At(s, i - 2)
    && s[i - 1].next == At(s, i + 1) && s[i - 1].prev == s[i]
    && (i >= 2 ==> s[i - 2].next == s[i])
    && (i + 1 < |s| ==> s[i + 1].prev == s[i - 1])
    && (forall j {:trigger s[j].next} :: 0 <= j < |s| && j != i && j != i - 1 && j != i - 2 ==>
       s[j].next == At(s, j + 1))
    && (forall j {:trigger s[j].prev} :: 0 <= j < |s| && j != i && j != i - 1 && j != i + 1 ==>
       s[j].prev == At(s, j - 1))
  }

  lemma TransposedIsChain(s: seq<Entry>, i: nat)
    requires 0 < i < |s| && NoDup(s) && Transposed(s, i)
    ensures IsChain(Swapped(s, i))
  {
    SwappedAt(s, i);
    var w := Swapped(s, i);
    hide Swapped, NoDup;
    forall j | 0 <= j < |w| ensures w[j].next == At(w, j + 1) {
      if j != i && j != i - 1 { assert w[j] == s[j]; }
    }
    forall j | 0 <= j < |w| ensures w[j].prev == At(w, j - 1) {
      if j != i && j != i - 1 { assert w[j] == s[j]; }
    }
  }

  // ----- bucket chains -----

  /** transpose. */
  method TransposeEntry(entries: array<Entry?>, b: nat, e: Entry, ghost s: seq<Entry>, ghost i: nat)
    requires b < entries.Length && IsChain(s) && i < |s| && s[i] == e && entries[b] == s[0]
    modifies entries, s`next, s`prev
    ensures IsChain(Swapped(s, i))
    ensures entries[..] == old(entries[..])[b := Swapped(s, i)[0]]
  {
    if e.prev != null {
      RelinkTransposed(entries, b, e, s, i);
      TransposedIsChain(s, i);
    }
  }

  method RelinkTransposed(entries: array<Entry?>, b: nat, e: Entry, ghost s: seq<Entry>, ghost i: nat)
    requires b < entries.Length && IsChain(s) && 0 < i < |s| && s[i] == e && entries[b] == s[0]
    modifies entries, s`next, s`prev
    ensures Transposed(s, i)
    ensures entries[..] == old(entries[..])[b := if i == 1 then e else s[0]]
  {
    var x := e.prev;
    var a := x.prev;
    var c := e.next;
    if a != null { a.next := e; } else { entries[b] := e; }
    if c != null { c.prev := x; }
    x.next := e.next;
    x.prev := e;
    e.next := x;
    e.prev := a;
  }

  /** move_to_front. */
  method MoveEntryToFront(entries: array<Entry?>, b: nat, e: Entry, ghost s: seq<Entry>, ghost i: nat)
    requires b < entries.Length && IsChain(s) && i < |s| && s[i] == e && entries[b] == s[0]
    modifies entries, s`next, s`prev
    ensures IsChain(Fronted(s, i))
    ensures entries[..] == old(entries[..])[b := e]
  {
    if e == entries[b] {
      assert i == 0 && Fronted(s, i) == s;
      return;
    }
    UnlinkNonFirst(e, s, i);
    PushFront(entries, b, e, Without(s, i));
    assert Fronted(s, i) == [e] + Without(s, i);
  }

  /** The switch of search_in_bucket. */
  method ApplyToChain(h: Heuristic, entries: array<Entry?>, b: nat, e: Entry, ghost s: seq<Entry>, ghost i: nat)
    requires b < entries.Length && IsChain(s) && i < |s| && s[i] == e && entries[b] == s[0]
    modifies entries, s`next, s`prev
    ensures IsChain(Touch(h, s, i))
    ensures entries[..] == old(entries[..])[b := At(Touch(h, s, i), 0)]
  {
    match h {
      case MoveToFront => MoveEntryToFront(entries, b, e, s, i);
      case Transpose => TransposeEntry(entries, b, e, s, i);
      case NoHeuristic =>
    }
  }

  /** Link an entry that is not the first out of its list. */
  method UnlinkNonFirst(e: Entry, ghost s: seq<Entry>, ghost i: nat)
    requires IsChain(s) && 0 < i < |s| && s[i] == e
    modifies s`next, s`prev
    ensures IsChain(Without(s, i)) && e !in Without(s, i) && Without(s, i)[0] == s[0]
  {
    e.prev.next := e.next;
    if e.next != null { e.next.prev := e.prev; }
    WithoutMembers(s, i);
  }

  /** The chain part of remove_from_chain. */
  method UnlinkFromChain(entries: array<Entry?>, b: nat, e: Entry, ghost s: seq<Entry>, ghost i: nat)
    requires b < entries.Length && IsChain(s) && i < |s| && s[i] == e && entries[b] == s[0]
    modifies entries, s`next, s`prev
    ensures IsChain(Without(s, i))
    ensures entries[..] == old(entries[..])[b := At(Without(s, i), 0)]
  {
    if e.prev != null { e.prev.next := e.next; } else { entries[b] := e.next; }
    if e.next != null { e.next.prev := e.prev; }
    WithoutMembers(s, i);
  }

  /** A new entry first in its chain. */
  method PushFront(entries: array<Entry?>, b: nat, e: Entry, ghost s: seq<Entry>)
    requires b < entries.Length && IsChain(s) && e !in s && entries[b] == At(s, 0)
    modifies entries, s`prev, e`next, e`prev
    ensures IsChain([e] + s)
    ensures entries[..] == old(entries[..])[b := e]
  {
    e.next := entries[b];
    e.prev := null;
    if entries[b] != null { entries[b].prev := e; }
    entries[b] := e;
  }

  /** The loop to the last entry of a chain. */
  method LastEntry(head: Entry, ghost s: seq<Entry>) returns (p: Entry)
    requires IsChain(s) && s != [] && s[0] == head
    ensures p == s[|s| - 1]
  {
    p := head;
    ghost var i := 0;
    while p.next != null
      invariant 0 <= i < |s| && p == s[i]
      decreases |s| - i
    {
      p := p.next;
      i := i + 1;
    }
  }

  // ----- all chains of a table -----

  /** Every head leads to its chain. */
  ghost predicate Chained(entries: array<Entry?>, chains: seq<seq<Entry>>)
    reads entries, AllOf(chains)`next, AllOf(chains)`prev
  {
    |chains| == entries.Length &&
    forall b :: 0 <= b < |chains| ==> entries[b] == At(chains[b], 0) && IsChain(chains[b])
  }

  method TouchChain(h: Heuristic, entries: array<Entry?>, b: nat, e: Entry, ghost chains: seq<seq<Entry>>, ghost i: nat)
    requires Chained(entries, chains) && Apart(chains) && b < |chains| && i < |chains[b]| && chains[b][i] == e
    modifies entries, chains[b]`next, chains[b]`prev
    ensures Chained(entries, chains[b := Touch(h, chains[b], i)])
  {
    hide Touch;
    ApplyToChain(h, entries, b, e, chains[b], i);
    forall c | 0 <= c < |chains| && c != b ensures IsChain(chains[c]) {
      assert old(IsChain(chains[c]));
      forall j | 0 <= j < |chains[c]|
        ensures chains[c][j].next == old(chains[c][j].next) && chains[c][j].prev == old(chains[c][j].prev)
      {
        assert chains[c][j] in chains[c];
      }
    }
  }

  method UnlinkFromChains(entries: array<Entry?>, b: nat, e: Entry, ghost chains: seq<seq<Entry>>, ghost i: nat)
    requires Chained(entries, chains) && Apart(chains) && b < |chains| && i < |chains[b]| && chains[b][i] == e
    modifies entries, chains[b]`next, chains[b]`prev
    ensures Chained(entries, chains[b := Without(chains[b], i)])
    ensures e !in AllOf(chains[b := Without(chains[b], i)])
  {
    assert NoDup(chains[b]) && e in chains[b];
    WithoutMembers(chains[b], i);
    hide Without;
    UnlinkFromChain(entries, b, e, chains[b], i);
    forall c | 0 <= c < |chains| && c != b ensures IsChain(chains[c]) {
      assert old(IsChain(chains[c]));
      forall j | 0 <= j < |chains[c]|
        ensures chains[c][j].next == old(chains[c][j].next) && chains[c][j].prev == old(chains[c][j].prev)
      {
        assert chains[c][j] in chains[c];
      }
    }
  }

  /** he_finalize, and the same before it: an entry on no list loses its links. */
  method ClearLinks(e: Entry, entries: array<Entry?>, ghost chains: seq<seq<Entry>>, ghost age: seq<Entry>)
    requires Chained(entries, chains) && e !in AllOf(chains) && IsAge(age) && e !in age
    modifies e`next, e`prev, e`older, e`newer
    ensures Chained(entries, chains) && IsAge(age)
  {
    e.next := null;
    e.prev := null;
    e.older := null;
    e.newer := null;
  }

  method PushOnChains(entries: array<Entry?>, b: nat, e: Entry, ghost chains: seq<seq<Entry>>)
    requires Chained(entries, chains) && Apart(chains) && b < |chains| && e !in AllOf(chains)
    modifies entries, chains[b]`prev, e`next, e`prev
    ensures Chained(entries, chains[b := [e] + chains[b]])
  {
    PushFront(entries, b, e, chains[b]);
    forall c | 0 <= c < |chains| && c != b ensures IsChain(chains[c]) {
      assert old(IsChain(chains[c]));
      forall j | 0 <= j < |chains[c]|
        ensures chains[c][j].next == old(chains[c][j].next) && chains[c][j].prev == old(chains[c][j].prev)
      {
        assert chains[c][j] in chains[c];
      }
    }
  }

  // ----- the age list -----

  /** The age part of remove_from_chain; returns the new ends. */
  method UnlinkFromAge(e: Entry, oldest: Entry?, newest: Entry?, ghost s: seq<Entry>, ghost i: nat)
    returns (oldest': Entry?, newest': Entry?)
    requires IsAge(s) && i < |s| && s[i] == e && oldest == s[0] && newest == s[|s| - 1]
    modifies s`newer, s`older
    ensures IsAge(Without(s, i)) && e !in Without(s, i)
    ensures oldest' == At(Without(s, i), 0) && newest' == At(Without(s, i), |s| - 2)
  {
    oldest', newest' := oldest, newest;
    if e.older != null { e.older.newer := e.newer; } else { oldest' := e.newer; }
    if e.newer != null { e.newer.older := e.older; } else { newest' := e.older; }
    WithoutMembers(s, i);
  }

  /** remove_from_chain: out of its chain, then out of the age list; returns the new ends. */
  method UnlinkEntry(entries: array<Entry?>, b: nat, e: Entry, ghost chains: seq<seq<Entry>>, ghost j: nat,
                     oldest: Entry?, newest: Entry?, ghost s: seq<Entry>, ghost i: nat)
    returns (oldest': Entry?, newest': Entry?)
    requires Chained(entries, chains) && Apart(chains) && b < |chains| && j < |chains[b]| && chains[b][j] == e
    requires IsAge(s) && i < |s| && s[i] == e && oldest == s[0] && newest == s[|s| - 1]
    modifies entries, chains[b]`next, chains[b]`prev, s`newer, s`older
    ensures Chained(entries, chains[b := Without(chains[b], j)]) && e !in AllOf(chains[b := Without(chains[b], j)])
    ensures IsAge(Without(s, i)) && e !in Without(s, i)
    ensures oldest' == At(Without(s, i), 0) && newest' == At(Without(s, i), |s| - 2)
  {
    hide Without, NoDup, Apart, AllOf;
    UnlinkFromChains(entries, b, e, chains, j);
    ghost var chains' := chains[b := Without(chains[b], j)];
    label L:
    oldest', newest' := UnlinkFromAge(e, oldest, newest, s, i);
    forall c | 0 <= c < |chains'| ensures entries[c] == At(chains'[c], 0) && IsChain(chains'[c]) {
      assert old@L(IsChain(chains'[c]));
    }
  }

  /** The links of ght_remove: out of both lists, and cleared. */
  method DetachEntry(entries: array<Entry?>, b: nat, e: Entry, ghost chains: seq<seq<Entry>>, ghost j: nat,
                     oldest: Entry?, newest: Entry?, ghost s: seq<Entry>, ghost i: nat)
    returns (oldest': Entry?, newest': Entry?)
    requires Chained(entries, chains) && Apart(chains) && b < |chains| && j < |chains[b]| && chains[b][j] == e
    requires IsAge(s) && i < |s| && s[i] == e && oldest == s[0] && newest == s[|s| - 1]
    modifies entries, chains[b]`next, chains[b]`prev, s`newer, s`older
    ensures Chained(entries, chains[b := Without(chains[b], j)]) && IsAge(Without(s, i))
    ensures oldest' == At(Without(s, i), 0) && newest' == At(Without(s, i), |s| - 2)
  {
    hide Without, NoDup, Apart, AllOf, Chained, IsAge, At;
    oldest', newest' := UnlinkEntry(entries, b, e, chains, j, oldest, newest, s, i);
    ClearLinks(e, entries, chains[b := Without(chains[b], j)], Without(s, i));
  }

  lemma PushedApart(chains: seq<seq<Entry>>, b: nat, e: Entry)
    requires Apart(chains) && b < |chains| && e !in AllOf(chains)
    ensures Apart(chains[b := [e] + chains[b]])
  {
    var c' := chains[b := [e] + chains[b]];
    forall x, y, z | 0 <= x < |c'| && 0 <= y < |c'| && x != y && z in c'[x] ensures z !in c'[y] {
      if x == b {
        if z != e { assert z in chains[b]; }
      } else {
        assert z in chains[x];
      }
    }
  }

  lemma PushedEntries(chains: seq<seq<Entry>>, b: nat, e: Entry)
    requires b < |chains|
    ensures AllOf(chains[b := [e] + chains[b]]) == AllOf(chains) + {e}
  {
    var c' := chains[b := [e] + chains[b]];
    assert e in c'[b];
    forall x | x in AllOf(c') ensures x in AllOf(chains) + {e} {
      var c :| 0 <= c < |c'| && x in c'[c];
      if x != e { assert x in chains[c]; }
    }
    forall x | x in AllOf(chains) ensures x in AllOf(c') {
      var c :| 0 <= c < |chains| && x in chains[c];
      assert x in c'[c];
    }
  }

  /** A new entry first in a full chain, and the last one of that chain out of both lists. */
  method PushAndEvict(entries: array<Entry?>, b: nat, e: Entry, ghost chains: seq<seq<Entry>>,
                      oldest: Entry?, newest: Entry?, ghost s: seq<Entry>, ghost i: nat)
    returns (oldest': Entry?, newest': Entry?)
    requires Chained(entries, chains) && Apart(chains) && b < |chains| && chains[b] != [] && e !in AllOf(chains)
    requires IsAge(s) && i < |s| && s[i] == chains[b][|chains[b]| - 1] && oldest == s[0] && newest == s[|s| - 1]
    requires e !in s
    modifies entries, chains[b]`next, chains[b]`prev, e`next, e`prev, s`newer, s`older
    ensures Chained(entries, chains[b := [e] + Without(chains[b], |chains[b]| - 1)])
    ensures IsAge(Without(s, i)) && e.newer == old(e.newer)
    ensures oldest' == At(Without(s, i), 0) && newest' == At(Without(s, i), |s| - 2)
  {
    ghost var last := |chains[b]| - 1;
    ghost var pushed := chains[b := [e] + chains[b]];
    PushOnChains(entries, b, e, chains);
    PushedApart(chains, b, e);
    assert pushed[b][last + 1] == s[i];
    assert entries[b] == At(pushed[b], 0) && IsChain(pushed[b]);
    var p := LastEntry(entries[b], pushed[b]);
    assert Without(pushed[b], last + 1) == [e] + Without(chains[b], last);
    assert pushed[b := [e] + Without(chains[b], last)] == chains[b := [e] + Without(chains[b], last)];
    hide Without, Apart, AllOf, NoDup;
    oldest', newest' := DetachEntry(entries, b, p, pushed, last + 1, oldest, newest, s, i);
  }

  /** A new entry as the newest. */
  method AppendToAge(e: Entry, oldest: Entry?, newest: Entry?, ghost s: seq<Entry>)
    returns (oldest': Entry?, newest': Entry?)
    requires IsAge(s) && e !in s && oldest == At(s, 0) && newest == At(s, |s| - 1)
    requires e.newer == null
    modifies s`newer, e`older
    ensures IsAge(s + [e]) && oldest' == (s + [e])[0] && newest' == e
  {
    oldest' := oldest;
    if oldest == null { oldest' := e; }
    e.older := newest;
    if newest != null { newest.newer := e; }
    newest' := e;
  }
}
