/** The linked lists of uthash: an element is on the application list by next and prev, and on a bucket
    chain by hhNext and hhPrev. */
module UthashLinks {
  import opened Bits
  import opened Sequences
  import opened UthashSpec

  /** UT_hash_bucket. */
  datatype Bucket = Bucket(head: Elem?, count: nat, mult: nat)

  ghost function At(s: seq<Elem>, i: int): Elem? {
    if 0 <= i < |s| then s[i] else null
  }

  /** s is linked by hhNext and hhPrev. */
  ghost predicate IsChain(s: seq<Elem>)
    reads s`hhNext, s`hhPrev
  {
    && NoDup(s)
    && (forall i {:trigger s[i].hhNext} :: 0 <= i < |s| ==> s[i].hhNext == At(s, i + 1))
    && (forall i {:trigger s[i].hhPrev} :: 0 <= i < |s| ==> s[i].hhPrev == At(s, i - 1))
  }

  /** s is linked by next and prev. */
  ghost predicate IsApp(s: seq<Elem>)
    reads s`next, s`prev
  {
    && NoDup(s)
    && (forall i {:trigger s[i].next} :: 0 <= i < |s| ==> s[i].next == At(s, i + 1))
    && (forall i {:trigger s[i].prev} :: 0 <= i < |s| ==> s[i].prev == At(s, i - 1))
  }

  /** Each handle carries the hash of its key. */
  ghost predicate Hashed(s: seq<Elem>, hash: Key -> nat)
    reads s`hashv
  {
    forall j {:trigger s[j].hashv} :: 0 <= j < |s| ==> s[j].hashv == hash(s[j].key)
  }

  /** s can be followed by hhNext, whatever hhPrev, and its hashes can be read. */
  ghost predicate Ready(s: seq<Elem>, hash: Key -> nat)
    reads s`hhNext, s`hashv
  {
    && NoDup(s) && Hashed(s, hash)
    && forall i {:trigger s[i].hhNext} :: 0 <= i < |s| ==> s[i].hhNext == At(s, i + 1)
  }

  /** Every bucket has the head, the count and the multiplier of its chain. */
  ghost predicate Chained(buckets: array<Bucket>, chains: seq<seq<Elem>>, mults: seq<nat>)
    reads buckets, AllOf(chains)`hhNext, AllOf(chains)`hhPrev
  {
    && |chains| == |mults| == buckets.Length
    && forall b :: 0 <= b < |chains| ==>
         buckets[b] == Bucket(At(chains[b], 0), |chains[b]|, mults[b]) && IsChain(chains[b])
  }

  lemma ChainsApart(t: Table, hash: Key -> nat)
    requires Consistent(t, hash)
    ensures Apart(t.chains) && |t.chains| > 0 && PowerOfTwo(|t.chains|)
  {
    HomesApart(t.chains, hash);
  }

  lemma HomesApart(chains: seq<seq<Elem>>, hash: Key -> nat)
    requires AtHome(chains, hash)
    ensures Apart(chains)
  {
    forall b, c, e | 0 <= b < |chains| && 0 <= c < |chains| && b != c && e in chains[b] ensures e !in chains[c] {
      assert Slot(hash, e, |chains|) == b;
    }
  }

  lemma NotChained(t: Table, hash: Key -> nat, e: Elem)
    requires Consistent(t, hash) && e !in t.order
    ensures e !in AllOf(t.chains)
  {
  }

  lemma ChainsWithin(t: Table, hash: Key -> nat)
    requires Consistent(t, hash)
    ensures AllOf(t.chains) <= Elements(t.order)
  {
  }

  ghost function Elements(s: seq<Elem>): set<Elem> {
    set e | e in s
  }

  lemma WithoutElements(s: seq<Elem>, i: nat)
    requires i < |s|
    ensures Elements(Without(s, i)) <= Elements(s)
    ensures forall x :: x in Without(s, i) ==> x in s
  {
  }

  lemma LinkedWithin(t: Table, hash: Key -> nat, e: Elem)
    requires Consistent(t, hash)
    ensures AllOf(Linked(t, hash, e).chains) <= AllOf(t.chains) + {e}
  {
    var b := Slot(hash, e, |t.chains|);
    var c := t.chains[b := [e] + t.chains[b]];
    forall x | x in AllOf(c) && x != e ensures x in AllOf(t.chains) {
      var d :| 0 <= d < |c| && x in c[d];
      assert x in t.chains[d];
    }
  }

  lemma NotEmptyChains(t: Table, hash: Key -> nat)
    requires Consistent(t, hash)
    ensures |t.chains| > 0 && |t.mults| == |t.chains|
  {
  }

  lemma ExpandedOrder(t: Table, hash: Key -> nat)
    requires |t.chains| > 0
    ensures Expand(t, hash).order == t.order
  {
  }

  lemma SpreadSameElements(chains: seq<seq<Elem>>, hash: Key -> nat)
    requires |chains| > 0
    ensures AllOf(SpreadChains(chains, hash)) <= AllOf(chains)
  {
    var r, n := SpreadChains(chains, hash), |chains|;
    forall e | e in AllOf(r) ensures e in AllOf(chains) {
      var b :| 0 <= b < |r| && e in r[b];
      SpreadMembers(chains[b % n], hash, 2 * n, b);
      assert e in chains[b % n];
    }
  }

  // ----- one chain -----

  /** The links of HASH_ADD_TO_BKT. */
  method PushFront(buckets: array<Bucket>, b: nat, e: Elem, ghost s: seq<Elem>)
    requires b < buckets.Length && IsChain(s) && e !in s && buckets[b].head == At(s, 0)
    modifies buckets, s`hhPrev, e`hhNext, e`hhPrev
    ensures IsChain([e] + s)
    ensures buckets[..] == old(buckets[..])[b := old(buckets[b]).(head := e)]
  {
    e.hhNext := buckets[b].head;
    e.hhPrev := null;
    if buckets[b].head != null { buckets[b].head.hhPrev := e; }
    buckets[b] := buckets[b].(head := e);
  }

  /** The links of HASH_DEL_IN_BKT. */
  method UnlinkFromChain(buckets: array<Bucket>, b: nat, e: Elem, ghost s: seq<Elem>, ghost j: nat)
    requires b < buckets.Length && IsChain(s) && j < |s| && s[j] == e && buckets[b].head == s[0]
    modifies buckets, s`hhNext, s`hhPrev
    ensures IsChain(Without(s, j))
    ensures buckets[..] == old(buckets[..])[b := old(buckets[b]).(head := At(Without(s, j), 0))]
  {
    if buckets[b].head == e { buckets[b] := buckets[b].(head := e.hhNext); }
    if e.hhPrev != null { e.hhPrev.hhNext := e.hhNext; }
    if e.hhNext != null { e.hhNext.hhPrev := e.hhPrev; }
    WithoutMembers(s, j);
  }

  /** The links around the place of s[i] when it has been linked out. */
  ghost predicate Bridged(s: seq<Elem>, i: nat)
    requires i < |s|
    reads s`next, s`prev
  {
    && (forall j {:trigger s[j].next} :: 0 <= j < |s| && j != i ==>
       s[j].next == At(s, if j + 1 == i then i + 1 else j + 1))
    && (forall j {:trigger s[j].prev} :: 0 <= j < |s| && j != i ==>
       s[j].prev == At(s, if j - 1 == i then i - 1 else j - 1))
  }

  lemma BridgedIsApp(s: seq<Elem>, i: nat)
    requires i < |s| && NoDup(s) && Bridged(s, i)
    ensures IsApp(Without(s, i))
  {
    WithoutMembers(s, i);
    var w := Without(s, i);
    assert forall j :: 0 <= j < |w| ==> w[j] == s[if j < i then j else j + 1];
  }

  /** The application list of HASH_DELETE; returns the new ends. */
  method UnlinkFromApp(e: Elem, head: Elem, tail: Elem, ghost s: seq<Elem>, ghost i: nat)
    returns (head': Elem?, tail': Elem?)
    requires IsApp(s) && i < |s| && s[i] == e && head == s[0] && tail == s[|s| - 1]
    modifies s`next, s`prev
    ensures IsApp(Without(s, i)) && head' == At(Without(s, i), 0) && tail' == At(Without(s, i), |s| - 2)
  {
    head', tail' := head, tail;
    if e == tail { tail' := e.prev; }
    if e.prev != null { e.prev.next := e.next; } else { head' := e.next; }
    if e.next != null { e.next.prev := e.prev; }
    assert Bridged(s, i);
    BridgedIsApp(s, i);
  }

  // ----- all chains -----

  /** HASH_ADD_TO_BKT, up to the test for expansion. */
  method AddToBucket(buckets: array<Bucket>, b: nat, e: Elem, ghost chains: seq<seq<Elem>>, ghost mults: seq<nat>)
    requires Chained(buckets, chains, mults) && Apart(chains) && b < |chains| && e !in AllOf(chains)
    modifies buckets, chains[b]`hhPrev, e`hhNext, e`hhPrev
    ensures Chained(buckets, chains[b := [e] + chains[b]], mults)
  {
    buckets[b] := buckets[b].(count := buckets[b].count + 1);
    PushFront(buckets, b, e, chains[b]);
    forall c | 0 <= c < |chains| && c != b ensures IsChain(chains[c]) {
      assert old(IsChain(chains[c]));
      forall j | 0 <= j < |chains[c]|
        ensures chains[c][j].hhNext == old(chains[c][j].hhNext) && chains[c][j].hhPrev == old(chains[c][j].hhPrev)
      {
        assert chains[c][j] in chains[c];
      }
    }
  }

  /** HASH_DEL_IN_BKT. */
  method DelInBucket(buckets: array<Bucket>, b: nat, e: Elem, ghost chains: seq<seq<Elem>>, ghost mults: seq<nat>,
                     ghost j: nat)
    requires Chained(buckets, chains, mults) && Apart(chains) && b < |chains| && j < |chains[b]| && chains[b][j] == e
    modifies buckets, chains[b]`hhNext, chains[b]`hhPrev
    ensures Chained(buckets, chains[b := Without(chains[b], j)], mults)
  {
    buckets[b] := buckets[b].(count := buckets[b].count - 1);
    WithoutLength(chains[b], j);
    hide Without;
    UnlinkFromChain(buckets, b, e, chains[b], j);
    forall c | 0 <= c < |chains| && c != b ensures IsChain(chains[c]) {
      assert old(IsChain(chains[c]));
      forall i | 0 <= i < |chains[c]|
        ensures chains[c][i].hhNext == old(chains[c][i].hhNext) && chains[c][i].hhPrev == old(chains[c][i].hhPrev)
      {
        assert chains[c][i] in chains[c];
      }
    }
  }

  // ----- expansion -----

  lemma {:induction false} ExcessUpdate(chains: seq<seq<Elem>>, b: nat, c: seq<Elem>, ideal: nat)
    requires b < |chains|
    ensures Excess(chains[b := c], ideal) == Excess(chains, ideal) - Over(|chains[b]|, ideal) + Over(|c|, ideal)
    decreases |chains|
  {
    var n := |chains| - 1;
    if b < n {
      assert chains[b := c][..n] == chains[..n][b := c];
      ExcessUpdate(chains[..n], b, c, ideal);
    } else {
      assert chains[b := c][..n] == chains[..n];
    }
  }

  lemma MultsUpdate(chains: seq<seq<Elem>>, b: nat, c: seq<Elem>, ideal: nat)
    requires b < |chains|
    ensures MultsOf(chains[b := c], ideal) == MultsOf(chains, ideal)[b := MultOf(|c|, ideal)]
  {
  }

  /** One handle into the new buckets, with the counting of the ideal chain length. */
  method MoveHandle(buckets: array<Bucket>, b: nat, e: Elem, ideal: nat, nonideal: nat, ghost done: seq<seq<Elem>>)
    returns (nonideal': nat)
    requires Chained(buckets, done, MultsOf(done, ideal)) && Apart(done) && b < |done| && e !in AllOf(done)
    requires ideal > 0 && nonideal == Excess(done, ideal)
    modifies buckets, done[b]`hhPrev, e`hhNext, e`hhPrev
    ensures var done' := done[b := [e] + done[b]];
            Chained(buckets, done', MultsOf(done', ideal)) && nonideal' == Excess(done', ideal)
  {
    nonideal' := nonideal;
    ExcessUpdate(done, b, [e] + done[b], ideal);
    MultsUpdate(done, b, [e] + done[b], ideal);
    ghost var mult := MultOf(|done[b]| + 1, ideal);
    hide Excess, MultsOf;
    buckets[b] := buckets[b].(count := buckets[b].count + 1);
    if buckets[b].count > ideal {
      nonideal' := nonideal' + 1;
      buckets[b] := buckets[b].(mult := buckets[b].count / ideal);
    }
    PushFront(buckets, b, e, done[b]);
    forall c | 0 <= c < |done| && c != b ensures IsChain(done[c]) {
      assert old(IsChain(done[c]));
      forall j | 0 <= j < |done[c]|
        ensures done[c][j].hhNext == old(done[c][j].hhNext) && done[c][j].hhPrev == old(done[c][j].hhPrev)
      {
        assert done[c][j] in done[c];
      }
    }
  }

  /** The new chains when all chains before i and the first j elements of chain i have been moved. */
  ghost function Moved(chains: seq<seq<Elem>>, hash: Key -> nat, i: nat, j: nat): (r: seq<seq<Elem>>)
    requires |chains| > 0
    ensures |r| == 2 * |chains|
  {
    var n := |chains|;
    seq(2 * n, b requires 0 <= b < 2 * n =>
      if b % n < i then Spread(chains[b % n], hash, 2 * n, b)
      else if b % n == i && j <= |chains[i]| then Spread(chains[i][..j], hash, 2 * n, b)
      else [])
  }

  lemma MovedNone(chains: seq<seq<Elem>>, hash: Key -> nat)
    requires |chains| > 0
    ensures Moved(chains, hash, 0, 0) == seq(2 * |chains|, _ => [])
    ensures Moved(chains, hash, |chains|, 0) == SpreadChains(chains, hash)
  {
  }

  lemma MovedChain(chains: seq<seq<Elem>>, hash: Key -> nat, i: nat)
    requires i < |chains|
    ensures Moved(chains, hash, i, |chains[i]|) == Moved(chains, hash, i + 1, 0)
  {
    assert chains[i][..|chains[i]|] == chains[i];
  }

  /** The place of e among 2n, given its place among n. */
  lemma NewPlace(hash: Key -> nat, e: Elem, n: nat, i: nat)
    requires n > 0 && Slot(hash, e, n) == i
    ensures Slot(hash, e, 2 * n) % n == i
  {
    var b := Slot(hash, e, 2 * n);
    HighOrLow(hash(e.key), n);
    if b == i { UniqueRemainder(b, n, 0, i); } else { UniqueRemainder(b, n, 1, i); }
  }

  lemma MovedOne(chains: seq<seq<Elem>>, hash: Key -> nat, i: nat, j: nat)
    requires AtHome(chains, hash) && i < |chains| && j < |chains[i]|
    ensures var e, d := chains[i][j], Moved(chains, hash, i, j);
            var b := Slot(hash, e, 2 * |chains|);
            b < |d| && Moved(chains, hash, i, j + 1) == d[b := [e] + d[b]]
  {
    var n, e, d := |chains|, chains[i][j], Moved(chains, hash, i, j);
    var b := Slot(hash, e, 2 * n);
    NewPlace(hash, e, n, i);
    assert chains[i][..j + 1][..j] == chains[i][..j];
    var d' := Moved(chains, hash, i, j + 1);
    forall x | 0 <= x < 2 * n ensures d'[x] == d[b := [e] + d[b]][x] {
    }
  }

  /** What has been moved is on the new chain of its hash. */
  lemma MovedHome(chains: seq<seq<Elem>>, hash: Key -> nat, i: nat, j: nat)
    requires |chains| > 0 && i <= |chains| && (if i < |chains| then j <= |chains[i]| else j == 0)
    ensures AtHome(Moved(chains, hash, i, j), hash)
  {
    var n, d := |chains|, Moved(chains, hash, i, j);
    forall b, e | 0 <= b < |d| && e in d[b] ensures Slot(hash, e, |d|) == b {
      SpreadMembers(chains[b % n], hash, 2 * n, b);
      if i < n { SpreadMembers(chains[i][..j], hash, 2 * n, b); }
    }
  }

  /** And it comes from what is behind. */
  lemma MovedFrom(chains: seq<seq<Elem>>, hash: Key -> nat, i: nat, j: nat, e: Elem)
    requires |chains| > 0 && i < |chains| && j <= |chains[i]| && e in AllOf(Moved(chains, hash, i, j))
    ensures e in chains[i][..j] || exists c :: 0 <= c < i && e in chains[c]
  {
    var n, d := |chains|, Moved(chains, hash, i, j);
    var b :| 0 <= b < |d| && e in d[b];
    if b % n < i {
      SpreadMembers(chains[b % n], hash, 2 * n, b);
      assert e in chains[b % n];
    } else {
      SpreadMembers(chains[i][..j], hash, 2 * n, b);
    }
  }

  lemma MovedApart(chains: seq<seq<Elem>>, hash: Key -> nat, i: nat, j: nat)
    requires AtHome(chains, hash) && AllDistinct(chains) && i < |chains| && j <= |chains[i]|
    ensures var d := Moved(chains, hash, i, j);
            && Apart(d) && AllOf(d) <= AllOf(chains)
            && (forall k :: j <= k < |chains[i]| ==> chains[i][k] !in AllOf(d))
            && (forall c, e :: i < c < |chains| && e in chains[c] ==> e !in AllOf(d))
  {
    var d := Moved(chains, hash, i, j);
    MovedHome(chains, hash, i, j);
    HomesApart(d, hash);
    HomesApart(chains, hash);
    hide Moved, AtHome, Slot;
    assert NoDup(chains[i]) && forall x :: x in chains[i][..j] ==> x in chains[i];
    forall x | x in AllOf(d) ensures x in AllOf(chains) {
      MovedFrom(chains, hash, i, j, x);
    }
    forall k | j <= k < |chains[i]| ensures chains[i][k] !in AllOf(d) {
      assert chains[i][k] in chains[i];
      if chains[i][k] in AllOf(d) { MovedFrom(chains, hash, i, j, chains[i][k]); }
    }
    forall c, e | i < c < |chains| && e in chains[c] ensures e !in AllOf(d) {
      if e in AllOf(d) { MovedFrom(chains, hash, i, j, e); }
    }
  }

  /** What is left to move can still be followed. */
  ghost predicate Pending(chains: seq<seq<Elem>>, hash: Key -> nat, i: nat, j: nat)
    reads AllOf(chains)`hhNext, AllOf(chains)`hashv
  {
    && (i < |chains| ==> Hashed(chains[i], hash))
    && (i < |chains| ==> forall k {:trigger chains[i][k].hhNext} :: j <= k < |chains[i]| ==>
       chains[i][k].hhNext == At(chains[i], k + 1))
    && (forall c :: i < c < |chains| ==> Ready(chains[c], hash))
  }

  lemma PendingNext(chains: seq<seq<Elem>>, hash: Key -> nat, i: nat, j: nat)
    requires AtHome(chains, hash) && AllDistinct(chains) && i < |chains| && j < |chains[i]|
    ensures forall k :: j < k < |chains[i]| ==> chains[i][k] != chains[i][j]
    ensures forall c :: i < c < |chains| ==> chains[i][j] !in chains[c]
    ensures chains[i][j] in AllOf(chains) && Slot(hash, chains[i][j], |chains|) == i
  {
    assert NoDup(chains[i]) && chains[i][j] in chains[i];
    HomesApart(chains, hash);
  }

  lemma PendingHash(chains: seq<seq<Elem>>, hash: Key -> nat, i: nat, j: nat)
    requires Pending(chains, hash, i, j) && i < |chains| && j < |chains[i]|
    ensures chains[i][j].hashv == hash(chains[i][j].key)
  {
  }

  /** The new buckets when what done says has been moved. */
  ghost predicate Moving(buckets: array<Bucket>, done: seq<seq<Elem>>, ideal: nat, nonideal: nat)
    reads buckets, AllOf(done)`hhNext, AllOf(done)`hhPrev
  {
    Chained(buckets, done, MultsOf(done, ideal)) && nonideal == Excess(done, ideal)
  }

  lemma NothingMoved(buckets: array<Bucket>, n: nat, ideal: nat)
    requires buckets.Length == n && forall b :: 0 <= b < n ==> buckets[b] == Bucket(null, 0, 0)
    ensures Moving(buckets, seq(n, _ => []), ideal, 0)
  {
    NoExcessAtAll(n, ideal);
  }

  lemma {:induction false} NoExcessAtAll(n: nat, ideal: nat)
    ensures Excess(seq(n, _ => []), ideal) == 0
  {
    if n > 0 {
      var c: seq<seq<Elem>> := seq(n, _ => []);
      assert c[..n - 1] == seq(n - 1, _ => []);
      NoExcessAtAll(n - 1, ideal);
    }
  }

  /** One handle moved, and the rest still to follow. */
  method MoveFrom(buckets: array<Bucket>, b: nat, e: Elem, ideal: nat, nonideal: nat,
                  ghost done: seq<seq<Elem>>, ghost chains: seq<seq<Elem>>, ghost hash: Key -> nat, ghost i: nat,
                      ghost j: nat)
    returns (nonideal': nat, next: Elem?)
    requires Moving(buckets, done, ideal, nonideal) && Apart(done) && b < |done| && e !in AllOf(done) && ideal > 0
    requires Pending(chains, hash, i, j) && i < |chains| && j < |chains[i]| && e == chains[i][j]
    requires forall k :: j < k < |chains[i]| ==> chains[i][k] != e
    requires forall c :: i < c < |chains| ==> e !in chains[c]
    modifies buckets, done[b]`hhPrev, e`hhNext, e`hhPrev
    ensures Moving(buckets, done[b := [e] + done[b]], ideal, nonideal') && Pending(chains, hash, i, j + 1)
    ensures next == At(chains[i], j + 1)
  {
    hide Excess, MultsOf, Apart, Chained, NoDup, AllOf;
    next := e.hhNext;
    nonideal' := MoveHandle(buckets, b, e, ideal, nonideal, done);
  }

  /** One round of the loop over a chain. */
  method MoveNext(buckets: array<Bucket>, e: Elem, ideal: nat, nonideal: nat, n: nat,
                  ghost chains: seq<seq<Elem>>, ghost hash: Key -> nat, ghost i: nat, ghost j: nat)
    returns (nonideal': nat, next: Elem?)
    requires AtHome(chains, hash) && AllDistinct(chains) && n == |chains| && PowerOfTwo(n)
    requires i < n && j < |chains[i]| && e == chains[i][j] && ideal > 0
    requires Moving(buckets, Moved(chains, hash, i, j), ideal, nonideal) && Pending(chains, hash, i, j)
    modifies buckets, AllOf(chains)`hhNext, AllOf(chains)`hhPrev
    ensures Moving(buckets, Moved(chains, hash, i, j + 1), ideal, nonideal') && Pending(chains, hash, i, j + 1)
    ensures next == At(chains[i], j + 1)
  {
    hide Moved, Moving, Pending, AtHome, Apart, AllDistinct, NoDup, PowerOfTwo;
    ghost var done := Moved(chains, hash, i, j);
    PendingHash(chains, hash, i, j);
    TwicePower(n);
    MaskOfPower(e.hashv, 2 * n);
    var b := BitAnd(e.hashv, 2 * n - 1);
    MovedApart(chains, hash, i, j);
    MovedOne(chains, hash, i, j);
    PendingNext(chains, hash, i, j);
    nonideal', next := MoveFrom(buckets, b, e, ideal, nonideal, done, chains, hash, i, j);
  }

  /** The chains from i on have not been touched. */
  ghost predicate RestReady(chains: seq<seq<Elem>>, hash: Key -> nat, i: nat)
    reads AllOf(chains)`hhNext, AllOf(chains)`hashv
  {
    forall c :: i <= c < |chains| ==> Ready(chains[c], hash)
  }

  lemma ReadyPending(chains: seq<seq<Elem>>, hash: Key -> nat, i: nat)
    requires i < |chains| && RestReady(chains, hash, i)
    ensures Pending(chains, hash, i, 0)
  {
  }

  /** The loop over one chain. */
  method MoveChain(buckets: array<Bucket>, head: Elem?, ideal: nat, nonideal: nat, n: nat,
                   ghost chains: seq<seq<Elem>>, ghost hash: Key -> nat, ghost i: nat)
    returns (nonideal': nat)
    requires AtHome(chains, hash) && AllDistinct(chains) && n == |chains| && PowerOfTwo(n)
    requires i < n && head == At(chains[i], 0) && ideal > 0
    requires Moving(buckets, Moved(chains, hash, i, 0), ideal, nonideal)
    requires RestReady(chains, hash, i)
    modifies buckets, AllOf(chains)`hhNext, AllOf(chains)`hhPrev
    ensures Moving(buckets, Moved(chains, hash, i + 1, 0), ideal, nonideal') && RestReady(chains, hash, i + 1)
  {
    hide AtHome, AllDistinct, PowerOfTwo, Moving, Moved, NoDup, Ready, AllOf, Slot, Hashed, Pending, RestReady;
    ReadyPending(chains, hash, i);
    nonideal' := nonideal;
    var thh := head;
    ghost var j := 0;
    while thh != null
      invariant j <= |chains[i]| && thh == At(chains[i], j)
      invariant Moving(buckets, Moved(chains, hash, i, j), ideal, nonideal') && Pending(chains, hash, i, j)
      decreases |chains[i]| - j
    {
      nonideal', thh := MoveNext(buckets, thh, ideal, nonideal', n, chains, hash, i, j);
      j := j + 1;
    }
    MovedChain(chains, hash, i);
    PendingDone(chains, hash, i);
  }

  lemma PendingDone(chains: seq<seq<Elem>>, hash: Key -> nat, i: nat)
    requires i < |chains| && Pending(chains, hash, i, |chains[i]|)
    ensures RestReady(chains, hash, i + 1)
  {
  }

  /** A row of empty buckets. */
  method NewBuckets(n: nat) returns (buckets: array<Bucket>)
    ensures fresh(buckets) && buckets.Length == n
    ensures forall b :: 0 <= b < n ==> buckets[b] == Bucket(null, 0, 0)
  {
    buckets := new Bucket[n](_ => Bucket(null, 0, 0));
  }

  lemma ChainedReady(buckets: array<Bucket>, chains: seq<seq<Elem>>, mults: seq<nat>, hash: Key -> nat)
    requires Chained(buckets, chains, mults) && forall b :: 0 <= b < |chains| ==> Hashed(chains[b], hash)
    ensures RestReady(chains, hash, 0) && Headed(buckets[..], chains)
  {
  }

  ghost predicate Headed(buckets: seq<Bucket>, chains: seq<seq<Elem>>) {
    |buckets| == |chains| && forall b :: 0 <= b < |chains| ==> buckets[b].head == At(chains[b], 0)
  }

  /** The loop of HASH_EXPAND_BUCKETS over the old buckets. */
  method MoveChains(buckets: array<Bucket>, newBuckets: array<Bucket>, ideal: nat, n: nat,
                    ghost chains: seq<seq<Elem>>, ghost mults: seq<nat>, ghost hash: Key -> nat)
    returns (nonideal: nat)
    requires AtHome(chains, hash) && AllDistinct(chains) && n == |chains| == buckets.Length && PowerOfTwo(n)
    requires n > 0 && ideal > 0
    requires Chained(buckets, chains, mults) && forall c :: 0 <= c < n ==> Hashed(chains[c], hash)
    requires newBuckets != buckets && newBuckets.Length == 2 * n
    requires forall b :: 0 <= b < 2 * n ==> newBuckets[b] == Bucket(null, 0, 0)
    modifies newBuckets, AllOf(chains)`hhNext, AllOf(chains)`hhPrev
    ensures Moving(newBuckets, SpreadChains(chains, hash), ideal, nonideal)
  {
    hide AtHome, AllDistinct, Chained, Ready, Moving, Moved, PowerOfTwo, AllOf, Hashed, NoDup, SpreadChains, Spread,
         Slot,
         RestReady, Headed;
    StartMoving(newBuckets, chains, hash, ideal);
    ChainedReady(buckets, chains, mults, hash);
    nonideal := MoveFromAll(buckets, newBuckets, ideal, n, chains, hash);
    EndMoving(newBuckets, chains, hash, ideal, nonideal);
  }

  method MoveFromAll(buckets: array<Bucket>, newBuckets: array<Bucket>, ideal: nat, n: nat,
                     ghost chains: seq<seq<Elem>>, ghost hash: Key -> nat)
    returns (nonideal: nat)
    requires AtHome(chains, hash) && AllDistinct(chains) && n == |chains| == buckets.Length && PowerOfTwo(n)
    requires n > 0 && ideal > 0 && newBuckets != buckets
    requires Moving(newBuckets, Moved(chains, hash, 0, 0), ideal, 0) && RestReady(chains, hash, 0) &&
             Headed(buckets[..], chains)
    modifies newBuckets, AllOf(chains)`hhNext, AllOf(chains)`hhPrev
    ensures Moving(newBuckets, Moved(chains, hash, n, 0), ideal, nonideal)
  {
    hide AtHome, AllDistinct, Chained, Ready, Moving, Moved, PowerOfTwo, AllOf, Hashed, NoDup, SpreadChains, Spread,
         Slot,
         RestReady;
    nonideal := 0;
    var i := 0;
    while i < n
      invariant i <= n
      invariant Moving(newBuckets, Moved(chains, hash, i, 0), ideal, nonideal) && RestReady(chains, hash, i)
      invariant Headed(buckets[..], chains)
    {
      assert buckets[i].head == At(chains[i], 0) by { assert buckets[i] == buckets[..][i]; }
      nonideal := MoveChain(newBuckets, buckets[i].head, ideal, nonideal, n, chains, hash, i);
      i := i + 1;
    }
  }

  lemma StartMoving(buckets: array<Bucket>, chains: seq<seq<Elem>>, hash: Key -> nat, ideal: nat)
    requires |chains| > 0 && buckets.Length == 2 * |chains|
    requires forall b :: 0 <= b < 2 * |chains| ==> buckets[b] == Bucket(null, 0, 0)
    ensures Moving(buckets, Moved(chains, hash, 0, 0), ideal, 0)
  {
    MovedNone(chains, hash);
    NothingMoved(buckets, 2 * |chains|, ideal);
  }

  lemma EndMoving(buckets: array<Bucket>, chains: seq<seq<Elem>>, hash: Key -> nat, ideal: nat, nonideal: nat)
    requires |chains| > 0 && Moving(buckets, Moved(chains, hash, |chains|, 0), ideal, nonideal)
    ensures Moving(buckets, SpreadChains(chains, hash), ideal, nonideal)
  {
    MovedNone(chains, hash);
  }
}
