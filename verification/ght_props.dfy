/** What libghthash promises, over whole runs. */
module GhtProps {
  import opened Bits
  import opened Sequences
  import opened GhtSpec

  datatype Op =
    | OpInsert(k: Key, v: Ptr)
    | OpGet(k: Key)
    | OpReplace(k: Key, v: Ptr)
    | OpRemove(k: Key)
    | OpRehash(n: nat)
    | OpHeuristic(h: Heuristic)
    | OpAutoRehash(on: bool)
    | OpLimit(limit: nat)

  /** New table and return value. */
  function Step(t: Table, hash: Key -> nat, op: Op): (Table, int)
    requires |t.buckets| > 0
  {
    match op
    case OpInsert(k, v) => Insert(t, hash, k, v)
    case OpGet(k) => Get(t, hash, k)
    case OpReplace(k, v) => Replace(t, hash, k, v)
    case OpRemove(k) => Remove(t, hash, k)
    case OpRehash(n) => (Rehash(t, hash, n), 0)
    case OpHeuristic(h) => (t.(heuristic := h), 0)
    case OpAutoRehash(on) => (t.(autoRehash := on), 0)
    case OpLimit(n) => (t.(limit := n), 0)
  }

  lemma StepWellFormed(t: Table, hash: Key -> nat, op: Op)
    requires WellFormed(t, hash)
    ensures WellFormed(Step(t, hash, op).0, hash)
    ensures !op.OpLimit? ==> Step(t, hash, op).0.limit == t.limit
  {
    hide WellFormed, Find, PlaceAll;
    NotEmpty(t, hash);
    StepKeepsLimit(t, hash, op);
    match op
    case OpInsert(k, v) => InsertWellFormed(t, hash, k, v);
    case OpGet(k) => SearchedWellFormed(t, hash, k);
    case OpReplace(k, v) => ReplaceWellFormed(t, hash, k, v);
    case OpRemove(k) => DroppedWellFormed(t, hash, k);
    case OpRehash(n) => RehashKeeps(t, hash, n);
    case _ => SettingsWellFormed(t, hash, op);
  }

  lemma StepKeepsLimit(t: Table, hash: Key -> nat, op: Op)
    requires |t.buckets| > 0
    ensures !op.OpLimit? ==> Step(t, hash, op).0.limit == t.limit
  {
  }

  lemma SettingsWellFormed(t: Table, hash: Key -> nat, op: Op)
    requires WellFormed(t, hash) && (op.OpHeuristic? || op.OpAutoRehash? || op.OpLimit?)
    ensures WellFormed(Step(t, hash, op).0, hash)
  {
  }

  // ----- an insertion-ordered map -----

  type OrderedMap = seq<(Key, Ptr)>

  function MapStep(m: OrderedMap, op: Op): (OrderedMap, int) {
    match op
    case OpInsert(k, v) => if k in KeysOf(m) then (m, -1) else (m + [(k, v)], 0)
    case OpGet(k) => (m, DataOf(m, k))
    case OpReplace(k, v) =>
      var i := Find(KeysOf(m), k);
      if i < |m| then (m[i := (k, v)], m[i].1) else (m, NULL)
    case OpRemove(k) =>
      var i := Find(KeysOf(m), k);
      (if i < |m| then Without(m, i) else m, DataOf(m, k))
    case _ => (m, 0)
  }

  /** No NULL is stored, and no limit set. */
  predicate StoresData(op: Op) {
    && ((op.OpInsert? || op.OpReplace?) ==> op.v != NULL)
    && (op.OpLimit? ==> op.limit == 0)
  }

  /** One operation of an unbounded table is one operation of the map, whatever the heuristic, the
      chains and the sizes. */
  lemma StepRefines(t: Table, hash: Key -> nat, op: Op)
    requires WellFormed(t, hash) && t.limit == 0 && NoNulls(t.order) && StoresData(op)
    ensures Step(t, hash, op).0.order == MapStep(t.order, op).0
    ensures Step(t, hash, op).1 == MapStep(t.order, op).1
    ensures NoNulls(MapStep(t.order, op).0)
  {
    hide Rehash, Placed, Slot, Touch;
    match op
    case OpInsert(k, v) => InsertRefines(t, hash, k, v);
    case OpGet(k) => SearchedWellFormed(t, hash, k);
    case OpReplace(k, v) => SearchedWellFormed(t, hash, k);
    case OpRemove(k) =>
    case OpRehash(n) => RehashRetainsExactly(t, hash, n);
    case _ =>
  }

  lemma StaysUnbounded(t: Table, hash: Key -> nat, op: Op)
    requires |t.buckets| > 0 && t.limit == 0 && StoresData(op)
    ensures Step(t, hash, op).0.limit == 0
  {
    StepKeepsLimit(t, hash, op);
  }

  lemma InsertRefines(t: Table, hash: Key -> nat, k: Key, v: Ptr)
    requires WellFormed(t, hash) && t.limit == 0 && NoNulls(t.order)
    ensures Insert(t, hash, k, v).0.order == if Has(t, k) then t.order else t.order + [(k, v)]
    ensures Insert(t, hash, k, v).1 == if Has(t, k) then -1 else 0
  {
    hide WellFormed, Placed, PlaceAll;
    NotEmpty(t, hash);
    if !Has(t, k) {
      if t.autoRehash && |t.order| > 2 * |t.buckets| {
        RehashKeeps(t, hash, 2 * |t.buckets|);
        RehashRetainsExactly(t, hash, 2 * |t.buckets|);
        PlacedWellFormed(Rehash(t, hash, 2 * |t.buckets|), hash, k, v);
      } else {
        PlacedWellFormed(t, hash, k, v);
      }
    }
  }

  function Run(t: Table, hash: Key -> nat, ops: seq<Op>): (Table, seq<int>)
    requires WellFormed(t, hash)
    decreases |ops|
  {
    if ops == [] then (t, [])
    else
      StepWellFormed(t, hash, ops[0]);
      var s := Step(t, hash, ops[0]);
      var r := Run(s.0, hash, ops[1..]);
      (r.0, [s.1] + r.1)
  }

  function MapRun(m: OrderedMap, ops: seq<Op>): (OrderedMap, seq<int>)
    decreases |ops|
  {
    if ops == [] then (m, [])
    else
      var s := MapStep(m, ops[0]);
      var r := MapRun(s.0, ops[1..]);
      (r.0, [s.1] + r.1)
  }

  /** Every run: same results, same final contents in the same order, and a well-formed table. */
  lemma {:induction false} RunRefines(t: Table, hash: Key -> nat, ops: seq<Op>)
    requires WellFormed(t, hash) && t.limit == 0 && NoNulls(t.order)
    requires forall i :: 0 <= i < |ops| ==> StoresData(ops[i])
    ensures WellFormed(Run(t, hash, ops).0, hash)
    ensures Run(t, hash, ops).0.order == MapRun(t.order, ops).0
    ensures Run(t, hash, ops).1 == MapRun(t.order, ops).1
    decreases |ops|
  {
    hide WellFormed, Step, MapStep, NoNulls, StoresData;
    if ops != [] {
      NotEmpty(t, hash);
      StepWellFormed(t, hash, ops[0]);
      StepRefines(t, hash, ops[0]);
      StaysUnbounded(t, hash, ops[0]);
      RunRefines(Step(t, hash, ops[0]).0, hash, ops[1..]);
    }
  }

  /** From a new table on, in particular. */
  lemma NewTableRefines(n: nat, hash: Key -> nat, ops: seq<Op>)
    requires forall i :: 0 <= i < |ops| ==> StoresData(ops[i])
    ensures WellFormed(Create(n), hash)
    ensures Run(Create(n), hash, ops).1 == MapRun([], ops).1
  {
    BlankWellFormed(RoundUp(n, 1), hash);
    RunRefines(Create(n), hash, ops);
  }

  /** With NULL data the refinement fails: an entry stored after it is lost by a rehash. */
  lemma NullDataIsLost(hash: Key -> nat, a: Key, b: Key)
    requires a != b
    ensures var t := Step(Step(Create(1), hash, OpInsert(a, NULL)).0, hash, OpInsert(b, 1)).0;
            && WellFormed(t, hash)
            && Step(t, hash, OpGet(b)).1 == 1
            && Step(Step(t, hash, OpRehash(2)).0, hash, OpGet(b)).1 == NULL
  {
    hide Placed, WellFormed;
    var t0 := Create(1);
    BlankWellFormed(1, hash);
    StepRefinesInsert(t0, hash, a, NULL);
    var t1 := Step(t0, hash, OpInsert(a, NULL)).0;
    NotEmpty(t1, hash);
    StepRefinesInsert(t1, hash, b, 1);
    var t2 := Step(t1, hash, OpInsert(b, 1)).0;
    NotEmpty(t2, hash);
    assert t2.order == [(a, NULL), (b, 1)];
    assert KeysOf(t2.order)[1] == b;
    RehashKeeps(t2, hash, 2);
    assert UntilNull(t2.order) == [];
  }

  lemma StepRefinesInsert(t: Table, hash: Key -> nat, k: Key, v: Ptr)
    requires WellFormed(t, hash) && t.limit == 0 && !t.autoRehash && !Has(t, k)
    ensures Step(t, hash, OpInsert(k, v)).0.order == t.order + [(k, v)]
    ensures WellFormed(Step(t, hash, OpInsert(k, v)).0, hash)
    ensures Step(t, hash, OpInsert(k, v)).0.limit == 0 && !Step(t, hash, OpInsert(k, v)).0.autoRehash
  {
    hide WellFormed;
    PlacedWellFormed(t, hash, k, v);
  }

  // ----- load bound -----

  lemma {:induction false} RoundUpIsPower(n: nat, p: nat)
    requires PowerOfTwo(p) && p > 0
    ensures PowerOfTwo(RoundUp(n, p))
    decreases n - p
  {
    if p < n {
      var k: nat :| p == Pow2(k);
      assert 2 * p == Pow2(k + 1);
      RoundUpIsPower(n, 2 * p);
    }
  }

  lemma {:induction false} RoundUpFixed(p: nat, q: nat)
    requires p > 0 && q > 0 && PowerOfTwo(p) && PowerOfTwo(q) && q <= p
    ensures RoundUp(p, q) == p
    decreases p - q
  {
    if q < p {
      var k: nat :| p == Pow2(k);
      var j: nat :| q == Pow2(j);
      NextPower(j, k);
      assert 2 * q == Pow2(j + 1);
      RoundUpFixed(p, 2 * q);
    }
  }

  lemma {:induction false} NextPower(j: nat, k: nat)
    requires Pow2(j) < Pow2(k)
    ensures 2 * Pow2(j) <= Pow2(k)
    decreases j, k
  {
    if k > 0 && j > 0 { NextPower(j - 1, k - 1); }
  }

  /** The size of a new or rehashed table is the least power of two that is large enough. */
  lemma RoundUpIsLeast(n: nat)
    ensures PowerOfTwo(RoundUp(n, 1)) && RoundUp(n, 1) >= n
    ensures forall q: nat :: PowerOfTwo(q) && q >= n ==> RoundUp(n, 1) <= q
  {
    OneIsPower();
    RoundUpIsPower(n, 1);
    forall q: nat | PowerOfTwo(q) && q >= n ensures RoundUp(n, 1) <= q {
      RoundUpBelow(n, 1, q);
    }
  }

  lemma {:induction false} RoundUpBelow(n: nat, p: nat, q: nat)
    requires p > 0 && PowerOfTwo(p) && PowerOfTwo(q) && p <= q && n <= q
    ensures RoundUp(n, p) <= q
    decreases n - p
  {
    if p < n {
      var k: nat :| q == Pow2(k);
      var j: nat :| p == Pow2(j);
      NextPower(j, k);
      assert 2 * p == Pow2(j + 1);
      RoundUpBelow(n, 2 * p, q);
    }
  }

  /** The load of a table that rehashes automatically. */
  ghost predicate Loaded(t: Table, hash: Key -> nat) {
    WellFormed(t, hash) && t.autoRehash && PowerOfTwo(|t.buckets|) && |t.order| <= 2 * |t.buckets| + 1
  }

  /** Automatic rehash stays on, and no explicit rehash shrinks the table. */
  predicate Growing(t: Table, op: Op) {
    match op
    case OpRehash(n) => n >= |t.buckets|
    case OpAutoRehash(on) => on
    case _ => true
  }

  lemma PlacedCount(t: Table, hash: Key -> nat, k: Key, v: Ptr)
    requires |t.buckets| > 0
    ensures |Placed(t, hash, k, v).order| <= |t.order| + 1 && |Placed(t, hash, k, v).buckets| == |t.buckets|
  {
  }

  /** An insert keeps the load; when it rehashes, it doubles the size exactly. */
  lemma InsertLoaded(t: Table, hash: Key -> nat, k: Key, v: Ptr)
    requires Loaded(t, hash) && !Has(t, k)
    ensures Loaded(Insert(t, hash, k, v).0, hash)
    ensures |Insert(t, hash, k, v).0.buckets| == if |t.order| > 2 * |t.buckets| then 2 * |t.buckets| else |t.buckets|
  {
    InsertWellFormed(t, hash, k, v);
    var size := |t.buckets|;
    if |t.order| > 2 * size {
      RehashKeeps(t, hash, 2 * size);
      UntilNullPrefix(t.order);
      PlacedCount(Rehash(t, hash, 2 * size), hash, k, v);
      OneIsPower();
      RoundUpIsPower(2 * size, 1);
      var j: nat :| size == Pow2(j);
      assert 2 * size == Pow2(j + 1);
      RoundUpFixed(2 * size, 1);
    } else {
      PlacedCount(t, hash, k, v);
    }
  }

  lemma OneIsPower()
    ensures PowerOfTwo(1)
  {
    assert 1 == Pow2(0);
  }

  /** A new table with automatic rehash on. */
  lemma NewTableLoaded(n: nat, hash: Key -> nat)
    ensures Loaded(Create(n).(autoRehash := true), hash)
  {
    BlankWellFormed(RoundUp(n, 1), hash);
    OneIsPower();
    RoundUpIsPower(n, 1);
  }

  lemma LoadStep(t: Table, hash: Key -> nat, op: Op)
    requires Loaded(t, hash) && Growing(t, op)
    ensures Loaded(Step(t, hash, op).0, hash)
  {
    hide Placed, Rehash, PlaceAll;
    StepWellFormed(t, hash, op);
    match op
    case OpInsert(k, v) => if !Has(t, k) { InsertLoaded(t, hash, k, v); }
    case OpGet(k) => SearchedWellFormed(t, hash, k);
    case OpReplace(k, v) => SearchedWellFormed(t, hash, k);
    case OpRehash(n) => RehashLoaded(t, hash, n);
    case _ =>
  }

  lemma RehashLoaded(t: Table, hash: Key -> nat, n: nat)
    requires Loaded(t, hash) && n >= |t.buckets|
    ensures Loaded(Rehash(t, hash, n), hash)
  {
    RehashKeeps(t, hash, n);
    UntilNullPrefix(t.order);
    OneIsPower();
    RoundUpIsPower(n, 1);
  }

  ghost predicate AllGrowing(t: Table, hash: Key -> nat, ops: seq<Op>)
    requires WellFormed(t, hash)
    decreases |ops|
  {
    ops != [] ==>
      Growing(t, ops[0]) && (StepWellFormed(t, hash, ops[0]); AllGrowing(Step(t, hash, ops[0]).0, hash, ops[1..]))
  }

  /** In every reachable state of such a table: at most 2 * size + 1 items, the size a power of two,
      and the mask size - 1 selects the remainder. */
  lemma {:induction false} LoadBound(t: Table, hash: Key -> nat, ops: seq<Op>)
    requires Loaded(t, hash) && AllGrowing(t, hash, ops)
    ensures Loaded(Run(t, hash, ops).0, hash)
    ensures forall k :: BitAnd(hash(k), |Run(t, hash, ops).0.buckets| - 1) == Slot(hash, k, |Run(t, hash,
            ops).0.buckets|)
    decreases |ops|
  {
    hide Step, Growing;
    if ops == [] {
      var j: nat :| |t.buckets| == Pow2(j);
      forall k ensures BitAnd(hash(k), |t.buckets| - 1) == Slot(hash, k, |t.buckets|) {
        MaskIsMod(hash(k), j);
      }
    } else {
      LoadStep(t, hash, ops[0]);
      StepWellFormed(t, hash, ops[0]);
      LoadBound(Step(t, hash, ops[0]).0, hash, ops[1..]);
    }
  }

  // ----- the table as a cache -----

  /** A table together with the time at which each key was last used: inserted, or, when
      move-to-front is on, found by a get or a replace. */
  datatype Traced = Traced(t: Table, clock: nat, used: map<Key, nat>)

  predicate Uses(t: Table, op: Op) {
    match op
    case OpInsert(k, _) => !Has(t, k)
    case OpGet(k) => t.heuristic == MoveToFront && Has(t, k)
    case OpReplace(k, _) => t.heuristic == MoveToFront && Has(t, k)
    case _ => false
  }

  function TracedStep(s: Traced, hash: Key -> nat, op: Op): Traced
    requires |s.t.buckets| > 0
  {
    Traced(Step(s.t, hash, op).0, s.clock + 1, if Uses(s.t, op) then s.used[op.k := s.clock] else s.used)
  }

  predicate CacheOp(op: Op) {
    op.OpInsert? || op.OpGet? || op.OpReplace? || op.OpRemove?
  }

  ghost predicate Recent(c: seq<Key>, used: map<Key, nat>, clock: nat) {
    && (forall k :: k in c ==> k in used && used[k] < clock)
    && (forall i, j :: 0 <= i < j < |c| ==> used[c[i]] > used[c[j]])
  }

  /** Each chain is ordered by last use, most recent first, and within the limit. */
  ghost predicate Cache(s: Traced, hash: Key -> nat) {
    && WellFormed(s.t, hash) && s.t.limit >= 1 && !s.t.autoRehash && s.t.heuristic != Transpose
    && (forall b :: 0 <= b < |s.t.buckets| ==> |s.t.buckets[b]| <= s.t.limit && Recent(s.t.buckets[b], s.used, s.clock))
  }

  lemma RecentWithout(c: seq<Key>, i: nat, used: map<Key, nat>, clock: nat)
    requires i < |c| && NoDup(c) && Recent(c, used, clock)
    ensures Recent(Without(c, i), used, clock + 1)
  {
    WithoutMembers(c, i);
    var w := Without(c, i);
    assert forall j :: 0 <= j < |w| ==> w[j] == c[if j < i then j else j + 1];
  }

  /** A key put in front with the current time, if it was not in the chain. */
  lemma RecentFront(c: seq<Key>, k: Key, used: map<Key, nat>, clock: nat)
    requires Recent(c, used, clock) && k !in c
    ensures Recent([k] + c, used[k := clock], clock + 1)
  {
    var d := [k] + c;
    var used' := used[k := clock];
    forall i, j | 0 <= i < j < |d| ensures used'[d[i]] > used'[d[j]] {
      assert d[j] == c[j - 1] && c[j - 1] in c;
      if i > 0 { assert d[i] == c[i - 1] && c[i - 1] in c; }
    }
  }

  lemma RecentOther(c: seq<Key>, k: Key, used: map<Key, nat>, clock: nat)
    requires Recent(c, used, clock) && k !in c
    ensures Recent(c, used[k := clock], clock + 1)
  {
  }

  lemma RecentLater(c: seq<Key>, used: map<Key, nat>, clock: nat)
    requires Recent(c, used, clock)
    ensures Recent(c, used, clock + 1)
  {
  }

  lemma RecentFronted(c: seq<Key>, i: nat, used: map<Key, nat>, clock: nat)
    requires i < |c| && NoDup(c) && Recent(c, used, clock)
    ensures Recent(Fronted(c, i), used[c[i] := clock], clock + 1)
  {
    WithoutMembers(c, i);
    var w := Without(c, i);
    assert forall j :: 0 <= j < |w| ==> w[j] == c[if j < i then j else j + 1];
    assert Recent(w, used, clock);
    RecentFront(w, c[i], used, clock);
    assert Fronted(c, i) == [c[i]] + w;
  }

  /** A search for k, successful or not. */
  lemma SearchCached(s: Traced, hash: Key -> nat, k: Key)
    requires Cache(s, hash)
    ensures var t' := Searched(s.t, hash, k);
            var used' := if s.t.heuristic == MoveToFront && Has(s.t, k) then s.used[k := s.clock] else s.used;
            forall b :: 0 <= b < |t'.buckets| ==>
              |t'.buckets[b]| <= s.t.limit && Recent(t'.buckets[b], used', s.clock + 1)
  {
    hide Recent;
    var t := s.t;
    var t' := Searched(t, hash, k);
    var slot := Slot(hash, k, |t.buckets|);
    var i := Find(t.buckets[slot], k);
    var moved := t.heuristic == MoveToFront && Has(t, k);
    SearchedWellFormed(t, hash, k);
    forall b | 0 <= b < |t'.buckets|
      ensures Recent(t'.buckets[b], if moved then s.used[k := s.clock] else s.used, s.clock + 1)
    {
      var c := t.buckets[b];
      if moved && b == slot {
        RecentFronted(c, i, s.used, s.clock);
      } else if moved {
        assert k !in c;
        RecentOther(c, k, s.used, s.clock);
      } else {
        RecentLater(c, s.used, s.clock);
      }
    }
  }

  /** The chain an insert adds to, after the eviction if there is one. */
  lemma EvictionCached(s: Traced, hash: Key -> nat, k: Key)
    requires Cache(s, hash) && !Has(s.t, k)
    ensures var out := Victim(s.t, hash, k);
            var t' := if out == [] then s.t else Dropped(s.t, hash, out[0]);
            var slot := Slot(hash, k, |s.t.buckets|);
            && WellFormed(t', hash) && |t'.buckets| == |s.t.buckets| && !Has(t', k)
            && |t'.buckets[slot]| < s.t.limit
            && (forall b :: 0 <= b < |t'.buckets| && b != slot ==> t'.buckets[b] == s.t.buckets[b])
            && Recent(t'.buckets[slot], s.used, s.clock)
  {
    var slot := Slot(hash, k, |s.t.buckets|);
    var c := s.t.buckets[slot];
    var out := Victim(s.t, hash, k);
    if out != [] {
      VictimPresent(s.t, hash, k);
      DroppedWellFormed(s.t, hash, out[0]);
      LastIsFound(c);
      assert Dropped(s.t, hash, out[0]).buckets[slot] == c[..|c| - 1];
    }
  }

  lemma InsertIsLinked(t: Table, hash: Key -> nat, k: Key, v: Ptr)
    requires |t.buckets| > 0 && !Has(t, k) && !t.autoRehash
    ensures |Evicted(t, hash, k).buckets| == |t.buckets|
    ensures Step(t, hash, OpInsert(k, v)).0 == Linked(Evicted(t, hash, k), hash, k, v)
  {
  }

  /** One chain after an insert. */
  lemma LinkedChain(t: Table, hash: Key -> nat, k: Key, v: Ptr, limit: nat, used: map<Key, nat>, clock: nat, b: nat)
    requires b < |t.buckets| && k !in t.buckets[b] && Recent(t.buckets[b], used, clock)
    requires if b == Slot(hash, k, |t.buckets|) then |t.buckets[b]| < limit else |t.buckets[b]| <= limit
    ensures var c := Linked(t, hash, k, v).buckets[b];
            |c| <= limit && Recent(c, used[k := clock], clock + 1)
  {
    hide Recent;
    if b == Slot(hash, k, |t.buckets|) { RecentFront(t.buckets[b], k, used, clock); }
    else { RecentOther(t.buckets[b], k, used, clock); }
  }

  ghost predicate ChainsRecent(t: Table, limit: nat, used: map<Key, nat>, clock: nat) {
    forall b :: 0 <= b < |t.buckets| ==> |t.buckets[b]| <= limit && Recent(t.buckets[b], used, clock)
  }

  lemma InsertChains(s: Traced, hash: Key -> nat, k: Key, v: Ptr)
    requires Cache(s, hash) && !Has(s.t, k)
    ensures |Evicted(s.t, hash, k).buckets| > 0
    ensures ChainsRecent(Linked(Evicted(s.t, hash, k), hash, k, v), s.t.limit, s.used[k := s.clock], s.clock + 1)
  {
    EvictionCached(s, hash, k);
    hide Recent, WellFormed, Dropped, Victim, Linked;
    NotEmpty(s.t, hash);
    var t1 := Evicted(s.t, hash, k);
    LinkedShape(t1, hash, k, v);
    forall b | 0 <= b < |t1.buckets|
      ensures var c := Linked(t1, hash, k, v).buckets[b];
              |c| <= s.t.limit && Recent(c, s.used[k := s.clock], s.clock + 1)
    {
      KeyNotIn(t1, hash, k, b);
      LinkedChain(t1, hash, k, v, s.t.limit, s.used, s.clock, b);
    }
  }

  lemma LinkedShape(t: Table, hash: Key -> nat, k: Key, v: Ptr)
    requires |t.buckets| > 0
    ensures |Linked(t, hash, k, v).buckets| == |t.buckets|
  {
  }

  lemma InsertTraced(s: Traced, hash: Key -> nat, k: Key, v: Ptr)
    requires Cache(s, hash) && !Has(s.t, k)
    ensures |Evicted(s.t, hash, k).buckets| > 0
    ensures TracedStep(s, hash, OpInsert(k, v)) ==
            Traced(Linked(Evicted(s.t, hash, k), hash, k, v), s.clock + 1, s.used[k := s.clock])
    ensures var t' := Linked(Evicted(s.t, hash, k), hash, k, v);
            t'.limit == s.t.limit && t'.autoRehash == s.t.autoRehash && t'.heuristic == s.t.heuristic
  {
    InsertIsLinked(s.t, hash, k, v);
    KeepsSettings(s, hash, k, Victim(s.t, hash, k));
  }

  lemma InsertCached(s: Traced, hash: Key -> nat, k: Key, v: Ptr)
    requires Cache(s, hash) && !Has(s.t, k)
    ensures Cache(TracedStep(s, hash, OpInsert(k, v)), hash)
  {
    hide Recent, WellFormed, Evicted, Linked, Step, TracedStep;
    NotEmpty(s.t, hash);
    StepWellFormed(s.t, hash, OpInsert(k, v));
    InsertTraced(s, hash, k, v);
    InsertChains(s, hash, k, v);
    TracedTable(s, hash, OpInsert(k, v));
  }

  lemma TracedTable(s: Traced, hash: Key -> nat, op: Op)
    requires |s.t.buckets| > 0
    ensures TracedStep(s, hash, op).t == Step(s.t, hash, op).0
  {
  }

  lemma KeyNotIn(t: Table, hash: Key -> nat, k: Key, b: nat)
    requires WellFormed(t, hash) && !Has(t, k) && b < |t.buckets|
    ensures k !in t.buckets[b]
  {
  }

  lemma KeepsSettings(s: Traced, hash: Key -> nat, k: Key, out: seq<Key>)
    requires |s.t.buckets| > 0 && |out| <= 1
    ensures var t1 := if out == [] then s.t else Dropped(s.t, hash, out[0]);
            t1.limit == s.t.limit && t1.autoRehash == s.t.autoRehash && t1.heuristic == s.t.heuristic
  {
  }

  lemma RemoveCached(s: Traced, hash: Key -> nat, k: Key)
    requires Cache(s, hash)
    ensures Cache(TracedStep(s, hash, OpRemove(k)), hash)
  {
    hide Recent;
    DroppedWellFormed(s.t, hash, k);
    var t' := Dropped(s.t, hash, k);
    forall b | 0 <= b < |t'.buckets| ensures |t'.buckets[b]| <= s.t.limit &&
        Recent(t'.buckets[b], s.used, s.clock + 1) {
      var c := s.t.buckets[b];
      RecentLater(c, s.used, s.clock);
      if t'.buckets[b] != c { RecentWithout(c, Find(c, k), s.used, s.clock); }
    }
  }

  /** Every operation of a cache keeps the chains in order of last use and within the limit. */
  lemma CacheStep(s: Traced, hash: Key -> nat, op: Op)
    requires Cache(s, hash) && CacheOp(op)
    ensures Cache(TracedStep(s, hash, op), hash)
  {
    hide Recent, WellFormed, Dropped, Placed, Rehash;
    NotEmpty(s.t, hash);
    StepWellFormed(s.t, hash, op);
    match op
    case OpInsert(k, v) =>
      if Has(s.t, k) {
        forall b | 0 <= b < |s.t.buckets| ensures Recent(s.t.buckets[b], s.used, s.clock + 1) {
          RecentLater(s.t.buckets[b], s.used, s.clock);
        }
      } else {
        InsertCached(s, hash, k, v);
      }
    case OpGet(k) => SearchCached(s, hash, k);
    case OpReplace(k, v) => SearchCached(s, hash, k); FoundIsHad(s.t, k);
    case OpRemove(k) => RemoveCached(s, hash, k);
  }

  lemma FoundIsHad(t: Table, k: Key)
    ensures Has(t, k) <==> Find(KeysOf(t.order), k) < |t.order|
  {
  }

  function TracedRun(s: Traced, hash: Key -> nat, ops: seq<Op>): Traced
    requires WellFormed(s.t, hash)
    decreases |ops|
  {
    if ops == [] then s
    else
      StepWellFormed(s.t, hash, ops[0]);
      TracedRun(TracedStep(s, hash, ops[0]), hash, ops[1..])
  }

  /** The trace only watches: its table is that of the run. */
  lemma {:induction false} TracedRunIsRun(s: Traced, hash: Key -> nat, ops: seq<Op>)
    requires WellFormed(s.t, hash)
    ensures TracedRun(s, hash, ops).t == Run(s.t, hash, ops).0
    decreases |ops|
  {
    hide Step, WellFormed;
    if ops != [] {
      NotEmpty(s.t, hash);
      StepWellFormed(s.t, hash, ops[0]);
      TracedRunIsRun(TracedStep(s, hash, ops[0]), hash, ops[1..]);
    }
  }

  /** In every reachable state of a cache, set up on an empty table. */
  lemma {:induction false} CacheRun(s: Traced, hash: Key -> nat, ops: seq<Op>)
    requires Cache(s, hash) && (forall i :: 0 <= i < |ops| ==> CacheOp(ops[i]))
    ensures Cache(TracedRun(s, hash, ops), hash)
    decreases |ops|
  {
    hide TracedStep, CacheOp;
    if ops != [] {
      CacheStep(s, hash, ops[0]);
      StepWellFormed(s.t, hash, ops[0]);
      CacheRun(TracedStep(s, hash, ops[0]), hash, ops[1..]);
    }
  }

  /** A new table whose limit, and perhaps heuristic, have been set. */
  lemma EmptyCache(n: nat, hash: Key -> nat, limit: nat, h: Heuristic)
    requires limit >= 1 && h != Transpose
    ensures Cache(Traced(Create(n).(limit := limit, heuristic := h), 0, map[]), hash)
  {
    BlankWellFormed(RoundUp(n, 1), hash);
  }

  /** An insert into a full chain evicts exactly one entry, the one of that chain used longest ago;
      an insert into any other chain evicts nothing. */
  lemma EvictsLeastRecent(s: Traced, hash: Key -> nat, k: Key, v: Ptr)
    requires Cache(s, hash) && !Has(s.t, k)
    ensures var c := s.t.buckets[Slot(hash, k, |s.t.buckets|)];
            var t' := Step(s.t, hash, OpInsert(k, v)).0;
            if |c| < s.t.limit
            then t'.order == s.t.order + [(k, v)]
            else
              var out := c[|c| - 1];
              && (forall x :: x in c && x != out ==> s.used[x] > s.used[out])
              && Find(KeysOf(s.t.order), out) < |s.t.order|
              && t'.order == Without(s.t.order, Find(KeysOf(s.t.order), out)) + [(k, v)]
              && (forall x :: Has(t', x) <==> x == k || (Has(s.t, x) && x != out))
  {
    hide Dropped, Linked, WellFormed, Recent, NoDup, Step, TracedStep;
    NotEmpty(s.t, hash);
    InsertIsLinked(s.t, hash, k, v);
    var c := s.t.buckets[Slot(hash, k, |s.t.buckets|)];
    if |c| >= s.t.limit {
      var out := c[|c| - 1];
      VictimPresent(s.t, hash, k);
      DroppedWellFormed(s.t, hash, out);
      LinkedHas(Dropped(s.t, hash, out), hash, k, v);
      DroppedOrder(s.t, hash, out);
      LastIsOldest(c, s.used, s.clock);
    } else {
      LinkedHas(s.t, hash, k, v);
    }
  }

  lemma DroppedOrder(t: Table, hash: Key -> nat, k: Key)
    requires |t.buckets| > 0 && Has(t, k)
    ensures Find(KeysOf(t.order), k) < |t.order|
    ensures Dropped(t, hash, k).order == Without(t.order, Find(KeysOf(t.order), k))
  {
  }

  lemma LinkedHas(t: Table, hash: Key -> nat, k: Key, v: Ptr)
    requires WellFormed(t, hash) && !Has(t, k)
    ensures |t.buckets| > 0 && Linked(t, hash, k, v).order == t.order + [(k, v)]
    ensures forall x :: Has(Linked(t, hash, k, v), x) <==> x == k || Has(t, x)
  {
    LinkedWellFormed(t, hash, k, v);
  }

  lemma LastIsOldest(c: seq<Key>, used: map<Key, nat>, clock: nat)
    requires Recent(c, used, clock) && c != []
    ensures forall x :: x in c && x != c[|c| - 1] ==> used[x] > used[c[|c| - 1]]
  {
    forall x | x in c && x != c[|c| - 1] ensures used[x] > used[c[|c| - 1]] {
      var i :| 0 <= i < |c| && c[i] == x;
    }
  }
}
