/** What happens inside the chains of libghthash: which entry a search moves, in which order entries lie,
    and which one a bounded table gives up. */
module GhtChains {
  import opened Sequences
  import opened GhtSpec
  import opened GhtProps

  // ----- what a search moves -----

  /** The chain c' is c with the entry at place i moved as the heuristic says. */
  ghost predicate Moved(h: Heuristic, c: seq<Key>, c': seq<Key>, i: nat)
    requires i < |c|
  {
    && |c'| == |c|
    && (h == NoHeuristic || i == 0 ==> c' == c)
    && (h == Transpose && i > 0 ==>
          && c'[i - 1] == c[i] && c'[i] == c[i - 1]
          && (forall j :: 0 <= j < |c| && j != i && j != i - 1 ==> c'[j] == c[j]))
    && (h == MoveToFront && i > 0 ==>
          && c'[0] == c[i]
          && (forall j :: 0 < j <= i ==> c'[j] == c[j - 1]) && (forall j :: i < j < |c| ==> c'[j] == c[j]))
  }

  predicate Searches(op: Op, k: Key) {
    (op.OpGet? || op.OpReplace?) && op.k == k
  }

  /** Same chains but for that of k, same settings. */
  ghost predicate OnlyChain(t: Table, t': Table, b: nat) {
    && |t'.buckets| == |t.buckets| && (forall d :: 0 <= d < |t.buckets| && d != b ==> t'.buckets[d] == t.buckets[d])
    && t'.heuristic == t.heuristic && t'.autoRehash == t.autoRehash && t'.limit == t.limit
  }

  /** A get or a replace of a present key moves its entry within its chain by the heuristic of the table,
      and moves nothing else. */
  lemma SearchMoves(t: Table, hash: Key -> nat, k: Key, op: Op)
    requires WellFormed(t, hash) && Has(t, k) && Searches(op, k)
    ensures var b, t' := Slot(hash, k, |t.buckets|), Step(t, hash, op).0;
            && OnlyChain(t, t', b)
            && Find(t.buckets[b], k) < |t.buckets[b]|
            && Moved(t.heuristic, t.buckets[b], t'.buckets[b], Find(t.buckets[b], k))
  {
    hide Moved, Touch;
    var b := Slot(hash, k, |t.buckets|);
    assert k in t.buckets[b];
    TouchMoves(t.heuristic, t.buckets[b], Find(t.buckets[b], k));
  }

  lemma TouchMoves(h: Heuristic, c: seq<Key>, i: nat)
    requires i < |c|
    ensures Moved(h, c, Touch(h, c, i), i)
  {
  }

  lemma SearchOfAbsent(t: Table, hash: Key -> nat, k: Key, op: Op)
    requires WellFormed(t, hash) && !Has(t, k) && Searches(op, k)
    ensures Step(t, hash, op) == (t, NULL)
  {
    assert k !in t.buckets[Slot(hash, k, |t.buckets|)];
  }

  function Gets(k: Key, n: nat): seq<Op> {
    seq(n, _ => OpGet(k))
  }

  /** Under transpose every get brings the key one place nearer to the front of its chain. */
  lemma {:induction false} TransposeRises(t: Table, hash: Key -> nat, k: Key, n: nat)
    requires WellFormed(t, hash) && Has(t, k) && t.heuristic == Transpose
    ensures var b, t' := Slot(hash, k, |t.buckets|), Run(t, hash, Gets(k, n)).0;
            && |t'.buckets| == |t.buckets|
            && var i := Find(t.buckets[b], k);
               Find(t'.buckets[b], k) == if n <= i then i - n else 0
    decreases n
  {
    if n > 0 {
      var b := Slot(hash, k, |t.buckets|);
      assert Gets(k, n)[0] == OpGet(k) && Gets(k, n)[1..] == Gets(k, n - 1);
      SearchMoves(t, hash, k, OpGet(k));
      StepWellFormed(t, hash, OpGet(k));
      var t1 := Step(t, hash, OpGet(k)).0;
      SearchKeepsHas(t, hash, k);
      var i := Find(t.buckets[b], k);
      FoundAt(t1.buckets[b], k, if i > 0 then i - 1 else 0, t1, hash, b);
      TransposeRises(t1, hash, k, n - 1);
    }
  }

  lemma SearchKeepsHas(t: Table, hash: Key -> nat, k: Key)
    requires WellFormed(t, hash)
    ensures Step(t, hash, OpGet(k)).0.order == t.order
  {
    SearchedWellFormed(t, hash, k);
  }

  lemma FoundAt(c: seq<Key>, k: Key, i: nat, t: Table, hash: Key -> nat, b: nat)
    requires WellFormed(t, hash) && b < |t.buckets| && c == t.buckets[b] && i < |c| && c[i] == k
    ensures Find(c, k) == i
  {
    assert NoDup(c);
  }

  /** A setting changes itself only, and no other operation changes a setting. */
  lemma SettingsExactly(t: Table, hash: Key -> nat, op: Op)
    requires WellFormed(t, hash)
    ensures |t.buckets| > 0
    ensures var t' := Step(t, hash, op).0;
            && t'.heuristic == (if op.OpHeuristic? then op.h else t.heuristic)
            && t'.autoRehash == (if op.OpAutoRehash? then op.on else t.autoRehash)
            && t'.limit == (if op.OpLimit? then op.limit else t.limit)
            && (op.OpHeuristic? || op.OpAutoRehash? || op.OpLimit? ==>
                  t'.buckets == t.buckets && t'.order == t.order)
  {
    hide PlaceAll, Find, UntilNull, RoundUp;
  }

  // ----- what a get gives after each operation -----

  /** Whatever the heuristic, the limit and the rehash that is set off: an inserted entry is found, a replaced
      one has its new data, a removed one is gone. */
  lemma GetAfter(t: Table, hash: Key -> nat, op: Op)
    requires WellFormed(t, hash) && (op.OpInsert? || op.OpReplace? || op.OpRemove?)
    ensures WellFormed(Step(t, hash, op).0, hash) && |Step(t, hash, op).0.buckets| > 0
    ensures var found := Step(Step(t, hash, op).0, hash, OpGet(op.k)).1;
            match op
            case OpInsert(k, v) => found == if Has(t, k) then DataOf(t.order, k) else v
            case OpReplace(k, v) => found == if Has(t, k) then v else NULL
            case OpRemove(k) => found == NULL
            case _ => true
  {
    hide Rehash, UntilNull, Evicted, Searched;
    StepWellFormed(t, hash, op);
    var t' := Step(t, hash, op).0;
    NotEmpty(t', hash);
    match op
    case OpInsert(k, v) => if !Has(t, k) { DataAt(t', hash, |t'.order| - 1, k, v); }
    case OpReplace(k, v) =>
      ReplaceWellFormed(t, hash, k, v);
      if Has(t, k) { DataAt(t', hash, Find(KeysOf(t.order), k), k, v); }
    case OpRemove(k) => DroppedWellFormed(t, hash, k);
  }

  lemma DataAt(t: Table, hash: Key -> nat, i: nat, k: Key, v: Ptr)
    requires WellFormed(t, hash) && i < |t.order| && t.order[i] == (k, v)
    ensures DataOf(t.order, k) == v
  {
    assert KeysOf(t.order)[i] == k;
  }

  // ----- chains by age -----

  /** x was inserted after y. */
  ghost predicate Younger(order: seq<(Key, Ptr)>, x: Key, y: Key) {
    forall p, q :: 0 <= p < |order| && 0 <= q < |order| && order[p].0 == x && order[q].0 == y ==> p > q
  }

  /** Every chain has its entries in order of insertion, newest first. */
  ghost predicate NewestFirst(t: Table) {
    forall b, i, j :: 0 <= b < |t.buckets| && 0 <= i < j < |t.buckets[b]| ==>
      Younger(t.order, t.buckets[b][i], t.buckets[b][j])
  }

  lemma LinkedNewestFirst(t: Table, hash: Key -> nat, k: Key, v: Ptr)
    requires WellFormed(t, hash) && NewestFirst(t) && !Has(t, k)
    ensures NewestFirst(Linked(t, hash, k, v))
  {
    var t', s := Linked(t, hash, k, v), Slot(hash, k, |t.buckets|);
    forall b, i, j | 0 <= b < |t'.buckets| && 0 <= i < j < |t'.buckets[b]|
      ensures Younger(t'.order, t'.buckets[b][i], t'.buckets[b][j])
    {
      var c := t.buckets[b];
      if b != s {
        AppendYounger(t, hash, k, v, b, i, j);
      } else if i > 0 {
        AppendYounger(t, hash, k, v, b, i - 1, j - 1);
      } else {
        assert t'.buckets[b][j] == c[j - 1] && c[j - 1] in c;
      }
    }
  }

  lemma AppendYounger(t: Table, hash: Key -> nat, k: Key, v: Ptr, b: nat, i: nat, j: nat)
    requires WellFormed(t, hash) && NewestFirst(t) && !Has(t, k) && b < |t.buckets| && i < j < |t.buckets[b]|
    ensures Younger(t.order + [(k, v)], t.buckets[b][i], t.buckets[b][j])
  {
    var c := t.buckets[b];
    assert Younger(t.order, c[i], c[j]);
    assert c[i] in c && c[j] in c;
    assert c[i] in KeysOf(t.order) && c[j] in KeysOf(t.order);
  }

  lemma DroppedNewestFirst(t: Table, hash: Key -> nat, k: Key)
    requires WellFormed(t, hash) && NewestFirst(t)
    ensures NewestFirst(Dropped(t, hash, k))
  {
    if Has(t, k) {
      FoundInChain(t, hash, k);
      hide Find, WellFormed, Dropped;
      var t', s := Dropped(t, hash, k), Slot(hash, k, |t.buckets|);
      var m, g := Find(KeysOf(t.order), k), Find(t.buckets[s], k);
      forall b, i, j | 0 <= b < |t'.buckets| && 0 <= i < j < |t'.buckets[b]|
        ensures Younger(t'.order, t'.buckets[b][i], t'.buckets[b][j])
      {
        var i' := if b == s && i >= g then i + 1 else i;
        var j' := if b == s && j >= g then j + 1 else j;
        assert Younger(t.order, t.buckets[b][i'], t.buckets[b][j']);
        WithoutYounger(t.order, m, t.buckets[b][i'], t.buckets[b][j']);
      }
    }
  }

  lemma WithoutYounger(order: seq<(Key, Ptr)>, m: nat, x: Key, y: Key)
    requires m < |order| && Younger(order, x, y)
    ensures Younger(Without(order, m), x, y)
  {
    var w := Without(order, m);
    assert forall p :: 0 <= p < |w| ==> w[p] == order[if p < m then p else p + 1];
  }

  lemma PlacedNewestFirst(t: Table, hash: Key -> nat, k: Key, v: Ptr)
    requires WellFormed(t, hash) && NewestFirst(t) && !Has(t, k)
    ensures NewestFirst(Placed(t, hash, k, v))
  {
    hide WellFormed, NewestFirst, Dropped, Linked;
    NotEmpty(t, hash);
    var out := Victim(t, hash, k);
    if out != [] {
      DroppedWellFormed(t, hash, out[0]);
      DroppedNewestFirst(t, hash, out[0]);
      LinkedNewestFirst(Dropped(t, hash, out[0]), hash, k, v);
    } else {
      LinkedNewestFirst(t, hash, k, v);
    }
  }

  lemma {:induction false} PlaceAllNewestFirst(t: Table, hash: Key -> nat, entries: seq<(Key, Ptr)>)
    requires WellFormed(t, hash) && NewestFirst(t) && t.limit == 0 && NoDup(KeysOf(t.order + entries))
    ensures |t.buckets| > 0 && NewestFirst(PlaceAll(t, hash, entries))
    decreases |entries|
  {
    hide WellFormed, NoDup, Placed, KeysOf, NewestFirst;
    NotEmpty(t, hash);
    if entries != [] {
      var n := |entries| - 1;
      PlaceAllLast(t, hash, entries);
      AllButLast(t.order, entries);
      PlaceAllOrder(t, hash, entries[..n]);
      PlaceAllNewestFirst(t, hash, entries[..n]);
      PlacedNewestFirst(PlaceAll(t, hash, entries[..n]), hash, entries[n].0, entries[n].1);
    }
  }

  /** A rehash leaves every chain in order of insertion, whatever it was before, and no setting changed. */
  lemma RehashNewestFirst(t: Table, hash: Key -> nat, n: nat)
    requires WellFormed(t, hash)
    ensures var t' := Rehash(t, hash, n);
            && NewestFirst(t')
            && t'.heuristic == t.heuristic && t'.autoRehash == t.autoRehash && t'.limit == t.limit
  {
    hide PlaceAll, RoundUp, UntilNull;
    KeptNoDup(t, hash);
    BlankWellFormed(RoundUp(n, 1), hash);
    assert Create(n).order + UntilNull(t.order) == UntilNull(t.order);
    PlaceAllNewestFirst(Create(n), hash, UntilNull(t.order));
  }

  predicate NoMoves(op: Op) {
    op.OpHeuristic? ==> op.h == NoHeuristic
  }

  /** Without a heuristic the chains stay in order of insertion, limits and rehashes notwithstanding. */
  lemma StepNewestFirst(t: Table, hash: Key -> nat, op: Op)
    requires WellFormed(t, hash) && NewestFirst(t) && t.heuristic == NoHeuristic && NoMoves(op)
    ensures NewestFirst(Step(t, hash, op).0) && Step(t, hash, op).0.heuristic == NoHeuristic
  {
    hide PlaceAll, RoundUp, UntilNull, Find, Rehash, Without;
    NotEmpty(t, hash);
    match op
    case OpInsert(k, v) =>
      if !Has(t, k) { InsertNewestFirst(t, hash, k, v); }
    case OpGet(k) =>
    case OpReplace(k, v) => ReplaceNewestFirst(t, hash, k, v);
    case OpRemove(k) => DroppedNewestFirst(t, hash, k);
    case OpRehash(n) => RehashNewestFirst(t, hash, n);
    case _ =>
  }

  lemma RoomierKeeps(t: Table, hash: Key -> nat, k: Key)
    requires WellFormed(t, hash) && NewestFirst(t) && !Has(t, k)
    ensures var u := Roomier(t, hash);
            WellFormed(u, hash) && NewestFirst(u) && !Has(u, k) && u.heuristic == t.heuristic && u.limit == t.limit
  {
    hide WellFormed, NewestFirst, Rehash, Has;
    NotEmpty(t, hash);
    RehashKeeps(t, hash, 2 * |t.buckets|);
    RehashNewestFirst(t, hash, 2 * |t.buckets|);
    RehashHas(t, hash, 2 * |t.buckets|, k);
  }

  lemma InsertNewestFirst(t: Table, hash: Key -> nat, k: Key, v: Ptr)
    requires WellFormed(t, hash) && NewestFirst(t) && !Has(t, k)
    ensures |t.buckets| > 0 && NewestFirst(Insert(t, hash, k, v).0)
    ensures Insert(t, hash, k, v).0.heuristic == t.heuristic
  {
    hide WellFormed, NewestFirst, Roomier;
    NotEmpty(t, hash);
    RoomierKeeps(t, hash, k);
    NotEmpty(Roomier(t, hash), hash);
    PlacedNewestFirst(Roomier(t, hash), hash, k, v);
  }

  lemma ReplaceNewestFirst(t: Table, hash: Key -> nat, k: Key, v: Ptr)
    requires WellFormed(t, hash) && NewestFirst(t) && t.heuristic == NoHeuristic
    ensures NewestFirst(Replace(t, hash, k, v).0)
  {
    ReplaceWellFormed(t, hash, k, v);
    var t' := Replace(t, hash, k, v).0;
    forall b, i, j | 0 <= b < |t'.buckets| && 0 <= i < j < |t'.buckets[b]|
      ensures Younger(t'.order, t'.buckets[b][i], t'.buckets[b][j])
    {
      assert Younger(t.order, t.buckets[b][i], t.buckets[b][j]);
      assert forall p :: 0 <= p < |t'.order| ==> t'.order[p].0 == KeysOf(t.order)[p];
    }
  }

  lemma {:induction false} RunNewestFirst(t: Table, hash: Key -> nat, ops: seq<Op>)
    requires WellFormed(t, hash) && NewestFirst(t) && t.heuristic == NoHeuristic
    requires forall i :: 0 <= i < |ops| ==> NoMoves(ops[i])
    ensures WellFormed(Run(t, hash, ops).0, hash) && NewestFirst(Run(t, hash, ops).0)
    ensures Run(t, hash, ops).0.heuristic == NoHeuristic
    decreases |ops|
  {
    hide WellFormed, NewestFirst, Step, NoMoves;
    if ops != [] {
      NotEmpty(t, hash);
      StepWellFormed(t, hash, ops[0]);
      StepNewestFirst(t, hash, ops[0]);
      RunNewestFirst(Step(t, hash, ops[0]).0, hash, ops[1..]);
    }
  }

  // ----- which entry a bounded table gives up -----

  /** p is the place of the entry of bucket b that was inserted first. */
  ghost predicate Earliest(t: Table, hash: Key -> nat, b: nat, p: nat)
    requires |t.buckets| > 0
  {
    && p < |t.order| && Slot(hash, t.order[p].0, |t.buckets|) == b
    && (forall q :: 0 <= q < p ==> Slot(hash, t.order[q].0, |t.buckets|) != b)
  }

  lemma LastIsEarliest(t: Table, hash: Key -> nat, b: nat)
    requires WellFormed(t, hash) && NewestFirst(t) && b < |t.buckets| && t.buckets[b] != []
    ensures Earliest(t, hash, b, Find(KeysOf(t.order), t.buckets[b][|t.buckets[b]| - 1]))
  {
    var c := t.buckets[b];
    var n := |c| - 1;
    var p := Find(KeysOf(t.order), c[n]);
    assert c[n] in c;
    forall i | 0 <= i < n ensures Younger(t.order, c[i], c[n]) {}
    forall q | 0 <= q < |t.order| && KeysOf(t.order)[q] in c ensures p <= q {
      var i :| 0 <= i < |c| && c[i] == KeysOf(t.order)[q];
      assert i < n ==> Younger(t.order, c[i], c[n]);
    }
  }

  /** An insert of an absent key, after the rehash it may set off: a full chain gives up the entry that was
      inserted first, and otherwise nothing goes. */
  lemma EvictsFirstInserted(t: Table, hash: Key -> nat, k: Key, v: Ptr)
    requires WellFormed(t, hash) && NewestFirst(t) && !Has(t, k)
    ensures |t.buckets| > 0 && |Roomier(t, hash).buckets| > 0
    ensures var u := Roomier(t, hash);
            var b := Slot(hash, k, |u.buckets|);
            var order := Step(t, hash, OpInsert(k, v)).0.order;
            && b < |u.buckets|
            && if u.limit == 0 || |u.buckets[b]| < u.limit
               then order == u.order + [(k, v)]
               else exists p :: Earliest(u, hash, b, p) && order == Without(u.order, p) + [(k, v)]
  {
    NotEmpty(t, hash);
    RoomierKeeps(t, hash, k);
    var u := Roomier(t, hash);
    NotEmpty(u, hash);
    hide WellFormed, NewestFirst, Roomier, Dropped, Find;
    var b := Slot(hash, k, |u.buckets|);
    var c := u.buckets[b];
    if u.limit != 0 && |c| >= u.limit {
      var out := c[|c| - 1];
      LastIsEarliest(u, hash, b);
      VictimPresent(u, hash, k);
      DroppedOrder(u, hash, out);
      assert Step(t, hash, OpInsert(k, v)).0.order == Dropped(u, hash, out).order + [(k, v)];
    }
  }

  /** In every state reached from a new table while no heuristic is chosen, with limits set and changed at
      any time. */
  lemma NewTableEvictsFirstInserted(n: nat, hash: Key -> nat, ops: seq<Op>, k: Key, v: Ptr)
    requires forall i :: 0 <= i < |ops| ==> !ops[i].OpHeuristic?
    ensures WellFormed(Create(n), hash)
    ensures var t := Run(Create(n), hash, ops).0;
            && |t.buckets| > 0 && |Roomier(t, hash).buckets| > 0
            && (!Has(t, k) ==>
                  var u := Roomier(t, hash);
                  var b := Slot(hash, k, |u.buckets|);
                  var order := Step(t, hash, OpInsert(k, v)).0.order;
                  && b < |u.buckets|
                  && if u.limit == 0 || |u.buckets[b]| < u.limit
                     then order == u.order + [(k, v)]
                     else exists p :: Earliest(u, hash, b, p) && order == Without(u.order, p) + [(k, v)])
  {
    hide WellFormed, Step, Roomier, Earliest;
    BlankWellFormed(RoundUp(n, 1), hash);
    RunNewestFirst(Create(n), hash, ops);
    var t := Run(Create(n), hash, ops).0;
    RoomierNotEmpty(t, hash);
    if !Has(t, k) { EvictsFirstInserted(t, hash, k, v); }
  }

  lemma RoomierNotEmpty(t: Table, hash: Key -> nat)
    requires WellFormed(t, hash)
    ensures |t.buckets| > 0 && |Roomier(t, hash).buckets| > 0
  {
    RehashKeeps(t, hash, 2 * |t.buckets|);
  }
}
