/** HASH_SRT: the merge sort in place on the application list. */
module UthashSort {
  import opened Sequences
  import opened MergeSort
  import opened UthashSpec
  import opened UthashLinks

  /** The output list so far: its last element has no next link yet. */
  ghost predicate Output(out: seq<Elem>, list: Elem?, tail: Elem?)
    reads out`next, out`prev
  {
    && NoDup(out) && list == At(out, 0) && tail == At(out, |out| - 1)
    && (forall i {:trigger out[i].next} :: 0 <= i < |out| - 1 ==> out[i].next == out[i + 1])
    && (forall i {:trigger out[i].prev} :: 0 <= i < |out| ==> out[i].prev == At(out, i - 1))
  }

  /** j is still to be merged: in the left run from p on, or at or after q. */
  predicate Left(j: int, p: nat, m: nat, q: nat, n: nat) {
    p <= j < m || q <= j < n
  }

  /** What is still to be merged has its old links and is not in the output. */
  ghost predicate Remaining(s: seq<Elem>, p: nat, m: nat, q: nat, out: seq<Elem>)
    reads s`next
  {
    && NoDup(s)
    && (forall j {:trigger s[j].next} :: 0 <= j < |s| && Left(j, p, m, q, |s|) ==> s[j].next == At(s, j + 1))
    && (forall j {:trigger s[j]} :: 0 <= j < |s| && Left(j, p, m, q, |s|) ==> s[j] !in out)
    && (forall x :: x in out ==> x in s)
  }

  /** The end of a round: e behind the output. */
  method Append(e: Elem, list: Elem?, tail: Elem?, ghost s: seq<Elem>, ghost p: nat, ghost m: nat, ghost q: nat,
                ghost p': nat, ghost q': nat, ghost out: seq<Elem>)
    returns (list': Elem?, tail': Elem?)
    requires Output(out, list, tail) && Remaining(s, p, m, q, out)
    requires (p < m <= |s| && e == s[p] && p' == p + 1 && q' == q) || (q < |s| && e == s[q] && q' == q + 1 && p' == p)
    requires p <= m <= q
    modifies s`next, s`prev
    ensures Output(out + [e], list', tail') && Remaining(s, p', m, q', out + [e])
  {
    list' := list;
    assert e !in out && e in s;
    if tail != null {
      assert tail in out;
      tail.next := e;
    } else {
      list' := e;
    }
    e.prev := tail;
    tail' := e;
  }

  /** The steps of q over the left run. */
  method SkipRun(p: Elem, k: nat, ghost s: seq<Elem>, ghost d: nat, ghost out: seq<Elem>) returns (psize: nat, q: Elem?)
    requires Remaining(s, d, d, d, out) && d < |s| && p == s[d] && k > 0
    ensures psize == Min(k, |s| - d) && q == At(s, d + psize)
  {
    q := p;
    psize := 0;
    var i := 0;
    while i < k
      invariant i == psize <= Min(k, |s| - d) && q == At(s, d + psize)
      invariant i < k ==> q != null
    {
      psize := psize + 1;
      q := q.next;
      if q == null { break; }
      i := i + 1;
    }
  }

  lemma TakeLeft(s: seq<Elem>, p: nat, m: nat, q: nat, e: nat, cmp: (Elem, Elem) -> int)
    requires p < m <= q <= e <= |s| && (q == e || cmp(s[p], s[q]) <= 0)
    ensures Merge(s[p..m], s[q..e], cmp) == [s[p]] + Merge(s[p + 1..m], s[q..e], cmp)
  {
    assert s[p..m][1..] == s[p + 1..m];
    if q == e {
      assert s[p..m] == [s[p]] + s[p + 1..m];
      assert Merge(s[p + 1..m], [], cmp) == s[p + 1..m];
    }
  }

  lemma TakeRight(s: seq<Elem>, p: nat, m: nat, q: nat, e: nat, cmp: (Elem, Elem) -> int)
    requires p <= m <= q < e <= |s| && (p == m || cmp(s[p], s[q]) > 0)
    ensures Merge(s[p..m], s[q..e], cmp) == [s[q]] + Merge(s[p..m], s[q + 1..e], cmp)
  {
    assert s[q..e][1..] == s[q + 1..e] && s[q..e] == [s[q]] + s[q + 1..e];
  }

  /** One round of the merge loop: which element comes next, and behind the output. */
  method MergeOne(p: Elem?, q: Elem?, psize: nat, qsize: nat, list: Elem?, tail: Elem?, cmp: (Elem, Elem) -> int,
                  ghost s: seq<Elem>, ghost ip: nat, ghost m: nat, ghost iq: nat, ghost e: nat, ghost cur: seq<Elem>)
    returns (p': Elem?, q': Elem?, psize': nat, qsize': nat, list': Elem?, tail': Elem?, ghost x: Elem)
    requires Output(cur, list, tail) && Remaining(s, ip, m, iq, cur) && ip <= m <= iq <= e <= |s|
    requires psize == m - ip && p == At(s, ip) && q == At(s, iq) && (qsize > 0 && q != null <==> iq < e)
    requires psize > 0 || (qsize > 0 && q != null)
    modifies s`next, s`prev
    ensures (psize' == psize - 1 && qsize' == qsize && p' == At(s, ip + 1) && q' == q && ip < m)
         || (psize' == psize && qsize' == qsize - 1 && p' == p && q' == At(s, iq + 1) && iq < e)
    ensures var ip', iq' := m - psize', iq + (qsize - qsize');
            && Remaining(s, ip', m, iq', cur + [x]) && Output(cur + [x], list', tail')
            && Merge(s[ip..m], s[iq..e], cmp) == [x] + Merge(s[ip'..m], s[iq'..e], cmp)
  {
    hide Merge, Output;
    p', q', psize', qsize' := p, q, psize, qsize;
    var h: Elem;
    if psize == 0 {
      TakeRight(s, ip, m, iq, e, cmp);
      h := q;
      q' := q.next;
      qsize' := qsize - 1;
    } else if qsize == 0 || q == null {
      TakeLeft(s, ip, m, iq, e, cmp);
      h := p;
      p' := p.next;
      psize' := psize - 1;
    } else if cmp(p, q) <= 0 {
      TakeLeft(s, ip, m, iq, e, cmp);
      h := p;
      p' := p.next;
      psize' := psize - 1;
    } else {
      TakeRight(s, ip, m, iq, e, cmp);
      h := q;
      q' := q.next;
      qsize' := qsize - 1;
    }
    x := h;
    list', tail' := Append(h, list, tail, s, ip, m, iq, m - psize', iq + (qsize - qsize'), cur);
  }

  /** One round of a pass: two runs merged behind the output. */
  method MergeRuns(p0: Elem, k: nat, list: Elem?, tail: Elem?, cmp: (Elem, Elem) -> int,
                   ghost s: seq<Elem>, ghost d: nat, ghost out: seq<Elem>)
    returns (list': Elem?, tail': Elem?, next: Elem?)
    requires Output(out, list, tail) && Remaining(s, d, d, d, out) && d < |s| && p0 == s[d] && k > 0
    modifies s`next, s`prev
    ensures var m, e := Min(d + k, |s|), Min(d + 2 * k, |s|);
            var r := out + Merge(s[d..m], s[m..e], cmp);
            Output(r, list', tail') && Remaining(s, e, e, e, r) && next == At(s, e)
  {
    hide Merge, Output, Remaining;
    var psize, q := SkipRun(p0, k, s, d, out);
    ghost var m, e := Min(d + k, |s|), Min(d + 2 * k, |s|);
    var qsize := k;
    var p: Elem? := p0;
    list', tail' := list, tail;
    ghost var ip, iq, cur := d, m, out;
    SameLeft(s, d, m, out);
    while psize > 0 || (qsize > 0 && q != null)
      invariant d <= ip <= m <= iq <= e && psize == m - ip && qsize == k - (iq - m)
      invariant p == At(s, ip) && q == At(s, iq)
      invariant Output(cur, list', tail') && Remaining(s, ip, m, iq, cur)
      invariant cur + Merge(s[ip..m], s[iq..e], cmp) == out + Merge(s[d..m], s[m..e], cmp)
      decreases psize + qsize
    {
      ghost var x;
      ghost var ps, qs := psize, qsize;
      p, q, psize, qsize, list', tail', x := MergeOne(p, q, psize, qsize, list', tail', cmp, s, ip, m, iq, e, cur);
      ghost var ip', iq' := m - psize, iq + (qs - qsize);
      assert cur + ([x] + Merge(s[ip'..m], s[iq'..e], cmp)) == cur + [x] + Merge(s[ip'..m], s[iq'..e], cmp);
      ip, iq, cur := ip', iq', cur + [x];
    }
    NothingLeft(s, m, e, cur, cmp);
    next := q;
  }

  /** The runs from d on and the split at m leave the same elements to merge. */
  lemma SameLeft(s: seq<Elem>, d: nat, m: nat, out: seq<Elem>)
    requires Remaining(s, d, d, d, out) && d <= m <= |s|
    ensures Remaining(s, d, m, m, out)
  {
  }

  lemma NothingLeft(s: seq<Elem>, m: nat, e: nat, cur: seq<Elem>, cmp: (Elem, Elem) -> int)
    requires m <= e <= |s| && Remaining(s, m, m, e, cur)
    ensures Remaining(s, e, e, e, cur) && cur + Merge(s[m..m], s[e..e], cmp) == cur
  {
  }

  /** A pass is its first merge and the pass over the rest. */
  lemma PassFront(s: seq<Elem>, k: nat, d: nat, cmp: (Elem, Elem) -> int)
    requires k > 0 && d < |s|
    ensures var m, e := Min(d + k, |s|), Min(d + 2 * k, |s|);
            Pass(s[d..], k, cmp) == Merge(s[d..m], s[m..e], cmp) + Pass(s[e..], k, cmp)
  {
    hide Merge;
    var r := s[d..];
    var a, b := Min(k, |r|), Min(2 * k, |r|);
    assert r[..a] == s[d..d + a];
    assert r[a..b] == s[d + a..d + b];
    assert r[b..] == s[d + b..];
    assert Pass(r, k, cmp) == Merge(r[..a], r[a..b], cmp) + Pass(r[b..], k, cmp);
  }

  lemma PassStart(s: seq<Elem>, k: nat, cmp: (Elem, Elem) -> int)
    requires k > 0 && IsApp(s)
    ensures Output([], null, null) && Remaining(s, 0, 0, 0, []) && [] + Pass(s[0..], k, cmp) == Pass(s, k, cmp)
  {
    assert s[0..] == s;
  }

  /** One round of a pass, and what it leaves for the others. */
  method PassRound(p: Elem, k: nat, l: Elem?, t: Elem?, cmp: (Elem, Elem) -> int,
                   ghost s: seq<Elem>, ghost d: nat, ghost out: seq<Elem>)
    returns (l': Elem?, t': Elem?, p': Elem?, ghost out': seq<Elem>)
    requires Output(out, l, t) && Remaining(s, d, d, d, out) && d < |s| && p == s[d] && k > 0
    modifies Elements(s)`next, Elements(s)`prev
    ensures var d' := Min(d + 2 * k, |s|);
            && Output(out', l', t') && Remaining(s, d', d', d', out') && p' == At(s, d')
            && out' + Pass(s[d'..], k, cmp) == out + Pass(s[d..], k, cmp)
  {
    hide Merge, Output, Remaining, Pass;
    PassFront(s, k, d, cmp);
    ghost var m, e := Min(d + k, |s|), Min(d + 2 * k, |s|);
    ghost var run := Merge(s[d..m], s[m..e], cmp);
    l', t', p' := MergeRuns(p, k, l, t, cmp, s, d, out);
    out' := out + run;
    assert out + (run + Pass(s[e..], k, cmp)) == out + run + Pass(s[e..], k, cmp);
  }

  /** One pass of HASH_SRT over the list, and the number of its merges. */
  method PassList(list: Elem, k: nat, cmp: (Elem, Elem) -> int, ghost s: seq<Elem>)
    returns (list': Elem, tail': Elem, merges: nat)
    requires IsApp(s) && s != [] && list == s[0] && k > 0
    modifies Elements(s)`next, Elements(s)`prev
    ensures var r := Pass(s, k, cmp);
            |r| == |s| && IsApp(r) && list' == r[0] && tail' == r[|r| - 1]
    ensures merges <= 1 <==> |s| <= 2 * k
  {
    hide Merge, Output, Remaining, Pass, IsApp;
    var p: Elem? := list;
    var l: Elem?, t: Elem? := null, null;
    merges := 0;
    ghost var d, out: seq<Elem> := 0, [];
    PassStart(s, k, cmp);
    PassPermutes(s, k, cmp);
    while p != null
      invariant d <= |s| && p == At(s, d)
      invariant Output(out, l, t) && Remaining(s, d, d, d, out)
      invariant out + Pass(s[d..], k, cmp) == Pass(s, k, cmp)
      invariant (merges == 0 <==> d == 0) && (merges == 1 ==> d == Min(2 * k, |s|)) && (merges >= 2 ==> d > 2 * k)
      decreases |s| - d
    {
      merges := merges + 1;
      l, t, p, out := PassRound(p, k, l, t, cmp, s, d, out);
      d := Min(d + 2 * k, |s|);
    }
    assert Pass(s[d..], k, cmp) == [] by { PassPermutes(s[d..], k, cmp); }
    assert out == Pass(s, k, cmp);
    OutputEnds(out, l, t, s, d);
    EndPass(t, l, out);
    list', tail' := l, t;
  }

  lemma OutputEnds(out: seq<Elem>, l: Elem?, t: Elem?, s: seq<Elem>, d: nat)
    requires Output(out, l, t) && Remaining(s, d, d, d, out) && out != []
    ensures l == out[0] && t == out[|out| - 1] && l in s && t in s
  {
    assert out[|out| - 1] in out;
  }

  method EndPass(tail: Elem, ghost list: Elem?, ghost out: seq<Elem>)
    requires Output(out, list, tail)
    modifies tail`next
    ensures IsApp(out)
  {
    tail.next := null;
  }

  lemma SortStep(r: seq<Elem>, k: nat, cmp: (Elem, Elem) -> int)
    requires k > 0
    ensures Sort(r, k, cmp) == if |r| <= 2 * k then Pass(r, k, cmp) else Sort(Pass(r, k, cmp), 2 * k, cmp)
    ensures |Pass(r, k, cmp)| == |r| && Elements(Pass(r, k, cmp)) == Elements(r)
  {
    PassPermutes(r, k, cmp);
    SameMembers(Pass(r, k, cmp), r);
  }

  /** HASH_SRT: from runs of one element, doubling, until one merge is enough. */
  method SortList(head: Elem, cmp: (Elem, Elem) -> int, ghost s: seq<Elem>) returns (head': Elem, tail': Elem)
    requires IsApp(s) && s != [] && head == s[0]
    modifies Elements(s)`next, Elements(s)`prev
    ensures var r := Sort(s, 1, cmp);
            |r| == |s| && IsApp(r) && head' == r[0] && tail' == r[|r| - 1]
  {
    hide IsApp, Sort, Pass, Merge;
    var k := 1;
    head', tail' := head, head;
    ghost var r := s;
    var looping := true;
    while looping
      invariant k > 0 && IsApp(r) && |r| == |s| && head' == r[0] && Elements(r) == Elements(s)
      invariant looping ==> Sort(r, k, cmp) == Sort(s, 1, cmp)
      invariant !looping ==> r == Sort(s, 1, cmp) && tail' == r[|r| - 1]
      decreases looping, |s| - k
    {
      SortStep(r, k, cmp);
      var merges;
      head', tail', merges := PassList(head', k, cmp, r);
      r := Pass(r, k, cmp);
      if merges <= 1 {
        looping := false;
      }
      k := k * 2;
    }
  }
}
