/** The bottom-up merge sort of HASH_SRT on sequences. */
module MergeSort {
  import opened Sequences

  function Min(a: nat, b: nat): nat {
    if a <= b then a else b
  }

  /** One merge of two runs: the left one wins a tie. */
  function Merge<T>(a: seq<T>, b: seq<T>, cmp: (T, T) -> int): seq<T>
    decreases |a| + |b|
  {
    if a == [] then b
    else if b == [] then a
    else if cmp(a[0], b[0]) <= 0 then [a[0]] + Merge(a[1..], b, cmp)
    else [b[0]] + Merge(a, b[1..], cmp)
  }

  /** One pass over the list: each run of length k merged with the next one. */
  function Pass<T>(s: seq<T>, k: nat, cmp: (T, T) -> int): seq<T>
    requires k > 0
    decreases |s|
  {
    if s == [] then []
    else Merge(s[..Min(k, |s|)], s[Min(k, |s|)..Min(2 * k, |s|)], cmp) + Pass(s[Min(2 * k, |s|)..], k, cmp)
  }

  /** Passes with doubling run length, up to the first that needs one merge only. */
  function Sort<T>(s: seq<T>, k: nat, cmp: (T, T) -> int): seq<T>
    requires k > 0
    decreases |s| - k
  {
    if |s| <= 2 * k then Pass(s, k, cmp)
    else (PassPermutes(s, k, cmp); Sort(Pass(s, k, cmp), 2 * k, cmp))
  }

  // ----- nothing is lost, whatever the comparison -----

  ghost predicate OnlyFrom<T>(r: seq<T>, a: seq<T>, b: seq<T>) {
    forall x :: x in r ==> x in a || x in b
  }

  lemma {:induction false} MergePermutes<T>(a: seq<T>, b: seq<T>, cmp: (T, T) -> int)
    ensures multiset(Merge(a, b, cmp)) == multiset(a) + multiset(b)
    ensures |Merge(a, b, cmp)| == |a| + |b|
    ensures OnlyFrom(Merge(a, b, cmp), a, b)
    decreases |a| + |b|
  {
    if a != [] && b != [] {
      assert a == [a[0]] + a[1..] && b == [b[0]] + b[1..];
      if cmp(a[0], b[0]) <= 0 { MergePermutes(a[1..], b, cmp); } else { MergePermutes(a, b[1..], cmp); }
    }
  }

  lemma {:induction false} PassPermutes<T>(s: seq<T>, k: nat, cmp: (T, T) -> int)
    requires k > 0
    ensures multiset(Pass(s, k, cmp)) == multiset(s) && |Pass(s, k, cmp)| == |s|
    decreases |s|
  {
    hide Merge;
    if s != [] {
      var r, q := Min(k, |s|), Min(2 * k, |s|);
      var a, b, rest := s[..r], s[r..q], s[q..];
      MergePermutes(a, b, cmp);
      PassPermutes(rest, k, cmp);
      assert s == a + b + rest;
      assert multiset(a + b + rest) == multiset(a) + multiset(b) + multiset(rest);
    }
  }

  /** Sorting permutes the list, for every comparison function. */
  lemma {:induction false} SortPermutes<T>(s: seq<T>, k: nat, cmp: (T, T) -> int)
    requires k > 0
    ensures multiset(Sort(s, k, cmp)) == multiset(s) && |Sort(s, k, cmp)| == |s|
    decreases |s| - k
  {
    PassPermutes(s, k, cmp);
    if |s| > 2 * k { SortPermutes(Pass(s, k, cmp), 2 * k, cmp); }
  }

  lemma {:induction false} SameMembers<T>(r: seq<T>, s: seq<T>)
    requires multiset(r) == multiset(s)
    ensures forall x :: x in r ==> x in s
    ensures forall x :: x in s ==> x in r
    ensures NoDup(s) ==> NoDup(r)
  {
    assert forall x :: x in r ==> x in multiset(r);
    assert forall x :: x in s ==> x in multiset(s);
    if NoDup(s) {
      forall i, j | 0 <= i < j < |r| ensures r[i] != r[j] {
        if r[i] == r[j] {
          assert r == r[..j] + [r[j]] + r[j + 1..];
          assert r[..j][i] == r[j];
          assert multiset(r)[r[j]] >= 2;
          OnceInDistinct(s, r[j]);
        }
      }
    }
  }

  lemma {:induction false} OnceInDistinct<T>(s: seq<T>, x: T)
    requires NoDup(s)
    ensures multiset(s)[x] <= 1
  {
    if s != [] {
      OnceInDistinct(s[1..], x);
      assert s == [s[0]] + s[1..];
    }
  }

  // ----- sorted and stable -----

  /** cmp(x, y) <= 0 is a total preorder on the elements of s. */
  ghost predicate Preorder<T>(cmp: (T, T) -> int, s: seq<T>) {
    && (forall x, y :: x in s && y in s ==> cmp(x, y) <= 0 || cmp(y, x) <= 0)
    && (forall x, y, z :: x in s && y in s && z in s && cmp(x, y) <= 0 && cmp(y, z) <= 0 ==> cmp(x, z) <= 0)
  }

  /** x belongs before y: smaller, or equivalent and earlier in s. */
  predicate Before<T(==)>(x: T, y: T, cmp: (T, T) -> int, s: seq<T>) {
    cmp(x, y) <= 0 && (cmp(y, x) <= 0 ==> Find(s, x) < Find(s, y))
  }

  ghost predicate InOrder<T>(r: seq<T>, cmp: (T, T) -> int, s: seq<T>) {
    forall i, j :: 0 <= i < j < |r| ==> Before(r[i], r[j], cmp, s)
  }

  /** Every element of a comes earlier in s than every element of b. */
  ghost predicate Earlier<T>(a: seq<T>, b: seq<T>, s: seq<T>) {
    forall x, y :: x in a && y in b ==> Find(s, x) < Find(s, y)
  }

  ghost predicate StableSorted<T>(r: seq<T>, cmp: (T, T) -> int, s: seq<T>) {
    multiset(r) == multiset(s) && InOrder(r, cmp, s)
  }

  lemma {:induction false} MergeInOrder<T>(a: seq<T>, b: seq<T>, cmp: (T, T) -> int, s: seq<T>)
    requires Preorder(cmp, s) && (forall x :: x in a || x in b ==> x in s)
    requires InOrder(a, cmp, s) && InOrder(b, cmp, s) && Earlier(a, b, s)
    ensures InOrder(Merge(a, b, cmp), cmp, s)
    decreases |a| + |b|
  {
    hide Preorder, InOrder, Earlier, Find, Before, AllAfter, OnlyFrom;
    if a != [] && b != [] {
      assert a[0] in a && b[0] in b;
      assert a == [a[0]] + a[1..] && b == [b[0]] + b[1..];
      TailInOrder(a, cmp, s);
      TailInOrder(b, cmp, s);
      if cmp(a[0], b[0]) <= 0 {
        EarlierParts(a, b, a[1..], b, s);
        MergeInOrder(a[1..], b, cmp, s);
        MergePermutes(a[1..], b, cmp);
        HeadFirst(a[0], a[1..], b, cmp, s);
        AfterMerged(a[0], Merge(a[1..], b, cmp), a[1..], b, cmp, s);
        PutFirst(a[0], Merge(a[1..], b, cmp), cmp, s);
      } else {
        EarlierParts(a, b, a, b[1..], s);
        MergeInOrder(a, b[1..], cmp, s);
        MergePermutes(a, b[1..], cmp);
        HeadBelow(b[0], b[1..], a, cmp, s);
        AfterMerged(b[0], Merge(a, b[1..], cmp), a, b[1..], cmp, s);
        PutFirst(b[0], Merge(a, b[1..], cmp), cmp, s);
      }
    }
  }

  lemma TailInOrder<T>(r: seq<T>, cmp: (T, T) -> int, s: seq<T>)
    requires InOrder(r, cmp, s) && r != []
    ensures InOrder(r[1..], cmp, s)
  {
  }

  ghost predicate AllAfter<T>(x: T, r: seq<T>, cmp: (T, T) -> int, s: seq<T>) {
    forall y :: y in r ==> Before(x, y, cmp, s)
  }

  lemma AfterMerged<T>(x: T, r: seq<T>, a: seq<T>, b: seq<T>, cmp: (T, T) -> int, s: seq<T>)
    requires OnlyFrom(r, a, b) && AllAfter(x, a, cmp, s) && AllAfter(x, b, cmp, s)
    ensures AllAfter(x, r, cmp, s)
  {
  }

  lemma PutFirst<T>(x: T, r: seq<T>, cmp: (T, T) -> int, s: seq<T>)
    requires InOrder(r, cmp, s) && AllAfter(x, r, cmp, s)
    ensures InOrder([x] + r, cmp, s)
  {
  }

  lemma HeadFirst<T>(x: T, a: seq<T>, b: seq<T>, cmp: (T, T) -> int, s: seq<T>)
    requires Preorder(cmp, s) && x in s && (forall y :: y in a || y in b ==> y in s) && b != []
    requires InOrder([x] + a, cmp, s) && InOrder(b, cmp, s) && Earlier([x] + a, b, s) && cmp(x, b[0]) <= 0
    ensures AllAfter(x, a, cmp, s) && AllAfter(x, b, cmp, s)
  {
    forall y | y in a ensures Before(x, y, cmp, s) {
      var i :| 0 <= i < |a| && a[i] == y;
      assert ([x] + a)[i + 1] == y && ([x] + a)[0] == x;
    }
    forall y | y in b ensures Before(x, y, cmp, s) {
      var j :| 0 <= j < |b| && b[j] == y;
      assert x in [x] + a && b[0] in b;
      if j > 0 { assert Before(b[0], b[j], cmp, s); }
    }
  }

  lemma HeadBelow<T>(y: T, b: seq<T>, a: seq<T>, cmp: (T, T) -> int, s: seq<T>)
    requires Preorder(cmp, s) && y in s && (forall x :: x in a || x in b ==> x in s) && a != []
    requires InOrder(a, cmp, s) && InOrder([y] + b, cmp, s) && !(cmp(a[0], y) <= 0)
    ensures AllAfter(y, a, cmp, s) && AllAfter(y, b, cmp, s)
  {
    forall x | x in b ensures Before(y, x, cmp, s) {
      var i :| 0 <= i < |b| && b[i] == x;
      assert ([y] + b)[i + 1] == x && ([y] + b)[0] == y;
    }
    forall x | x in a ensures Before(y, x, cmp, s) {
      var j :| 0 <= j < |a| && a[j] == x;
      assert a[0] in a;
      if j > 0 { assert Before(a[0], a[j], cmp, s); }
    }
  }

  /** Consecutive runs of length k, each in order, earlier runs from earlier places of s. */
  ghost predicate Runs<T>(r: seq<T>, k: nat, cmp: (T, T) -> int, s: seq<T>)
    requires k > 0
    decreases |r|
  {
    if |r| <= k then InOrder(r, cmp, s)
    else InOrder(r[..k], cmp, s) && Earlier(r[..k], r[k..], s) && Runs(r[k..], k, cmp, s)
  }

  lemma {:induction false} SingleRuns<T>(r: seq<T>, cmp: (T, T) -> int, s: seq<T>, i: nat)
    requires NoDup(s) && i <= |s| && r == s[i..]
    ensures Runs(r, 1, cmp, s)
    decreases |r|
  {
    if |r| > 1 {
      SingleRuns(r[1..], cmp, s, i + 1);
      forall x, y | x in r[..1] && y in r[1..] ensures Find(s, x) < Find(s, y) {
        var j :| 1 <= j < |r| && r[j] == y;
        FindInDistinct(s, i);
        FindInDistinct(s, i + j);
      }
    }
  }

  lemma FindInDistinct<T>(s: seq<T>, i: nat)
    requires NoDup(s) && i < |s|
    ensures Find(s, s[i]) == i
  {
  }

  lemma EarlierParts<T>(a: seq<T>, b: seq<T>, a': seq<T>, b': seq<T>, s: seq<T>)
    requires Earlier(a, b, s) && (forall x :: x in a' ==> x in a) && (forall y :: y in b' ==> y in b)
    ensures Earlier(a', b', s)
  {
  }

  /** A pass doubles the length of the runs. */
  lemma {:induction false} PassRuns<T>(r: seq<T>, k: nat, cmp: (T, T) -> int, s: seq<T>)
    requires k > 0 && Preorder(cmp, s) && (forall x :: x in r ==> x in s) && Runs(r, k, cmp, s)
    ensures Runs(Pass(r, k, cmp), 2 * k, cmp, s)
    decreases |r|
  {
    hide Preorder, InOrder, Earlier, Merge, Find, Before;
    if r == [] {
      assert Pass(r, k, cmp) == [] && InOrder<T>([], cmp, s) by { EmptyInOrder(cmp, s); }
    } else {
      var a, b, q := r[..Min(k, |r|)], r[Min(k, |r|)..Min(2 * k, |r|)], r[Min(2 * k, |r|)..];
      var m, rest := Merge(a, b, cmp), Pass(q, k, cmp);
      TwoRuns(r, k, cmp, s);
      MergeInOrder(a, b, cmp, s);
      PassRuns(q, k, cmp, s);
      MergePermutes(a, b, cmp);
      PassPermutes(q, k, cmp);
      SameMembers(rest, q);
      EarlierMerged(a, b, m, q, rest, s);
      RunsFront(m, rest, 2 * k, cmp, s);
    }
  }

  lemma EarlierMerged<T>(a: seq<T>, b: seq<T>, m: seq<T>, q: seq<T>, rest: seq<T>, s: seq<T>)
    requires OnlyFrom(m, a, b) && Earlier(a + b, q, s) && forall y :: y in rest ==> y in q
    ensures Earlier(m, rest, s)
  {
    assert forall x :: x in m ==> x in a + b;
  }

  lemma RunsFront<T>(m: seq<T>, rest: seq<T>, k: nat, cmp: (T, T) -> int, s: seq<T>)
    requires k > 0 && InOrder(m, cmp, s) && Runs(rest, k, cmp, s) && Earlier(m, rest, s)
    requires |m| <= k && (rest != [] ==> |m| == k)
    ensures Runs(m + rest, k, cmp, s)
  {
    if rest == [] {
      assert m + rest == m;
    } else {
      assert (m + rest)[..k] == m && (m + rest)[k..] == rest;
    }
  }

  lemma EmptyInOrder<T>(cmp: (T, T) -> int, s: seq<T>)
    ensures InOrder<T>([], cmp, s) && forall a: seq<T> :: Earlier(a, [], s)
  {
  }

  /** The first two runs and the rest. */
  lemma TwoRuns<T>(r: seq<T>, k: nat, cmp: (T, T) -> int, s: seq<T>)
    requires k > 0 && r != [] && Runs(r, k, cmp, s)
    ensures var a, b, q := r[..Min(k, |r|)], r[Min(k, |r|)..Min(2 * k, |r|)], r[Min(2 * k, |r|)..];
            && InOrder(a, cmp, s) && InOrder(b, cmp, s) && Earlier(a, b, s) && Earlier(a + b, q, s) &&
               Runs(q, k, cmp, s)
  {
    EmptyInOrder(cmp, s);
    if |r| <= k {
      assert r[..|r|] == r;
    } else {
      var t := r[k..];
      var b, q := r[k..Min(2 * k, |r|)], r[Min(2 * k, |r|)..];
      if |t| <= k {
        assert b == t && q == [];
      } else {
        assert t[..k] == b && t[k..] == q;
        EarlierParts(r[..k], t, r[..k], q, s);
        assert Earlier(b, q, s);
      }
      EarlierParts(r[..k], t, r[..k], b, s);
    }
  }

  lemma {:induction false} RunsSort<T>(r: seq<T>, k: nat, cmp: (T, T) -> int, s: seq<T>)
    requires k > 0 && Preorder(cmp, s) && multiset(r) == multiset(s) && Runs(r, k, cmp, s)
    ensures InOrder(Sort(r, k, cmp), cmp, s)
    decreases |r| - k
  {
    hide Preorder, InOrder, Earlier, Merge, Find, Before;
    SameMembers(r, s);
    PassRuns(r, k, cmp, s);
    PassPermutes(r, k, cmp);
    if |r| > 2 * k { RunsSort(Pass(r, k, cmp), 2 * k, cmp, s); }
  }

  /** For every list of distinct elements and every total preorder, the sort starting with runs of
      one element gives the stable sorted permutation. */
  lemma SortIsStable<T>(s: seq<T>, cmp: (T, T) -> int)
    requires NoDup(s) && Preorder(cmp, s)
    ensures StableSorted(Sort(s, 1, cmp), cmp, s)
  {
    assert s[0..] == s;
    SingleRuns(s, cmp, s, 0);
    RunsSort(s, 1, cmp, s);
    SortPermutes(s, 1, cmp);
  }

  /** And there is only one such permutation. */
  lemma {:induction false} StableSortIsUnique<T>(r: seq<T>, q: seq<T>, cmp: (T, T) -> int, s: seq<T>)
    requires InOrder(r, cmp, s) && InOrder(q, cmp, s) && multiset(r) == multiset(q)
    ensures r == q
    decreases |r|
  {
    hide Before;
    assert |multiset(r)| == |r| && |multiset(q)| == |q|;
    if r != [] {
      SameFirst(r, q, cmp, s);
      TailInOrder(r, cmp, s);
      TailInOrder(q, cmp, s);
      assert r == [r[0]] + r[1..] && q == [q[0]] + q[1..];
      assert multiset(r[1..]) == multiset(r) - multiset{r[0]};
      assert multiset(q[1..]) == multiset(q) - multiset{q[0]};
      StableSortIsUnique(r[1..], q[1..], cmp, s);
    }
  }

  lemma SameFirst<T>(r: seq<T>, q: seq<T>, cmp: (T, T) -> int, s: seq<T>)
    requires InOrder(r, cmp, s) && InOrder(q, cmp, s) && multiset(r) == multiset(q) && r != [] && q != []
    ensures r[0] == q[0]
  {
    SameMembers(r, q);
    assert r[0] in r && q[0] in q;
    var i :| 0 <= i < |q| && q[i] == r[0];
    var j :| 0 <= j < |r| && r[j] == q[0];
    assert forall i :: 0 < i < |q| ==> Before(q[0], q[i], cmp, s);
    assert forall j :: 0 < j < |r| ==> Before(r[0], r[j], cmp, s);
  }
}
