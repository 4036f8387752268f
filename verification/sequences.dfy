/** Sequences without repetitions, and what the list operations of the hash tables make of them. */
module Sequences {

  ghost predicate NoDup<T>(s: seq<T>) {
    forall i, j :: 0 <= i < j < |s| ==> s[i] != s[j]
  }

  /** First place of k, or the length. */
  function Find<T(==)>(s: seq<T>, k: T): (i: nat)
    ensures i <= |s|
    ensures i < |s| ==> s[i] == k
    ensures i < |s| <==> k in s
    ensures forall j :: 0 <= j < i ==> s[j] != k
  {
    if s == [] then 0 else if s[0] == k then 0 else 1 + Find(s[1..], k)
  }

  function Without<T>(s: seq<T>, i: nat): seq<T>
    requires i < |s|
  {
    s[..i] + s[i + 1..]
  }

  function Fronted<T>(s: seq<T>, i: nat): seq<T>
    requires i < |s|
  {
    [s[i]] + s[..i] + s[i + 1..]
  }

  function Swapped<T>(s: seq<T>, i: nat): seq<T>
    requires i < |s|
  {
    if i == 0 then s else s[..i - 1] + [s[i], s[i - 1]] + s[i + 1..]
  }

  lemma WithoutMembers<T>(s: seq<T>, i: nat)
    requires i < |s| && NoDup(s)
    ensures NoDup(Without(s, i))
    ensures forall x :: x in Without(s, i) ==> x in s && x != s[i]
    ensures forall x :: x in s && x != s[i] ==> x in Without(s, i)
  {
    var w := Without(s, i);
    forall x | x in s && x != s[i] ensures x in w {
      var j :| 0 <= j < |s| && s[j] == x;
      assert w[if j < i then j else j - 1] == x;
    }
    forall x | x in w ensures x in s && x != s[i] {
      var j :| 0 <= j < |w| && w[j] == x;
      assert x == s[if j < i then j else j + 1];
    }
  }

  lemma FrontedMembers<T>(s: seq<T>, i: nat)
    requires i < |s| && NoDup(s)
    ensures NoDup(Fronted(s, i)) && |Fronted(s, i)| == |s|
    ensures (forall x :: x in Fronted(s, i) ==> x in s) && (forall x :: x in s ==> x in Fronted(s, i))
  {
    WithoutMembers(s, i);
    assert Fronted(s, i) == [s[i]] + Without(s, i);
  }

  lemma SwappedMembers<T>(s: seq<T>, i: nat)
    requires i < |s| && NoDup(s)
    ensures NoDup(Swapped(s, i)) && |Swapped(s, i)| == |s|
    ensures (forall x :: x in Swapped(s, i) ==> x in s) && (forall x :: x in s ==> x in Swapped(s, i))
  {
    if i > 0 {
      var w := Swapped(s, i);
      assert forall j :: 0 <= j < |s| ==> w[j] == s[if j == i then i - 1 else if j == i - 1 then i else j];
      assert forall j :: 0 <= j < |s| ==> s[j] == w[if j == i then i - 1 else if j == i - 1 then i else j];
    }
  }

  /** The elements of several lists. */
  ghost function AllOf<T>(lists: seq<seq<T>>): (all: set<T>)
    ensures forall b, e :: 0 <= b < |lists| && e in lists[b] ==> e in all
    ensures forall e :: e in all ==> exists b :: 0 <= b < |lists| && e in lists[b]
  {
    set b, e | 0 <= b < |lists| && e in lists[b] :: e
  }

  /** No element is on two lists. */
  ghost predicate Apart<T>(lists: seq<seq<T>>) {
    forall b, c, e :: 0 <= b < |lists| && 0 <= c < |lists| && b != c && e in lists[b] ==> e !in lists[c]
  }
}
