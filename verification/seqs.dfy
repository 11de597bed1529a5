/** Facts about sequences that several modules need. */
module Seqs {

  function RemoveAt<T>(s: seq<T>, i: nat): seq<T>
    requires i < |s|
  {
    s[..i] + s[i + 1..]
  }

  ghost predicate NoDuplicates<T>(s: seq<T>) {
    forall i, j :: 0 <= i < j < |s| ==> s[i] != s[j]
  }

  lemma Concat3<T>(a: seq<T>, b: seq<T>, c: seq<T>)
    ensures a + (b + c) == (a + b) + c
  {
  }

  lemma RemoveAtMultiset<T>(s: seq<T>, i: nat)
    requires i < |s|
    ensures multiset(s) == multiset(RemoveAt(s, i)) + multiset([s[i]])
  {
    assert s == s[..i] + [s[i]] + s[i + 1..];
  }

  /** A permutation of a non-empty sequence contains its head; without it, it permutes the tail. */
  lemma HeadIn<T>(a: seq<T>, b: seq<T>) returns (j: nat)
    requires a != [] && multiset(a) == multiset(b)
    ensures j < |b| && b[j] == a[0] && multiset(RemoveAt(b, j)) == multiset(a[1..])
  {
    assert a[0] in multiset(b);
    j :| 0 <= j < |b| && b[j] == a[0];
    RemoveAtMultiset(a, 0);
    assert RemoveAt(a, 0) == a[1..];
    RemoveAtMultiset(b, j);
    assert multiset(RemoveAt(b, j)) == multiset(b) - multiset([a[0]]);
    assert multiset(RemoveAt(a, 0)) == multiset(a) - multiset([a[0]]);
  }

  /** The elements of a set in some order. */
  lemma {:induction false} Enumeration<T>(todo: set<T>) returns (order: seq<T>)
    ensures NoDuplicates(order) && forall x :: x in order <==> x in todo
    decreases |todo|
  {
    order := [];
    if todo != {} {
      var x :| x in todo;
      var rest := Enumeration(todo - {x});
      order := [x] + rest;
    }
  }

  /** An index of a least element. */
  lemma {:induction false} LeastIndex(a: seq<real>) returns (i: nat)
    requires a != []
    ensures i < |a| && forall j :: 0 <= j < |a| ==> a[i] <= a[j]
  {
    i := 0;
    if |a| > 1 {
      var k := LeastIndex(a[1..]);
      i := if a[0] <= a[k + 1] then 0 else k + 1;
      forall j | 0 <= j < |a| ensures a[i] <= a[j] {
        if j > 0 {
          assert a[j] == a[1..][j - 1];
        }
      }
    }
  }
}
