/**
 * `ORDER BY` on a text column: an insertion sort under the BINARY
 * collation order, over rows of any kind given the column to sort on.
 */
module Sorting {
  import opened Text

  predicate SortedBy<T>(s: seq<T>, key: T -> string) {
    forall i, j :: 0 <= i < j < |s| ==> Precedes(key(s[i]), key(s[j]))
  }

  predicate Distinct<T(==)>(s: seq<T>) {
    forall i, j :: 0 <= i < j < |s| ==> s[i] != s[j]
  }

  /** `x` placed into sorted `s` before the first element it does not follow. */
  function Insert<T(==)>(x: T, s: seq<T>, key: T -> string): (r: seq<T>)
    requires SortedBy(s, key)
    ensures SortedBy(r, key)
    ensures multiset(r) == multiset(s) + multiset{x}
  {
    if s == [] then [x]
    else if Precedes(key(x), key(s[0])) then
      LeadSorted(x, s, key);
      [x] + s
    else
      var rest := Insert(x, s[1..], key);
      PrecedesTotal(key(x), key(s[0]));
      assert s == [s[0]] + s[1..];
      FirstPrecedesAll(s, key);
      assert forall y :: y in rest ==> Precedes(key(s[0]), key(y)) by {
        forall y | y in rest ensures Precedes(key(s[0]), key(y)) {
          assert y in multiset(rest);
        }
      }
      LeadSorted(s[0], rest, key);
      [s[0]] + rest
  }

  lemma FirstPrecedesAll<T>(s: seq<T>, key: T -> string)
    requires SortedBy(s, key) && s != []
    ensures forall y :: y in s[1..] ==> Precedes(key(s[0]), key(y))
  {
    forall y | y in s[1..] ensures Precedes(key(s[0]), key(y)) {
      var k :| 0 <= k < |s| - 1 && s[1..][k] == y;
      assert s[k + 1] == y;
    }
  }

  /** Putting in front of a sorted sequence an element that precedes its first one keeps it sorted. */
  lemma LeadSorted<T>(x: T, s: seq<T>, key: T -> string)
    requires SortedBy(s, key)
    requires s != [] ==> Precedes(key(x), key(s[0]))
    ensures SortedBy([x] + s, key)
  {
    var r := [x] + s;
    forall i, j | 0 <= i < j < |r| ensures Precedes(key(r[i]), key(r[j])) {
      if i == 0 {
        if j > 1 { PrecedesTransitive(key(x), key(s[0]), key(s[j - 1])); }
      } else {
        assert r[i] == s[i - 1] && r[j] == s[j - 1];
      }
    }
  }

  /** Two sequences holding the same elements as often have the same length and the same members. */
  lemma SameElements<T>(a: seq<T>, b: seq<T>)
    requires multiset(a) == multiset(b)
    ensures |a| == |b|
    ensures forall i :: 0 <= i < |a| ==> a[i] in b
    ensures forall i :: 0 <= i < |b| ==> b[i] in a
  {
    assert |a| == |multiset(a)| && |b| == |multiset(b)|;
    forall i | 0 <= i < |a| ensures a[i] in b {
      assert a[i] in multiset(a);
    }
    forall i | 0 <= i < |b| ensures b[i] in a {
      assert b[i] in multiset(b);
    }
  }

  /** Two sequences holding the same elements as often are both duplicate-free or neither. */
  lemma DistinctPermutation<T>(a: seq<T>, b: seq<T>)
    requires multiset(a) == multiset(b) && Distinct(a)
    ensures Distinct(b)
  {
    forall v | v in multiset(a) ensures multiset(a)[v] == 1 {
      DistinctOnce(a, v);
    }
    forall i, j | 0 <= i < j < |b| ensures b[i] != b[j] {
      if b[i] == b[j] { TwiceCounted(b, i, j); }
    }
  }

  lemma {:induction false} DistinctOnce<T>(s: seq<T>, v: T)
    requires Distinct(s)
    ensures multiset(s)[v] <= 1
  {
    if s != [] {
      assert s == [s[0]] + s[1..];
      DistinctOnce(s[1..], v);
      if s[0] == v {
        assert v !in s[1..];
      }
    }
  }

  lemma TwiceCounted<T>(s: seq<T>, i: nat, j: nat)
    requires i < j < |s| && s[i] == s[j]
    ensures multiset(s)[s[i]] >= 2
  {
    assert s == s[..j] + [s[j]] + s[j + 1..];
    assert s[..j][i] == s[i];
  }

  /** The rows of `s` ordered by `key`: the same rows, as often, in sorted order. */
  function SortBy<T(==)>(s: seq<T>, key: T -> string): (r: seq<T>)
    ensures SortedBy(r, key)
    ensures multiset(r) == multiset(s)
    ensures |r| == |s|
    ensures forall i :: 0 <= i < |r| ==> r[i] in s
    ensures forall i :: 0 <= i < |s| ==> s[i] in r
    ensures Distinct(s) ==> Distinct(r)
  {
    var r := InsertionSort(s, key);
    SameElements(s, r);
    assert Distinct(s) ==> Distinct(r) by {
      if Distinct(s) { DistinctPermutation(s, r); }
    }
    r
  }

  function InsertionSort<T(==)>(s: seq<T>, key: T -> string): (r: seq<T>)
    ensures SortedBy(r, key)
    ensures multiset(r) == multiset(s)
  {
    if s == [] then []
    else
      assert s == [s[0]] + s[1..];
      Insert(s[0], InsertionSort(s[1..], key), key)
  }
}
