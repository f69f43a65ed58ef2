/** Inserting into, removing from and searching sequences. */
module Sequences {
  ghost predicate Distinct<T>(s: seq<T>) {
    forall i, j :: 0 <= i < j < |s| ==> s[i] != s[j]
  }

  function InsertAt<T>(s: seq<T>, k: nat, x: T): seq<T>
    requires k <= |s|
  {
    seq(|s| + 1, i requires 0 <= i < |s| + 1 => if i < k then s[i] else if i == k then x else s[i - 1])
  }

  function RemoveAt<T>(s: seq<T>, k: nat): seq<T>
    requires k < |s|
  {
    seq(|s| - 1, i requires 0 <= i < |s| - 1 => if i < k then s[i] else s[i + 1])
  }

  lemma DistinctInsert<T>(s: seq<T>, k: nat, x: T)
    requires Distinct(s) && x !in s && k <= |s|
    ensures Distinct(InsertAt(s, k, x))
  {
    var r := InsertAt(s, k, x);
    forall i, j | 0 <= i < j < |r|
      ensures r[i] != r[j]
    {
      assert i != k ==> r[i] == s[if i < k then i else i - 1];
      assert j != k ==> r[j] == s[if j < k then j else j - 1];
    }
  }

  lemma InsertAtEnds<T>(s: seq<T>, x: T)
    ensures InsertAt(s, 0, x) == [x] + s
    ensures InsertAt(s, |s|, x) == s + [x]
  {
  }

  lemma InsertInMiddle<X>(a: seq<X>, s: seq<X>, c: seq<X>, i: nat, x: X)
    requires i <= |s|
    ensures a + InsertAt(s, i, x) + c == InsertAt(a + s + c, |a| + i, x)
  {
  }

  lemma RemoveInMiddle<X>(a: seq<X>, s: seq<X>, c: seq<X>, i: nat)
    requires i < |s|
    ensures a + RemoveAt(s, i) + c == RemoveAt(a + s + c, |a| + i)
  {
  }

  lemma UpdateInMiddle<X>(a: seq<X>, s: seq<X>, c: seq<X>, i: nat, x: X)
    requires i < |s|
    ensures a + s[i := x] + c == (a + s + c)[|a| + i := x]
  {
  }

  /** The sequence without the first occurrence of a value. */
  function WithoutFirst<T(==)>(s: seq<T>, x: T): seq<T> {
    if s == [] then [] else if s[0] == x then s[1..] else [s[0]] + WithoutFirst(s[1..], x)
  }

  lemma {:induction false} WithoutFirstAbsent<T>(s: seq<T>, x: T)
    requires x !in s
    ensures WithoutFirst(s, x) == s
  {
    if s == [] {
    } else {
      WithoutFirstAbsent(s[1..], x);
    }
  }

  lemma {:induction false} WithoutFirstAt<T>(s: seq<T>, x: T, k: nat)
    requires k < |s| && s[k] == x && x !in s[..k]
    ensures WithoutFirst(s, x) == RemoveAt(s, k)
  {
    if k == 0 {
    } else {
      assert s[0] in s[..k] && s[1..][..k - 1] == s[..k][1..];
      WithoutFirstAt(s[1..], x, k - 1);
    }
  }
}
