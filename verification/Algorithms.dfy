/** Sorting in place (Include/XnAlgorithms.h). */
module Algorithms {

  /** A strict order in which any two elements that are not in order either way count as equal. */
  ghost predicate Strict<T(!new)>(less: (T, T) -> bool) {
    && (forall x, y :: less(x, y) ==> !less(y, x))
    && (forall x, y, z :: !less(y, x) && !less(z, y) ==> !less(z, x))
  }

  /** No element from position n on is before one that stands left of it. */
  ghost predicate TopFrom<T(!new)>(s: seq<T>, n: int, less: (T, T) -> bool) {
    forall j, k :: 0 <= j < k < |s| && n <= k ==> !less(s[k], s[j])
  }

  /** The element at i is not before any that stands left of it. */
  ghost predicate Highest<T(!new)>(s: seq<T>, i: int, less: (T, T) -> bool) {
    forall j :: 0 <= j < i < |s| ==> !less(s[i], s[j])
  }

  /** Neighbours up to position i are strictly in order. */
  ghost predicate Ascending<T(!new)>(s: seq<T>, i: int, less: (T, T) -> bool) {
    forall j :: 0 <= j < i && j + 1 < |s| ==> less(s[j], s[j + 1])
  }

  function Swapped<T>(s: seq<T>, i: nat): seq<T>
    requires i + 1 < |s|
  {
    s[i := s[i + 1]][i + 1 := s[i]]
  }

  lemma SwappedIsPermutation<T>(s: seq<T>, i: nat)
    requires i + 1 < |s|
    ensures multiset(Swapped(s, i)) == multiset(s)
  {
    assert s == s[..i] + [s[i], s[i + 1]] + s[i + 2..];
    assert Swapped(s, i) == s[..i] + [s[i + 1], s[i]] + s[i + 2..];
  }

  lemma SwappedTop<T(!new)>(s: seq<T>, i: nat, n: nat, less: (T, T) -> bool)
    requires i + 1 < n <= |s| && TopFrom(s, n, less)
    ensures TopFrom(Swapped(s, i), n, less)
  {
    var t := Swapped(s, i);
    forall j, k | 0 <= j < k < |t| && n <= k
      ensures !less(t[k], t[j])
    {
      var j' := if j == i then i + 1 else if j == i + 1 then i else j;
      assert t[j] == s[j'] && t[k] == s[k];
    }
  }

  lemma SwappedHighest<T(!new)>(s: seq<T>, i: nat, less: (T, T) -> bool)
    requires i + 1 < |s| && Highest(s, i, less) && Strict(less) && !less(s[i], s[i + 1])
    ensures Highest(Swapped(s, i), i + 1, less)
  {
  }

  lemma KeptHighest<T(!new)>(s: seq<T>, i: nat, less: (T, T) -> bool)
    requires i + 1 < |s| && Highest(s, i, less) && Strict(less) && less(s[i], s[i + 1])
    ensures Highest(s, i + 1, less)
  {
  }

  lemma {:induction false} AscendingIsSorted<T(!new)>(s: seq<T>, n: nat, j: nat, k: nat, less: (T, T) -> bool)
    requires Ascending(s, n, less) && Strict(less) && j < k <= n && k < |s|
    ensures !less(s[k], s[j])
  {
    if j + 1 < k {
      AscendingIsSorted(s, n, j, k - 1, less);
    }
    assert less(s[k - 1], s[k]);
  }

  lemma AllInOrder<T(!new)>(s: seq<T>, n: nat, less: (T, T) -> bool)
    requires 1 <= n <= |s| && TopFrom(s, n, less) && Ascending(s, n - 1, less) && Strict(less)
    ensures TopFrom(s, 0, less)
  {
    forall j, k | 0 <= j < k < |s|
      ensures !less(s[k], s[j])
    {
      if k < n {
        AscendingIsSorted(s, n - 1, j, k, less);
      }
    }
  }

  ghost predicate Total<T(!new)>(less: (T, T) -> bool) {
    Strict(less) && forall x, y :: x == y || less(x, y) || less(y, x)
  }

  lemma NoneIsHigher<T(!new)>(s: seq<T>, x: T, less: (T, T) -> bool)
    requires Strict(less) && TopFrom(s, 0, less) && x in s
    ensures !less(s[|s| - 1], x)
  {
    var j :| 0 <= j < |s| && s[j] == x;
  }

  lemma SameHighest<T(!new)>(s: seq<T>, t: seq<T>, less: (T, T) -> bool)
    requires Total(less) && s != [] && t != [] && multiset(s) == multiset(t) && TopFrom(s, 0, less)
             && TopFrom(t, 0, less)
    ensures s[|s| - 1] == t[|t| - 1]
  {
    var a, b := s[|s| - 1], t[|t| - 1];
    assert a in multiset(t) && b in multiset(s);
    NoneIsHigher(s, b, less);
    NoneIsHigher(t, a, less);
  }

  lemma WithoutLast<T>(s: seq<T>)
    requires s != []
    ensures multiset(s[..|s| - 1]) == multiset(s) - multiset{s[|s| - 1]}
  {
    assert s == s[..|s| - 1] + [s[|s| - 1]];
  }

  /** By a total order, sorting has only one possible outcome. */
  lemma {:induction false} SortedIsUnique<T(!new)>(s: seq<T>, t: seq<T>, less: (T, T) -> bool)
    requires Total(less) && multiset(s) == multiset(t) && TopFrom(s, 0, less) && TopFrom(t, 0, less)
    ensures s == t
  {
    assert |multiset(s)| == |s| && |multiset(t)| == |t|;
    if s != [] {
      SameHighest(s, t, less);
      WithoutLast(s);
      WithoutLast(t);
      SortedIsUnique(s[..|s| - 1], t[..|t| - 1], less);
    }
  }

  /** The first count elements are the same in some order, and the others stand where they stood. */
  ghost predicate Rearranged<T>(s: seq<T>, t: seq<T>, count: nat) {
    |s| == |t| && count <= |s| && multiset(s[..count]) == multiset(t[..count]) && s[count..] == t[count..]
  }

  lemma SwappedIsRearranged<T>(s: seq<T>, t: seq<T>, count: nat, i: nat)
    requires Rearranged(s, t, count) && i + 1 < count
    ensures Swapped(s, i)[..count] == Swapped(s[..count], i)
    ensures Rearranged(Swapped(s, i), t, count)
  {
    SwappedIsPermutation(s[..count], i);
  }

  /** What is known in the middle of a pass over the first n of count elements. */
  ghost predicate InPass<T(!new)>(s: seq<T>, i: nat, n: nat, swapped: bool, less: (T, T) -> bool) {
    && (Strict(less) ==> TopFrom(s, n, less) && Highest(s, i, less))
    && (!swapped ==> Ascending(s, i, less))
  }

  lemma SwapInPass<T(!new)>(s: seq<T>, i: nat, n: nat, swapped: bool, less: (T, T) -> bool)
    requires i + 1 < n <= |s| && InPass(s, i, n, swapped, less) && !less(s[i], s[i + 1])
    ensures InPass(Swapped(s, i), i + 1, n, true, less)
  {
    if Strict(less) {
      SwappedTop(s, i, n, less);
      SwappedHighest(s, i, less);
    }
  }

  lemma KeepInPass<T(!new)>(s: seq<T>, i: nat, n: nat, swapped: bool, less: (T, T) -> bool)
    requires i + 1 < n <= |s| && InPass(s, i, n, swapped, less) && less(s[i], s[i + 1])
    ensures InPass(s, i + 1, n, swapped, less)
  {
    if Strict(less) {
      KeptHighest(s, i, less);
    }
  }

  lemma AfterPass<T(!new)>(s: seq<T>, n: nat, swapped: bool, less: (T, T) -> bool)
    requires 1 <= n <= |s| && InPass(s, n - 1, n, swapped, less) && Strict(less)
    ensures TopFrom(s, if swapped then n - 1 else 0, less)
  {
    assert TopFrom(s, n - 1, less);
    if !swapped {
      AllInOrder(s, n, less);
    }
  }

  // ---------- the exact result ----------

  /** One pass, from position i on. */
  function Passed<T>(s: seq<T>, i: nat, n: nat, less: (T, T) -> bool): (t: seq<T>)
    requires n <= |s|
    ensures |t| == |s|
    decreases n - i
  {
    if i + 1 >= n then s else Passed(if less(s[i], s[i + 1]) then s else Swapped(s, i), i + 1, n, less)
  }

  /** Whether the pass swaps anything. */
  predicate Swaps<T>(s: seq<T>, i: nat, n: nat, less: (T, T) -> bool)
    requires n <= |s|
    decreases n - i
  {
    i + 1 < n && (!less(s[i], s[i + 1]) || Swaps(s, i + 1, n, less))
  }

  /** Shorter and shorter passes, up to one that swaps nothing. */
  function Bubbled<T>(s: seq<T>, n: nat, less: (T, T) -> bool): seq<T>
    requires n <= |s|
    decreases n
  {
    if n > 0 && Swaps(s, 0, n, less) then Bubbled(Passed(s, 0, n, less), n - 1, less) else s
  }

  lemma {:induction false} NoSwapsNoChange<T>(s: seq<T>, i: nat, n: nat, less: (T, T) -> bool)
    requires n <= |s| && !Swaps(s, i, n, less)
    ensures Passed(s, i, n, less) == s
    decreases n - i
  {
    if i + 1 >= n {
    } else {
      NoSwapsNoChange(s, i + 1, n, less);
    }
  }

  /** None of the first n elements is before another. */
  ghost predicate AllEqual<T>(s: seq<T>, n: nat, less: (T, T) -> bool) {
    forall j, k :: 0 <= j < n <= |s| && 0 <= k < n ==> !less(s[j], s[k])
  }

  /** The element at i has moved behind the others of the first n. */
  function Moved<T>(s: seq<T>, i: nat, n: nat): (t: seq<T>)
    requires i < n <= |s|
    ensures |t| == |s|
  {
    seq(|s|, k requires 0 <= k < |s| => if k < i || k >= n then s[k] else if k == n - 1 then s[i] else s[k + 1])
  }

  /** The first n elements stand in the opposite order. */
  function Flipped<T>(s: seq<T>, n: nat): (t: seq<T>)
    requires n <= |s|
    ensures |t| == |s|
  {
    seq(|s|, k requires 0 <= k < |s| => if k < n then s[n - 1 - k] else s[k])
  }

  lemma MovedOneMore<T>(s: seq<T>, i: nat, n: nat)
    requires i + 1 < n <= |s|
    ensures Moved(Swapped(s, i), i + 1, n) == Moved(s, i, n)
  {
  }

  lemma {:induction false} PassOfEquals<T>(s: seq<T>, i: nat, n: nat, less: (T, T) -> bool)
    requires i < n <= |s| && AllEqual(s, n, less)
    ensures Passed(s, i, n, less) == Moved(s, i, n)
    decreases n - i
  {
    if i + 1 == n {
      assert Moved(s, i, n) == s;
    } else {
      assert !less(s[i], s[i + 1]);
      PassOfEquals(Swapped(s, i), i + 1, n, less);
      MovedOneMore(s, i, n);
    }
  }

  lemma FlippedMoved<T>(s: seq<T>, n: nat, less: (T, T) -> bool)
    requires 0 < n <= |s| && AllEqual(s, n, less)
    ensures Flipped(Moved(s, 0, n), n - 1) == Flipped(s, n) && AllEqual(Moved(s, 0, n), n - 1, less)
  {
  }

  /** The sort is not stable: elements of which none is before another come out in the opposite order. */
  lemma {:induction false} EqualsAreReversed<T>(s: seq<T>, n: nat, less: (T, T) -> bool)
    requires n <= |s| && AllEqual(s, n, less)
    ensures Bubbled(s, n, less) == Flipped(s, n)
    decreases n
  {
    if n <= 1 {
      assert Flipped(s, n) == s;
    } else {
      assert !less(s[0], s[1]);
      PassOfEquals(s, 0, n, less);
      FlippedMoved(s, n, less);
      EqualsAreReversed(Moved(s, 0, n), n - 1, less);
    }
  }

  // ---------- what a pass achieves ----------

  lemma {:induction false} PassIsRearranged<T>(s: seq<T>, t: seq<T>, i: nat, n: nat, count: nat, less: (T, T) -> bool)
    requires n <= count && Rearranged(s, t, count)
    ensures Rearranged(Passed(s, i, n, less), t, count)
    decreases n - i
  {
    if i + 1 >= n {
    } else if less(s[i], s[i + 1]) {
      PassIsRearranged(s, t, i + 1, n, count, less);
    } else {
      SwappedIsRearranged(s, t, count, i);
      PassIsRearranged(Swapped(s, i), t, i + 1, n, count, less);
    }
  }

  /** What stands behind does not matter. */
  lemma {:induction false} PassOfPart<T>(s: seq<T>, i: nat, n: nat, count: nat, less: (T, T) -> bool)
    requires n <= count <= |s|
    ensures Passed(s, i, n, less)[..count] == Passed(s[..count], i, n, less)
    ensures Swaps(s, i, n, less) == Swaps(s[..count], i, n, less)
    decreases n - i
  {
    if i + 1 >= n {
    } else {
      assert Swapped(s, i)[..count] == Swapped(s[..count], i);
      PassOfPart(s, i + 1, n, count, less);
      PassOfPart(Swapped(s, i), i + 1, n, count, less);
    }
  }

  lemma {:induction false} PassGoesOn<T(!new)>(s: seq<T>, i: nat, n: nat, swapped: bool, less: (T, T) -> bool)
    requires i < n <= |s| && InPass(s, i, n, swapped, less)
    ensures InPass(Passed(s, i, n, less), n - 1, n, swapped || Swaps(s, i, n, less), less)
    decreases n - i
  {
    if i + 1 == n {
    } else if less(s[i], s[i + 1]) {
      KeepInPass(s, i, n, swapped, less);
      PassGoesOn(s, i + 1, n, swapped, less);
    } else {
      SwapInPass(s, i, n, swapped, less);
      PassGoesOn(Swapped(s, i), i + 1, n, true, less);
    }
  }

  /** With a strict comparer one more element is in its place, and all are when nothing was swapped. */
  lemma PassSorts<T(!new)>(s: seq<T>, n: nat, count: nat, less: (T, T) -> bool)
    requires 1 <= n <= count <= |s| && Strict(less) && TopFrom(s[..count], n, less)
    ensures TopFrom(Passed(s, 0, n, less)[..count], if Swaps(s, 0, n, less) then n - 1 else 0, less)
  {
    PassOfPart(s, 0, n, count, less);
    PassGoesOn(s[..count], 0, n, false, less);
    AfterPass(Passed(s[..count], 0, n, less), n, Swaps(s[..count], 0, n, less), less);
  }

  /** The inner loop: one pass over the first n elements. */
  method Pass<T>(elements: array<T>, n: nat, less: (T, T) -> bool) returns (swapped: bool)
    requires 1 <= n <= elements.Length
    modifies elements
    ensures elements[..] == Passed(old(elements[..]), 0, n, less) && swapped == Swaps(old(elements[..]), 0, n, less)
  {
    swapped := false;
    var i := 0;
    while i < n - 1
      invariant 0 <= i <= n - 1
      invariant Passed(elements[..], i, n, less) == Passed(old(elements[..]), 0, n, less)
      invariant swapped || Swaps(elements[..], i, n, less) <==> Swaps(old(elements[..]), 0, n, less)
    {
      ghost var s := elements[..];
      if !less(elements[i], elements[i + 1]) {
        elements[i], elements[i + 1] := elements[i + 1], elements[i];
        assert elements[..] == Swapped(s, i);
        swapped := true;
      }
      i := i + 1;
    }
  }

  /**
   * Sorts the first count elements, swapping also equal ones; there are at most count passes, because the
   * last pass has nothing to compare.
   */
  method BubbleSort<T(!new)>(elements: array<T>, count: nat, less: (T, T) -> bool) returns (ghost passes: nat)
    requires count <= elements.Length
    modifies elements
    ensures passes <= count
    ensures Rearranged(elements[..], old(elements[..]), count)
    ensures Strict(less) ==> TopFrom(elements[..count], 0, less)
    ensures elements[..] == Bubbled(old(elements[..]), count, less)
  {
    passes := 0;
    if count == 0 {
      return;
    }
    var n: nat := count;
    var swapped := true;
    while swapped
      invariant (swapped ==> n >= 1) && n <= count && passes == count - n
      invariant Rearranged(elements[..], old(elements[..]), count)
      invariant Strict(less) ==> TopFrom(elements[..count], if swapped then n else 0, less)
      invariant Bubbled(old(elements[..]), count, less) ==
                if swapped then Bubbled(elements[..], n, less) else elements[..]
      decreases n, swapped
    {
      ghost var s := elements[..];
      swapped := Pass(elements, n, less);
      PassIsRearranged(s, old(elements[..]), 0, n, count, less);
      if !swapped {
        NoSwapsNoChange(s, 0, n, less);
      }
      if Strict(less) {
        PassSorts(s, n, count, less);
      }
      n, passes := n - 1, passes + 1;
    }
  }
}
