/** Concatenations of consecutive bins. */
module Flatten {
  /** The first n sequences of ss, one after the other. */
  function Concat<X>(ss: seq<seq<X>>, n: nat): seq<X>
    requires n <= |ss|
  {
    if n == 0 then [] else Concat(ss, n - 1) + ss[n - 1]
  }

  lemma {:induction false} ConcatPrefix<X>(ss: seq<seq<X>>, a: nat, b: nat)
    requires a <= b <= |ss|
    ensures Concat(ss, a) <= Concat(ss, b)
  {
    if a == b {
    } else {
      ConcatPrefix(ss, a, b - 1);
    }
  }

  lemma {:induction false} ConcatAt<X>(ss: seq<seq<X>>, n: nat, b: nat, i: nat)
    requires b < n <= |ss| && i < |ss[b]|
    ensures |Concat(ss, b)| + i < |Concat(ss, n)|
    ensures Concat(ss, n)[|Concat(ss, b)| + i] == ss[b][i]
  {
    ConcatPrefix(ss, b + 1, n);
    assert Concat(ss, b + 1)[|Concat(ss, b)| + i] == ss[b][i];
  }

  lemma {:induction false} ConcatLocate<X>(ss: seq<seq<X>>, n: nat, p: nat) returns (b: nat, i: nat)
    requires n <= |ss| && p < |Concat(ss, n)|
    ensures b < n && i < |ss[b]| && p == |Concat(ss, b)| + i && Concat(ss, n)[p] == ss[b][i]
  {
    if p < |Concat(ss, n - 1)| {
      b, i := ConcatLocate(ss, n - 1, p);
    } else {
      b, i := n - 1, p - |Concat(ss, n - 1)|;
    }
  }

  /** Two places in order are in two bins in order, or in one bin in order. */
  lemma ConcatOrder<X>(ss: seq<seq<X>>, n: nat, p: nat, q: nat) returns (b: nat, i: nat, c: nat, j: nat)
    requires n <= |ss| && p < q < |Concat(ss, n)|
    ensures b < n && i < |ss[b]| && Concat(ss, n)[p] == ss[b][i]
    ensures c < n && j < |ss[c]| && Concat(ss, n)[q] == ss[c][j]
    ensures b < c || (b == c && i < j)
  {
    b, i := ConcatLocate(ss, n, p);
    c, j := ConcatLocate(ss, n, q);
    if c < b {
      ConcatPrefix(ss, c + 1, b);
    }
  }

  lemma {:induction false} ConcatGap<X>(ss: seq<seq<X>>, a: nat, b: nat)
    requires a <= b <= |ss| && forall c | a <= c < b :: ss[c] == []
    ensures Concat(ss, a) == Concat(ss, b)
  {
    if a == b {
    } else {
      ConcatGap(ss, a, b - 1);
    }
  }

  lemma {:induction false} ConcatSame<X>(ss: seq<seq<X>>, tt: seq<seq<X>>, n: nat)
    requires n <= |ss| && n <= |tt| && ss[..n] == tt[..n]
    ensures Concat(ss, n) == Concat(tt, n)
  {
    if n == 0 {
    } else {
      assert ss[..n - 1] == ss[..n][..n - 1] == tt[..n][..n - 1] == tt[..n - 1];
      assert ss[n - 1] == ss[..n][n - 1] == tt[..n][n - 1] == tt[n - 1];
      ConcatSame(ss, tt, n - 1);
    }
  }

  lemma {:induction false} ConcatUpdate<X>(ss: seq<seq<X>>, h: nat, s: seq<X>, n: nat)
    requires h < n <= |ss|
    ensures |Concat(ss, h)| + |ss[h]| <= |Concat(ss, n)|
    ensures Concat(ss[h := s], n) == Concat(ss, h) + s + Concat(ss, n)[|Concat(ss, h)| + |ss[h]|..]
  {
    if n == h + 1 {
      ConcatSame(ss[h := s], ss, h);
    } else {
      ConcatUpdate(ss, h, s, n - 1);
      var k := |Concat(ss, h)| + |ss[h]|;
      assert Concat(ss, n)[k..] == Concat(ss, n - 1)[k..] + ss[n - 1];
      assert Concat(ss[h := s], n) == Concat(ss[h := s], n - 1) + ss[n - 1];
    }
  }

  lemma ConcatSplit<X>(ss: seq<seq<X>>, h: nat, n: nat) returns (rest: seq<X>)
    requires h < n <= |ss|
    ensures Concat(ss, n) == Concat(ss, h) + ss[h] + rest
    ensures forall s :: Concat(ss[h := s], n) == Concat(ss, h) + s + rest
  {
    ConcatUpdate(ss, h, ss[h], n);
    rest := Concat(ss, n)[|Concat(ss, h)| + |ss[h]|..];
    forall s
      ensures Concat(ss[h := s], n) == Concat(ss, h) + s + rest
    {
      ConcatUpdate(ss, h, s, n);
    }
    assert ss[h := ss[h]] == ss;
  }
}
