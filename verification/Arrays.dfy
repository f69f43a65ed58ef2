/** The growable array (Include/XnArray.h). */
module Arrays {
  import opened Words
  import opened Statuses

  /** The least power of two that is at least n. */
  function LeastPow2(n: nat): nat {
    if n <= 1 then 1 else 2 * LeastPow2((n + 1) / 2)
  }

  lemma {:induction false} Pow2Order(j: nat, k: nat)
    ensures j < k <==> Pow2(j) < Pow2(k)
    decreases j + k
  {
    if j == 0 || k == 0 {
    } else {
      Pow2Order(j - 1, k - 1);
    }
  }

  lemma {:induction false} LeastPow2Between(n: nat, k: nat)
    requires n <= Pow2(k) && (k > 0 ==> Pow2(k - 1) < n)
    ensures LeastPow2(n) == Pow2(k)
  {
    if k <= 1 {
    } else {
      LeastPow2Between((n + 1) / 2, k - 1);
    }
  }

  lemma {:induction false} LeastPow2Is(n: nat) returns (k: nat)
    ensures LeastPow2(n) == Pow2(k) && n <= Pow2(k) && (k > 0 ==> Pow2(k - 1) < n)
  {
    if n <= 1 {
      k := 0;
    } else {
      k := LeastPow2Is((n + 1) / 2);
      k := k + 1;
    }
  }

  /** It is a power of two, it is enough, and every smaller power of two is not. */
  lemma LeastPow2IsLeast(n: nat)
    ensures n <= LeastPow2(n) && exists k: nat :: LeastPow2(n) == Pow2(k)
    ensures forall j: nat :: n <= Pow2(j) ==> LeastPow2(n) <= Pow2(j)
  {
    var k := LeastPow2Is(n);
    forall j: nat | n <= Pow2(j)
      ensures LeastPow2(n) <= Pow2(j)
    {
      if k > 0 {
        Pow2Order(k - 1, j);
        Pow2Order(j, k);
      }
    }
  }

  lemma Pow2Values()
    ensures Pow2(31) == 0x8000_0000 && Pow2(32) == WORD_LIMIT
  {
    assert Pow2(8) == 0x100;
    assert Pow2(16) == 0x1_0000;
    assert Pow2(24) == 0x100_0000;
    assert Pow2(31) == 0x8000_0000;
  }

  /** The capacity that a reallocation for n elements makes. */
  function Capacity(n: nat): nat {
    if 1 <= n <= 0x8000_0000 then LeastPow2(n) else 0
  }

  /**
   * The 32-bit computation of a capacity: decrement, smear, increment, each modulo 2^32. It gives the
   * least power of two exactly for the requests up to 2^31, and 0 for all others.
   */
  method RoundUp(n: nat) returns (r: nat)
    requires n < WORD_LIMIT
    ensures r == Capacity(n) < WORD_LIMIT
  {
    var m := (n + WORD_LIMIT - 1) % WORD_LIMIT;
    var x := FromNat(m);
    var a := (x >> 1) | x;
    var b := (a >> 2) | a;
    var c := (b >> 4) | b;
    var d := (c >> 8) | c;
    var f := (d >> 16) | d;
    r := (ToNat(f) + 1) % WORD_LIMIT;
    RoundTrip(m);
    SmearFills(x, a, b, c, d, f);
    ghost var k := FilledPower(x, f);
    RoundedUp(n, m, k);
  }

  lemma RoundedUp(n: nat, m: nat, k: nat)
    requires n < WORD_LIMIT && m == (n + WORD_LIMIT - 1) % WORD_LIMIT
    requires if m == 0 then k == 0 else k > 0 && Pow2(k - 1) <= m < Pow2(k)
    ensures Pow2(k) % WORD_LIMIT == Capacity(n)
  {
    Pow2Values();
    if 1 <= n <= 0x8000_0000 {
      LeastPow2Between(n, k);
      if k > 0 {
        Pow2Order(31, k - 1);
      }
      Pow2Order(31, k);
      assert k <= 31;
    } else {
      Pow2Order(31, k);
      Pow2Order(32, k - 1);
      Pow2Order(k - 1, 32);
      assert k == 32;
    }
  }

  class XnArray<T(0)> {
    var data: array<T>
    var size: nat
    ghost var copied: nat  // how many elements Reserve has copied so far

    ghost predicate Valid()
      reads this
    {
      size <= data.Length < WORD_LIMIT
    }

    /** The sizes for which there is room or can be made room; for all others the new buffer has no element. */
    ghost predicate CanHold(n: nat)
      reads this
    {
      n <= 0x8000_0000 || n <= data.Length
    }

    ghost function Contents(): (s: seq<T>)
      requires Valid()
      reads this, data
      ensures |s| == size
    {
      data[..size]
    }

    constructor (baseSize: nat := 8)
      requires baseSize < WORD_LIMIT
      ensures Valid() && fresh(data) && size == 0 && data.Length == baseSize && copied == 0
    {
      data := new T[baseSize];
      size, copied := 0, 0;
    }

    /**
     * The elements keep their places, and a larger capacity is the least power of two that is enough; for a
     * request above 2^31 it is 0, which an array with elements does not survive.
     */
    method Reserve(n: nat, canAllocate: bool) returns (status: Status)
      requires Valid() && n < WORD_LIMIT && (CanHold(n) || size == 0)
      modifies this`data, this`copied
      ensures Valid() && Contents() == old(Contents())
      ensures status == Ok ==> (n <= data.Length <==> old(CanHold(n)))
      ensures status == if n > old(data.Length) && !canAllocate then AllocFailed else Ok
      ensures if n > old(data.Length) && canAllocate
              then fresh(data) && data.Length == Capacity(n) && copied == old(copied) + size
              else data == old(data) && copied == old(copied)
    {
      if n > data.Length {
        var capacity := RoundUp(n);
        if !canAllocate {
          return AllocFailed;
        }
        if n <= 0x8000_0000 {
          LeastPow2IsLeast(n);
        }
        var newData := new T[capacity];
        var i := 0;
        while i < size
          invariant 0 <= i <= size && copied == old(copied) + i
          invariant data == old(data) && forall j :: 0 <= j < size ==> data[j] == old(data[j])
          invariant forall j :: 0 <= j < i ==> newData[j] == old(data[j])
        {
          newData[i] := data[i];
          i, copied := i + 1, copied + 1;
        }
        data := newData;
      }
      status := Ok;
    }

    /** Elements added without a fill value are whatever the buffer held. */
    method SetMinSize(n: nat, canAllocate: bool) returns (status: Status)
      requires Valid() && CanHold(n)
      modifies this
      ensures Valid() && (data == old(data) || fresh(data))
      ensures status == if n > old(data.Length) && !canAllocate then AllocFailed else Ok
      ensures size == (if status == Ok && n > old(size) then n else old(size))
              && Contents()[..old(size)] == old(Contents())
      ensures if n > old(data.Length) && canAllocate
              then data.Length == LeastPow2(n) && copied == old(copied) + old(size)
              else data == old(data) && copied == old(copied)
    {
      status := Ok;
      if n > size {
        status := Reserve(n, canAllocate);
        if status == Ok {
          size := n;
        }
      }
    }

    method SetMinSizeFilled(n: nat, fill: T, canAllocate: bool) returns (status: Status)
      requires Valid() && CanHold(n)
      modifies this, data
      ensures Valid() && (data == old(data) || fresh(data))
      ensures status == if n > old(data.Length) && !canAllocate then AllocFailed else Ok
      ensures Contents() ==
              old(Contents()) + if status == Ok && n > old(size) then seq(n - old(size), _ => fill) else []
    {
      status := Ok;
      if n > size {
        status := Reserve(n, canAllocate);
        if status == Ok {
          var i := size;
          while i < n
            invariant Valid() && size <= i <= n <= data.Length && (data == old(data) || fresh(data))
            invariant data[..i] == old(Contents()) + seq(i - size, _ => fill)
          {
            data[i] := fill;
            i := i + 1;
          }
          size := n;
        }
      }
    }

    /** Sets the size; a smaller one keeps the elements below it. */
    method SetSize(n: nat, canAllocate: bool) returns (status: Status)
      requires Valid() && CanHold(n)
      modifies this
      ensures Valid() && (data == old(data) || fresh(data))
      ensures status == if n > old(data.Length) && !canAllocate then AllocFailed else Ok
      ensures size == if status == Ok then n else old(size)
      ensures forall i :: 0 <= i < size && i < old(size) ==> data[i] == old(data[i])
    {
      status := SetMinSize(n, canAllocate);
      assert forall i :: 0 <= i < old(size) ==> Contents()[..old(size)][i] == data[i];
      if status == Ok {
        size := n;
      }
    }

    /** Sets the size. Only the elements added are filled, and those kept are as they were. */
    method SetSizeFilled(n: nat, fill: T, canAllocate: bool) returns (status: Status)
      requires Valid() && CanHold(n)
      modifies this, data
      ensures Valid() && (data == old(data) || fresh(data))
      ensures status == if n > old(data.Length) && !canAllocate then AllocFailed else Ok
      ensures Contents() == if status == Ok then Resized(old(Contents()), n, fill) else old(Contents())
    {
      status := SetMinSizeFilled(n, fill, canAllocate);
      if status == Ok {
        assert Contents()[..n] == Resized(old(Contents()), n, fill);
        size := n;
      }
    }

    /** Writes through operator[], which checks no bound. */
    method Store(index: nat, value: T)
      requires Valid() && index < size
      modifies data
      ensures Valid() && Contents() == old(Contents())[index := value]
    {
      data[index] := value;
    }

    method Set(index: nat, value: T, canAllocate: bool) returns (status: Status)
      requires Valid() && CanHold(index + 1)
      modifies this, data
      ensures Valid() && (data == old(data) || fresh(data))
      ensures status == if index >= old(data.Length) && !canAllocate then AllocFailed else Ok
      ensures status != Ok ==> Contents() == old(Contents())
      ensures status == Ok ==> size == (if index < old(size) then old(size) else index + 1) && data[index] == value
      ensures status == Ok ==> forall i :: 0 <= i < old(size) && i != index ==> data[i] == old(data[i])
      ensures if index >= old(data.Length) && canAllocate
              then data.Length == LeastPow2(index + 1) && copied == old(copied) + old(size)
              else data == old(data) && copied == old(copied)
    {
      status := SetMinSize(index + 1, canAllocate);
      assert forall i :: 0 <= i < old(size) ==> Contents()[..old(size)][i] == data[i];
      if status == Ok {
        data[index] := value;
      }
    }

    /** Like Set, but the gap between the old end and the index reads as the fill value. */
    method SetFilled(index: nat, value: T, fill: T, canAllocate: bool) returns (status: Status)
      requires Valid() && CanHold(index + 1)
      modifies this, data
      ensures Valid() && (data == old(data) || fresh(data))
      ensures status == if index >= old(data.Length) && !canAllocate then AllocFailed else Ok
      ensures Contents() == if status == Ok then Stored(old(Contents()), index, value, fill) else old(Contents())
    {
      status := SetMinSizeFilled(index + 1, fill, canAllocate);
      if status == Ok {
        data[index] := value;
      }
    }

    method AddLast(value: T, canAllocate: bool) returns (status: Status)
      requires Valid() && CanHold(size + 1)
      modifies this, data
      ensures Valid() && (data == old(data) || fresh(data))
      ensures status == if old(size) == old(data.Length) && !canAllocate then AllocFailed else Ok
      ensures Contents() == if status == Ok then old(Contents()) + [value] else old(Contents())
      ensures status == Ok ==>
              Growth(size, data.Length, copied) == Pushed(Growth(old(size), old(data.Length), old(copied)))
    {
      status := Set(size, value, canAllocate);
    }

    /** The buffer may be missing. */
    method AddLastRange(buffer: Option<seq<T>>, canAllocate: bool) returns (status: Status)
      requires Valid() && (buffer.Some? ==> CanHold(size + |buffer.value|))
      modifies this, data
      ensures Valid() && (data == old(data) || fresh(data))
      ensures status == if buffer.None? then NullInputPtr
                        else if old(size) + |buffer.value| > old(data.Length) && !canAllocate then AllocFailed
                        else Ok
      ensures Contents() == if status == Ok then old(Contents()) + buffer.value else old(Contents())
    {
      if buffer.None? {
        return NullInputPtr;
      }
      var values := buffer.value;
      var offset := size;
      status := SetMinSize(size + |values|, canAllocate);
      if status != Ok {
        return;
      }
      assert data[..offset] == Contents()[..offset];
      var i := 0;
      while i < |values|
        invariant 0 <= i <= |values| && size == offset + |values| && Valid() && (data == old(data) || fresh(data))
        invariant data[..offset + i] == old(Contents()) + values[..i]
      {
        data[offset + i] := values[i];
        i := i + 1;
      }
    }

    method Clear()
      requires Valid()
      modifies this
      ensures Valid() && fresh(data) && size == 0 && data.Length == 8 && copied == old(copied)
    {
      data := new T[8];
      size := 0;
    }

    /** Copies a raw buffer, which is not this array's own. */
    method SetData(values: seq<T>, canAllocate: bool) returns (status: Status)
      requires Valid() && |values| <= 0x8000_0000
      modifies this
      ensures Valid() && fresh(data)
      ensures status == if |values| > 8 && !canAllocate then AllocFailed else Ok
      ensures Contents() == if status == Ok then values else []
    {
      Clear();
      status := SetSize(|values|, canAllocate);
      if status != Ok {
        return;
      }
      var i := 0;
      while i < |values|
        invariant 0 <= i <= |values| == size && Valid() && fresh(data) && data[..i] == values[..i]
      {
        data[i] := values[i];
        i := i + 1;
      }
    }

    /** The copy has a buffer of its own. Copying an array to itself does nothing. */
    method CopyFrom(other: XnArray<T>, canAllocate: bool) returns (status: Status)
      requires Valid() && other.Valid() && (other == this || other.size <= 0x8000_0000)
      modifies this
      ensures Valid() && status == if other != this && old(other.size) > 8 && !canAllocate then AllocFailed else Ok
      ensures Contents() == if status == Ok then old(other.Contents()) else []
      ensures if other == this then data == old(data) else fresh(data)
    {
      status := Ok;
      if this != other {
        status := SetData(other.data[..other.size], canAllocate);
      }
    }
  }

  /** The contents after a store at an index that may be past the end. */
  function Stored<T>(s: seq<T>, index: nat, value: T, fill: T): seq<T> {
    (s + if index < |s| then [] else seq(index + 1 - |s|, _ => fill))[index := value]
  }

  /** The value at the index, the fill value in the gap, and everything else as it was. */
  lemma StoredAt<T>(s: seq<T>, index: nat, value: T, fill: T, i: nat)
    requires i < |s| || i <= index
    ensures |Stored(s, index, value, fill)| == if index < |s| then |s| else index + 1
    ensures Stored(s, index, value, fill)[i] == if i == index then value else if i < |s| then s[i] else fill
  {
  }

  lemma ResizedAt<T>(s: seq<T>, n: nat, fill: T, i: nat)
    requires i < n
    ensures Resized(s, n, fill)[i] == if i < |s| then s[i] else fill
  {
  }

  function Resized<T>(s: seq<T>, n: nat, fill: T): (r: seq<T>)
    ensures |r| == n
  {
    if n <= |s| then s[..n] else s + seq(n - |s|, _ => fill)
  }

  predicate AllAre<T(==)>(s: seq<T>, x: T) {
    forall i :: 0 <= i < |s| ==> s[i] == x
  }

  /** All elements have the fill value just when those that are kept have it already: so for every empty array. */
  lemma ResizedIsFilled<T>(s: seq<T>, n: nat, fill: T)
    ensures AllAre(Resized(s, n, fill), fill) <==> AllAre(s[..if n < |s| then n else |s|], fill)
  {
    var kept := s[..if n < |s| then n else |s|];
    assert Resized(s, n, fill)[..|kept|] == kept;
    forall i | 0 <= i < |kept|
      ensures Resized(s, n, fill)[i] == kept[i]
    {
    }
  }

  /** The smallest array for which the size can be set and not all elements have the fill value. */
  lemma ResizedIsNotFilled()
    ensures Resized([7], 2, 0) == [7, 0] && !AllAre(Resized([7], 2, 0), 0)
  {
    assert Resized([7], 2, 0)[0] == 7;
  }

  // ---------- the cost of growing ----------

  datatype Growth = Growth(size: nat, capacity: nat, copied: nat)

  /** What adding one element does to an array's size, its capacity, and the copies made so far. */
  function Pushed(g: Growth): Growth {
    if g.size < g.capacity then g.(size := g.size + 1)
    else Growth(g.size + 1, LeastPow2(g.size + 1), g.copied + g.size)
  }

  function PushedTimes(baseSize: nat, n: nat): Growth {
    if n == 0 then Growth(0, baseSize, 0) else Pushed(PushedTimes(baseSize, n - 1))
  }

  /** Before the first reallocation nothing was copied; afterwards the copies are fewer than the capacity. */
  ghost predicate Paid(g: Growth) {
    && g.size <= g.capacity
    && (g.copied == 0 || ((exists k: nat :: g.capacity == Pow2(k)) && g.copied < g.capacity <= 2 * g.size))
  }

  /** Earlier copies are not counted again. */
  lemma PushedFrom(g: Growth, before: nat)
    requires before <= g.copied
    ensures Pushed(g.(copied := g.copied - before)) == Pushed(g).(copied := Pushed(g).copied - before)
  {
  }

  lemma PushedIsPaid(g: Growth)
    requires Paid(g)
    ensures Paid(Pushed(g))
  {
    if g.size == g.capacity {
      var k := LeastPow2Is(g.size + 1);
      if g.copied > 0 {
        var j: nat :| g.capacity == Pow2(j);
        Pow2Order(k - 1, j);
        Pow2Order(j, k - 1);
        Pow2Order(j, k);
        assert k == j + 1;
      }
    }
  }

  /** Any number of additions, from any base size, copy at most two elements for each element added. */
  lemma {:induction false} AmortisedCopies(baseSize: nat, n: nat)
    ensures Paid(PushedTimes(baseSize, n)) && PushedTimes(baseSize, n).size == n
    ensures PushedTimes(baseSize, n).copied <= 2 * n
  {
    if n == 0 {
    } else {
      AmortisedCopies(baseSize, n - 1);
      PushedIsPaid(PushedTimes(baseSize, n - 1));
    }
  }

  /** A client that adds values one by one to an empty array: all are there, for at most two copies each. */
  method AddEach<T(0)>(a: XnArray<T>, values: seq<T>)
    requires a.Valid() && a.size == 0 && |values| <= 0x8000_0000
    modifies a, a.data
    ensures a.Valid() && a.Contents() == values && a.copied <= old(a.copied) + 2 * |values|
  {
    ghost var capacity, before := a.data.Length, a.copied;
    var i := 0;
    while i < |values|
      invariant 0 <= i <= |values| && a.Valid() && (a.data == old(a.data) || fresh(a.data))
      invariant a.Contents() == values[..i] && before <= a.copied
      invariant Growth(a.size, a.data.Length, a.copied - before) == PushedTimes(capacity, i)
    {
      PushedFrom(Growth(a.size, a.data.Length, a.copied), before);
      var status := a.AddLast(values[i], true);
      i := i + 1;
    }
    AmortisedCopies(capacity, |values|);
  }

  /** A client that writes to one of two arrays after one was copied: the other does not notice. */
  method WriteAfterCopy<T(0)>(a: XnArray<T>, b: XnArray<T>, toCopy: bool, index: nat, value: T)
    requires a.Valid() && b.Valid() && a != b && index < b.size <= 0x8000_0000
    modifies a, a.data, b.data
    ensures a.Valid() && b.Valid()
    ensures a.Contents() == if toCopy then old(b.Contents())[index := value] else old(b.Contents())
    ensures b.Contents() == if toCopy then old(b.Contents()) else old(b.Contents())[index := value]
  {
    var status := a.CopyFrom(b, true);
    if toCopy {
      a.Store(index, value);
    } else {
      b.Store(index, value);
    }
  }
}
