/** What runs of a bit set (Include/XnBitSet.h) leave in it, and whether its size covers that. */
module BitSetRuns {
  import opened Words
  import opened Arrays
  import opened BitSets

  function Run(calls: seq<Call>): State {
    if calls == [] then State([], 0) else Step(Run(calls[..|calls| - 1]), calls[|calls| - 1])
  }

  // ---------- membership ----------

  function BitOfWords(values: seq<bv32>, i: bv32): nat {
    if WordOf(i) < |values| then Bit(values[WordOf(i)], 31 - (i & 0x1F)) else 0
  }

  function BitOfBytes(bytes: seq<bv8>, n: nat, i: bv32): nat
    requires n <= |bytes|
  {
    if ByteOf(i) < n then Bit(bytes[ByteOf(i)] as bv32, 7 - (i & 7)) else 0
  }

  /** What a call makes of an index. */
  function Decided(call: Call, i: bv32, was: nat): nat {
    match call
    case Set(j, value, found) => if i != j || !found then was else if value then 1 else 0
    case SetSize(bits, found) => if found && WordOf(i) > WordOf(bits) then 0 else was
    case SetData(values, found) => if found then BitOfWords(values, i) else 0
    case SetDataBytes(bytes, length, found) => if found then BitOfBytes(bytes, 4 * WordCount(length), i) else was
    case Clear => 0
  }

  /** What the last call that decides an index made of it: the plain set of indices. */
  function Expected(calls: seq<Call>, i: bv32): nat {
    if calls == [] then 0 else Decided(calls[|calls| - 1], i, Expected(calls[..|calls| - 1], i))
  }

  lemma SetMember(words: seq<bv32>, i: bv32, value: bool, j: bv32)
    ensures Member(WithIndex(words, i, value), j) == if i != j then Member(words, j) else if value then 1 else 0
  {
    WithIndexIs(words, i, value, j);
  }

  lemma ResizedMember(words: seq<bv32>, n: nat, i: bv32)
    ensures Member(Resized(words, n, 0), i) == if WordOf(i) < n then Member(words, i) else 0
  {
    ZeroHasNoBit(Mask(i));
  }

  lemma NoWordsNoMember(i: bv32)
    ensures Member([], i) == 0
  {
    ZeroHasNoBit(Mask(i));
  }

  lemma StepMember(s: State, call: Call, i: bv32)
    ensures Member(Step(s, call).words, i) == Decided(call, i, Member(s.words, i))
  {
    NoWordsNoMember(i);
    match call
    case Set(j, value, _) => SetMember(s.words, j, value, i);
    case SetSize(bits, _) => ResizedMember(s.words, WordOf(bits) + 1, i);
    case SetData(values, _) => WordsAgree(values, i);
    case SetDataBytes(bytes, length, _) => BytesAgree(bytes, WordCount(length), i);
    case Clear =>
  }

  /** In every run, each index is in the set just when the last call that decides it put it there. */
  lemma {:induction false} RunIsExpected(calls: seq<Call>, i: bv32)
    ensures Member(Run(calls).words, i) == Expected(calls, i)
  {
    if calls == [] {
      NoWordsNoMember(i);
    } else {
      RunIsExpected(calls[..|calls| - 1], i);
      StepMember(Run(calls[..|calls| - 1]), calls[|calls| - 1], i);
    }
  }

  // ---------- the same in numbers ----------

  lemma {:induction false} BitIsDigit(w: bv32, k: bv32)
    requires k <= 31
    ensures Bit(w, k) == Digit(ToNat(w), ToNat(k))
    decreases k
  {
    ToNatHalf(w);
    if k == 0 {
      BitZero(w);
    } else {
      BitIsDigit(Half(w), k - 1);
      BitOfNext(w, k);
      ToNatNext(k);
    }
  }

  lemma BitZero(w: bv32)
    ensures Bit(w, 0) == Low(w)
  {
  }

  lemma BitOfNext(w: bv32, k: bv32)
    requires 0 < k <= 31
    ensures Bit(w, k) == Bit(Half(w), k - 1)
  {
  }

  /** Index n is the binary digit 31 - n mod 32 of dword n / 32. */
  lemma WordsAreDigits(words: seq<bv32>, i: bv32)
    ensures var n := ToNat(i);
            In(i, words) <==> n / 32 < |words| && Digit(ToNat(words[n / 32]), 31 - n % 32) == 1
  {
    WordsAgree(words, i);
    IndexIsNumber(i);
    WordMaskIsRemainder(i);
    LowBits(i);
    ToNatDifference(31, i & 0x1F);
    ToNatOfMasks();
    if WordOf(i) < |words| {
      BitIsDigit(words[WordOf(i)], 31 - (i & 0x1F));
    }
  }

  lemma LowBits(i: bv32)
    ensures i & 0x1F <= 31 && i & 7 <= 7
  {
  }

  lemma ToNatOfMasks()
    ensures ToNat(31) == 31 && ToNat(7) == 7
  {
    assert ToNat(1) == 1 + 2 * ToNat(0);
    ToNatDouble(0x1); ToNatDouble(0x3); ToNatDouble(0x7); ToNatDouble(0xF);
  }

  /**
   * After SetDataBytes, index n is the binary digit 7 - n mod 8 of byte n / 8, for the bytes of all complete
   * dwords: with a multiple of four bytes, for all of them. With fewer than four, four are read.
   */
  lemma BytesAreDigits(s: State, bytes: seq<bv8>, length: nat, i: bv32)
    requires Legal(SetDataBytes(bytes, length, true))
    ensures var n, read := ToNat(i), if length < 4 then 4 else 4 * (length / 4);
            In(i, Step(s, SetDataBytes(bytes, length, true)).words) <==>
            n / 8 < read && Digit(ToNat(bytes[n / 8] as bv32), 7 - n % 8) == 1
  {
    BytesAgree(bytes, WordCount(length), i);
    IndexIsNumber(i);
    MaskIsRemainder(i);
    LowBits(i);
    ToNatDifference(7, i & 7);
    ToNatOfMasks();
    if ByteOf(i) < 4 * WordCount(length) {
      BitIsDigit(bytes[ByteOf(i)] as bv32, 7 - (i & 7));
    }
  }

  // ---------- the size ----------

  /** Every index in the set is below the size. */
  ghost predicate Bounded(words: seq<bv32>, size: nat) {
    forall i: bv32 :: In(i, words) ==> ToNat(i) < size
  }

  lemma GrownCovers(size: nat, i: bv32)
    ensures size <= Grown(size, i) && (ToNat(i) != WORD_LIMIT - 1 ==> ToNat(i) < Grown(size, i))
  {
    ToNatLimit(i);
  }

  lemma WithIndexBelow(words: seq<bv32>, size: nat, i: bv32, value: bool, j: bv32)
    requires Bounded(words, size) && (value ==> ToNat(i) != WORD_LIMIT - 1)
    ensures In(j, WithIndex(words, i, value)) ==> ToNat(j) < Grown(size, i)
  {
    WithIndexIs(words, i, value, j);
    GrownCovers(size, i);
  }

  /** Set keeps every index below the size, except when it adds the last index of all. */
  lemma SetBounded(words: seq<bv32>, size: nat, i: bv32, value: bool)
    requires Bounded(words, size) && size < WORD_LIMIT
    ensures Bounded(WithIndex(words, i, value), Grown(size, i)) <==> !value || ToNat(i) != WORD_LIMIT - 1
  {
    ToNatLimit(i);
    if value && ToNat(i) == WORD_LIMIT - 1 {
      WithIndexIs(words, i, value, i);
      assert In(i, WithIndex(words, i, value));
    } else {
      forall j: bv32
        ensures In(j, WithIndex(words, i, value)) ==> ToNat(j) < Grown(size, i)
      {
        WithIndexBelow(words, size, i, value, j);
      }
    }
  }

  lemma {:induction false} SomeBit(w: bv32) returns (c: bv32)
    requires w != 0
    ensures c <= 31 && Bit(w, c) == 1
    decreases w
  {
    if w & 1 == 1 {
      c := 0;
      LowestBit(w);
    } else {
      HalfIsLess(w);
      c := SomeBit(w >> 1);
      BitOfHalf(w, c);
      c := c + 1;
    }
  }

  lemma HalfIsLess(w: bv32)
    requires w != 0 && w & 1 != 1
    ensures 0 < w >> 1 < w
  {
  }

  lemma LowestBit(w: bv32)
    requires w & 1 == 1
    ensures Bit(w, 0) == 1
  {
  }

  lemma BitOfHalf(w: bv32, c: bv32)
    requires c <= 31 && Bit(w >> 1, c) == 1
    ensures c < 31 && Bit(w, c + 1) == 1
  {
  }

  lemma SmallNumber(w: bv32)
    requires w <= 31
    ensures ToNat(w) < 32 && (w <= 7 ==> ToNat(w) < 8)
  {
    WordMaskIsRemainder(w);
    MaskIsRemainder(w);
    SmallMasks(w);
  }

  lemma SmallMasks(w: bv32)
    requires w <= 31
    ensures w & 0x1F == w && (w <= 7 ==> w & 7 == w)
  {
  }

  lemma IndexOfWordBit(k: nat, m: bv32) returns (i: bv32)
    requires k < 0x800_0000 && m <= 31
    ensures WordOf(i) == k && i & 0x1F == m
  {
    SmallNumber(m);
    i := FromNat(32 * k + ToNat(m));
    RoundTrip(32 * k + ToNat(m));
    IndexIsNumber(i);
    WordMaskIsRemainder(i);
    WordRoundTrip(i & 0x1F);
    WordRoundTrip(m);
  }

  lemma IndexOfByteBit(k: nat, m: bv32) returns (i: bv32)
    requires k < 0x2000_0000 && m <= 7
    ensures ByteOf(i) == k && i & 7 == m
  {
    SmallNumber(m);
    i := FromNat(8 * k + ToNat(m));
    RoundTrip(8 * k + ToNat(m));
    IndexIsNumber(i);
    MaskIsRemainder(i);
    WordRoundTrip(i & 7);
    WordRoundTrip(m);
  }

  /** Every word that is not clear has an index in the set. */
  lemma IndexInWord(words: seq<bv32>, k: nat) returns (i: bv32)
    requires k < |words| && k < 0x800_0000 && words[k] != 0
    ensures WordOf(i) == k && In(i, words)
  {
    var c := SomeBit(words[k]);
    i := IndexOfWordBit(k, 31 - c);
    WordsAgree(words, i);
  }

  lemma BitOfByte(b: bv8, c: bv32)
    requires c <= 31 && Bit(b as bv32, c) == 1
    ensures c <= 7
  {
  }

  lemma ClearByte(c: bv32)
    requires c < 32
    ensures Bit(0, c) == 0
  {
  }

  lemma NotClear(b: bv8)
    requires b != 0
    ensures b as bv32 != 0
  {
  }

  /** So has every byte. */
  lemma IndexInByte(bytes: seq<bv8>, n: nat, k: nat) returns (i: bv32)
    requires 4 * n <= |bytes| && k < 4 * n && k < 0x2000_0000 && bytes[k] != 0
    ensures ByteOf(i) == k && In(i, Packed(bytes, n))
  {
    NotClear(bytes[k]);
    var c := SomeBit(bytes[k] as bv32);
    BitOfByte(bytes[k], c);
    i := IndexOfByteBit(k, 7 - c);
    BytesAgree(bytes, n, i);
  }

  lemma WordsBelow(words: seq<bv32>, n: nat)
    ensures Bounded(words, 32 * n) <==> forall k :: n <= k < |words| && k < 0x800_0000 ==> words[k] == 0
  {
    if k :| n <= k < |words| && k < 0x800_0000 && words[k] != 0 {
      var i := IndexInWord(words, k);
      IndexIsNumber(i);
    } else {
      forall i: bv32 | In(i, words)
        ensures ToNat(i) < 32 * n
      {
        IndexIsNumber(i);
        WordLimit(i);
        ZeroHasNoBit(Mask(i));
      }
    }
  }

  lemma BytesBelow(bytes: seq<bv8>, n: nat, m: nat)
    requires 4 * n <= |bytes|
    ensures Bounded(Packed(bytes, n), 8 * m) <==> forall k :: m <= k < 4 * n && k < 0x2000_0000 ==> bytes[k] == 0
  {
    if k :| m <= k < 4 * n && k < 0x2000_0000 && bytes[k] != 0 {
      var i := IndexInByte(bytes, n, k);
      IndexIsNumber(i);
    } else {
      forall i: bv32 | In(i, Packed(bytes, n))
        ensures ToNat(i) < 8 * m
      {
        IndexIsNumber(i);
        ToNatLimit(i);
        BytesAgree(bytes, n, i);
        ClearByte(7 - (i & 7));
      }
    }
  }

  lemma SizesWrap(n: nat)
    ensures (32 * n) % WORD_LIMIT == 32 * (n % 0x800_0000) && (8 * n) % WORD_LIMIT == 8 * (n % 0x2000_0000)
  {
  }

  /**
   * The calls after which the size covers every index in the set, if it did before. So do all those with
   * fewer than 2^27 words, and with at least 4 but fewer than 2^29 bytes.
   */
  predicate Fits(call: Call) {
    match call
    case Set(i, value, found) => !found || !value || ToNat(i) != WORD_LIMIT - 1
    case SetData(values, found) =>
      !found || forall k :: |values| % 0x800_0000 <= k < |values| && k < 0x800_0000 ==> values[k] == 0
    case SetDataBytes(bytes, length, found) =>
      !found || forall k :: length % 0x2000_0000 <= k < 4 * WordCount(length) && k < 0x2000_0000 ==> bytes[k] == 0
    case _ => true
  }

  lemma NoWordsBounded(size: nat)
    ensures Bounded([], size)
  {
    forall i: bv32
      ensures !In(i, [])
    {
      NoWordsNoMember(i);
    }
  }

  lemma ResizedBounded(words: seq<bv32>, size: nat, n: nat)
    requires Bounded(words, size)
    ensures Bounded(Resized(words, n, 0), size)
  {
    forall i: bv32 | In(i, Resized(words, n, 0))
      ensures ToNat(i) < size
    {
      ResizedMember(words, n, i);
    }
  }

  lemma StepBounded(s: State, call: Call)
    requires Bounded(s.words, s.size) && s.size < WORD_LIMIT
    ensures Bounded(Step(s, call).words, Step(s, call).size) <==> Fits(call)
  {
    NoWordsBounded(s.size);
    match call
    case Set(i, value, found) => SetBounded(s.words, s.size, i, value);
    case SetSize(bits, found) => ResizedBounded(s.words, s.size, WordOf(bits) + 1);
    case SetData(values, found) =>
      SizesWrap(|values|);
      WordsBelow(values, |values| % 0x800_0000);
    case SetDataBytes(bytes, length, found) =>
      SizesWrap(length);
      BytesBelow(bytes, WordCount(length), length % 0x2000_0000);
    case Clear => NoWordsBounded(0);
  }

  lemma {:induction false} RunSize(calls: seq<Call>)
    ensures Run(calls).size < WORD_LIMIT
  {
    if calls == [] {
    } else {
      RunSize(calls[..|calls| - 1]);
    }
  }

  ghost predicate Covered(calls: seq<Call>) {
    Bounded(Run(calls).words, Run(calls).size)
  }

  /** The size covers the set at the start and after every call. */
  ghost predicate AlwaysCovered(calls: seq<Call>) {
    Covered(calls) && (calls == [] || AlwaysCovered(calls[..|calls| - 1]))
  }

  predicate AllFit(calls: seq<Call>) {
    calls == [] || (Fits(calls[|calls| - 1]) && AllFit(calls[..|calls| - 1]))
  }

  lemma CoveredStep(before: seq<Call>, calls: seq<Call>)
    requires calls != [] && before == calls[..|calls| - 1] && Covered(before)
    ensures Covered(calls) <==> Fits(calls[|calls| - 1])
  {
    RunSize(before);
    StepBounded(Run(before), calls[|calls| - 1]);
  }

  /** The size covers every index in the set all through a run just when each call of it fits. */
  lemma {:induction false} CoveredWhileCallsFit(calls: seq<Call>)
    ensures AlwaysCovered(calls) <==> AllFit(calls)
  {
    if calls == [] {
      NoWordsBounded(0);
    } else {
      var before := calls[..|calls| - 1];
      CoveredWhileCallsFit(before);
      if AllFit(before) {
        CoveredStep(before, calls);
      }
    }
  }

  /** Three bytes of which the fourth is read: bit 31 is set, and the size is 24. */
  lemma ShortBytesDoNotFit()
    ensures var call := SetDataBytes([0, 0, 0, 1], 3, true);
            Run([call]) == State([1], 24) && In(31, Run([call]).words) && !Fits(call)
  {
  }

  /** 2^27 words are counted as none. */
  lemma ManyWordsDoNotFit(values: seq<bv32>)
    requires |values| == 0x800_0000
    ensures Run([SetData(values, true)]) == State(values, 0)
    ensures Fits(SetData(values, true)) <==> forall k :: 0 <= k < |values| ==> values[k] == 0
  {
  }

  /** The documentation of SetSize promises this size in bits; the size is never set. */
  lemma SizeIsAsPromised(s: State, bits: bv32)
    ensures Step(s, SetSize(bits, true)).size == ToNat(bits) <==> s.size == ToNat(bits)
  {
  }

  lemma ClearWhenKeptIs(words: seq<bv32>, n: nat)
    requires n < 0x800_0000
    ensures Bounded(Resized(words, n + 1, 0), 0) <==> forall k :: 0 <= k < |words| && k <= n ==> words[k] == 0
  {
    WordsBelow(Resized(words, n + 1, 0), 0);
    assert forall k :: 0 <= k <= n && k < |words| ==> Resized(words, n + 1, 0)[k] == words[k];
  }

  lemma BelowNothing(words: seq<bv32>)
    ensures Bounded(words, 0) <==> forall i: bv32 :: !In(i, words)
  {
  }

  /** It promises that all bits are clear; they are just when the dwords that are kept are clear already. */
  lemma ClearedAsPromised(s: State, bits: bv32)
    ensures (forall i: bv32 :: !In(i, Step(s, SetSize(bits, true)).words)) <==>
            (forall k :: 0 <= k < |s.words| && k <= WordOf(bits) ==> s.words[k] == 0)
  {
    WordLimit(bits);
    ClearWhenKeptIs(s.words, WordOf(bits));
    BelowNothing(Step(s, SetSize(bits, true)).words);
  }

  /** A new set whose size stays 0, and a set in which index 0 stays. */
  lemma SetSizeIsNotAsPromised()
    ensures Run([SetSize(40, true)]).size == 0 != ToNat(40)
    ensures In(0, Run([Set(0, true, true), SetSize(40, true)]).words)
  {
    assert ToNat(40) == 2 * ToNat(20);
    var calls: seq<Call> := [Set(0, true, true), SetSize(40, true)];
    assert calls[..1] == [Set(0, true, true)];
    RunIsExpected(calls, 0);
  }
}
