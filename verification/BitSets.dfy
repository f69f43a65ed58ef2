/** The bit set (Include/XnBitSet.h): bits stored most significant first in 32-bit words. */
module BitSets {
  import opened Words
  import opened Statuses
  import opened Arrays

  /** The bit of its word that an index stands for. */
  function Mask(i: bv32): bv32 {
    1 << (!i & 0x1F)
  }

  function WordOf(i: bv32): nat {
    ToNat(i >> 5)
  }

  function ByteOf(i: bv32): nat {
    ToNat(i >> 3)
  }

  function WordAt(words: seq<bv32>, k: nat): bv32 {
    if k < |words| then words[k] else 0
  }

  /** The bit that an index stands for, in its place; words that do not exist are clear. */
  function BitAt(words: seq<bv32>, i: bv32): bv32 {
    WordAt(words, WordOf(i)) & Mask(i)
  }

  /** 1 for the indices in the set that the words stand for, 0 for the others. */
  function Member(words: seq<bv32>, i: bv32): nat {
    if BitAt(words, i) != 0 then 1 else 0
  }

  predicate In(i: bv32, words: seq<bv32>) {
    Member(words, i) == 1
  }

  /** The word that Set stores. */
  function NewWord(was: bv32, mask: bv32, value: bool): bv32 {
    if value then was | mask else was & !mask
  }

  function WithIndex(words: seq<bv32>, i: bv32, value: bool): seq<bv32> {
    Stored(words, WordOf(i), NewWord(WordAt(words, WordOf(i)), Mask(i), value), 0)
  }

  lemma MaskIsNotZero(i: bv32)
    ensures Mask(i) != 0
  {
  }

  lemma MasksDiffer(i: bv32, j: bv32)
    requires i & 0x1F != j & 0x1F
    ensures Mask(i) & Mask(j) == 0
  {
  }

  lemma IndexIsWordAndBit(i: bv32, j: bv32)
    requires i >> 5 == j >> 5 && i != j
    ensures i & 0x1F != j & 0x1F
  {
  }

  lemma SameBit(was: bv32, mask: bv32, value: bool)
    requires mask != 0
    ensures NewWord(was, mask, value) & mask != 0 <==> value
  {
  }

  lemma OtherBit(was: bv32, mask: bv32, value: bool, other: bv32)
    requires mask & other == 0
    ensures NewWord(was, mask, value) & other == was & other
  {
  }

  lemma ZeroHasNoBit(mask: bv32)
    ensures 0 & mask == 0
  {
  }

  lemma OtherIndex(was: bv32, i: bv32, value: bool, j: bv32)
    requires i >> 5 == j >> 5 && i != j
    ensures NewWord(was, Mask(i), value) & Mask(j) == was & Mask(j)
  {
    IndexIsWordAndBit(i, j);
    MasksDiffer(i, j);
    OtherBit(was, Mask(i), value, Mask(j));
  }

  lemma SameWord(i: bv32, j: bv32)
    requires WordOf(i) == WordOf(j)
    ensures i >> 5 == j >> 5
  {
    WordRoundTrip(i >> 5);
    WordRoundTrip(j >> 5);
  }

  lemma WithIndexBitAt(words: seq<bv32>, i: bv32, value: bool, j: bv32)
    ensures var was := WordAt(words, WordOf(j));
            BitAt(WithIndex(words, i, value), j) ==
            (if WordOf(i) == WordOf(j) then NewWord(was, Mask(i), value) else was) & Mask(j)
  {
  }

  lemma SetAtIndex(words: seq<bv32>, i: bv32, value: bool)
    ensures BitAt(WithIndex(words, i, value), i) != 0 <==> value
  {
    WithIndexBitAt(words, i, value, i);
    MaskIsNotZero(i);
    SameBit(WordAt(words, WordOf(i)), Mask(i), value);
  }

  lemma SetElsewhere(words: seq<bv32>, i: bv32, value: bool, j: bv32)
    requires i != j
    ensures BitAt(WithIndex(words, i, value), j) == BitAt(words, j)
  {
    WithIndexBitAt(words, i, value, j);
    if WordOf(i) == WordOf(j) {
      SameWord(i, j);
      OtherIndex(WordAt(words, WordOf(j)), i, value, j);
    }
  }

  /** Set changes the membership of its index only; the words that it adds are clear but for that bit. */
  lemma WithIndexIs(words: seq<bv32>, i: bv32, value: bool, j: bv32)
    ensures In(j, WithIndex(words, i, value)) <==> if i == j then value else In(j, words)
  {
    if i == j {
      SetAtIndex(words, i, value);
    } else {
      SetElsewhere(words, i, value, j);
    }
  }

  // ---------- bits of words and bytes ----------

  /** Bit k of a word, counted from the least significant. */
  function Bit(w: bv32, k: bv32): nat
    requires k < 32
  {
    if (w >> k) & 1 == 1 then 1 else 0
  }

  /** The byte that an index is in is one of the four of its word. */
  lemma ByteOfIndex(i: bv32)
    ensures ByteOf(i) == 4 * WordOf(i) + Low(i >> 3) + 2 * Low(i >> 4)
  {
    TwoDigits(i >> 3);
    ByteShifts(i);
  }

  lemma ByteShifts(i: bv32)
    ensures Half(i >> 3) == i >> 4 && Half(Half(i >> 3)) == i >> 5
  {
  }

  lemma LastDigits(i: bv32)
    ensures ToNat(i) == 8 * ByteOf(i) + Low(i) + 2 * Low(Half(i)) + 4 * Low(Half(Half(i)))
  {
    TwoDigits(i);
    ToNatHalf(Half(Half(i)));
    ThirdHalf(i);
  }

  lemma ThirdHalf(i: bv32)
    ensures Half(Half(Half(i))) == i >> 3
  {
  }

  /** The shift by three is the division by eight, and the shift by five that by 32. */
  lemma IndexIsNumber(i: bv32)
    ensures ToNat(i) / 8 == ByteOf(i) && ToNat(i) / 32 == WordOf(i)
  {
    LastDigits(i);
    ByteOfIndex(i);
  }

  lemma MaskedBits(i: bv32)
    ensures Half(i & 7) == Half(i) & 3 && Half(Half(i) & 3) == Half(Half(i)) & 1 && Half(Half(Half(i)) & 1) == 0
  {
  }

  lemma LowOfMasked(w: bv32)
    ensures Low(w & 7) == Low(w) && Low(w & 3) == Low(w) && Low(w & 1) == Low(w)
  {
  }

  /** The three lowest bits are the remainder by eight. */
  lemma MaskIsRemainder(i: bv32)
    ensures ToNat(i & 7) == ToNat(i) % 8
  {
    LastDigits(i);
    LastDigits(i & 7);
    MaskedBits(i);
    LowOfMasked(i);
    LowOfMasked(Half(i));
    LowOfMasked(Half(Half(i)));
    NothingAbove(i);
  }

  lemma NothingAbove(i: bv32)
    ensures (i & 7) >> 3 == 0
  {
  }

  lemma TwoMaskedBits(w: bv32)
    ensures Half(w & 3) == Half(w) & 1 && Half(Half(w) & 1) == 0
  {
  }

  lemma TwoMaskedDigits(w: bv32)
    ensures ToNat(w & 3) == Low(w) + 2 * Low(Half(w))
  {
    TwoDigits(w & 3);
    TwoMaskedBits(w);
    LowOfMasked(w);
    LowOfMasked(Half(w));
  }

  lemma LowestOfFour(w: bv32)
    ensures ToNat(w & 3) == ToNat(w) % 4
  {
    TwoDigits(w);
    TwoMaskedDigits(w);
    RemainderByFour(ToNat(w), Low(w), Low(Half(w)), ToNat(Half(Half(w))));
  }

  lemma RemainderByFour(n: nat, a: nat, b: nat, rest: nat)
    requires n == a + 2 * b + 4 * rest && a <= 1 && b <= 1
    ensures n % 4 == a + 2 * b
  {
  }

  lemma FiveMaskedBits(i: bv32)
    ensures (i & 0x1F) & 7 == i & 7 && (i & 0x1F) >> 3 == (i >> 3) & 3
  {
  }

  /** The five lowest bits are the remainder by 32. */
  lemma WordMaskIsRemainder(i: bv32)
    ensures ToNat(i & 0x1F) == ToNat(i) % 32
  {
    FiveMaskedBits(i);
    MaskIsRemainder(i);
    MaskIsRemainder(i & 0x1F);
    LowestOfFour(i >> 3);
    IndexIsNumber(i);
    IndexIsNumber(i & 0x1F);
    ByEights(ToNat(i), ToNat(i & 0x1F));
  }

  lemma ByEights(n: nat, m: nat)
    requires m % 8 == n % 8 && m / 8 == (n / 8) % 4
    ensures m == n % 32
  {
  }

  lemma MaskIs(w: bv32, i: bv32)
    ensures w & Mask(i) != 0 <==> (w >> (31 - (i & 0x1F))) & 1 == 1
  {
  }

  /** Index i is bit 31 - i mod 32 of word i / 32. */
  lemma WordsAgree(words: seq<bv32>, i: bv32)
    ensures Member(words, i) == if WordOf(i) < |words| then Bit(words[WordOf(i)], 31 - (i & 0x1F)) else 0
  {
    MaskIs(WordAt(words, WordOf(i)), i);
    ZeroHasNoBit(Mask(i));
  }

  /** The most significant byte comes first. */
  function WordOfBytes(b0: bv8, b1: bv8, b2: bv8, b3: bv8): bv32 {
    (b0 as bv32 << 24) | (b1 as bv32 << 16) | (b2 as bv32 << 8) | (b3 as bv32)
  }

  function Packed(bytes: seq<bv8>, n: nat): (words: seq<bv32>)
    requires 4 * n <= |bytes|
    ensures |words| == n
  {
    seq(n, k requires 0 <= k < n => WordOfBytes(bytes[4 * k], bytes[4 * k + 1], bytes[4 * k + 2], bytes[4 * k + 3]))
  }

  /** The byte of a word that an index is in. */
  function Selected(b0: bv8, b1: bv8, b2: bv8, b3: bv8, i: bv32): bv8 {
    if (i >> 3) & 1 == 1 then if (i >> 4) & 1 == 1 then b3 else b1 else if (i >> 4) & 1 == 1 then b2 else b0
  }

  lemma SelectedBit(b0: bv8, b1: bv8, b2: bv8, b3: bv8, i: bv32)
    ensures (WordOfBytes(b0, b1, b2, b3) >> (31 - (i & 0x1F))) & 1 ==
            (Selected(b0, b1, b2, b3, i) as bv32 >> (7 - (i & 7))) & 1
  {
  }

  lemma PackedBit(bytes: seq<bv8>, n: nat, i: bv32)
    requires 4 * n <= |bytes| && WordOf(i) < n
    ensures ByteOf(i) < 4 * n
            && Bit(Packed(bytes, n)[WordOf(i)], 31 - (i & 0x1F)) == Bit(bytes[ByteOf(i)] as bv32, 7 - (i & 7))
  {
    var k := 4 * WordOf(i);
    ByteOfIndex(i);
    SelectedBit(bytes[k], bytes[k + 1], bytes[k + 2], bytes[k + 3], i);
  }

  /** Index i is bit 7 - i mod 8 of byte i / 8; nothing past the last whole word is in the set. */
  lemma BytesAgree(bytes: seq<bv8>, n: nat, i: bv32)
    requires 4 * n <= |bytes|
    ensures Member(Packed(bytes, n), i) == if ByteOf(i) < 4 * n then Bit(bytes[ByteOf(i)] as bv32, 7 - (i & 7)) else 0
  {
    WordsAgree(Packed(bytes, n), i);
    ByteOfIndex(i);
    if WordOf(i) < n {
      PackedBit(bytes, n, i);
    }
  }

  // ---------- the operations ----------

  /** The size after Set; the increment wraps around. */
  function Grown(size: nat, i: bv32): (grown: nat)
    ensures grown == if size <= ToNat(i) < WORD_LIMIT - 1 then ToNat(i) + 1 else size
  {
    ToNatLimit(i);
    var n := (ToNat(i) + 1) % WORD_LIMIT;
    if n > size then n else size
  }

  lemma WordLimit(i: bv32)
    ensures WordOf(i) < 0x800_0000
  {
    IndexIsNumber(i);
    ToNatLimit(i);
  }

  /** How many words the bytes make: at least one, and none of an incomplete one. */
  function WordCount(length: nat): nat {
    if length < 4 then 1 else length / 4
  }

  /** The words, and the size in bits. */
  datatype State = State(words: seq<bv32>, size: nat)

  /** A call; `found` says whether it found the memory it needed. */
  datatype Op =
    | Set(index: bv32, value: bool, found: bool)
    | SetSize(bits: bv32, found: bool)
    | SetData(values: seq<bv32>, found: bool)
    | SetDataBytes(bytes: seq<bv8>, length: nat, found: bool)
    | Clear

  /** SetDataBytes reads at least four bytes. */
  predicate Legal(op: Op) {
    && (op.SetDataBytes? ==> op.length <= |op.bytes| && 4 <= |op.bytes| && op.length < WORD_LIMIT)
    && (op.SetData? ==> |op.values| <= 0x8000_0000)
  }

  type Call = op: Op | Legal(op) witness Clear

  /** SetData that finds no memory has cleared the words by then, but not the size. */
  function Step(s: State, call: Call): State {
    match call
    case Set(i, value, found) => if found then State(WithIndex(s.words, i, value), Grown(s.size, i)) else s
    case SetSize(bits, found) => if found then s.(words := Resized(s.words, WordOf(bits) + 1, 0)) else s
    case SetData(values, found) =>
      if found then State(values, (32 * |values|) % WORD_LIMIT) else s.(words := [])
    case SetDataBytes(bytes, length, found) =>
      if found then State(Packed(bytes, WordCount(length)), (8 * length) % WORD_LIMIT) else s
    case Clear => State([], 0)
  }

  class XnBitSet {
    const store: XnArray<bv32>
    var size: nat

    ghost predicate Valid()
      reads this, store, store.data
    {
      store.Valid() && store.size <= 0x8000_0000 && size < WORD_LIMIT
    }

    ghost function Words(): seq<bv32>
      requires Valid()
      reads this, store, store.data
    {
      store.Contents()
    }

    ghost function AsState(): State
      requires Valid()
      reads this, store, store.data
    {
      State(Words(), size)
    }

    constructor ()
      ensures Valid() && fresh(store) && fresh(store.data) && AsState() == State([], 0)
    {
      store := new XnArray<bv32>();
      size := 0;
    }

    method Set(index: bv32, value: bool, canAllocate: bool) returns (status: Status)
      requires Valid()
      modifies this, store, store.data
      ensures Valid() && (store.data == old(store.data) || fresh(store.data))
      ensures status == if WordOf(index) >= old(store.data.Length) && !canAllocate then AllocFailed else Ok
      ensures AsState() == Step(old(AsState()), Op.Set(index, value, status == Ok))
    {
      WordLimit(index);
      var k := ToNat(index >> 5);
      var was := if k < store.size then store.data[k] else 0;
      var now := NewWord(was, Mask(index), value);
      status := store.SetFilled(k, now, 0, canAllocate);
      if status == Ok {
        var n := (ToNat(index) + 1) % WORD_LIMIT;
        size := if size > n then size else n;
      }
    }

    method IsSet(index: bv32) returns (found: bool)
      requires Valid()
      ensures found <==> In(index, Words())
    {
      var k := ToNat(index >> 5);
      ZeroHasNoBit(Mask(index));
      if k >= store.size {
        return false;
      }
      found := store.data[k] & (1 << (!index & 0x1F)) != 0;
    }

    /** Sets the number of words, and leaves the size in bits alone. */
    method SetSize(bits: bv32, canAllocate: bool) returns (status: Status)
      requires Valid()
      modifies this, store, store.data
      ensures Valid() && (store.data == old(store.data) || fresh(store.data))
      ensures status == if WordOf(bits) >= old(store.data.Length) && !canAllocate then AllocFailed else Ok
      ensures AsState() == Step(old(AsState()), Op.SetSize(bits, status == Ok))
      ensures |Words()| == (if status == Ok then WordOf(bits) + 1 else old(|Words()|)) && size == old(size)
    {
      WordLimit(bits);
      status := store.SetSizeFilled(ToNat(bits >> 5) + 1, 0, canAllocate);
    }

    method SetData(values: seq<bv32>, canAllocate: bool) returns (status: Status)
      requires Valid() && |values| <= 0x8000_0000
      modifies this, store
      ensures Valid() && fresh(store.data)
      ensures status == if |values| > 8 && !canAllocate then AllocFailed else Ok
      ensures AsState() == Step(old(AsState()), Op.SetData(values, status == Ok))
      ensures Words() == if status == Ok then values else []
      ensures size == if status == Ok then (32 * |values|) % WORD_LIMIT else old(size)
    {
      status := store.SetData(values, canAllocate);
      if status == Ok {
        size := (32 * |values|) % WORD_LIMIT;
      }
    }

    method Pack(bytes: seq<bv8>, n: nat)
      requires Valid() && store.size == n && 4 * n <= |bytes|
      modifies store.data
      ensures Valid() && Words() == Packed(bytes, n)
    {
      var k := 0;
      while k < n
        invariant 0 <= k <= n && Valid()
        invariant forall j :: 0 <= j < k ==> Words()[j] == Packed(bytes, n)[j]
      {
        store.Store(k, WordOfBytes(bytes[4 * k], bytes[4 * k + 1], bytes[4 * k + 2], bytes[4 * k + 3]));
        k := k + 1;
      }
    }

    /**
     * Reads at least four bytes, and no incomplete word at the end; the size counts the length given.
     * The words that SetSize keeps or adds are all overwritten.
     */
    method SetDataBytes(bytes: seq<bv8>, length: nat, canAllocate: bool) returns (status: Status)
      requires Valid() && length <= |bytes| && 4 <= |bytes| && length < WORD_LIMIT
      modifies this, store, store.data
      ensures Valid() && (store.data == old(store.data) || fresh(store.data))
      ensures var n := if length < 4 then 1 else length / 4;
              && status == (if n > old(store.data.Length) && !canAllocate then AllocFailed else Ok)
              && |Words()| == if status == Ok then n else old(|Words()|)
      ensures AsState() == Step(old(AsState()), Op.SetDataBytes(bytes, length, status == Ok))
      ensures size == if status == Ok then (8 * length) % WORD_LIMIT else old(size)
    {
      var n := if 1 > length / 4 then 1 else length / 4;
      status := store.SetSize(n, canAllocate);
      if status != Ok {
        assert Words() == old(Words());
        return;
      }
      Pack(bytes, n);
      size := (8 * length) % WORD_LIMIT;
    }

    method Clear()
      requires Valid()
      modifies this, store
      ensures Valid() && fresh(store.data) && AsState() == Step(old(AsState()), Op.Clear)
      ensures Words() == [] && size == 0
    {
      store.Clear();
      size := 0;
    }
  }
}
