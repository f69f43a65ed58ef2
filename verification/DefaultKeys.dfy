/** The default key manager (Include/XnHashT.h). Keys are the numbers that they are cast to. */
module DefaultKeys {
  import opened Statuses
  import opened Tables
  import opened Words

  /** The size of a machine word, which is the type that keys are cast to: 64 bits, or 32. */
  function SizeLimit(wide: bool): nat {
    if wide then WORD_LIMIT * WORD_LIMIT else WORD_LIMIT
  }

  /** The cast of an unsigned number to a signed one of 32 bits. */
  function Truncated(n: nat): int {
    var low := n % WORD_LIMIT;
    if low < 0x8000_0000 then low else low - WORD_LIMIT
  }

  function DefaultHash(key: nat): HashCode {
    key % 256
  }

  function DefaultCompare(wide: bool, a: nat, b: nat): int {
    Truncated((a - b) % SizeLimit(wide))
  }

  lemma Multiples(n: int, k: int)
    ensures (n + k * WORD_LIMIT) % WORD_LIMIT == n % WORD_LIMIT
  {
  }

  /** The default comparison gives the difference modulo 2^32, as a signed number. */
  lemma CompareIsDifference(wide: bool, a: nat, b: nat)
    ensures var d := DefaultCompare(wide, a, b);
            -0x8000_0000 <= d < 0x8000_0000 && (a - b - d) % WORD_LIMIT == 0
  {
    var r := (a - b) % SizeLimit(wide);
    SameRemainder(wide, a - b);
    assert (r - Truncated(r)) % WORD_LIMIT == 0;
    RemainderOfSum(a - b - r, r - Truncated(r));
  }

  lemma SameRemainder(wide: bool, n: int)
    ensures (n - n % SizeLimit(wide)) % WORD_LIMIT == 0
  {
    var q := n / SizeLimit(wide);
    if wide {
      Multiples(0, WORD_LIMIT * q);
    }
  }

  lemma RemainderOfSum(x: int, y: int)
    requires x % WORD_LIMIT == 0 && y % WORD_LIMIT == 0
    ensures (x + y) % WORD_LIMIT == 0
  {
  }

  /** The default comparison sees the lower 32 bits only. */
  lemma CompareIsZero(wide: bool, a: nat, b: nat)
    ensures DefaultCompare(wide, a, b) == 0 <==> a % WORD_LIMIT == b % WORD_LIMIT
  {
    var d := (a - b) / SizeLimit(wide);
    if wide {
      Multiples((a - b) % SizeLimit(wide), WORD_LIMIT * d);
    }
  }

  function Functions(wide: bool): KeyFunctions<nat> {
    KeyFunctions(DefaultHash, (a, b) => DefaultCompare(wide, a, b))
  }

  lemma LowByte(n: nat)
    ensures n % 256 == (n % WORD_LIMIT) % 256
  {
    assert n == WORD_LIMIT * (n / WORD_LIMIT) + n % WORD_LIMIT;
  }

  lemma SameIs(wide: bool, a: nat, b: nat)
    ensures Functions(wide).Same(a, b) <==> a % WORD_LIMIT == b % WORD_LIMIT
    ensures Functions(wide).Same(a, b) ==> Functions(wide).hash(a) == Functions(wide).hash(b)
  {
    CompareIsZero(wide, a, b);
    LowByte(a);
    LowByte(b);
  }

  lemma DefaultIsSound(wide: bool)
    ensures Sound(Functions(wide))
  {
    var m := Functions(wide);
    forall a: nat, b: nat
      ensures m.Same(a, b) <==> Low(a) == Low(b)
      ensures m.Same(a, b) ==> m.hash(a) == m.hash(b)
    {
      SameIs(wide, a, b);
    }
  }

  /** The part of a key that the comparison sees. */
  function Low(key: nat): nat {
    key % WORD_LIMIT
  }

  /** Two different keys are the same to the tables just when a machine word is wider than the comparison's result. */
  lemma DifferentKeysCanBeSame(wide: bool)
    ensures (exists a: nat, b: nat :: a < b < SizeLimit(wide) && DefaultCompare(wide, a, b) == 0) <==> wide
  {
    CompareIsZero(wide, 0, WORD_LIMIT);
    if a: nat, b: nat :| a < b < SizeLimit(wide) && DefaultCompare(wide, a, b) == 0 {
      CompareIsZero(wide, a, b);
    }
  }

  function Manager(wide: bool): KeyManager<nat> {
    DefaultIsSound(wide);
    Functions(wide)
  }

  /** Storing under a key is storing under every key with the same lower 32 bits, and under no other. */
  lemma StoredUnderLowerBits<V>(wide: bool, t: Table<nat, V>, key: nat, value: V, k: nat)
    requires Good(Manager(wide), t)
    ensures Lookup(Manager(wide), Put(Manager(wide), t, key, value), k) ==
            if k % WORD_LIMIT == key % WORD_LIMIT then Some(value) else Lookup(Manager(wide), t, k)
  {
    CompareIsZero(wide, key, k);
    PutLookup(Manager(wide), t, key, value);
  }

  /** A table with the default manager keeps every pair in the bin of its key's lowest byte... */
  lemma BinIsLowByte<V>(wide: bool, t: Table<nat, V>, b: nat, i: nat)
    requires Good(Manager(wide), t) && b < LAST_BIN && i < |t.Lists()[b]|
    ensures t.Lists()[b][i].key % 256 == b
  {
    assert GoodBin(Manager(wide), b, t.Lists()[b]);
  }

  /** ...so it is iterated by that byte. */
  lemma IteratedByLowByte<V>(wide: bool, t: Table<nat, V>, p: nat, q: nat)
    requires Good(Manager(wide), t) && p < q < |t.Entries()|
    ensures t.Entries()[p].key % 256 <= t.Entries()[q].key % 256
  {
    EntriesOrder(Manager(wide), t, p, q);
  }
}
