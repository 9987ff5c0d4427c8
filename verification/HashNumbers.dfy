/** The hash functions of hashmap/hashmap.c in unbounded numbers, and the table sizes. */
module HashNumbers {
  import opened HashPrimes
  import opened HashSpec

  /** The lower 32 bits do not depend on multiples of 4294967296. */
  lemma LowBits(x: int, y: int, k: int)
    requires x == k * 4294967296 + y
    ensures x % 4294967296 == y % 4294967296
  {
  }

  lemma LowerBits(x: int)
    ensures x % 4294967296 % 2147483648 == x % 2147483648
  {
    var q := x / 4294967296;
    assert x == 2 * q * 2147483648 + x % 4294967296;
  }

  lemma Quotient(x: int) returns (q: int)
    ensures x == q * 4294967296 + x % 4294967296
  {
    q := x / 4294967296;
  }

  lemma Distribute(x: int, y: int, q: int, r: int, p: int, s: int)
    requires x == q * 4294967296 + r && y == p * 4294967296 + s
    ensures x * y == (q * y + r * p) * 4294967296 + r * s
  {
    calc {
      x * y;
      (q * 4294967296 + r) * y;
      (q * y) * 4294967296 + r * y;
      { assert r * y == r * (p * 4294967296 + s) == (r * p) * 4294967296 + r * s; }
      (q * y) * 4294967296 + ((r * p) * 4294967296 + r * s);
    }
  }

  /** Cutting the factors to 32 bits first makes no difference. */
  lemma CutFactors(x: int, y: int, c: int)
    ensures (x % 4294967296 * (y % 4294967296) + c) % 4294967296 == (x * y + c) % 4294967296
  {
    var q := Quotient(x);
    var p := Quotient(y);
    var r, s := x % 4294967296, y % 4294967296;
    Distribute(x, y, q, r, p, s);
    var k, z := q * y + r * p, r * s;
    LowBits(x * y + c, z + c, k);
  }

  /** The first `i` characters as the digits of a number to the base 131. */
  function ToBase131(key: Key, i: nat): int
    requires i <= |key|
  {
    if i == 0 then 0 else ToBase131(key, i - 1) * 131 + key[i - 1]
  }

  lemma BkdrStep(h: nat, x: int, c: int)
    requires h == x % 4294967296
    ensures (h * 131 + c) % 4294967296 == (x * 131 + c) % 4294967296
  {
    var q := Quotient(x);
    LowBits(x * 131 + c, h * 131 + c, q * 131);
  }

  lemma {:induction false} BkdrIs(key: Key, i: nat)
    requires i <= |key|
    ensures BkdrState(key, i) == ToBase131(key, i) % 4294967296
  {
    if i > 0 {
      BkdrIs(key, i - 1);
      var h, x, c := BkdrState(key, i - 1), ToBase131(key, i - 1), key[i - 1];
      assert BkdrState(key, i) == (h * 131 + c) % 4294967296 && ToBase131(key, i) == x * 131 + c;
      hide *;
      BkdrStep(h, x, c);
    }
  }

  /** hashcode_create is the lower 31 bits of the key read as a number to the base 131. */
  lemma CodeIs(key: Key)
    ensures Code(key) == ToBase131(key, |key|) % 2147483648
  {
    BkdrIs(key, |key|);
    LowerBits(ToBase131(key, |key|));
  }

  /** The factor for character number `i`. */
  function Factor(i: nat): nat { if i == 0 then 63689 else Factor(i - 1) * 378551 }

  /** The first `i` characters with these factors. */
  function Mixed(key: Key, i: nat): int
    requires i <= |key|
  {
    if i == 0 then 0 else Mixed(key, i - 1) * Factor(i - 1) + key[i - 1]
  }

  lemma RsStep(h: nat, a: nat, x: int, f: int, c: int)
    requires h == x % 4294967296 && a == f % 4294967296
    ensures (h * a + c) % 4294967296 == (x * f + c) % 4294967296
    ensures a * 378551 % 4294967296 == f * 378551 % 4294967296
  {
    CutFactors(x, f, c);
    var q := Quotient(f);
    LowBits(f * 378551, a * 378551, q * 378551);
  }

  lemma RsNext(key: Key, i: nat)
    requires i < |key|
    ensures var (h, a) := RsState(key, i);
            RsState(key, i + 1) == ((h * a + key[i]) % 4294967296, a * 378551 % 4294967296)
    ensures Mixed(key, i + 1) == Mixed(key, i) * Factor(i) + key[i] && Factor(i + 1) == Factor(i) * 378551
  {
  }

  lemma {:induction false} RsIs(key: Key, i: nat)
    requires i <= |key|
    ensures RsState(key, i) == (Mixed(key, i) % 4294967296, Factor(i) % 4294967296)
  {
    if i > 0 {
      RsIs(key, i - 1);
      hide *;
      RsNext(key, i - 1);
      RsStep(RsState(key, i - 1).0, RsState(key, i - 1).1, Mixed(key, i - 1), Factor(i - 1), key[i - 1]);
    }
  }

  /** hashcode_index is the remainder by the table size of the lower 31 bits of that number. */
  lemma IndexIs(key: Key, size: nat)
    requires size > 0
    ensures Index(key, size) == Mixed(key, |key|) % 2147483648 % size
  {
    RsIs(key, |key|);
    LowerBits(Mixed(key, |key|));
  }

  // ---------- sizes ----------

  /** The table primes, as it stands in the source: its first third. */
  lemma SmallSizes(i: nat)
    requires i < 24
    ensures Prime(i) == [3, 7, 11, 17, 23, 29, 37, 47, 59, 71, 89, 107, 131, 163, 197, 239, 293, 353, 431, 521, 631, 761,
                         919, 1103][i]
  {
  }

  /** Its second third. */
  lemma MiddleSizes(i: nat)
    requires i < 24
    ensures Prime(24 + i) == [1327, 1597, 1931, 2333, 2801, 3371, 4049, 4861, 5839, 7013, 8419, 10103, 12143, 14591, 17519,
                              21023, 25229, 30293, 36353, 43627, 52361, 62851, 75431, 90523][i]
  {
  }

  /** Its last third. */
  lemma LargeSizes(i: nat)
    requires i < 24
    ensures Prime(48 + i) == [108631, 130363, 156437, 187751, 225307, 270371, 324449, 389357, 467237, 560689, 672827, 807403,
                              968897, 1162687, 1395263, 1674319, 2009191, 2411033, 2893249, 3471899, 4166287, 4999559,
                              5999471, 7199369][i]
  {
  }

  /** All entries that growth up to size number `i` relinked. */
  function Relinked(i: nat): nat
    requires i <= 72
  {
    if i == 0 then 0 else Relinked(i - 1) + Prime(i - 1)
  }

  lemma SixFifths(i: nat)
    requires i + 1 < 72
    ensures 6 * Prime(i) <= 5 * Prime(i + 1)
  {
  }

  /** Each size is at least six fifths of the one before, so that growing to a size from the smallest on relinks at most
      five times as many entries as it has buckets. */
  lemma {:induction false} GrowthCost(i: nat)
    requires i < 72
    ensures Relinked(i) <= 5 * Prime(i)
  {
    hide Prime;
    if i > 0 {
      GrowthCost(i - 1);
      SixFifths(i - 1);
    }
  }
}
