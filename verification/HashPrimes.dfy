/** The table sizes of hashmap/hashmap.c. */
module HashPrimes {

  type Size = n: nat | n > 0 witness 1

  const PRIME_COUNT := 72

  /** primes[i]. */
  function Prime(i: nat): Size
    requires i < PRIME_COUNT
  {
    match i
    case 0 => 3 case 1 => 7 case 2 => 11 case 3 => 17 case 4 => 23 case 5 => 29
    case 6 => 37 case 7 => 47 case 8 => 59 case 9 => 71 case 10 => 89 case 11 => 107
    case 12 => 131 case 13 => 163 case 14 => 197 case 15 => 239 case 16 => 293 case 17 => 353
    case 18 => 431 case 19 => 521 case 20 => 631 case 21 => 761 case 22 => 919 case 23 => 1103
    case 24 => 1327 case 25 => 1597 case 26 => 1931 case 27 => 2333 case 28 => 2801 case 29 => 3371
    case 30 => 4049 case 31 => 4861 case 32 => 5839 case 33 => 7013 case 34 => 8419 case 35 => 10103
    case 36 => 12143 case 37 => 14591 case 38 => 17519 case 39 => 21023 case 40 => 25229 case 41 => 30293
    case 42 => 36353 case 43 => 43627 case 44 => 52361 case 45 => 62851 case 46 => 75431 case 47 => 90523
    case 48 => 108631 case 49 => 130363 case 50 => 156437 case 51 => 187751 case 52 => 225307 case 53 => 270371
    case 54 => 324449 case 55 => 389357 case 56 => 467237 case 57 => 560689 case 58 => 672827 case 59 => 807403
    case 60 => 968897 case 61 => 1162687 case 62 => 1395263 case 63 => 1674319 case 64 => 2009191 case 65 => 2411033
    case 66 => 2893249 case 67 => 3471899 case 68 => 4166287 case 69 => 4999559 case 70 => 5999471 case _ => 7199369
  }

  lemma Ascending(i: nat)
    requires i + 1 < PRIME_COUNT
    ensures Prime(i) < Prime(i + 1)
  {
  }

  lemma PrimesBelow()
    ensures forall i :: 0 <= i < PRIME_COUNT ==> Prime(i) < 0x8000_0000
  {
  }
}
