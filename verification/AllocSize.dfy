/** Growth policy shared by every growable structure: the next entry of a table of primes, or half as
    much again, all in 32-bit unsigned arithmetic. */
module AllocSize {

  const MODULUS: nat := 0x1_0000_0000

  // An unsigned int.
  type Size = n: int | 0 <= n < 0x1_0000_0000

  const PRIMES: seq<Size> :=
    [109, 227, 467, 953, 2029, 4349, 4703, 10273, 22447, 45481, 92203, 202409, 410857,
     834181, 902483, 976369, 20000003]

  // The largest size whose successor does not wrap around.
  const GROWABLE: Size := 1431655749

  // Fewer elements than this never meet a failed growth: a table is grown when half full.
  const CAPACITY: Size := 715827875

  /** The comparator handed to the binary search: an unsigned difference read back as a signed
      integer, so its sign is wrong when the operands are more than 2^31 apart. */
  function UintCmp(a: Size, b: Size): int
  {
    var d := (a - b) % MODULUS;
    if d < 0x8000_0000 then d else d - MODULUS
  }

  /** The comparator orders two values correctly exactly when they are within 2^31 of each other. */
  lemma UintCmpOrdersNearbyOnly(a: Size, b: Size)
    ensures (UintCmp(a, b) < 0) == (a < b) <==> -0x8000_0000 <= a - b < 0x8000_0000
    ensures UintCmp(a, b) == 0 <==> a == b
  {
  }

  lemma PrimesAscend(i: nat, j: nat)
    requires i < j < |PRIMES|
    ensures PRIMES[i] < PRIMES[j] <= 20000003
  {
  }

  lemma TableSize()
    ensures |PRIMES| == 17
  {
  }

  /** Within the table the comparator tells the order of positions. */
  lemma ComparesListed(i: nat, j: nat)
    requires i < |PRIMES| && j < |PRIMES| && i != j
    ensures UintCmp(PRIMES[i], PRIMES[j]) < 0 <==> i < j
  {
    hide PRIMES, UintCmp;
    TableSize();
    UintCmpOrdersNearbyOnly(PRIMES[i], PRIMES[j]);
    if i < j {
      PrimesAscend(i, j);
    } else {
      PrimesAscend(j, i);
    }
  }

  /** Binary search over the table of primes. The comparator does not order all 32-bit values, yet the
      search decides membership for every one of them. */
  method FindPrime(key: Size) returns (idx: int)
    ensures -1 <= idx < |PRIMES|
    ensures idx >= 0 ==> PRIMES[idx] == key
    ensures idx == -1 <==> key !in PRIMES
  {
    hide PRIMES, UintCmp;
    TableSize();
    var lo, hi := 0, |PRIMES|;
    while lo < hi
      invariant 0 <= lo <= hi <= |PRIMES|
      invariant forall i :: 0 <= i < |PRIMES| && PRIMES[i] == key ==> lo <= i < hi
    {
      var mid := (lo + hi) / 2;
      var c := UintCmp(key, PRIMES[mid]);
      UintCmpOrdersNearbyOnly(key, PRIMES[mid]);
      if c == 0 {
        return mid;
      }
      forall i | 0 <= i < |PRIMES| && PRIMES[i] == key
        ensures if c < 0 then i < mid else mid < i
      {
        ComparesListed(i, mid);
      }
      if c < 0 {
        hi := mid;
      } else {
        lo := mid + 1;
      }
    }
    idx := -1;
  }

  /** Half as much again after sixteen more, with the wrap-around of unsigned arithmetic. */
  function Wrapped(n: Size): Size
  {
    (((n + 16) % MODULUS) * 3) % MODULUS / 2
  }

  /** The size that follows n. */
  function Next(n: Size): Size
  {
    NextFrom(n, 0)
  }

  function NextFrom(n: Size, i: nat): Size
    requires i < |PRIMES|
    decreases |PRIMES| - i
  {
    if i == |PRIMES| - 1 then Wrapped(n)
    else if PRIMES[i] == n then PRIMES[i + 1]
    else NextFrom(n, i + 1)
  }

  lemma {:induction false} NextFromUnlisted(n: Size, i: nat)
    requires i < |PRIMES|
    requires forall k :: i <= k < |PRIMES| - 1 ==> PRIMES[k] != n
    ensures NextFrom(n, i) == Wrapped(n)
    decreases |PRIMES| - i
  {
    if i == |PRIMES| - 1 {
    } else {
      NextFromUnlisted(n, i + 1);
    }
  }

  lemma {:induction false} NextFromListed(i: nat, k: nat)
    requires i <= k < |PRIMES| - 1
    ensures NextFrom(PRIMES[k], i) == PRIMES[k + 1]
    decreases k - i
  {
    if i == k {
    } else {
      PrimesAscend(i, k);
      NextFromListed(i + 1, k);
    }
  }

  /** After a size of the table comes the one listed next; the last one, and every other size, grows by
      the formula. */
  lemma NextByTable(n: Size)
    ensures forall k :: 0 <= k < |PRIMES| - 1 && PRIMES[k] == n ==> Next(n) == PRIMES[k + 1]
    ensures (forall k :: 0 <= k < |PRIMES| - 1 ==> PRIMES[k] != n) ==>
      Next(n) == ((n + 16) % MODULUS * 3) % MODULUS / 2
  {
    if k :| 0 <= k < |PRIMES| - 1 && PRIMES[k] == n {
      forall j | 0 <= j < |PRIMES| - 1 && PRIMES[j] == n
        ensures j == k
      {
        OnceListed(j, k);
      }
      NextFromListed(0, k);
    } else {
      NextFromUnlisted(n, 0);
    }
  }

  lemma OnceListed(j: nat, k: nat)
    requires j < |PRIMES| && k < |PRIMES| && PRIMES[j] == PRIMES[k]
    ensures j == k
  {
    if j < k {
      PrimesAscend(j, k);
    } else if k < j {
      PrimesAscend(k, j);
    }
  }

  method NewAllocSize(oldSize: Size) returns (newSize: Size)
    ensures newSize == Next(oldSize)
  {
    var idx := FindPrime(oldSize);
    if idx == -1 || idx + 1 >= |PRIMES| {
      newSize := (((oldSize + 16) % MODULUS) * 3) % MODULUS / 2;
      forall k | 0 <= k < |PRIMES| - 1
        ensures PRIMES[k] != oldSize
      {
        if idx >= 0 {
          PrimesAscend(k, idx);
        }
      }
      NextFromUnlisted(oldSize, 0);
    } else {
      newSize := PRIMES[idx + 1];
      NextFromListed(0, idx);
    }
  }

  /** The test `new size <= old size` made by every caller is an exact overflow detector. */
  lemma GrowsIffNoOverflow(n: Size)
    ensures Next(n) > n <==> n <= GROWABLE
    ensures n <= GROWABLE ==> Next(n) >= n + 24
  {
    if k :| 0 <= k < |PRIMES| - 1 && PRIMES[k] == n {
      NextFromListed(0, k);
      PrimeGap(k);
    } else {
      NextFromUnlisted(n, 0);
      WrappedGrows(n);
    }
  }

  lemma PrimeGap(k: nat)
    requires k < |PRIMES| - 1
    ensures PRIMES[k + 1] >= PRIMES[k] + 24 && PRIMES[k] <= GROWABLE
  {
  }

  lemma WrappedGrows(n: Size)
    ensures Wrapped(n) > n <==> n <= GROWABLE
    ensures n <= GROWABLE ==> Wrapped(n) >= n + 24
  {
    if n + 16 < MODULUS {
      var t := (n + 16) * 3;
      if t < MODULUS {
      } else if t < 2 * MODULUS {
        assert t % MODULUS == t - MODULUS;
      } else {
        assert t % MODULUS == t - 2 * MODULUS;
      }
    } else {
      assert (n + 16) % MODULUS == n + 16 - MODULUS;
    }
  }
}
