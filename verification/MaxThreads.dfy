/** The kernel's thread limit: 64-bit arithmetic guarded by bit lengths, and the limit it stands for. */
module MaxThreads {

  const MIN_THREADS := 20
  const MAX_THREADS := 0x3fff_ffff
  const TWO_64: nat := 0x1_0000_0000_0000_0000
  const LARGEST_THREAD_SIZE := 0x4000_0001  // the largest for which the guard cannot show

  function Pow2(n: nat): (p: nat)
    ensures p > 0
  {
    if n == 0 then 1 else 2 * Pow2(n - 1)
  }

  /** The position of the highest set bit, counted from one; zero for zero. */
  function Fls(x: nat): (n: nat)
    ensures x < Pow2(n)
    ensures x > 0 ==> n > 0 && Pow2(n - 1) <= x
  {
    if x == 0 then 0 else 1 + Fls(x / 2)
  }

  function Min(a: nat, b: nat): nat {
    if a < b then a else b
  }

  function Clamp(x: nat): (r: nat)
    ensures MIN_THREADS <= r <= MAX_THREADS
  {
    if x < MIN_THREADS then MIN_THREADS else if x > MAX_THREADS then MAX_THREADS else x
  }

  /** Integer division, rounding down. */
  function Quotient(a: nat, d: nat): (q: nat)
    requires d > 0
    ensures q * d <= a < (q + 1) * d
  {
    a / d
  }

  /** The limit over unbounded integers: an eighth of memory, the suggestion, and the two bounds. */
  function ExactLimit(pages: nat, pageSize: nat, threadSize: nat, suggested: nat): nat
    requires threadSize > 0
  {
    Clamp(Min(Quotient(pages * pageSize, threadSize * 8), suggested))
  }

  lemma {:induction false} PowAdds(a: nat, b: nat)
    ensures Pow2(a) * Pow2(b) == Pow2(a + b)
  {
    if a > 0 {
      PowAdds(a - 1, b);
      Doubled(Pow2(a - 1), Pow2(b), Pow2(a + b - 1));
    }
  }

  lemma Doubled(x: nat, y: nat, z: nat)
    requires x * y == z
    ensures (2 * x) * y == 2 * z
  {
  }

  lemma {:induction false} PowMonotone(a: nat, b: nat)
    requires a <= b
    ensures Pow2(a) <= Pow2(b)
  {
    if a < b {
      PowMonotone(a, b - 1);
    }
  }

  lemma Pow63(n: nat)
    requires n == 63
    ensures Pow2(n) == 0x8000_0000_0000_0000 && Pow2(n + 1) == TWO_64
  {
    Pow21();
    PowAdds(21, 21);
    PowAdds(21, 42);
  }

  lemma Pow21()
    ensures Pow2(21) == 0x20_0000
  {
    assert Pow2(7) == 128;
    PowAdds(7, 7);
    PowAdds(7, 14);
  }

  lemma TimesMonotone(a: nat, b: nat, c: nat, d: nat)
    requires a <= c && b <= d
    ensures a * b <= c * d
  {
    assert a * b <= c * b <= c * d;
  }

  lemma Below(a: nat, b: nat, c: nat, d: nat)
    requires a < c && b < d
    ensures 0 <= a * b < c * d
  {
    assert a * b <= a * d;
    assert (c - a) * d > 0;
    assert c * d == a * d + (c - a) * d;
  }

  /** When the guard does not fire, the product fits into 64 bits. */
  lemma GuardedProductFits(pages: nat, pageSize: nat)
    requires Fls(pages) + Fls(pageSize) <= 64
    ensures 0 <= pages * pageSize < TWO_64
  {
    ProductFits(pages, pageSize, Fls(pages), Fls(pageSize));
  }

  lemma ProductFits(p: nat, q: nat, a: nat, b: nat)
    requires p < Pow2(a) && q < Pow2(b) && a + b <= 64
    ensures 0 <= p * q < TWO_64
  {
    Pow63(63);
    PowMonotone(a + b, 64);
    PowAdds(a, b);
    Below(p, q, Pow2(a), Pow2(b));
  }

  /** When it fires, the product is at least half of the 64-bit range. */
  lemma GuardFiresOnLargeProducts(pages: nat, pageSize: nat)
    requires Fls(pages) + Fls(pageSize) > 64 && pages > 0 && pageSize > 0
    ensures pages * pageSize >= 0x8000_0000_0000_0000
  {
    var a, b := Fls(pages), Fls(pageSize);
    Pow63(63);
    PowAdds(a - 1, b - 1);
    PowMonotone(63, a + b - 2);
    TimesMonotone(Pow2(a - 1), Pow2(b - 1), pages, pageSize);
  }

  /** Then the exact quotient reaches the maximum, for all thread sizes that are not too large. */
  lemma LargeQuotient(product: nat, threadSize: nat)
    requires product >= 0x8000_0000_0000_0000 && 0 < threadSize <= LARGEST_THREAD_SIZE
    ensures Quotient(product, threadSize * 8) >= MAX_THREADS
  {
    var d := threadSize * 8;
    var q := Quotient(product, d);
    if q < MAX_THREADS {
      TimesMonotone(q + 1, d, MAX_THREADS, LARGEST_THREAD_SIZE * 8);
    }
  }

  /** What the kernel computes, every intermediate result cut to 64 bits. */
  function Limit(pages: nat, pageSize: nat, threadSize: nat, suggested: nat): nat
    requires 0 < threadSize && threadSize * 8 < TWO_64
  {
    Clamp(Min(if Fls(pages) + Fls(pageSize) > 64 then MAX_THREADS else Quotient(pages * pageSize % TWO_64, threadSize * 8 % TWO_64),
              suggested))
  }

  /** No intermediate result is cut, and unless threads are huge the guard does not show. */
  lemma LimitIsExact(pages: nat, pageSize: nat, threadSize: nat, suggested: nat)
    requires pages < TWO_64 && 0 < pageSize < TWO_64 && 0 < threadSize <= LARGEST_THREAD_SIZE
    ensures Limit(pages, pageSize, threadSize, suggested) == ExactLimit(pages, pageSize, threadSize, suggested)
    ensures Fls(pages) + Fls(pageSize) <= 64 ==> pages * pageSize < TWO_64
  {
    if Fls(pages) + Fls(pageSize) > 64 {
      assert pages > 0 by {
        SmallFls(pageSize);
      }
      GuardFiresOnLargeProducts(pages, pageSize);
      LargeQuotient(pages * pageSize, threadSize);
    } else {
      GuardedProductFits(pages, pageSize);
      Uncut(pages * pageSize);
      Uncut(threadSize * 8);
    }
  }

  /**
   * Of the largest number of units that fit into the memory and the suggestion,
   * the smaller one, moved into the range if it lies outside.
   */
  ghost predicate IsLimit(memory: int, unit: nat, suggested: nat, limit: int) {
    exists fits: nat :: fits * unit <= memory < (fits + 1) * unit &&
      if fits < MIN_THREADS || suggested < MIN_THREADS then limit == MIN_THREADS
      else if fits > MAX_THREADS && suggested > MAX_THREADS then limit == MAX_THREADS
      else (limit == fits || limit == suggested) && limit <= fits && limit <= suggested
  }

  lemma ExactIsLimit(pages: nat, pageSize: nat, threadSize: nat, suggested: nat)
    requires threadSize > 0
    ensures IsLimit(pages * pageSize, threadSize * 8, suggested, ExactLimit(pages, pageSize, threadSize, suggested))
  {
    var unit := threadSize * 8;
    var fits := Quotient(pages * pageSize, unit);
    assert fits * unit <= pages * pageSize < (fits + 1) * unit;
  }

  lemma ExactForSmallThreads(pages: nat, pageSize: nat, threadSize: nat, suggested: nat)
    requires 0 < threadSize && threadSize * 8 < TWO_64
    ensures pages < TWO_64 && 0 < pageSize < TWO_64 && threadSize <= LARGEST_THREAD_SIZE ==>
      IsLimit(pages * pageSize, threadSize * 8, suggested, Limit(pages, pageSize, threadSize, suggested))
  {
    if pages < TWO_64 && 0 < pageSize < TWO_64 && threadSize <= LARGEST_THREAD_SIZE {
      LimitIsExact(pages, pageSize, threadSize, suggested);
      ExactIsLimit(pages, pageSize, threadSize, suggested);
    }
  }

  lemma FlsAtLeast(x: nat, m: nat)
    requires Pow2(m) <= x
    ensures Fls(x) > m
  {
    if Fls(x) <= m {
      PowMonotone(Fls(x), m);
    }
  }

  /** 2^63 bytes of memory, in pages of 2^b bytes, make the guard fire. */
  lemma LargeMemory(a: nat, b: nat) returns (pages: nat, pageSize: nat)
    requires a + b == 63
    ensures pages < TWO_64 && 0 < pageSize < TWO_64 && pages * pageSize == 0x8000_0000_0000_0000
    ensures Fls(pages) + Fls(pageSize) > 64
  {
    pages, pageSize := Pow2(a), Pow2(b);
    PowAdds(a, b);
    Pow63(a + b);
    PowMonotone(a, a + b);
    PowMonotone(b, a + b);
    FlsAtLeast(pages, a);
    FlsAtLeast(pageSize, b);
  }

  lemma SmallQuotient(product: nat, threadSize: nat)
    requires product == 0x8000_0000_0000_0000 && threadSize > LARGEST_THREAD_SIZE
    ensures Quotient(product, threadSize * 8) < MAX_THREADS
  {
    var d := threadSize * 8;
    var q := Quotient(product, d);
    if q >= MAX_THREADS {
      TimesMonotone(MAX_THREADS, (LARGEST_THREAD_SIZE + 1) * 8, q, d);
    }
  }

  /** The kernel's formula is the exact one for all memories and suggestions if and only if threads are small enough. */
  lemma ExactIff(threadSize: nat)
    requires 0 < threadSize && threadSize * 8 < TWO_64
    ensures (forall pages: nat, pageSize: nat, suggested: nat :: pages < TWO_64 && 0 < pageSize < TWO_64 ==>
               Limit(pages, pageSize, threadSize, suggested) == ExactLimit(pages, pageSize, threadSize, suggested))
            <==> threadSize <= LARGEST_THREAD_SIZE
  {
    if threadSize <= LARGEST_THREAD_SIZE {
      forall pages: nat, pageSize: nat, suggested: nat | pages < TWO_64 && 0 < pageSize < TWO_64
        ensures Limit(pages, pageSize, threadSize, suggested) == ExactLimit(pages, pageSize, threadSize, suggested)
      {
        LimitIsExact(pages, pageSize, threadSize, suggested);
      }
    } else {
      var pages, pageSize := LargeMemory(51, 12);
      SmallQuotient(pages * pageSize, threadSize);
      assert Limit(pages, pageSize, threadSize, MAX_THREADS) > ExactLimit(pages, pageSize, threadSize, MAX_THREADS);
    }
  }

  lemma Uncut(x: int)
    requires 0 <= x < TWO_64
    ensures x % TWO_64 == x
  {
  }

  lemma SmallFls(x: nat)
    requires x < TWO_64
    ensures Fls(x) <= 64
  {
    Pow63(63);
    if Fls(x) > 64 {
      PowMonotone(64, Fls(x) - 1);
    }
  }

  class ThreadLimits {
    var maxThreads: nat

    method SetMaxThreads(pages: nat, pageSize: nat, threadSize: nat, suggested: nat)
      requires 0 < threadSize && threadSize * 8 < TWO_64
      modifies this
      ensures maxThreads == Limit(pages, pageSize, threadSize, suggested)
      ensures pages < TWO_64 && 0 < pageSize < TWO_64 && threadSize <= LARGEST_THREAD_SIZE ==>
        IsLimit(pages * pageSize, threadSize * 8, suggested, maxThreads)
    {
      var threads: nat;
      if Fls(pages) + Fls(pageSize) > 64 {
        threads := MAX_THREADS;
      } else {
        threads := Quotient(pages * pageSize % TWO_64, threadSize * 8 % TWO_64);
      }
      if threads > suggested {
        threads := suggested;
      }
      maxThreads := Clamp(threads);
      ExactForSmallThreads(pages, pageSize, threadSize, suggested);
    }
  }
}
