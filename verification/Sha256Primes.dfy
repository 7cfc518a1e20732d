/** The numbers that `Sha256Standard` lists are the first sixty-four primes. */
module Sha256Primes {
  import opened Sha256Standard

  predicate IsPrime(n: nat) {
    n >= 2 && forall d :: 2 <= d < n ==> n % d != 0
  }

  /** The least prime below 19 that divides `n`, or `n`. */
  function SmallFactor(n: nat): nat {
    if n % 2 == 0 then 2 else if n % 3 == 0 then 3 else if n % 5 == 0 then 5 else if n % 7 == 0 then 7
    else if n % 11 == 0 then 11 else if n % 13 == 0 then 13 else if n % 17 == 0 then 17 else n
  }

  lemma SmallFactorDivides(n: nat)
    requires n >= 2
    ensures 2 <= SmallFactor(n) <= n && n % SmallFactor(n) == 0
  {
  }

  predicate IsSmallPrime(p: nat) {
    p in [2, 3, 5, 7, 11, 13, 17]
  }

  lemma MultipleOf(k: nat, p: nat)
    requires IsSmallPrime(p)
    ensures k * p % p == 0
  {
    assert k * 2 % 2 == 0 && k * 3 % 3 == 0 && k * 5 % 5 == 0 && k * 7 % 7 == 0;
    assert k * 11 % 11 == 0 && k * 13 % 13 == 0 && k * 17 % 17 == 0;
  }

  lemma Divides(p: nat, d: nat, e: nat)
    requires IsSmallPrime(p) && d % p == 0
    ensures d * e % p == 0
  {
    var c := d / p;
    assert d * e == c * e * p;
    MultipleOf(c * e, p);
  }

  lemma MultipleHasFactor(n: nat, d: nat, e: nat)
    requires 2 <= d <= 17 && d < n && n == d * e
    ensures SmallFactor(n) < n
  {
    var p := SmallFactor(d);
    SmallFactorDivides(d);
    Divides(p, d, e);
    SmallIsSmall(n, p);
  }

  lemma SmallIsSmall(n: nat, p: nat)
    requires IsSmallPrime(p) && p < n && n % p == 0
    ensures SmallFactor(n) < n
  {
  }

  lemma FactorIsSeen(n: nat, d: nat)
    requires 2 <= d < n <= 311 && n % d == 0
    ensures SmallFactor(n) < n
  {
    var e := n / d;
    assert n == d * e && e >= 2;
    if d <= 17 {
      MultipleHasFactor(n, d, e);
    } else {
      SmallQuotient(d, e);
      MultipleHasFactor(n, e, d);
    }
  }

  lemma SmallQuotient(d: nat, e: nat)
    requires d >= 18 && d * e <= 311
    ensures e <= 17
  {
    if e >= 18 {
      Larger(d, e);
    }
  }

  lemma Larger(d: nat, e: nat)
    requires d >= 18 && e >= 18
    ensures d * e >= 324
  {
    assert d * e >= 18 * e;
  }

  /** Below 324 the primes up to 17 decide. */
  lemma SmallFactorDecides(n: nat)
    requires 2 <= n <= 311
    ensures IsPrime(n) <==> SmallFactor(n) == n
  {
    SmallFactorDivides(n);
    hide SmallFactor;
    forall d | 2 <= d < n && n % d == 0
      ensures SmallFactor(n) < n
    {
      FactorIsSeen(n, d);
    }
  }

  // Numbers without the factors 2, 3 and 5, by their remainder.

  predicate OnWheel(n: nat, q: nat, r: nat) {
    n == 30 * q + r && r in [1, 7, 11, 13, 17, 19, 23, 29]
  }

  predicate HasNoFactor(n: nat) {
    n % 7 != 0 && n % 11 != 0 && n % 13 != 0 && n % 17 != 0
  }

  lemma Row0(n: nat, q: nat, r: nat)
    requires 2 <= n <= 53 && OnWheel(n, q, r) && HasNoFactor(n)
    ensures n in PRIMES_0
  {
    assert q in [0, 1, 2, 3, 4, 5, 6, 7, 8, 9, 10];
  }

  lemma Row1(n: nat, q: nat, r: nat)
    requires 54 <= n <= 131 && OnWheel(n, q, r) && HasNoFactor(n)
    ensures n in PRIMES_1
  {
    assert q in [0, 1, 2, 3, 4, 5, 6, 7, 8, 9, 10];
  }

  lemma Row2(n: nat, q: nat, r: nat)
    requires 132 <= n <= 223 && OnWheel(n, q, r) && HasNoFactor(n)
    ensures n in PRIMES_2
  {
    assert q in [0, 1, 2, 3, 4, 5, 6, 7, 8, 9, 10];
  }

  lemma Row3(n: nat, q: nat, r: nat)
    requires 224 <= n <= 311 && OnWheel(n, q, r) && HasNoFactor(n)
    ensures n in PRIMES_3
  {
    assert q in [0, 1, 2, 3, 4, 5, 6, 7, 8, 9, 10];
  }

  predicate Listed(n: nat) {
    n in PRIMES_0 || n in PRIMES_1 || n in PRIMES_2 || n in PRIMES_3
  }

  lemma Mod2(k: nat, r: nat)
    ensures (2 * k + r) % 2 == r % 2
  {
  }

  lemma Mod3(k: nat, r: nat)
    ensures (3 * k + r) % 3 == r % 3
  {
  }

  lemma Mod5(k: nat, r: nat)
    ensures (5 * k + r) % 5 == r % 5
  {
  }

  lemma Coprime(r: nat)
    requires r < 30 && r % 2 != 0 && r % 3 != 0 && r % 5 != 0
    ensures r in [1, 7, 11, 13, 17, 19, 23, 29]
  {
  }

  lemma Wheel(n: nat, q: nat, r: nat)
    requires n == 30 * q + r && r < 30 && n % 2 != 0 && n % 3 != 0 && n % 5 != 0
    ensures OnWheel(n, q, r)
  {
    Mod2(15 * q, r);
    Mod3(10 * q, r);
    Mod5(6 * q, r);
    Coprime(r);
  }

  lemma NoSmallFactor(n: nat)
    requires SmallFactor(n) == n && !IsSmallPrime(n)
    ensures n % 2 != 0 && n % 3 != 0 && n % 5 != 0 && HasNoFactor(n)
  {
  }

  lemma PrimeIsListed(n: nat)
    requires 2 <= n <= 311 && SmallFactor(n) == n
    ensures Listed(n)
  {
    if !IsSmallPrime(n) {
      hide OnWheel, HasNoFactor, SmallFactor, IsSmallPrime;
      var q, r := n / 30, n % 30;
      NoSmallFactor(n);
      Wheel(n, q, r);
      if n <= 53 {
        Row0(n, q, r);
      } else if n <= 131 {
        Row1(n, q, r);
      } else if n <= 223 {
        Row2(n, q, r);
      } else {
        Row3(n, q, r);
      }
    }
  }

  lemma ListedIsPrime(t: nat)
    requires t < 64
    ensures 2 <= Prime(t) <= 311 && SmallFactor(Prime(t)) == Prime(t)
  {
    if t < 16 {
      assert SmallFactor(PRIMES_0[t]) == PRIMES_0[t];
    } else if t < 32 {
      assert SmallFactor(PRIMES_1[t - 16]) == PRIMES_1[t - 16];
    } else if t < 48 {
      assert SmallFactor(PRIMES_2[t - 32]) == PRIMES_2[t - 32];
    } else {
      assert SmallFactor(PRIMES_3[t - 48]) == PRIMES_3[t - 48];
    }
  }

  lemma InOrder(t: nat)
    requires t < 63
    ensures Prime(t) < Prime(t + 1)
  {
  }

  lemma ListedHasPlace(n: nat) returns (t: nat)
    requires Listed(n)
    ensures t < 64 && Prime(t) == n
  {
    if n in PRIMES_0 {
      t :| t < 16 && PRIMES_0[t] == n;
    } else if n in PRIMES_1 {
      var i: nat :| i < 16 && PRIMES_1[i] == n;
      t := 16 + i;
    } else if n in PRIMES_2 {
      var i: nat :| i < 16 && PRIMES_2[i] == n;
      t := 32 + i;
    } else {
      var i: nat :| i < 16 && PRIMES_3[i] == n;
      t := 48 + i;
    }
  }

  /** The listed numbers are the primes up to the last of them, in order. */
  lemma PrimesAreFirst(n: nat, t: nat)
    requires n <= 311
    ensures IsPrime(n) <==> exists i: nat :: i < 64 && Prime(i) == n
    ensures t < 63 ==> Prime(t) < Prime(t + 1)
  {
    if t < 63 {
      InOrder(t);
    }
    hide SmallFactor, Prime, Listed;
    if n >= 2 {
      SmallFactorDecides(n);
      if SmallFactor(n) == n {
        PrimeIsListed(n);
        var i := ListedHasPlace(n);
      }
    }
    forall i: nat | i < 64 && Prime(i) == n
      ensures IsPrime(n)
    {
      ListedIsPrime(i);
    }
  }
}
