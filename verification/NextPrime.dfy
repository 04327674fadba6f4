/** __next_prime of libcxx/src/hash.cpp: the least prime at or above n, found on a wheel of
    the 48 residues modulo 210 that are divisible by none of 2, 3, 5 and 7. */
module NextPrime {
  import opened Primality
  import OverflowBound

  // size_t on a 64-bit target; the verifier checks every operation on it for wrap-around.
  newtype size_t = x: int | 0 <= x < 0x1_0000_0000_0000_0000

  const LIMIT: size_t := OverflowBound.LIMIT as size_t

  const SMALL_PRIMES: seq<size_t> :=
    [0, 2, 3, 5, 7, 11, 13, 17] +
    [19, 23, 29, 31, 37, 41, 43, 47] +
    [53, 59, 61, 67, 71, 73, 79, 83] +
    [89, 97, 101, 103, 107, 109, 113, 127] +
    [131, 137, 139, 149, 151, 157, 163, 167] +
    [173, 179, 181, 191, 193, 197, 199, 211]

  const INDICES: seq<size_t> :=
    [1, 11, 13, 17, 19, 23, 29, 31] +
    [37, 41, 43, 47, 53, 59, 61, 67] +
    [71, 73, 79, 83, 89, 97, 101, 103] +
    [107, 109, 113, 121, 127, 131, 137, 139] +
    [143, 149, 151, 157, 163, 167, 169, 173] +
    [179, 181, 187, 191, 193, 197, 199, 209]

  // What the unrolled divisor loop adds to i after each of its 48 tests, in order.
  const INCREMENTS: seq<size_t> :=
    [10, 2, 4, 2, 4, 6, 2, 6] +
    [4, 2, 4, 6, 6, 2, 6, 4] +
    [2, 6, 4, 6, 8, 4, 2, 4] +
    [2, 4, 8, 6, 4, 6, 2, 4] +
    [6, 2, 6, 6, 4, 2, 4, 6] +
    [2, 6, 4, 2, 4, 2, 10, 2]

  datatype Outcome = Found(value: size_t) | OverflowError

  /** The documented result: the lowest prime at or above n. */
  ghost predicate LeastPrimeFrom(n: int, p: int)
  {
    IsPrime(p) && n <= p && forall m :: n <= m < p ==> !IsPrime(m)
  }

  // ----- The wheel

  predicate OnWheel(x: int)
  {
    x % 2 != 0 && x % 3 != 0 && x % 5 != 0 && x % 7 != 0
  }

  predicate Skips(x: int, gap: int, k: int)
  {
    k < gap ==> !OnWheel(x + k)
  }

  // No number strictly between x and x + gap is on the wheel.
  predicate GapOffWheel(x: int, gap: int)
  {
    && 0 < gap <= 10
    && Skips(x, gap, 1) && Skips(x, gap, 2) && Skips(x, gap, 3)
    && Skips(x, gap, 4) && Skips(x, gap, 5) && Skips(x, gap, 6)
    && Skips(x, gap, 7) && Skips(x, gap, 8) && Skips(x, gap, 9)
  }

  function Residue(s: nat): (r: int)
    requires s < 48
  {
    INDICES[s] as int
  }

  function Step(s: nat): (d: int)
    requires s < 48
  {
    INCREMENTS[s] as int
  }

  // Entry s of the wheel: its residue, and the increment that leads to the next one.
  predicate WheelEntry(s: nat)
    requires s < 48
  {
    && 1 <= Residue(s) <= 209 && 2 <= Step(s)
    && OnWheel(Residue(s))
    && GapOffWheel(Residue(s), Step(s))
    && Residue(s) + Step(s) == if s < 47 then Residue(s + 1) else 211
  }

  lemma Wheel0(s: nat)
    requires 0 <= s < 4
    ensures WheelEntry(s)
  {
  }

  lemma Wheel1(s: nat)
    requires 4 <= s < 8
    ensures WheelEntry(s)
  {
  }

  lemma Wheel2(s: nat)
    requires 8 <= s < 12
    ensures WheelEntry(s)
  {
  }

  lemma Wheel3(s: nat)
    requires 12 <= s < 16
    ensures WheelEntry(s)
  {
  }

  lemma Wheel4(s: nat)
    requires 16 <= s < 20
    ensures WheelEntry(s)
  {
  }

  lemma Wheel5(s: nat)
    requires 20 <= s < 24
    ensures WheelEntry(s)
  {
  }

  lemma Wheel6(s: nat)
    requires 24 <= s < 28
    ensures WheelEntry(s)
  {
  }

  lemma Wheel7(s: nat)
    requires 28 <= s < 32
    ensures WheelEntry(s)
  {
  }

  lemma Wheel8(s: nat)
    requires 32 <= s < 36
    ensures WheelEntry(s)
  {
  }

  lemma Wheel9(s: nat)
    requires 36 <= s < 40
    ensures WheelEntry(s)
  {
  }

  lemma Wheel10(s: nat)
    requires 40 <= s < 44
    ensures WheelEntry(s)
  {
  }

  lemma Wheel11(s: nat)
    requires 44 <= s < 48
    ensures WheelEntry(s)
  {
  }

  lemma WheelTable(s: nat)
    requires s < 48
    ensures WheelEntry(s)
  {
    if s < 4 { Wheel0(s); } else if s < 8 { Wheel1(s); } else if s < 12 { Wheel2(s); } else
    if s < 16 { Wheel3(s); } else if s < 20 { Wheel4(s); } else if s < 24 { Wheel5(s); } else
    if s < 28 { Wheel6(s); } else if s < 32 { Wheel7(s); } else if s < 36 { Wheel8(s); } else
    if s < 40 { Wheel9(s); } else if s < 44 { Wheel10(s); } else { Wheel11(s); }
  }

  lemma OnWheelPeriodic(k: int, r: int)
    ensures OnWheel(210 * k + r) <==> OnWheel(r)
  {
    assert 210 * k + r == r + 2 * (105 * k) == r + 3 * (70 * k) == r + 5 * (42 * k) == r + 7 * (30 * k);
    ModAddMultiple(r, 2, 105 * k);
    ModAddMultiple(r, 3, 70 * k);
    ModAddMultiple(r, 5, 42 * k);
    ModAddMultiple(r, 7, 30 * k);
  }

  /** Stepping by the increment of entry s from a number at that entry visits the next
      number on the wheel and passes over none. */
  lemma NextOnWheel(k: int, s: nat, d: int)
    requires s < 48
    ensures OnWheel(210 * k + Residue(s))
    ensures 0 < d < Step(s) ==> !OnWheel(210 * k + Residue(s) + d)
    ensures Residue(s) + Step(s) == if s < 47 then Residue(s + 1) else 211
    ensures 2 <= Step(s) <= 10 && 1 <= Residue(s) <= 209
  {
    hide OnWheel, Residue, Step;
    WheelTable(s);
    var x := Residue(s);
    OnWheelPeriodic(k, x);
    OnWheelPeriodic(k, x + d);
    if 0 < d < Step(s) {
      assert Skips(x, Step(s), d);
    }
  }

  lemma DividesTransitive(p: int, d: int, n: int)
    requires p > 0 && d > 0 && Divides(p, d) && Divides(d, n)
    ensures Divides(p, n)
  {
    var k := n / d;
    assert n == d * k + 0 * 0;
    DividesCombination(p, d, k, 0, 0);
    assert Divides(p, 0);
  }

  // A number off the wheel shares a factor with 210, which a number on it does not.
  lemma OffWheelNoDivisor(n: int, d: int)
    requires OnWheel(n) && d > 0 && !OnWheel(d)
    ensures !Divides(d, n)
  {
    if Divides(d, n) {
      if d % 2 == 0 { DividesTransitive(2, d, n); }
      else if d % 3 == 0 { DividesTransitive(3, d, n); }
      else if d % 5 == 0 { DividesTransitive(5, d, n); }
      else { DividesTransitive(7, d, n); }
    }
  }

  lemma OffWheelComposite(x: int)
    requires x > 7 && !OnWheel(x)
    ensures !IsPrime(x)
  {
    assert Divides(2, x) || Divides(3, x) || Divides(5, x) || Divides(7, x);
  }

  // ----- The small primes

  predicate NotProperMultiple(x: int, p: int)
    requires p > 0
  {
    x == p || x % p != 0
  }

  predicate PassesTrial(x: int)
  {
    && x >= 2
    && NotProperMultiple(x, 2) && NotProperMultiple(x, 3) && NotProperMultiple(x, 5)
    && NotProperMultiple(x, 7) && NotProperMultiple(x, 11) && NotProperMultiple(x, 13)
  }

  lemma TrialDecides(x: int)
    requires x < 289
    ensures PassesTrial(x) <==> IsPrime(x)
  {
    if PassesTrial(x) {
      forall d | 2 <= d < x
        ensures !Divides(d, x)
      {
        if Divides(d, x) {
          var k := Cofactor(x, d);
          if d >= 17 && k >= 17 {
            MulMono(d, 17, k);
            assert false;
          }
          SmallDivisor(x, if d < 17 then d else k);
        }
      }
    } else if x >= 2 {
      assert Divides(2, x) || Divides(3, x) || Divides(5, x) || Divides(7, x) || Divides(11, x) || Divides(13, x);
    }
  }

  lemma SmallDivisor(x: int, d: int)
    requires 2 <= d < 17 && d < x && Divides(d, x)
    ensures !PassesTrial(x)
  {
    if d % 2 == 0 { DividesTransitive(2, d, x); }
    else if d % 3 == 0 { DividesTransitive(3, d, x); }
    else if d % 5 == 0 { DividesTransitive(5, d, x); }
    else { assert d == 7 || d == 11 || d == 13; }
  }

  predicate FailsAt(lo: int, hi: int, k: int)
  {
    lo + k < hi ==> !PassesTrial(lo + k)
  }

  // Entry j is prime and nothing between its predecessor and it is.
  predicate PrimeEntry(j: nat)
    requires 1 <= j < 48
  {
    var lo, hi := SMALL_PRIMES[j - 1] as int, SMALL_PRIMES[j] as int;
    && lo < hi <= 211 && hi - lo <= 14 && PassesTrial(hi)
    && FailsAt(lo, hi, 1) && FailsAt(lo, hi, 2) && FailsAt(lo, hi, 3) && FailsAt(lo, hi, 4)
    && FailsAt(lo, hi, 5) && FailsAt(lo, hi, 6) && FailsAt(lo, hi, 7) && FailsAt(lo, hi, 8)
    && FailsAt(lo, hi, 9) && FailsAt(lo, hi, 10) && FailsAt(lo, hi, 11) && FailsAt(lo, hi, 12)
    && FailsAt(lo, hi, 13)
  }

  lemma SmallPrime0(s: nat)
    requires 1 <= s < 5
    ensures PrimeEntry(s)
  {
  }

  lemma SmallPrime1(s: nat)
    requires 5 <= s < 9
    ensures PrimeEntry(s)
  {
  }

  lemma SmallPrime2(s: nat)
    requires 9 <= s < 13
    ensures PrimeEntry(s)
  {
  }

  lemma SmallPrime3(s: nat)
    requires 13 <= s < 17
    ensures PrimeEntry(s)
  {
  }

  lemma SmallPrime4(s: nat)
    requires 17 <= s < 21
    ensures PrimeEntry(s)
  {
  }

  lemma SmallPrime5(s: nat)
    requires 21 <= s < 25
    ensures PrimeEntry(s)
  {
  }

  lemma SmallPrime6(s: nat)
    requires 25 <= s < 29
    ensures PrimeEntry(s)
  {
  }

  lemma SmallPrime7(s: nat)
    requires 29 <= s < 33
    ensures PrimeEntry(s)
  {
  }

  lemma SmallPrime8(s: nat)
    requires 33 <= s < 37
    ensures PrimeEntry(s)
  {
  }

  lemma SmallPrime9(s: nat)
    requires 37 <= s < 41
    ensures PrimeEntry(s)
  {
  }

  lemma SmallPrime10(s: nat)
    requires 41 <= s < 45
    ensures PrimeEntry(s)
  {
  }

  lemma SmallPrime11(s: nat)
    requires 45 <= s < 48
    ensures PrimeEntry(s)
  {
  }

  lemma SmallPrimeTable(j: nat)
    requires 1 <= j < 48
    ensures PrimeEntry(j)
  {
    if j < 5 { SmallPrime0(j); } else if j < 9 { SmallPrime1(j); } else
    if j < 13 { SmallPrime2(j); } else if j < 17 { SmallPrime3(j); } else
    if j < 21 { SmallPrime4(j); } else if j < 25 { SmallPrime5(j); } else
    if j < 29 { SmallPrime6(j); } else if j < 33 { SmallPrime7(j); } else
    if j < 37 { SmallPrime8(j); } else if j < 41 { SmallPrime9(j); } else
    if j < 45 { SmallPrime10(j); } else { SmallPrime11(j); }
  }

  lemma {:induction false} SmallPrimesAscend(i: nat, j: nat)
    requires i < j < 48
    ensures SMALL_PRIMES[i] < SMALL_PRIMES[j]
  {
    SmallPrimeTable(j);
    if i < j - 1 { SmallPrimesAscend(i, j - 1); }
  }

  lemma {:induction false} IndicesAscend(i: nat, j: nat)
    requires i < j < 48
    ensures INDICES[i] < INDICES[j]
  {
    hide OnWheel;
    WheelTable(j - 1);
    if i < j - 1 { IndicesAscend(i, j - 1); }
  }

  lemma BetweenSmallPrimes(j: nat, x: int)
    requires 1 <= j < 48 && SMALL_PRIMES[j - 1] as int < x < SMALL_PRIMES[j] as int
    ensures !IsPrime(x)
  {
    hide PassesTrial, IsPrime;
    SmallPrimeTable(j);
    var lo := SMALL_PRIMES[j - 1] as int;
    assert FailsAt(lo, SMALL_PRIMES[j] as int, x - lo);
    TrialDecides(x);
  }

  /** The table answers every request up to its last entry. */
  lemma SmallPrimeAnswer(n: int, j: nat)
    requires 1 <= j < 48 && SMALL_PRIMES[j - 1] as int < n <= SMALL_PRIMES[j] as int
    ensures LeastPrimeFrom(n, SMALL_PRIMES[j] as int)
  {
    SmallPrimeTable(j);
    TrialDecides(SMALL_PRIMES[j] as int);
    forall m | n <= m < SMALL_PRIMES[j] as int
      ensures !IsPrime(m)
    {
      BetweenSmallPrimes(j, m);
    }
  }

  // ----- Trial division

  ghost predicate NoDivisorBelow(n: int, i: int)
  {
    forall d :: 2 <= d < i ==> !Divides(d, n)
  }

  // The test q < i of the source: no divisor below i and n < i * i leave n prime.
  lemma PrimeBySquareRoot(n: int, i: int)
    requires n >= 2 && i > 0 && NoDivisorBelow(n, i) && n / i < i
    ensures IsPrime(n)
  {
    forall d | 2 <= d < n
      ensures !Divides(d, n)
    {
      if Divides(d, n) {
        var k := Cofactor(n, d);
        if d >= i && k >= i {
          MulMono(d, i, k);
          MulMono(i, i, d);
          QuotientBelow(n, i);
        }
      }
    }
  }

  lemma QuotientBelow(n: int, i: int)
    requires i > 0 && n / i < i
    ensures n < i * i
  {
    assert n == i * (n / i) + n % i;
    MulMono(i, n / i, i - 1);
    assert i * (i - 1) == i * i - i;
  }

  // The test n == q * i: it divides, and the product never exceeds n.
  lemma QuotientTest(n: int, i: int)
    requires n >= 0 && i > 0
    ensures 0 <= (n / i) * i <= n
    ensures n == (n / i) * i <==> Divides(i, n)
  {
    assert n == i * (n / i) + n % i;
    assert i * (n / i) == (n / i) * i;
    if n / i < 0 { MulMono(i, n / i, -1); }
    else { MulMono(i, 0, n / i); }
  }

  lemma ProperDivisor(n: int, i: int)
    requires i >= 2 && i <= n / i && Divides(i, n)
    ensures !IsPrime(n)
  {
    assert n == i * (n / i);
    MulMono(i, 2, n / i);
  }

  lemma SquareBelow(n: int, i: int)
    requires 0 < i <= n / i && n < 0x1_0000_0000_0000_0000
    ensures i < 0x1_0000_0000
  {
    assert n >= i * i by {
      assert n == i * (n / i) + n % i;
      MulMono(i, i, n / i);
    }
    if i >= 0x1_0000_0000 {
      MulMono(0x1_0000_0000, 0x1_0000_0000, i);
      MulMono(i, 0x1_0000_0000, i);
    }
  }

  // A composite below 289 has a factor below 17: one of 11 and 13, or it is off the wheel.
  lemma CompositeDivides(n: int, d: int)
    requires OnWheel(n) && 11 < d < 289 && !IsPrime(d) && Divides(d, n)
    ensures Divides(11, n) || (13 < d && Divides(13, n))
  {
    TrialDecides(d);
    hide IsPrime;
    if !OnWheel(d) {
      OffWheelNoDivisor(n, d);
    } else if d % 11 == 0 {
      DividesTransitive(11, d, n);
    } else {
      DividesTransitive(13, d, n);
    }
  }

  lemma FirstSmallPrimes(j: nat)
    requires 5 <= j < 47
    ensures 11 <= SMALL_PRIMES[j] as int && SMALL_PRIMES[j + 1] as int < 289
    ensures j > 5 ==> 13 <= SMALL_PRIMES[j] as int
    ensures j == 5 ==> SMALL_PRIMES[j] == 11 && SMALL_PRIMES[j + 1] == 13
  {
    assert SMALL_PRIMES[5] == 11 && SMALL_PRIMES[6] == 13;
    if j > 5 { SmallPrimesAscend(5, j); }
    if j > 6 { SmallPrimesAscend(6, j); }
    SmallPrimeTable(j + 1);
  }

  lemma NextSmallDivisor(n: int, j: nat)
    requires 5 <= j < 47 && OnWheel(n)
    requires NoDivisorBelow(n, SMALL_PRIMES[j] as int) && !Divides(SMALL_PRIMES[j] as int, n)
    ensures NoDivisorBelow(n, SMALL_PRIMES[j + 1] as int)
  {
    hide OnWheel, IsPrime, Divides;
    FirstSmallPrimes(j);
    var p, next := SMALL_PRIMES[j] as int, SMALL_PRIMES[j + 1] as int;
    forall d | 2 <= d < next
      ensures !Divides(d, n)
    {
      if p < d && Divides(d, n) {
        BetweenSmallPrimes(j + 1, d);
        CompositeDivides(n, d);
      }
    }
  }

  lemma NextWheelDivisor(n: int, k: int, s: nat, i: int)
    requires s < 48 && i == 210 * k + Residue(s) && i > 0 && OnWheel(n)
    requires NoDivisorBelow(n, i) && !Divides(i, n)
    ensures NoDivisorBelow(n, i + Step(s))
  {
    hide OnWheel, Residue, Step;
    forall d | i < d < i + Step(s)
      ensures !Divides(d, n)
    {
      NextOnWheel(k, s, d - i);
      OffWheelNoDivisor(n, d);
    }
  }

  lemma SmallOffWheel(d: int)
    requires 2 <= d < 11
    ensures !OnWheel(d)
  {
  }

  lemma WheelNoSmallDivisor(n: int)
    requires OnWheel(n)
    ensures NoDivisorBelow(n, 11)
  {
    hide OnWheel, Divides;
    forall d | 2 <= d < 11
      ensures !Divides(d, n)
    {
      SmallOffWheel(d);
      OffWheelNoDivisor(n, d);
    }
  }

  /** std::lower_bound of libcxx/include/algorithm: the first entry not less than the value. */
  method LowerBound(s: seq<size_t>, value: size_t) returns (first: nat)
    requires forall i, j :: 0 <= i < j < |s| ==> s[i] < s[j]
    ensures first <= |s|
    ensures forall i :: 0 <= i < first ==> s[i] < value
    ensures forall i :: first <= i < |s| ==> value <= s[i]
  {
    first := 0;
    var len := |s|;
    while len != 0
      invariant 0 <= len && first + len <= |s|
      invariant forall i :: 0 <= i < first ==> s[i] < value
      invariant forall i :: first + len <= i < |s| ==> value <= s[i]
    {
      var l2 := len / 2;
      if s[first + l2] < value {
        first := first + l2 + 1;
        len := len - (l2 + 1);
      } else {
        len := l2;
      }
    }
  }

  /** One division test of the source: q = n / i, then q < i, then n == q * i. */
  method TestDivisor(n: size_t, i: size_t) returns (decided: bool, prime: bool)
    requires n >= 2 && i >= 2 && NoDivisorBelow(n as int, i as int)
    ensures decided ==> (prime <==> IsPrime(n as int))
    ensures !decided ==> !Divides(i as int, n as int) && i < 0x1_0000_0000
  {
    hide NoDivisorBelow, IsPrime;
    var q := n / i;
    if q < i {
      PrimeBySquareRoot(n as int, i as int);
      return true, true;
    }
    QuotientTest(n as int, i as int);
    SquareBelow(n as int, i as int);
    if n == q * i {
      ProperDivisor(n as int, i as int);
      return true, false;
    }
    return false, false;
  }

  /** Division by the table primes from 11 up to 199. */
  method TestSmallPrimes(n: size_t) returns (decided: bool, prime: bool)
    requires n > 211 && OnWheel(n as int)
    ensures decided ==> (prime <==> IsPrime(n as int))
    ensures !decided ==> NoDivisorBelow(n as int, 211)
  {
    hide OnWheel;
    WheelNoSmallDivisor(n as int);
    assert SMALL_PRIMES[5] == 11 && SMALL_PRIMES[47] == 211;
    for j := 5 to 47
      invariant NoDivisorBelow(n as int, SMALL_PRIMES[j] as int)
    {
      var p := SMALL_PRIMES[j];
      SmallPrimesAscend(0, j);
      if j > 5 { SmallPrimesAscend(5, j); }
      decided, prime := TestDivisor(n, p);
      if decided {
        return;
      }
      NextSmallDivisor(n as int, j);
    }
    return false, false;
  }

  /** Division by the potential primes from 211 on, one turn of the wheel per 48 tests. */
  method TestPotentialPrimes(n: size_t) returns (prime: bool)
    requires n > 211 && OnWheel(n as int) && NoDivisorBelow(n as int, 211)
    ensures prime <==> IsPrime(n as int)
  {
    hide OnWheel, NoDivisorBelow, Divides;
    var i: size_t := 211;
    ghost var plane := 1;
    assert Residue(0) == 1;
    hide Residue;
    while true
      invariant i as int == 210 * plane + 1 && 211 <= i <= 0x1_0000_0000 + 10
      invariant NoDivisorBelow(n as int, i as int)
      decreases 0x1_0000_0000 + 10 - i as int
    {
      ghost var first := i;
      for step := 0 to 48
        invariant first <= i <= 0x1_0000_0000 + 10
        invariant i as int == if step < 48 then 210 * plane + Residue(step) else 210 * plane + 211
        invariant NoDivisorBelow(n as int, i as int)
      {
        var decided;
        decided, prime := TestDivisor(n, i);
        if decided {
          return;
        }
        NextOnWheel(plane, step, 0);
        NextWheelDivisor(n as int, plane, step, i as int);
        i := i + INCREMENTS[step];
      }
      plane := plane + 1;
    }
  }

  // The candidate at entry s of plane k, and the one that ++in (and the carry into k0) selects.
  function Candidate(k: int, s: nat): int
    requires s < 48
  {
    210 * k + Residue(s)
  }

  function After(k: int, s: nat): int
    requires s < 48
  {
    if s < 47 then Candidate(k, s + 1) else Candidate(k + 1, 0)
  }

  lemma AfterIsNext(k: int, s: nat)
    requires s < 48
    ensures After(k, s) == Candidate(k, s) + Step(s) && OnWheel(After(k, s))
  {
    assert Residue(0) == 1;
    hide OnWheel, Residue, Step;
    NextOnWheel(k, s, 0);
    if s < 47 { NextOnWheel(k, s + 1, 0); } else { NextOnWheel(k + 1, 0, 0); }
  }

  lemma NextCandidate(n0: int, k: int, s: nat)
    requires s < 48 && 211 < n0 <= LIMIT as int && n0 <= Candidate(k, s)
    requires forall m :: n0 <= m <= Candidate(k, s) ==> !IsPrime(m)
    ensures Candidate(k, s) < After(k, s) <= LIMIT as int && OnWheel(After(k, s))
    ensures forall m :: n0 <= m < After(k, s) ==> !IsPrime(m)
  {
    hide OnWheel, Residue, Step, After, IsPrime;
    var x, next := Candidate(k, s), After(k, s);
    AfterIsNext(k, s);
    NextOnWheel(k, s, 0);
    forall m | n0 <= m < next
      ensures !IsPrime(m)
    {
      if x < m {
        NextOnWheel(k, s, m - x);
        OffWheelComposite(m);
      }
    }
    OverflowBound.LimitIsPrime();
  }

  lemma FirstCandidate(n0: int, k: int, s: nat)
    requires s < 48 && 211 < n0 <= LIMIT as int && k == n0 / 210
    requires n0 % 210 <= Residue(s) && (s > 0 ==> Residue(s - 1) < n0 % 210)
    ensures n0 <= Candidate(k, s) <= LIMIT as int && OnWheel(Candidate(k, s))
    ensures forall m :: n0 <= m < Candidate(k, s) ==> !IsPrime(m)
  {
    assert Residue(0) == 1 && !OnWheel(0);
    hide OnWheel, Residue, Step;
    NextOnWheel(k, s, 0);
    forall m | n0 <= m < Candidate(k, s)
      ensures !IsPrime(m)
    {
      if s > 0 {
        NextOnWheel(k, s - 1, m - Candidate(k, s - 1));
      } else {
        OnWheelPeriodic(k, 0);
        assert m == 210 * k + 0;
      }
      OffWheelComposite(m);
    }
    OverflowBound.LimitIsPrime();
  }

  /** The open-ended list of potential primes, from the first one at or above n0. */
  method SearchWheel(n0: size_t) returns (n: size_t)
    requires 211 < n0 <= LIMIT
    ensures LeastPrimeFrom(n0 as int, n as int)
  {
    hide OnWheel, Divides;
    forall i, j | 0 <= i < j < 48 ensures INDICES[i] < INDICES[j] {
      IndicesAscend(i, j);
    }
    var k0 := n0 / 210;
    assert INDICES[47] == 209;
    var in_ := LowerBound(INDICES, n0 - k0 * 210);
    FirstCandidate(n0 as int, k0 as int, in_);
    n := 210 * k0 + INDICES[in_];
    while true
      invariant in_ < 48 && k0 as int <= LIMIT as int / 210
      invariant n as int == Candidate(k0 as int, in_)
      invariant n0 <= n <= LIMIT && OnWheel(n as int)
      invariant forall m :: n0 as int <= m < n as int ==> !IsPrime(m)
      decreases LIMIT as int - n as int
    {
      var decided, prime := TestSmallPrimes(n);
      if !decided {
        prime := TestPotentialPrimes(n);
      }
      if prime {
        return;
      }
      NextCandidate(n0 as int, k0 as int, in_);
      in_ := in_ + 1;
      if in_ == 48 {
        k0 := k0 + 1;
        in_ := 0;
      }
      n := 210 * k0 + INDICES[in_];
    }
  }

  /** Zero for zero, the least prime at or above n for every other n up to the overflow
      bound, and the overflow error beyond it. Terminates for every 64-bit n, and no
      operation wraps around. */
  method NextPrime(n0: size_t) returns (r: Outcome)
    ensures r.OverflowError? <==> n0 > LIMIT
    ensures n0 == 0 ==> r == Found(0)
    ensures 0 < n0 <= LIMIT ==> LeastPrimeFrom(n0 as int, r.value as int)
  {
    hide OnWheel;
    var n := n0;
    assert SMALL_PRIMES[0] == 0 && SMALL_PRIMES[47] == 211;
    forall i, j | 0 <= i < j < 48 ensures SMALL_PRIMES[i] < SMALL_PRIMES[j] {
      SmallPrimesAscend(i, j);
    }
    if n <= SMALL_PRIMES[47] {
      var j := LowerBound(SMALL_PRIMES, n);
      if j > 0 { SmallPrimeAnswer(n as int, j); }
      return Found(SMALL_PRIMES[j]);
    }
    if n > LIMIT {
      return OverflowError;
    }
    var p := SearchWheel(n);
    return Found(p);
  }
}
