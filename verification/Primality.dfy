/** Divisibility, primes, and Pocklington's criterion for primality. */
module Primality {

  predicate Divides(d: int, n: int)
    requires d > 0
  {
    n % d == 0
  }

  ghost predicate IsPrime(p: int)
  {
    p >= 2 && forall d :: 2 <= d < p ==> !Divides(d, p)
  }

  // ----- Remainders

  lemma DivModUnique(n: int, d: int, q: int, r: int)
    requires d > 0 && 0 <= r < d && n == d * q + r
    ensures n / d == q && n % d == r
  {
    var k := n / d - q;
    assert d * k == r - n % d by {
      assert n == d * (n / d) + n % d;
      assert d * k == d * (n / d) - d * q;
    }
    if k >= 1 {
      MulMono(d, 1, k);
    } else if k <= -1 {
      MulMono(d, k, -1);
    }
  }

  lemma MulMono(d: int, x: int, y: int)
    requires d >= 0 && x <= y
    ensures d * x <= d * y
  {
  }

  lemma ModOfMultiple(d: int, k: int)
    requires d > 0
    ensures Divides(d, d * k)
  {
    DivModUnique(d * k, d, k, 0);
  }

  // A divisor survives scaling and sums of multiples.
  lemma DividesCombination(d: int, x: int, a: int, y: int, b: int)
    requires d > 0 && Divides(d, x) && Divides(d, y)
    ensures Divides(d, x * a + y * b)
  {
    var p, q := x / d, y / d;
    assert x * a + y * b == d * (p * a + q * b) by {
      assert x == d * p && y == d * q;
      assert (d * p) * a == d * (p * a) && (d * q) * b == d * (q * b);
    }
    ModOfMultiple(d, p * a + q * b);
  }

  lemma ModAddMultiple(x: int, d: int, k: int)
    requires d > 0
    ensures (x + d * k) % d == x % d
  {
    assert x + d * k == d * (x / d + k) + x % d;
    DivModUnique(x + d * k, d, x / d + k, x % d);
  }

  lemma ModMul(x: int, y: int, d: int)
    requires d > 0
    ensures ((x % d) * (y % d)) % d == (x * y) % d
    ensures (x * (y % d)) % d == (x * y) % d
  {
    var p, q := x / d, y / d;
    assert x * y == x * (y % d) + d * (x * q) by {
      assert y == d * q + y % d;
      assert x * (d * q) == d * (x * q);
    }
    ModAddMultiple(x * (y % d), d, x * q);
    assert x * (y % d) == (x % d) * (y % d) + d * (p * (y % d)) by {
      assert x == d * p + x % d;
      assert (d * p) * (y % d) == d * (p * (y % d));
    }
    ModAddMultiple((x % d) * (y % d), d, p * (y % d));
  }

  // Reducing first by a multiple of the modulus changes nothing.
  lemma ModOfMod(x: int, n: int, d: int)
    requires d > 0 && n > 0 && Divides(d, n)
    ensures (x % n) % d == x % d
  {
    var k := n / d;
    assert n == d * k;
    assert x == x % n + d * (k * (x / n)) by {
      assert x == n * (x / n) + x % n;
      assert (d * k) * (x / n) == d * (k * (x / n));
    }
    ModAddMultiple(x % n, d, k * (x / n));
  }

  // ----- Euclid's lemma

  lemma {:induction false} EuclidSmall(q: int, r: int, y: int)
    requires IsPrime(q) && 1 <= r < q && Divides(q, r * y)
    ensures Divides(q, y)
    decreases r
  {
    if r > 1 {
      var k, s := q / r, q % r;
      assert !Divides(r, q);
      assert s * y == q * y + (r * y) * (-k) by {
        assert q == r * k + s;
        assert (r * k + s) * y == (r * y) * k + s * y;
      }
      ModOfMultiple(q, 1);
      DividesCombination(q, q, y, r * y, -k);
      EuclidSmall(q, s, y);
    }
  }

  lemma Euclid(q: int, x: int, y: int)
    requires IsPrime(q) && Divides(q, x * y)
    ensures Divides(q, x) || Divides(q, y)
  {
    if !Divides(q, x) {
      ModMul(y, x, q);
      assert y * (x % q) == (x % q) * y && y * x == x * y;
      EuclidSmall(q, x % q, y);
    }
  }

  // ----- Modular powers

  function MulMod(x: nat, y: nat, m: nat): (r: nat)
    requires m > 0
    ensures r < m
  {
    (x * y) % m
  }

  lemma MulModAssoc(x: nat, y: nat, z: nat, m: nat)
    requires m > 0
    ensures MulMod(x, MulMod(y, z, m), m) == MulMod(MulMod(x, y, m), z, m)
  {
    ModMul(x, y * z, m);
    ModMul(z, x * y, m);
    assert x * (y * z) == z * (x * y);
    assert ((x * y) % m) * z == z * ((x * y) % m);
  }

  lemma MulModOne(x: nat, m: nat)
    requires m > 1 && x < m
    ensures MulMod(x, 1, m) == x == MulMod(1, x, m)
  {
    assert x * 1 == x == 1 * x;
  }

  function Pow(a: nat, e: nat, m: nat): (r: nat)
    requires m > 1
    ensures r < m
  {
    if e == 0 then 1 else MulMod(a, Pow(a, e - 1, m), m)
  }

  lemma {:induction false} PowAdd(a: nat, x: nat, y: nat, m: nat)
    requires m > 1
    ensures Pow(a, x + y, m) == MulMod(Pow(a, x, m), Pow(a, y, m), m)
  {
    hide MulMod;
    var v := Pow(a, y, m);
    if x == 0 {
      MulModOne(v, m);
    } else {
      PowAdd(a, x - 1, y, m);
      assert Pow(a, x + y, m) == MulMod(a, Pow(a, x - 1 + y, m), m);
      MulModAssoc(a, Pow(a, x - 1, m), v, m);
    }
  }

  lemma {:induction false} PowOfOne(a: nat, e: nat, k: nat, m: nat)
    requires m > 1 && Pow(a, e, m) == 1
    ensures e * k >= 0 && Pow(a, e * k, m) == 1
  {
    hide MulMod;
    if k > 0 {
      PowOfOne(a, e, k - 1, m);
      assert e * k == e + e * (k - 1);
      PowAdd(a, e, e * (k - 1), m);
      MulModOne(1, m);
    } else {
      assert e * k == 0;
    }
  }

  // Powers modulo n determine powers modulo every divisor of n.
  lemma {:induction false} PowDivisor(a: nat, e: nat, n: nat, d: nat)
    requires n > 1 && d > 1 && Divides(d, n)
    ensures Pow(a, e, n) % d == Pow(a, e, d)
  {
    if e > 0 {
      PowDivisor(a, e - 1, n, d);
      var u := Pow(a, e - 1, n);
      ModOfMod(a * u, n, d);
      ModMul(a, u, d);
    }
  }

  // ----- Orders

  ghost predicate IsOrder(a: nat, d: nat, e: nat)
  {
    d > 1 && e > 0 && Pow(a, e, d) == 1 && forall k :: 0 < k < e ==> Pow(a, k, d) != 1
  }

  lemma {:induction false} OrderExists(a: nat, d: nat, m: nat) returns (e: nat)
    requires d > 1 && m > 0 && Pow(a, m, d) == 1
    ensures IsOrder(a, d, e)
    decreases m
  {
    if k: nat :| 0 < k < m && Pow(a, k, d) == 1 {
      e := OrderExists(a, d, k);
    } else {
      e := m;
    }
  }

  lemma OrderIsPositive(a: nat, d: nat, e: nat)
    requires IsOrder(a, d, e)
    ensures d > 1 && e > 0
  {
  }

  lemma QuotientAndRemainder(m: nat, e: nat)
    requires e > 0
    ensures m % e < e && e * (m / e) >= 0 && m == e * (m / e) + m % e
  {
  }

  lemma OrderDivides(a: nat, d: nat, e: nat, m: nat)
    requires IsOrder(a, d, e) && Pow(a, m, d) == 1
    ensures Divides(e, m)
  {
    hide Pow, IsOrder;
    OrderIsPositive(a, d, e);
    QuotientAndRemainder(m, e);
    OrderRemainder(a, d, e, m / e, m % e);
  }

  lemma OrderRemainder(a: nat, d: nat, e: nat, q: nat, r: nat)
    requires IsOrder(a, d, e) && r < e && e * q >= 0 && Pow(a, e * q + r, d) == 1
    ensures r == 0
  {
    hide MulMod;
    PowOfOne(a, e, q, d);
    PowAdd(a, e * q, r, d);
    MulModOne(Pow(a, r, d), d);
  }

  lemma {:induction false} RangeSize(n: nat, s: set<nat>)
    requires forall x :: x in s ==> 1 <= x <= n
    ensures |s| <= n
  {
    if n == 0 {
      assert s == {};
    } else {
      RangeSize(n - 1, s - {n});
    }
  }

  // The powers below the order are distinct and non-zero, so there are at most d - 1 of them.
  lemma OrderBound(a: nat, d: nat, e: nat)
    requires IsOrder(a, d, e)
    ensures e <= d - 1
  {
    var s := PowersBelow(a, d, e, e);
    RangeSize(d - 1, s);
  }

  lemma PowersDistinct(a: nat, d: nat, e: nat, i: nat, j: nat)
    requires IsOrder(a, d, e) && i < j < e
    ensures Pow(a, i, d) != Pow(a, j, d) && Pow(a, j, d) != 0
  {
    hide MulMod;
    PowAdd(a, j, e - j, d);
    PowAdd(a, i, e - j, d);
    assert Pow(a, i + (e - j), d) != 1;
    if Pow(a, j, d) == 0 {
      ZeroMulMod(Pow(a, e - j, d), d);
    }
  }

  lemma ZeroMulMod(y: nat, m: nat)
    requires m > 1
    ensures MulMod(0, y, m) == 0
  {
  }

  ghost predicate PowerBelow(a: nat, d: nat, k: nat, x: nat)
    requires d > 1
  {
    exists i: nat :: i < k && x == Pow(a, i, d)
  }

  lemma {:induction false} PowersBelow(a: nat, d: nat, e: nat, k: nat) returns (s: set<nat>)
    requires IsOrder(a, d, e) && k <= e
    ensures |s| == k
    ensures forall x :: x in s ==> PowerBelow(a, d, k, x)
    ensures forall x :: x in s ==> 1 <= x <= d - 1
  {
    hide MulMod;
    if k == 0 {
      s := {};
    } else {
      var t := PowersBelow(a, d, e, k - 1);
      var x := Pow(a, k - 1, d);
      if x in t {
        var i: nat :| i < k - 1 && x == Pow(a, i, d);
        PowersDistinct(a, d, e, i, k - 1);
        assert false;
      }
      if k > 1 {
        PowersDistinct(a, d, e, 0, k - 1);
      }
      s := t + {x};
      forall y | y in s
        ensures PowerBelow(a, d, k, y)
      {
        if y in t {
          var i: nat :| i < k - 1 && y == Pow(a, i, d);
          assert i < k;
        } else {
          assert y == Pow(a, k - 1, d);
        }
      }
    }
  }

  // ----- Pocklington's criterion

  // a and u witness that q divides the order of a modulo every divisor of n
  predicate Witness(n: nat, q: nat, a: nat, u: nat)
  {
    && n > 1 && q > 0 && Divides(q, n - 1)
    && Pow(a, n - 1, n) == 1
    && ((Pow(a, (n - 1) / q, n) - 1) * u) % n == 1
  }

  // Were q to divide the cofactor m of the order, the power (n - 1) / q would already be one.
  lemma CofactorNotDivisible(n: nat, q: nat, a: nat, u: nat, d: nat, e: nat, m: nat)
    requires Witness(n, q, a, u)
    requires d > 1 && Divides(d, n) && IsOrder(a, d, e) && n - 1 == e * m
    ensures !Divides(q, m)
  {
    hide Pow, MulMod;
    if Divides(q, m) {
      var R := (n - 1) / q;
      CofactorQuotient(n - 1, q, e, m);
      PowOfOne(a, e, m / q, d);
      PowDivisor(a, R, n, d);
      NotOneModulo(Pow(a, R, n), u, n, d);
    }
  }

  lemma CofactorQuotient(n: nat, q: nat, e: nat, m: nat)
    requires q > 0 && n == e * m && Divides(q, m)
    ensures n / q == e * (m / q)
  {
    var k := m / q;
    assert n == q * (e * k) + 0 by {
      assert m == q * k;
      assert e * (q * k) == q * (e * k);
    }
    DivModUnique(n, q, e * k, 0);
  }

  lemma WitnessOrder(n: nat, q: nat, a: nat, u: nat, d: nat, e: nat)
    requires Witness(n, q, a, u) && IsPrime(q)
    requires d > 1 && Divides(d, n) && IsOrder(a, d, e)
    ensures Divides(q, e)
  {
    hide Pow, MulMod;
    PowDivisor(a, n - 1, n, d);
    SmallMod(d);
    OrderDivides(a, d, e, n - 1);
    var m := (n - 1) / e;
    ExactQuotient(n - 1, e);
    CofactorNotDivisible(n, q, a, u, d, e, m);
    Euclid(q, e, m);
  }

  lemma SmallMod(d: nat)
    requires d > 1
    ensures 1 % d == 1
  {
  }

  lemma ExactQuotient(n: nat, e: nat)
    requires e > 0 && Divides(e, n)
    ensures n / e >= 0 && n == e * (n / e)
  {
  }

  lemma NotOneModulo(x: nat, u: nat, n: nat, d: nat)
    requires d > 1 && n > 0 && Divides(d, n) && ((x - 1) * u) % n == 1
    ensures x % d != 1
  {
    if x % d == 1 {
      var k := x / d;
      assert x - 1 == d * k;
      ModOfMultiple(d, k);
      DividesCombination(d, x - 1, u, 0, 0);
      ModOfMod((x - 1) * u, n, d);
      assert false;
    }
  }

  lemma CoprimeProduct(p: nat, q: nat, e: int)
    requires p > 0 && IsPrime(q) && !Divides(q, p) && Divides(p, e) && Divides(q, e)
    ensures Divides(p * q, e)
  {
    var k := e / p;
    assert e == p * k;
    Euclid(q, p, k);
    var j := k / q;
    assert e == (p * q) * j by {
      assert k == q * j;
      assert p * (q * j) == (p * q) * j;
    }
    ModOfMultiple(p * q, j);
  }

  lemma DivisorAtMost(f: int, e: int)
    requires f > 0 && e > 0 && Divides(f, e)
    ensures f <= e
  {
  }

  lemma Quotient(n: nat, d: nat)
    requires 2 <= d < n && Divides(d, n)
    ensures n == d * (n / d) == (n / d) * d
  {
  }

  lemma ProperFactor(n: int, d: int, k: int)
    requires 2 <= d < n && n == d * k
    ensures 2 <= k < n
  {
    if k <= 1 { MulMono(d, k, 1); }
    if k >= n { MulMono(k, 2, d); }
  }

  lemma Cofactor(n: nat, d: nat) returns (k: nat)
    requires 2 <= d < n && Divides(d, n)
    ensures 2 <= k < n && Divides(k, n) && n == d * k == k * d
  {
    k := n / d;
    Quotient(n, d);
    hide Divides;
    ProperFactor(n, d, k);
    ModOfMultiple(k, d);
  }

  lemma ProductExceeds(d: int, k: int, f: nat)
    requires d > f && k > f
    ensures d * k >= f * f
  {
    MulMono(d, f, k);
    MulMono(f, f, d);
  }

  // If every divisor above one exceeds the square root, there is no proper divisor.
  lemma PrimeFromDivisorBound(n: nat, f: nat)
    requires n >= 2 && f * f > n
    requires forall d: nat :: d > 1 && Divides(d, n) ==> d > f
    ensures IsPrime(n)
  {
    hide Divides;
    forall d | 2 <= d < n
      ensures !Divides(d, n)
    {
      if Divides(d, n) {
        var k := Cofactor(n, d);
        ProductExceeds(d, k, f);
      }
    }
  }

  // Every order of a, modulo any divisor of n above one, is a multiple of f.
  ghost predicate OrdersMultipleOf(n: nat, a: nat, f: nat)
  {
    f > 0 && forall d: nat, e: nat :: d > 1 && Divides(d, n) && IsOrder(a, d, e) ==> Divides(f, e)
  }

  lemma MultiplyFactor(n: nat, a: nat, f: nat, q: nat, u: nat)
    requires OrdersMultipleOf(n, a, f)
    requires IsPrime(q) && !Divides(q, f) && Witness(n, q, a, u)
    ensures f * q > 0 && OrdersMultipleOf(n, a, f * q)
  {
    forall d: nat, e: nat | d > 1 && Divides(d, n) && IsOrder(a, d, e)
      ensures Divides(f * q, e)
    {
      WitnessOrder(n, q, a, u, d, e);
      CoprimeProduct(f, q, e);
    }
  }

  /** Pocklington: when the orders are multiples of a factor of n - 1 above the
      square root of n, then n is prime. */
  lemma Pocklington(n: nat, a: nat, f: nat)
    requires n >= 2 && OrdersMultipleOf(n, a, f) && f * f > n
    requires Pow(a, n - 1, n) == 1
    ensures IsPrime(n)
  {
    hide Pow, MulMod;
    forall d: nat | d > 1 && Divides(d, n)
      ensures d > f
    {
        PowDivisor(a, n - 1, n, d);
      SmallMod(d);
      var e := OrderExists(a, d, n - 1);
      OrderBound(a, d, e);
      DivisorAtMost(f, e);
    }
    PrimeFromDivisorBound(n, f);
  }
}
