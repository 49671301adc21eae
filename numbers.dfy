/** Divisibility, primality, products and integer square roots over the naturals,
    with the few facts of elementary number theory that the wheel sieve rests on. */
module Numbers {

  /** d is a positive divisor of n. */
  predicate Divides(d: nat, n: nat) {
    d > 0 && n % d == 0
  }

  /** n is a prime number: at least 2 and without a divisor strictly between 1 and n. */
  ghost predicate IsPrime(n: nat) {
    n >= 2 && forall d :: 2 <= d < n ==> !Divides(d, n)
  }

  /** The product of ps, folded from the left starting at 1. */
  function Prod(ps: seq<nat>): nat {
    if |ps| == 0 then 1 else Prod(ps[..|ps| - 1]) * ps[|ps| - 1]
  }

  /** The integer (floor) square root of n, found by counting up from 0. */
  function Isqrt(n: nat): nat {
    if n == 0 then 0
    else
      var k := Isqrt(n - 1);
      if (k + 1) * (k + 1) <= n then k + 1 else k
  }

  /** Isqrt(n) is the largest r with r * r <= n. */
  lemma {:induction false} IsqrtBounds(n: nat)
    ensures Isqrt(n) * Isqrt(n) <= n < (Isqrt(n) + 1) * (Isqrt(n) + 1)
  {
    if n > 0 {
      IsqrtBounds(n - 1);
      var k := Isqrt(n - 1);
      assert (k + 2) * (k + 2) == (k + 1) * (k + 1) + 2 * k + 3;
    }
  }

  // ---------------------------------------------------------------------------
  // Division with remainder

  /** Euclidean division is unique: a representation x == b * q + r with 0 <= r < b
      fixes the quotient and the remainder. */
  lemma DivModUnique(x: int, b: int, q: int, r: int)
    requires 0 < b && 0 <= r < b && x == b * q + r
    ensures x / b == q && x % b == r
  {
    var q0, r0 := x / b, x % b;
    assert b * (q - q0) == r0 - r;
    if q0 < q {
      MulAtLeast(b, q - q0);
    } else if q < q0 {
      MulAtLeast(b, q0 - q);
    }
  }

  lemma MulAtLeast(b: int, k: int)
    requires 0 < b && 1 <= k
    ensures b * k >= b
  {
    assert b * k == b * (k - 1) + b;
  }

  /** Adding a multiple of b does not change the remainder modulo b. */
  lemma ModAddMultiple(n: nat, b: nat, k: nat)
    requires b > 0
    ensures (b * k + n) % b == n % b
  {
    assert b * k + n == b * (k + n / b) + n % b;
    DivModUnique(b * k + n, b, k + n / b, n % b);
  }

  /** A positive divisor of a positive number is at most that number. */
  lemma DivisorAtMost(d: nat, n: nat)
    requires Divides(d, n) && n > 0
    ensures d <= n
  {
    var k := n / d;
    assert n == d * k;
    if k > 0 {
      MulAtLeast(d, k);
    }
  }

  lemma DividesSelf(n: nat)
    requires n > 0
    ensures Divides(n, n)
  {
    DivModUnique(n, n, 1, 0);
  }

  lemma DividesTrans(a: nat, b: nat, c: nat)
    requires Divides(a, b) && Divides(b, c)
    ensures Divides(a, c)
  {
    var k, m := b / a, c / b;
    assert b == a * k;
    assert c == b * m;
    assert c == a * (k * m);
    DivModUnique(c, a, k * m, 0);
  }

  lemma DividesMul(d: nat, a: nat, c: nat)
    requires Divides(d, a)
    ensures Divides(d, a * c)
  {
    var k := a / d;
    assert a == d * k;
    assert a * c == d * (k * c);
    DivModUnique(a * c, d, k * c, 0);
  }

  /** If q divides P, reducing modulo P first does not change the remainder modulo q. */
  lemma ModOfMod(m: nat, bound: nat, q: nat)
    requires bound > 0 && Divides(q, bound)
    ensures (m % bound) % q == m % q
  {
    var k := bound / q;
    assert bound == q * k;
    assert m == bound * (m / bound) + m % bound;
    assert m == q * (k * (m / bound)) + m % bound;
    ModAddMultiple(m % bound, q, k * (m / bound));
  }

  /** Any m is e * P + n for the block index e == m / P and the offset n == m % P. */
  lemma BlockOf(e: nat, bound: nat, n: nat)
    requires n < bound
    ensures (e * bound + n) / bound == e && (e * bound + n) % bound == n
  {
    DivModUnique(e * bound + n, bound, e, n);
  }

  /** The values below P * count are exactly those whose block index is below count. */
  lemma BlockBelow(m: nat, bound: nat, count: nat)
    requires bound > 0
    ensures m < bound * count <==> m / bound < count
  {
    var e := m / bound;
    assert m == bound * e + m % bound;
    if e < count {
      assert bound * count == bound * e + bound * (count - e);
      MulAtLeast(bound, count - e);
    } else {
      assert bound * e == bound * count + bound * (e - count);
      assert bound * (e - count) >= 0;
    }
  }

  /** Integer division by a positive divisor is monotone in the dividend. */
  lemma DivMono(a: nat, b: nat, k: nat)
    requires a <= b && k > 0
    ensures a / k <= b / k
  {
    var qa, qb := a / k, b / k;
    assert a == k * qa + a % k && b == k * qb + b % k;
    if qa > qb {
      MulMono(k, qb + 1, qa);
    }
  }

  /** If p divides both n and n + d, it divides d. */
  lemma DividesDifference(p: nat, n: nat, d: nat)
    requires Divides(p, n) && Divides(p, n + d)
    ensures Divides(p, d)
  {
    var a, b := n / p, (n + d) / p;
    assert n == p * a;
    assert n + d == p * b;
    assert d == p * (b - a);
    if b < a {
      MulAtLeast(p, a - b);
      assert p * (a - b) == -d;
    }
    DivModUnique(d, p, b - a, 0);
  }

  // ---------------------------------------------------------------------------
  // Prime factors

  /** Trial division from k upwards finds the least divisor of n that is at least k. */
  lemma {:induction false} LeastDivisorFrom(n: nat, k: nat) returns (d: nat)
    requires 2 <= k <= n
    requires forall e :: 2 <= e < k ==> !Divides(e, n)
    ensures k <= d <= n && Divides(d, n)
    ensures forall e :: 2 <= e < d ==> !Divides(e, n)
    decreases n - k
  {
    if Divides(k, n) {
      d := k;
    } else {
      if k == n {
        DividesSelf(n);
      }
      d := LeastDivisorFrom(n, k + 1);
    }
  }

  /** Every n >= 2 has a prime factor; a composite n has one whose square is at most n. */
  lemma PrimeFactor(n: nat) returns (q: nat)
    requires n >= 2
    ensures IsPrime(q) && Divides(q, n) && q <= n
    ensures !IsPrime(n) ==> q * q <= n && q < n
  {
    q := LeastDivisorFrom(n, 2);
    forall e | 2 <= e < q
      ensures !Divides(e, q)
    {
      if Divides(e, q) {
        DividesTrans(e, q, n);
      }
    }
    if !IsPrime(n) {
      var m := n / q;
      assert n == q * m;
      assert n != q;
      assert m != 0 && m != 1;
      DivModUnique(n, m, q, 0);
      assert Divides(m, n);
      assert q <= m;
      MulMono(q, q, m);
      MulMono(q, 2, m);
    }
  }

  /** One more copy of b. */
  lemma MulSucc(e: nat, b: nat)
    ensures (e + 1) * b == e * b + b
  {
  }

  lemma MulMono(a: nat, b: nat, c: nat)
    requires b <= c
    ensures a * b <= a * c
  {
    assert a * c == a * b + a * (c - b);
  }

  lemma SquareMono(a: nat, b: nat)
    requires a <= b
    ensures a * a <= b * b
  {
    MulMono(a, a, b);
    MulMono(b, a, b);
  }

  /** A number whose square is at most n is at most the floor square root of n. */
  lemma AtMostIsqrt(q: nat, n: nat)
    requires q * q <= n
    ensures q <= Isqrt(n)
  {
    var r := Isqrt(n);
    IsqrtBounds(n);
    if q > r {
      SquareMono(r + 1, q);
    }
  }

  /** A prime that divides a prime is that prime. */
  lemma PrimeDividesPrime(p: nat, q: nat)
    requires IsPrime(p) && IsPrime(q) && Divides(p, q)
    ensures p == q
  {
    DivisorAtMost(p, q);
  }

  /** Euclid's lemma: a prime that divides a product divides one of its factors. */
  lemma {:induction false} Euclid(p: nat, a: nat, b: nat)
    requires IsPrime(p) && Divides(p, a * b)
    ensures Divides(p, a) || Divides(p, b)
    decreases b
  {
    if b >= p {
      assert a * b == p * a + a * (b - p);
      ModAddMultiple(a * (b - p), p, a);
      Euclid(p, a, b - p);
      if Divides(p, b - p) {
        assert b == p * 1 + (b - p);
        ModAddMultiple(b - p, p, 1);
      }
    } else if b == 0 {
      assert Divides(p, b);
    } else if b == 1 {
      assert a * b == a;
    } else {
      // 1 < b < p, so p == b * q + r with 0 < r < b, and p divides a * r
      var q, r := p / b, p % b;
      assert !Divides(b, p);
      assert 0 < r < b;
      var m := (a * b) / p;
      assert a * b == p * m;
      assert p == b * q + r;
      assert a * r == a * p - (a * b) * q;
      assert a * r == p * (a - m * q);
      if a - m * q < 0 {
        MulAtLeast(p, m * q - a);
        assert p * (m * q - a) == -(a * r);
      }
      DivModUnique(a * r, p, a - m * q, 0);
      Euclid(p, a, r);
      if Divides(p, r) {
        DivisorAtMost(p, r);
      }
    }
  }

  // ---------------------------------------------------------------------------
  // Products of lists of positive numbers

  lemma {:induction false} ProdPositive(ps: seq<nat>)
    requires forall i :: 0 <= i < |ps| ==> ps[i] > 0
    ensures Prod(ps) > 0
  {
    if |ps| > 0 {
      ProdPositive(ps[..|ps| - 1]);
      MulAtLeast(Prod(ps[..|ps| - 1]), ps[|ps| - 1]);
    }
  }

  lemma ProdSnoc(ps: seq<nat>, p: nat)
    ensures Prod(ps + [p]) == Prod(ps) * p
  {
    assert (ps + [p])[..|ps|] == ps;
  }

  /** Every element of a list of positive numbers divides its product. */
  lemma {:induction false} DividesProd(ps: seq<nat>, i: nat)
    requires forall j :: 0 <= j < |ps| ==> ps[j] > 0
    requires i < |ps|
    ensures Divides(ps[i], Prod(ps))
  {
    var init, last := ps[..|ps| - 1], ps[|ps| - 1];
    if i == |ps| - 1 {
      DivModUnique(Prod(init) * last, last, Prod(init), 0);
    } else {
      assert init[i] == ps[i];
      DividesProd(init, i);
      DividesMul(ps[i], Prod(init), last);
    }
  }

  /** A prime outside a list of primes does not divide their product. */
  lemma {:induction false} PrimeNotDividesProd(p: nat, ps: seq<nat>)
    requires IsPrime(p) && p !in ps
    requires forall i :: 0 <= i < |ps| ==> IsPrime(ps[i])
    ensures !Divides(p, Prod(ps))
  {
    if |ps| == 0 {
      DivModUnique(1, p, 0, 1);
    } else {
      var init, last := ps[..|ps| - 1], ps[|ps| - 1];
      assert forall i :: 0 <= i < |init| ==> init[i] == ps[i];
      PrimeNotDividesProd(p, init);
      if Divides(p, Prod(ps)) {
        Euclid(p, Prod(init), last);
        PrimeDividesPrime(p, last);
        assert false;
      }
    }
  }
}
