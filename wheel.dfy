/** The state of the wheel sieve, its invariant, the early-exit trial division, the
    initial state and the wheel step, with the proofs that the step keeps the invariant. */
module Wheel {
  import opened Numbers
  import opened Seqs

  /** A sieve: a basis of primes and the wheel of candidates below their product. */
  datatype Sieve = Sieve(primes: seq<nat>, sieved: seq<nat>)

  /** Every element of ps is prime. */
  ghost predicate AllPrime(ps: seq<nat>) {
    forall i :: 0 <= i < |ps| ==> IsPrime(ps[i])
  }

  /** ps is an initial segment of the prime numbers, in ascending order. */
  ghost predicate IsPrimePrefix(ps: seq<nat>) {
    && StrictlyAscending(ps)
    && AllPrime(ps)
    && (|ps| > 0 ==> forall q: nat :: IsPrime(q) && q <= ps[|ps| - 1] ==> q in ps)
  }

  /** No element of ps divides m. */
  ghost predicate NoneDivides(ps: seq<nat>, m: nat) {
    forall i :: 0 <= i < |ps| ==> !Divides(ps[i], m)
  }

  /** xs lists, in ascending order, exactly the numbers below the product of ps
      that no element of ps divides. */
  ghost predicate IsWheel(ps: seq<nat>, xs: seq<nat>) {
    && StrictlyAscending(xs)
    && forall m: nat :: m in xs <==> m < Prod(ps) && NoneDivides(ps, m)
  }

  /** The invariant of a sieve: at least two primes, an initial segment of the primes,
      and the wheel of candidates below their product. */
  ghost predicate Valid(s: Sieve) {
    |s.primes| >= 2 && IsPrimePrefix(s.primes) && IsWheel(s.primes, s.sieved)
  }

  ghost predicate Positive(ps: seq<nat>) {
    forall i :: 0 <= i < |ps| ==> ps[i] > 0
  }

  // ---------------------------------------------------------------------------
  // Trial division with early exit

  /** Trial division of item by ps in order: false at the first element dividing
      item, true at the first element whose square exceeds item, or at the end. */
  function Coprime(ps: seq<nat>, item: nat): bool
    requires Positive(ps)
  {
    if |ps| == 0 then true
    else if item % ps[0] == 0 then false
    else if item < ps[0] * ps[0] then true
    else Coprime(ps[1..], item)
  }

  /** Trial division reaches position i: every earlier element has a square at most item. */
  ghost predicate Reaches(ps: seq<nat>, item: nat, i: nat) {
    forall j :: 0 <= j < i && j < |ps| ==> ps[j] * ps[j] <= item
  }

  /** Coprime is true exactly when no element that the trial division reaches divides item. */
  lemma {:induction false} CoprimeMeans(ps: seq<nat>, item: nat)
    requires Positive(ps)
    ensures Coprime(ps, item) <==>
            forall i :: 0 <= i < |ps| && Reaches(ps, item, i) ==> !Divides(ps[i], item)
  {
    if |ps| > 0 {
      var tail := ps[1..];
      assert Reaches(ps, item, 0);
      if item % ps[0] != 0 && ps[0] * ps[0] <= item {
        CoprimeMeans(tail, item);
        forall i | 0 <= i < |tail|
          ensures Reaches(ps, item, i + 1) <==> Reaches(tail, item, i)
        {
          if Reaches(tail, item, i) {
            forall j | 0 <= j < i + 1 && j < |ps| ensures ps[j] * ps[j] <= item {
              if j > 0 {
                assert ps[j] == tail[j - 1];
              }
            }
          }
          if Reaches(ps, item, i + 1) {
            forall j | 0 <= j < i && j < |tail| ensures tail[j] * tail[j] <= item {
              assert tail[j] == ps[j + 1];
            }
          }
        }
        forall i | 0 <= i < |ps| && Reaches(ps, item, i) && Coprime(ps, item)
          ensures !Divides(ps[i], item)
        {
          if i > 0 {
            assert ps[i] == tail[i - 1];
          }
        }
        if forall i :: 0 <= i < |ps| && Reaches(ps, item, i) ==> !Divides(ps[i], item) {
          forall i | 0 <= i < |tail| && Reaches(tail, item, i)
            ensures !Divides(tail[i], item)
          {
            assert tail[i] == ps[i + 1];
          }
        }
      } else if item % ps[0] != 0 {
        forall i | 0 < i < |ps| ensures !Reaches(ps, item, i) {
        }
      }
    }
  }

  /** The trial division decides primality once the list holds every prime factor of
      item that is at most the square root of item (and not item itself). */
  lemma CoprimeDecidesPrimality(ps: seq<nat>, item: nat)
    requires item >= 2 && item !in ps
    requires StrictlyAscending(ps) && AllPrime(ps)
    requires forall q: nat :: IsPrime(q) && q * q <= item && Divides(q, item) ==> q in ps
    ensures Coprime(ps, item) <==> IsPrime(item)
  {
    CoprimeMeans(ps, item);
    if IsPrime(item) {
      forall i | 0 <= i < |ps| ensures !Divides(ps[i], item) {
        if Divides(ps[i], item) {
          PrimeDividesPrime(ps[i], item);
        }
      }
    } else {
      var q := PrimeFactor(item);
      var i :| 0 <= i < |ps| && ps[i] == q;
      forall j | 0 <= j < i && j < |ps| ensures ps[j] * ps[j] <= item {
        SquareMono(ps[j], q);
      }
      assert Reaches(ps, item, i);
    }
  }

  /** The form the sieve relies on: ascending primes holding every prime whose square
      is at most item decide whether item is prime; with no primes the answer is true. */
  lemma CoprimeIsPrimalityTest(ps: seq<nat>, item: nat)
    requires item >= 2 && item !in ps
    requires StrictlyAscending(ps) && AllPrime(ps)
    requires forall q: nat :: IsPrime(q) && q * q <= item ==> q in ps
    ensures Coprime(ps, item) <==> IsPrime(item)
    ensures |ps| == 0 ==> Coprime(ps, item)
  {
    CoprimeDecidesPrimality(ps, item);
  }

  // ---------------------------------------------------------------------------
  // The initial state

  /** The initial sieve: basis 2, 3 and the residues 1, 5 below 6 coprime to both. */
  function Default(): Sieve {
    Sieve([2, 3], [1, 5])
  }

  /** The initial sieve satisfies the invariant. */
  lemma DefaultValid()
    ensures Valid(Default())
    ensures Prod(Default().primes) == 6
  {
    var ps := [2, 3];
    assert ps[..1] == [2] && [2][..0] == [];
    assert Prod(ps) == 6;
    assert IsPrime(2) && IsPrime(3);
    forall m: nat
      ensures m in [1, 5] <==> m < 6 && NoneDivides(ps, m)
    {
      if m < 6 {
        assert m == 0 || m == 1 || m == 2 || m == 3 || m == 4 || m == 5;
        assert Divides(2, 0) && Divides(2, 2) && Divides(3, 3) && Divides(2, 4);
        assert !Divides(2, 1) && !Divides(3, 1) && !Divides(2, 5) && !Divides(3, 5);
      }
    }
  }

  // ---------------------------------------------------------------------------
  // Consequences of the invariant

  /** The elements of an initial segment of the primes are positive. */
  lemma PrefixPositive(ps: seq<nat>)
    requires IsPrimePrefix(ps)
    ensures Positive(ps)
  {
  }

  /** A prime above the largest basis prime is coprime to the basis. */
  lemma PrimeAboveBasis(ps: seq<nat>, q: nat)
    requires IsPrimePrefix(ps) && |ps| > 0
    requires IsPrime(q) && q > ps[|ps| - 1]
    ensures NoneDivides(ps, q)
  {
    forall i | 0 <= i < |ps| ensures !Divides(ps[i], q) {
      AscendingIndex(ps, i, |ps| - 1);
    }
  }

  /** A prime coprime to the basis lies above the largest basis prime. */
  lemma CoprimePrimeAboveBasis(ps: seq<nat>, q: nat)
    requires IsPrimePrefix(ps) && |ps| > 0
    requires IsPrime(q) && NoneDivides(ps, q)
    ensures q > ps[|ps| - 1]
  {
    DividesSelf(q);
  }

  /** What the invariant says about the shape of the wheel: it starts with 1, has at least
      two candidates, and ends with the product minus one. */
  lemma ValidShape(s: Sieve)
    requires Valid(s)
    ensures Positive(s.primes) && s.primes[0] == 2
    ensures Prod(s.primes) >= 3
    ensures |s.sieved| >= 2 && s.sieved[0] == 1 && s.sieved[1] > 1
    ensures s.sieved[|s.sieved| - 1] == Prod(s.primes) - 1
    ensures forall i :: 0 <= i < |s.sieved| ==> s.sieved[i] > 0
  {
    var ps, xs := s.primes, s.sieved;
    var last := ps[|ps| - 1];
    PrefixPositive(ps);
    ProdPositive(ps);
    var bound := Prod(ps);
    // the basis starts with 2 and ends at 3 or above
    assert IsPrime(2);
    AscendingIndex(ps, 0, |ps| - 1);
    assert 2 in ps;
    assert ps[0] == 2;
    DividesProd(ps, |ps| - 1);
    DivisorAtMost(last, bound);
    // 0 is not a candidate, 1 and the product minus one are
    assert Divides(ps[0], 0);
    assert !(0 in xs);
    forall i | 0 <= i < |ps| ensures !Divides(ps[i], 1) {
      DivModUnique(1, ps[i], 0, 1);
    }
    assert 1 in xs;
    forall i | 0 <= i < |ps| ensures !Divides(ps[i], bound - 1) {
      DividesProd(ps, i);
      if Divides(ps[i], bound - 1) {
        DividesDifference(ps[i], bound - 1, 1);
      }
    }
    assert bound - 1 in xs;
    var k :| 0 <= k < |xs| && xs[k] == 1;
    assert xs[0] in xs;
    AscendingIndex(xs, 0, k);
    var k' :| 0 <= k' < |xs| && xs[k'] == bound - 1;
    AscendingIndex(xs, k', |xs| - 1);
    assert xs[|xs| - 1] in xs;
    assert xs[|xs| - 1] == bound - 1;
    assert forall i :: 0 <= i < |xs| ==> xs[i] in xs;
  }

  /** The second candidate of a valid sieve is the next prime after the basis. */
  lemma NextPrime(s: Sieve)
    requires Valid(s)
    ensures |s.sieved| >= 2 && IsPrime(s.sieved[1])
    ensures s.sieved[1] > s.primes[|s.primes| - 1]
    ensures IsPrimePrefix(s.primes + [s.sieved[1]])
  {
    ValidShape(s);
    var ps, xs := s.primes, s.sieved;
    var last := ps[|ps| - 1];
    var p := xs[1];
    assert p in xs;
    var r := PrimeFactor(p);
    assert r > last;
    PrimeAboveBasis(ps, r);
    assert r in xs;
    var k :| 0 <= k < |xs| && xs[k] == r;
    AscendingIndex(xs, 1, k);
    assert r == p;
    forall q | IsPrime(q) && q <= p
      ensures q in ps + [p]
    {
      if last < q {
        PrimeAboveBasis(ps, q);
        assert q in xs;
        var j :| 0 <= j < |xs| && xs[j] == q;
        AscendingIndex(xs, 0, j);
        AscendingIndex(xs, 1, j);
        assert q == p;
      }
    }
    forall x | x in ps ensures x < p {
      var i :| 0 <= i < |ps| && ps[i] == x;
      AscendingIndex(ps, i, |ps| - 1);
    }
    AscendingSnoc(ps, p);
  }

  // ---------------------------------------------------------------------------
  // The wheel step

  /** The numbers of xs that prime does not divide. */
  function Survivors(xs: seq<nat>, prime: nat): seq<nat> {
    Filter((n: nat) => !Divides(prime, n), xs)
  }

  /** The first count shifted copies of xs, copy e shifted by e * bound, each
      without the multiples of prime, one after the other. */
  function Epochs(xs: seq<nat>, bound: nat, prime: nat, count: nat): seq<nat> {
    if count == 0 then []
    else Epochs(xs, bound, prime, count - 1) + Survivors(Shifted(xs, (count - 1) * bound), prime)
  }

  /** One wheel step: the second candidate joins the basis and the wheel is rebuilt
      from that many shifted copies of itself, dropping the new prime's multiples. */
  function Advance(s: Sieve): Sieve
    requires |s.sieved| >= 2
  {
    var prime := s.sieved[1];
    Sieve(s.primes + [prime], Epochs(s.sieved, Prod(s.primes), prime, prime))
  }

  /** A shifted copy of a wheel holds the numbers of its block whose offset is a candidate. */
  lemma ShiftedBlock(xs: seq<nat>, bound: nat, e: nat, m: nat)
    requires bound > 0 && forall i :: 0 <= i < |xs| ==> xs[i] < bound
    ensures m in Shifted(xs, e * bound) <==> m / bound == e && m % bound in xs
  {
    ShiftedMembers(xs, e * bound, m);
    if m >= e * bound && m - e * bound in xs {
      BlockOf(e, bound, m - e * bound);
    }
    if m / bound == e {
      assert m == e * bound + m % bound;
    }
  }

  /** The candidates of the rebuilt wheel are the numbers of the first count blocks
      that prime does not divide and whose offset in their block is an old candidate. */
  lemma {:induction false} EpochsMembers(xs: seq<nat>, bound: nat, prime: nat, count: nat, m: nat)
    requires bound > 0 && forall i :: 0 <= i < |xs| ==> xs[i] < bound
    ensures m in Epochs(xs, bound, prime, count) <==>
            !Divides(prime, m) && m / bound < count && m % bound in xs
  {
    if count > 0 {
      var e := count - 1;
      var block := Survivors(Shifted(xs, e * bound), prime);
      EpochsMembers(xs, bound, prime, e, m);
      FilterMembers((n: nat) => !Divides(prime, n), Shifted(xs, e * bound));
      ShiftedBlock(xs, bound, e, m);
      assert Epochs(xs, bound, prime, count) == Epochs(xs, bound, prime, e) + block;
      assert m in block <==> !Divides(prime, m) && m / bound == e && m % bound in xs;
    }
  }

  /** The survivors of the copy shifted to block e lie in block e. */
  lemma SurvivorsInBlock(xs: seq<nat>, bound: nat, prime: nat, e: nat)
    requires bound > 0 && forall i :: 0 <= i < |xs| ==> xs[i] < bound
    ensures forall m :: m in Survivors(Shifted(xs, e * bound), prime) ==>
                        e * bound <= m < e * bound + bound
  {
    var shifted := Shifted(xs, e * bound);
    FilterMembers((n: nat) => !Divides(prime, n), shifted);
    forall m | m in Survivors(shifted, prime) ensures e * bound <= m < e * bound + bound {
      ShiftedMembers(xs, e * bound, m);
      var i :| 0 <= i < |xs| && xs[i] == m - e * bound;
    }
  }

  /** The rebuilt wheel is strictly ascending and stays below count * bound. */
  lemma {:induction false} EpochsAscending(xs: seq<nat>, bound: nat, prime: nat, count: nat)
    requires bound > 0 && StrictlyAscending(xs) && forall i :: 0 <= i < |xs| ==> xs[i] < bound
    ensures StrictlyAscending(Epochs(xs, bound, prime, count))
    ensures forall m :: m in Epochs(xs, bound, prime, count) ==> m < count * bound
  {
    if count > 0 {
      var e := count - 1;
      var before := Epochs(xs, bound, prime, e);
      var shifted := Shifted(xs, e * bound);
      var block := Survivors(shifted, prime);
      EpochsAscending(xs, bound, prime, e);
      ShiftedAscending(xs, e * bound);
      FilterAscending((n: nat) => !Divides(prime, n), shifted);
      SurvivorsInBlock(xs, bound, prime, e);
      MulSucc(e, bound);
      AscendingConcat(before, block);
      forall m | m in before ensures m < count * bound {
      }
    }
  }

  /** Reducing modulo the product of the basis keeps coprimality to the basis. */
  lemma NoneDividesMod(ps: seq<nat>, m: nat)
    requires Positive(ps) && Prod(ps) > 0
    ensures NoneDivides(ps, m % Prod(ps)) <==> NoneDivides(ps, m)
  {
    forall i | 0 <= i < |ps| ensures Divides(ps[i], m % Prod(ps)) <==> Divides(ps[i], m) {
      DividesProd(ps, i);
      ModOfMod(m, Prod(ps), ps[i]);
    }
  }

  /** One number at a time: m is a candidate of the advanced wheel exactly when it is
      below the new product and coprime to the new basis. */
  lemma AdvanceMember(s: Sieve, m: nat)
    requires Valid(s)
    ensures |s.sieved| >= 2
    ensures m in Advance(s).sieved <==>
            m < Prod(Advance(s).primes) && NoneDivides(Advance(s).primes, m)
  {
    ValidShape(s);
    var ps, xs := s.primes, s.sieved;
    var bound, p := Prod(ps), xs[1];
    ProdPositive(ps);
    assert forall i :: 0 <= i < |xs| ==> xs[i] in xs;
    EpochsMembers(xs, bound, p, p, m);
    BlockBelow(m, bound, p);
    ProdSnoc(ps, p);
    NoneDividesMod(ps, m);
    assert m % bound < bound;
    var ps' := ps + [p];
    assert NoneDivides(ps', m) <==> NoneDivides(ps, m) && !Divides(p, m) by {
      assert forall i :: 0 <= i < |ps| ==> ps'[i] == ps[i];
      assert ps'[|ps|] == p;
    }
  }

  /** The wheel step keeps the invariant: the second candidate is the next prime, it joins
      the basis, and the rebuilt wheel holds exactly the numbers below the new product
      coprime to the new basis, in ascending order. */
  lemma AdvanceValid(s: Sieve)
    requires Valid(s)
    ensures |s.sieved| >= 2 && IsPrime(s.sieved[1])
    ensures Advance(s).primes == s.primes + [s.sieved[1]]
    ensures Prod(Advance(s).primes) == Prod(s.primes) * s.sieved[1]
    ensures Valid(Advance(s))
  {
    ValidShape(s);
    NextPrime(s);
    ProdPositive(s.primes);
    ProdSnoc(s.primes, s.sieved[1]);
    assert forall i :: 0 <= i < |s.sieved| ==> s.sieved[i] in s.sieved;
    EpochsAscending(s.sieved, Prod(s.primes), s.sieved[1], s.sieved[1]);
    forall m: nat ensures m in Advance(s).sieved <==>
                          m < Prod(Advance(s).primes) && NoneDivides(Advance(s).primes, m)
    {
      AdvanceMember(s, m);
    }
  }

  // ---------------------------------------------------------------------------
  // Growth of the wheel

  lemma {:induction false} EpochsLength(xs: seq<nat>, bound: nat, prime: nat, c1: nat, c2: nat)
    requires c1 <= c2
    ensures |Epochs(xs, bound, prime, c1)| <= |Epochs(xs, bound, prime, c2)|
    decreases c2
  {
    if c1 < c2 {
      EpochsLength(xs, bound, prime, c1, c2 - 1);
    }
  }

  /** When prime does not divide bound, it divides at most one of n and n + bound, so the
      survivors of xs and of xs shifted by bound number at least |xs| together. */
  lemma {:induction false} PairSurvivors(xs: seq<nat>, bound: nat, prime: nat)
    requires !Divides(prime, bound)
    ensures |Survivors(xs, prime)| + |Survivors(Shifted(xs, bound), prime)| >= |xs|
  {
    if |xs| > 0 {
      var init, last := xs[..|xs| - 1], xs[|xs| - 1];
      PairSurvivors(init, bound, prime);
      assert Shifted(xs, bound)[..|xs| - 1] == Shifted(init, bound);
      if Divides(prime, last) && Divides(prime, last + bound) {
        DividesDifference(prime, last, bound);
      }
    }
  }

  /** The last block of the rebuilt wheel keeps bound * prime - 1, the largest value. */
  lemma TopSurvivor(xs: seq<nat>, bound: nat, prime: nat)
    requires bound > 0 && prime > 1 && bound - 1 in xs
    ensures bound * prime - 1 in Survivors(Shifted(xs, (prime - 1) * bound), prime)
  {
    var top := Shifted(xs, (prime - 1) * bound);
    var m := bound * prime - 1;
    var off := (prime - 1) * bound;
    assert m == off + (bound - 1) && !Divides(prime, m) by {
      assert off == bound * prime - bound;
      assert prime * (bound - 1) == bound * prime - prime;
      assert m == prime * (bound - 1) + (prime - 1);
      DivModUnique(m, prime, bound - 1, prime - 1);
    }
    assert m in top by {
      ShiftedMembers(xs, off, m);
    }
    FilterMembers((n: nat) => !Divides(prime, n), top);
  }

  /** The rebuilt wheel has more candidates than the old one when the new prime does not
      divide the old product: two blocks already give as many, the last block one more. */
  lemma EpochsLonger(xs: seq<nat>, bound: nat, prime: nat)
    requires bound > 0 && prime >= 3 && bound - 1 in xs
    requires !Divides(prime, bound)
    ensures |Epochs(xs, bound, prime, prime)| > |xs|
  {
    var top := Survivors(Shifted(xs, (prime - 1) * bound), prime);
    assert |Epochs(xs, bound, prime, 2)| >= |xs| by {
      PairSurvivors(xs, bound, prime);
      assert Shifted(xs, 0 * bound) == xs;
      assert Shifted(xs, 1 * bound) == Shifted(xs, bound);
      assert Epochs(xs, bound, prime, 1) == Survivors(xs, prime);
      assert Epochs(xs, bound, prime, 2) ==
             Survivors(xs, prime) + Survivors(Shifted(xs, bound), prime);
    }
    assert |Epochs(xs, bound, prime, prime - 1)| >= |xs| by {
      EpochsLength(xs, bound, prime, 2, prime - 1);
    }
    assert |top| >= 1 by {
      TopSurvivor(xs, bound, prime);
    }
    assert Epochs(xs, bound, prime, prime) == Epochs(xs, bound, prime, prime - 1) + top;
  }

  /** The wheel step lengthens the wheel. */
  lemma AdvanceLonger(s: Sieve)
    requires Valid(s)
    ensures |s.sieved| >= 2 && |Advance(s).sieved| > |s.sieved|
  {
    ValidShape(s);
    NextPrime(s);
    var ps, xs := s.primes, s.sieved;
    var bound, p := Prod(ps), xs[1];
    ProdPositive(ps);
    assert p !in ps by {
      forall i | 0 <= i < |ps| ensures ps[i] != p {
        AscendingIndex(ps, i, |ps| - 1);
      }
    }
    PrimeNotDividesProd(p, ps);
    assert xs[|xs| - 1] in xs;
    EpochsLonger(xs, bound, p);
  }

  /** AdvanceGrows, stated with explicit indices. */
  lemma AdvanceTop(s: Sieve)
    requires Valid(s)
    ensures |s.sieved| >= 2
    ensures |Advance(s).sieved| > |s.sieved|
    ensures Advance(s).sieved != []
    ensures Advance(s).sieved[|Advance(s).sieved| - 1] == Prod(Advance(s).primes) - 1
    ensures Advance(s).sieved[|Advance(s).sieved| - 1] > s.sieved[|s.sieved| - 1]
  {
    AdvanceLonger(s);
    ValidShape(s);
    var bound, p := Prod(s.primes), s.sieved[1];
    var t := Advance(s);
    assert t.sieved[|t.sieved| - 1] == bound * p - 1 by {
      AdvanceValid(s);
      ValidShape(t);
    }
    assert bound * p > bound by {
      MulAtLeast(bound, p - 1);
      assert bound * p == bound * (p - 1) + bound;
    }
  }

  /** Every wheel step makes the wheel longer and raises its largest candidate, which is
      the product of the basis minus one. */
  lemma AdvanceGrows(s: Sieve)
    requires Valid(s)
    ensures |s.sieved| >= 2
    ensures |Advance(s).sieved| > |s.sieved|
    ensures Last(Advance(s).sieved) == Prod(Advance(s).primes) - 1
    ensures Last(Advance(s).sieved) > Last(s.sieved)
  {
    AdvanceTop(s);
  }

  /** One step from the initial sieve: basis 2, 3, 5 and the eight residues below 30
      coprime to all three; 5 and 25 are dropped as multiples of 5. */
  lemma FirstAdvance()
    ensures Advance(Default()).primes == [2, 3, 5]
    ensures Advance(Default()).sieved == [1, 7, 11, 13, 17, 19, 23, 29]
  {
    DefaultValid();
    var xs := [1, 5];
    var f := (n: nat) => !Divides(5, n);
    forall e: nat | e < 5
      ensures Survivors(Shifted(xs, e * 6), 5) ==
              (if f(e * 6 + 1) then [e * 6 + 1] else []) + (if f(e * 6 + 5) then [e * 6 + 5] else [])
    {
      var ys := Shifted(xs, e * 6);
      assert ys == [e * 6 + 1, e * 6 + 5];
      assert ys[..1] == [e * 6 + 1] && ys[..1][..0] == [];
      assert Filter(f, ys[..1][..0]) == [];
      assert Filter(f, ys[..1]) == if f(e * 6 + 1) then [e * 6 + 1] else [];
    }
    assert Divides(5, 5) && Divides(5, 25);
    assert !Divides(5, 1) && !Divides(5, 7) && !Divides(5, 11) && !Divides(5, 13);
    assert !Divides(5, 17) && !Divides(5, 19) && !Divides(5, 23) && !Divides(5, 29);
    assert Epochs(xs, 6, 5, 1) == [1];
    assert Epochs(xs, 6, 5, 2) == [1, 7, 11];
    assert Epochs(xs, 6, 5, 3) == [1, 7, 11, 13, 17];
    assert Epochs(xs, 6, 5, 4) == [1, 7, 11, 13, 17, 19, 23];
    assert Epochs(xs, 6, 5, 5) == [1, 7, 11, 13, 17, 19, 23, 29];
  }
}
