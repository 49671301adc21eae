/** The sieve's operations as the program performs them: the wheel step, the boundary
    scan, the verification pass over four sections, and the three drivers. */
module Sieve {
  import opened Numbers
  import opened Seqs
  import opened Wheel
  import opened Sections

  // ---------------------------------------------------------------------------
  // Arithmetic helpers

  /** The product of the basis, folded from the left starting at 1. */
  method Product(ps: seq<nat>) returns (r: nat)
    ensures r == Prod(ps)
  {
    r := 1;
    for i := 0 to |ps|
      invariant r == Prod(ps[..i])
    {
      assert ps[..i + 1][..i] == ps[..i];
      r := r * ps[i];
    }
    assert ps[..|ps|] == ps;
  }

  /** The square root of n, truncated to an integer; the floating-point root of the
      program is taken to be exact. */
  method FloorSqrt(n: nat) returns (r: nat)
    ensures r == Isqrt(n)
  {
    r := Isqrt(n);
  }

  // ---------------------------------------------------------------------------
  // The wheel step

  /** One wheel step: the second candidate becomes the next basis prime, and the wheel
      is rebuilt epoch by epoch from shifted copies of the old one, skipping the
      multiples of the new prime. */
  method Run(s: Sieve) returns (t: Sieve)
    requires |s.sieved| >= 2
    ensures t == Advance(s)
    ensures Valid(s) ==> IsPrime(s.sieved[1]) && t.primes == s.primes + [s.sieved[1]] && Valid(t)
  {
    var prime := s.sieved[1];
    var bound := Product(s.primes);
    var primes := s.primes + [prime];
    var sieved: seq<nat> := [];
    for epoch := 0 to prime
      invariant sieved == Epochs(s.sieved, bound, prime, epoch)
    {
      var block := EpochSurvivors(s.sieved, epoch, bound, prime);
      sieved := sieved + block;
    }
    t := Sieve(primes, sieved);
    assert t == Advance(s);
    if Valid(s) {
      AdvanceValid(s);
    }
  }

  /** One epoch of a wheel step: the old candidates shifted by epoch * bound, in order,
      without the multiples of prime. */
  method EpochSurvivors(xs: seq<nat>, epoch: nat, bound: nat, prime: nat) returns (block: seq<nat>)
    requires prime > 0
    ensures block == Survivors(Shifted(xs, epoch * bound), prime)
  {
    var offset: nat := epoch * bound;
    ghost var shifted := Shifted(xs, offset);
    block := [];
    for j := 0 to |xs|
      invariant block == Survivors(shifted[..j], prime)
    {
      var n: nat := offset + xs[j];
      assert shifted[j] == n;
      FilterPrefix((n: nat) => !Divides(prime, n), shifted, j);
      if n % prime != 0 {
        block := block + [n];
      }
    }
    assert shifted[..|xs|] == shifted;
  }

  // ---------------------------------------------------------------------------
  // The boundary scan

  /** The candidates that the boundary scan promotes among xs[1..k]: an item joins
      when trial division by the items promoted before it finds no factor. */
  function Promoted(xs: seq<nat>, k: nat): (ps: seq<nat>)
    requires k <= |xs| && forall j :: 1 <= j < k ==> xs[j] > 0
    ensures Positive(ps)
  {
    if k <= 1 then []
    else
      var prev := Promoted(xs, k - 1);
      if Coprime(prev, xs[k - 1]) then prev + [xs[k - 1]] else prev
  }

  /** The primes among xs, in their order in xs. */
  ghost function PrimesIn(xs: seq<nat>): seq<nat> {
    Filter((n: nat) => IsPrime(n), xs)
  }

  /** The boundary scan: walks the candidates after the first while they do not exceed
      the square root of the product, promotes those that no prime promoted earlier in
      the scan divides, and returns the index of the first candidate above the root. */
  method SeqGet(s: Sieve) returns (primes: seq<nat>, idx: nat)
    requires forall j :: 1 <= j < |s.sieved| ==> s.sieved[j] > 0
    ensures idx <= |s.sieved| && (|s.sieved| >= 1 ==> 1 <= idx)
    ensures forall j :: 1 <= j < idx ==> s.sieved[j] <= Isqrt(Prod(s.primes))
    ensures idx < |s.sieved| ==> s.sieved[idx] > Isqrt(Prod(s.primes))
    ensures primes == s.primes + Promoted(s.sieved, idx)
  {
    primes := s.primes;
    if |s.sieved| == 0 {
      // the enumeration after the first candidate is empty
      return primes, 0;
    }
    var prod := Product(s.primes);
    var sqrt := FloorSqrt(prod);
    var init := |s.primes|;
    // the walk stops at the first candidate above the root, or at the end
    idx := 1;
    while idx < |s.sieved| && s.sieved[idx] <= sqrt
      invariant 1 <= idx <= |s.sieved|
      invariant forall j :: 1 <= j < idx ==> s.sieved[j] <= sqrt
      invariant primes == s.primes + Promoted(s.sieved, idx)
    {
      var item := s.sieved[idx];
      ghost var found := Promoted(s.sieved, idx);
      assert primes[init..] == found;
      if Coprime(primes[init..], item) {
        JoinAssoc(s.primes, found, [item]);
        primes := primes + [item];
      }
      idx := idx + 1;
    }
  }

  /** A prime factor q of a candidate, smaller than it, is itself a candidate after the
      first, and sits before the candidate in the wheel. */
  lemma FactorInWheel(s: Sieve, k: nat, q: nat) returns (j: nat)
    requires Valid(s) && k < |s.sieved|
    requires IsPrime(q) && Divides(q, s.sieved[k]) && q < s.sieved[k]
    ensures 1 <= j < k && s.sieved[j] == q
  {
    ValidShape(s);
    var ps, xs := s.primes, s.sieved;
    assert xs[k] in xs;
    assert q > ps[|ps| - 1];
    PrimeAboveBasis(ps, q);
    assert q in xs;
    j :| 0 <= j < |xs| && xs[j] == q;
    AscendingIndex(xs, 0, j);
    AscendingIndex(xs, j, k);
  }

  /** The primes listed before the candidate at index t are ascending primes, and the
      candidate, at least 2, is not among them. */
  lemma ScanOrder(s: Sieve, t: nat)
    requires Valid(s) && 1 <= t < |s.sieved|
    ensures s.sieved[t] >= 2 && s.sieved[t] !in PrimesIn(s.sieved[1..t])
    ensures StrictlyAscending(PrimesIn(s.sieved[1..t])) && AllPrime(PrimesIn(s.sieved[1..t]))
  {
    ValidShape(s);
    var init, item := s.sieved[1..t], s.sieved[t];
    var prev := PrimesIn(init);
    FilterMembers((n: nat) => IsPrime(n), init);
    assert StrictlyAscending(prev) by {
      FilterAscending((n: nat) => IsPrime(n), init);
    }
    AscendingIndex(s.sieved, 0, t);
    assert item !in prev by {
      forall j | 1 <= j < t ensures s.sieved[j] != item {
        AscendingIndex(s.sieved, j, t);
      }
    }
    assert AllPrime(prev) by {
      assert forall i :: 0 <= i < |prev| ==> prev[i] in prev;
    }
  }

  /** Every prime factor of the candidate at index t whose square does not exceed it
      has been listed before it. */
  lemma ScanFactors(s: Sieve, t: nat)
    requires Valid(s) && 1 <= t < |s.sieved|
    ensures forall q: nat :: IsPrime(q) && q * q <= s.sieved[t] && Divides(q, s.sieved[t]) ==>
                             q in PrimesIn(s.sieved[1..t])
  {
    var init, item := s.sieved[1..t], s.sieved[t];
    forall q: nat | IsPrime(q) && q * q <= item && Divides(q, item)
      ensures q in PrimesIn(init)
    {
      assert q < item by {
        MulAtLeast(q, q - 1);
        assert q * q == q * (q - 1) + q;
      }
      var j := FactorInWheel(s, t, q);
      assert init[j - 1] == q;
      FilterMembers((n: nat) => IsPrime(n), init);
    }
  }

  /** The scan's own trial division is exact: the promoted items of every prefix of
      the candidates after the first are exactly the primes among them. */
  lemma {:induction false} PromotedArePrimes(s: Sieve, k: nat)
    requires Valid(s) && 1 <= k <= |s.sieved|
    ensures (forall j :: 1 <= j < k ==> s.sieved[j] > 0) &&
            Promoted(s.sieved, k) == PrimesIn(s.sieved[1..k])
  {
    ValidShape(s);
    if k > 1 {
      var init, item := s.sieved[1..k - 1], s.sieved[k - 1];
      assert s.sieved[1..k][..k - 2] == init;
      PromotedArePrimes(s, k - 1);
      ScanOrder(s, k - 1);
      ScanFactors(s, k - 1);
      CoprimeDecidesPrimality(PrimesIn(init), item);
    }
  }

  // ---------------------------------------------------------------------------
  // The verification pass

  /** r lists, in ascending order, exactly the primes below bound. */
  ghost predicate PrimesBelow(r: seq<nat>, bound: nat) {
    StrictlyAscending(r) && forall q: nat :: q in r <==> IsPrime(q) && q < bound
  }

  /** A list of the primes below a bound above 3 begins with 2 and 3. */
  lemma PrimesBelowStart(r: seq<nat>, bound: nat)
    requires PrimesBelow(r, bound) && bound > 3
    ensures |r| >= 2 && r[0] == 2 && r[1] == 3
  {
    assert IsPrime(2) && IsPrime(3);
    assert 2 in r && 3 in r;
    var i :| 0 <= i < |r| && r[i] == 2;
    var j :| 0 <= j < |r| && r[j] == 3;
    assert r[0] in r && IsPrime(r[0]);
    AscendingIndex(r, 0, i);
    AscendingIndex(r, i, j);
    assert r[1] in r && IsPrime(r[1]);
    AscendingIndex(r, 1, j);
  }

  /** Trial division by ps, as a test on candidates. */
  function Passes(ps: seq<nat>): nat -> bool
    requires Positive(ps)
  {
    (n: nat) => Coprime(ps, n)
  }

  /** The items of xs that pass trial division by ps. */
  function Sift(ps: seq<nat>, xs: seq<nat>): seq<nat>
    requires Positive(ps)
  {
    Filter(Passes(ps), xs)
  }

  /** The verification pass: after the boundary scan, the candidates from the boundary
      on are filtered by trial division against the extended basis. */
  method Get(s: Sieve) returns (r: seq<nat>)
    requires Positive(s.primes)
    requires forall j :: 1 <= j < |s.sieved| ==> s.sieved[j] > 0
    ensures Valid(s) ==> PrimesBelow(r, Prod(s.primes))
    ensures Valid(s) ==> |r| >= 2 && r[0] == 2 && r[1] == 3
  {
    var primes, start := SeqGet(s);
    r := SiftSections(primes, s.sieved, start);
    if Valid(s) {
      ScanFindsPrimes(s, primes, start);
      BasisProductAbove3(s);
      PrimesBelowStart(r, Prod(s.primes));
    }
  }

  /** The product of a valid basis is even and at least 3, so it is above 3. */
  lemma BasisProductAbove3(s: Sieve)
    requires Valid(s)
    ensures Prod(s.primes) > 3
  {
    ValidShape(s);
    DividesProd(s.primes, 0);
    assert Prod(s.primes) != 3 by {
      assert 3 % 2 == 1;
    }
  }

  /** The workers of the verification pass: the candidates from start on are cut into
      Workers contiguous sections, each section is filtered by trial division against
      primes, and the results are appended to primes in section order. */
  method SiftSections(primes: seq<nat>, xs: seq<nat>, start: nat) returns (r: seq<nat>)
    requires Positive(primes) && start <= |xs|
    ensures r == primes + Sift(primes, xs[start..])
  {
    var section := seq(Workers, i requires 0 <= i < Workers => Section(xs, start, i));
    // each worker filters its own section; the results are joined in section order
    var results := seq(Workers, i requires 0 <= i < Workers => Sift(primes, section[i]));
    r := primes;
    for i := 0 to Workers
      invariant r == primes + Concat(results[..i])
    {
      ConcatPrefix(results, i);
      r := r + results[i];
    }
    assert results[..Workers] == results;
    SectionsJoin(xs, start, section);
    FilterParts(Passes(primes), section, results);
  }

  /** The basis followed by the primes among the candidates after the first is the
      ascending list of all primes below the product of the basis. */
  lemma AllPrimesBelow(s: Sieve)
    requires Valid(s)
    ensures |s.sieved| >= 1 && PrimesBelow(s.primes + PrimesIn(s.sieved[1..]), Prod(s.primes))
  {
    AllPrimesAscending(s);
    AllPrimesMembers(s);
  }

  /** The primes among the candidates after the first all exceed the largest basis
      prime. */
  lemma PrimesInAboveBasis(s: Sieve, k: nat)
    requires Valid(s) && 1 <= k <= |s.sieved|
    ensures forall y :: y in PrimesIn(s.sieved[1..k]) ==> y > s.primes[|s.primes| - 1]
  {
    FilterMembers((n: nat) => IsPrime(n), s.sieved[1..k]);
    forall y | y in PrimesIn(s.sieved[1..k]) ensures y > s.primes[|s.primes| - 1] {
      CoprimePrimeAboveBasis(s.primes, y);
    }
  }

  /** The basis followed by primes above its largest element, in ascending order, is
      ascending. */
  lemma BasisThenAbove(ps: seq<nat>, rest: seq<nat>)
    requires |ps| >= 1 && StrictlyAscending(ps) && StrictlyAscending(rest)
    requires forall y :: y in rest ==> y > ps[|ps| - 1]
    ensures StrictlyAscending(ps + rest)
  {
    forall x, y | x in ps && y in rest ensures x < y {
      var i :| 0 <= i < |ps| && ps[i] == x;
      AscendingIndex(ps, i, |ps| - 1);
    }
    AscendingConcat(ps, rest);
  }

  lemma AllPrimesAscending(s: Sieve)
    requires Valid(s)
    ensures |s.sieved| >= 1 && StrictlyAscending(s.primes + PrimesIn(s.sieved[1..]))
  {
    ValidShape(s);
    var xs := s.sieved;
    assert xs[1..] == xs[1..|xs|];
    PrimesInAboveBasis(s, |xs|);
    FilterAscending((n: nat) => IsPrime(n), xs[1..]);
    BasisThenAbove(s.primes, PrimesIn(xs[1..]));
  }

  lemma AllPrimesMembers(s: Sieve)
    requires Valid(s)
    ensures |s.sieved| >= 1
    ensures forall q: nat :: q in s.primes + PrimesIn(s.sieved[1..]) <==> IsPrime(q) && q < Prod(s.primes)
  {
    ValidShape(s);
    NextPrime(s);
    var ps, xs := s.primes, s.sieved;
    var rest := PrimesIn(xs[1..]);
    var last := ps[|ps| - 1];
    FilterMembers((n: nat) => IsPrime(n), xs[1..]);
    assert last < Prod(ps) by {
      assert xs[1] in xs;
    }
    forall q: nat ensures q in ps + rest <==> IsPrime(q) && q < Prod(ps) {
      if q in ps {
        var i :| 0 <= i < |ps| && ps[i] == q;
        AscendingIndex(ps, i, |ps| - 1);
      }
      if IsPrime(q) && q < Prod(ps) && q !in ps {
        assert q > last;
        PrimeAboveBasis(ps, q);
        var j :| 0 <= j < |xs| && xs[j] == q;
        assert j != 0;
        assert xs[1..][j - 1] == q;
      }
    }
  }

  /** The basis followed by the primes among the candidates s.sieved[1..k] is an
      ascending list of positive primes. */
  lemma ExtendedBasis(s: Sieve, k: nat)
    requires Valid(s) && 1 <= k <= |s.sieved|
    ensures StrictlyAscending(s.primes + PrimesIn(s.sieved[1..k]))
    ensures AllPrime(s.primes + PrimesIn(s.sieved[1..k]))
    ensures Positive(s.primes + PrimesIn(s.sieved[1..k]))
  {
    var ps, found := s.primes, PrimesIn(s.sieved[1..k]);
    var list := ps + found;
    PrimesInAboveBasis(s, k);
    FilterMembers((n: nat) => IsPrime(n), s.sieved[1..k]);
    FilterAscending((n: nat) => IsPrime(n), s.sieved[1..k]);
    BasisThenAbove(ps, found);
    assert AllPrime(ps);
    forall i | 0 <= i < |list| ensures IsPrime(list[i]) && list[i] > 0 {
      if i < |ps| {
        assert list[i] == ps[i];
      } else {
        assert list[i] == found[i - |ps|];
        assert found[i - |ps|] in found;
      }
    }
  }

  /** A candidate past the basis is at least 2 and is not in the basis extended by the
      primes among the candidates before index start. */
  lemma CandidateNotListed(s: Sieve, start: nat, j: nat)
    requires Valid(s) && 1 <= start <= j < |s.sieved|
    ensures s.sieved[j] >= 2 && s.sieved[j] !in s.primes + PrimesIn(s.sieved[1..start])
  {
    ValidShape(s);
    NextPrime(s);
    var ps, xs, item := s.primes, s.sieved, s.sieved[j];
    FilterMembers((n: nat) => IsPrime(n), xs[1..start]);
    AscendingIndex(xs, 1, j);
    forall i | 0 <= i < |ps| ensures ps[i] < item {
      AscendingIndex(ps, i, |ps| - 1);
    }
    forall k | 1 <= k < start ensures xs[k] != item {
      AscendingIndex(xs, k, j);
    }
    assert forall y :: y in xs[1..start] ==> y != item;
  }

  /** Every prime factor of a candidate past the boundary whose square is at most the
      candidate is in the basis extended by the primes the scan has found. */
  lemma FactorsListed(s: Sieve, start: nat, j: nat)
    requires Valid(s) && 1 <= start <= j < |s.sieved|
    requires s.sieved[start] > Isqrt(Prod(s.primes))
    ensures forall q: nat :: IsPrime(q) && q * q <= s.sieved[j] && Divides(q, s.sieved[j]) ==>
                             q in s.primes + PrimesIn(s.sieved[1..start])
  {
    var xs, item := s.sieved, s.sieved[j];
    FilterMembers((n: nat) => IsPrime(n), xs[1..start]);
    assert item < Prod(s.primes) by {
      assert item in xs;
    }
    forall q: nat | IsPrime(q) && q * q <= item && Divides(q, item)
      ensures q in s.primes + PrimesIn(xs[1..start])
    {
      assert q < item by {
        MulAtLeast(q, q - 1);
        assert q * q == q * (q - 1) + q;
      }
      var k := FactorInWheel(s, j, q);
      AtMostIsqrt(q, Prod(s.primes));
      AscendingIndex(xs, start, k);
      assert xs[1..start][k - 1] == q;
    }
  }

  /** Past the boundary, trial division by the basis and the primes found by the scan
      decides primality of every candidate. */
  lemma BeyondBoundary(s: Sieve, start: nat, j: nat)
    requires Valid(s) && 1 <= start <= j < |s.sieved|
    requires start < |s.sieved| ==> s.sieved[start] > Isqrt(Prod(s.primes))
    ensures Positive(s.primes + PrimesIn(s.sieved[1..start]))
    ensures Coprime(s.primes + PrimesIn(s.sieved[1..start]), s.sieved[j]) <==> IsPrime(s.sieved[j])
  {
    ExtendedBasis(s, start);
    CandidateNotListed(s, start, j);
    FactorsListed(s, start, j);
    CoprimeDecidesPrimality(s.primes + PrimesIn(s.sieved[1..start]), s.sieved[j]);
  }

  /** The list Get returns from a valid sieve: the extended basis followed by the
      candidates past the boundary that pass trial division by it. */
  lemma SiftFindsPrimes(s: Sieve, primes: seq<nat>, start: nat)
    requires Valid(s) && 1 <= start <= |s.sieved|
    requires start < |s.sieved| ==> s.sieved[start] > Isqrt(Prod(s.primes))
    requires primes == s.primes + PrimesIn(s.sieved[1..start])
    ensures Positive(primes) && PrimesBelow(primes + Sift(primes, s.sieved[start..]), Prod(s.primes))
  {
    ExtendedBasis(s, start);
    var xs := s.sieved;
    var tail := xs[start..];
    SiftIsPrimesIn(s, primes, start);
    assert PrimesIn(xs[1..]) == PrimesIn(xs[1..start]) + PrimesIn(tail) by {
      assert xs[1..] == xs[1..start] + tail;
      FilterConcat((n: nat) => IsPrime(n), xs[1..start], tail);
    }
    JoinAssoc(s.primes, PrimesIn(xs[1..start]), PrimesIn(tail));
    AllPrimesBelow(s);
  }

  /** Past the boundary, the pass keeps exactly the primes. */
  lemma SiftIsPrimesIn(s: Sieve, primes: seq<nat>, start: nat)
    requires Valid(s) && 1 <= start <= |s.sieved|
    requires start < |s.sieved| ==> s.sieved[start] > Isqrt(Prod(s.primes))
    requires primes == s.primes + PrimesIn(s.sieved[1..start])
    ensures Positive(primes) && Sift(primes, s.sieved[start..]) == PrimesIn(s.sieved[start..])
  {
    ExtendedBasis(s, start);
    var tail := s.sieved[start..];
    forall i | 0 <= i < |tail|
      ensures Coprime(primes, tail[i]) == IsPrime(tail[i])
    {
      BeyondBoundary(s, start, start + i);
    }
    FilterAgree(Passes(primes), (n: nat) => IsPrime(n), tail);
  }

  /** What the scan and the pass together return from a valid sieve. */
  lemma ScanFindsPrimes(s: Sieve, primes: seq<nat>, start: nat)
    requires Valid(s) && start <= |s.sieved| && (|s.sieved| >= 1 ==> 1 <= start)
    requires start < |s.sieved| ==> s.sieved[start] > Isqrt(Prod(s.primes))
    requires forall j :: 1 <= j < |s.sieved| ==> s.sieved[j] > 0
    requires primes == s.primes + Promoted(s.sieved, start)
    ensures Positive(primes) && PrimesBelow(primes + Sift(primes, s.sieved[start..]), Prod(s.primes))
  {
    ValidShape(s);
    PromotedArePrimes(s, start);
    SiftFindsPrimes(s, primes, start);
  }

  // ---------------------------------------------------------------------------
  // The drivers

  /** Runs steps - 2 wheel steps (none when steps is at most 2), then the verification
      pass. The final sieve, returned as a ghost, is valid, so its basis is the first
      max(steps, 2) primes, and the result is every prime below their product. */
  method ExecExact(steps: nat) returns (r: seq<nat>, ghost last: Sieve)
    ensures Valid(last) && |last.primes| == if steps > 2 then steps else 2
    ensures PrimesBelow(r, Prod(last.primes))
    ensures exists ps :: IsPrimePrefix(ps) && |ps| == (if steps > 2 then steps else 2) && PrimesBelow(r, Prod(ps))
  {
    var sieve := Default();
    DefaultValid();
    var step := 2;
    while step < steps
      invariant 2 <= step && (step == 2 || step <= steps)
      invariant Valid(sieve) && |sieve.primes| == step
    {
      ValidShape(sieve);
      sieve := Run(sieve);
      step := step + 1;
    }
    ValidShape(sieve);
    r := Get(sieve);
    last := sieve;
  }

  /** Runs wheel steps until the wheel holds at least count candidates, then the
      verification pass. Unless no step was taken, the sieve before the last step, a
      ghost, had too few candidates; as every step lengthens the wheel (AdvanceGrows),
      the loop stops at the first sieve that is long enough. */
  method ExecCount(count: nat) returns (r: seq<nat>, ghost last: Sieve, ghost prev: Sieve)
    ensures Valid(last) && |last.sieved| >= count
    ensures PrimesBelow(r, Prod(last.primes))
    ensures exists s :: Valid(s) && |s.sieved| >= count && PrimesBelow(r, Prod(s.primes))
    ensures last == Default() ||
            (Valid(prev) && |prev.sieved| >= 2 && last == Advance(prev) && |prev.sieved| < count)
  {
    var sieve := Default();
    DefaultValid();
    prev := sieve;
    while |sieve.sieved| < count
      invariant Valid(sieve)
      invariant sieve == Default() ||
                (Valid(prev) && |prev.sieved| >= 2 && sieve == Advance(prev) && |prev.sieved| < count)
      decreases count - |sieve.sieved|
    {
      ValidShape(sieve);
      AdvanceGrows(sieve);
      prev := sieve;
      sieve := Run(sieve);
    }
    ValidShape(sieve);
    r := Get(sieve);
    last := sieve;
  }

  /** Runs wheel steps until the largest candidate of the wheel is at least value, then
      the verification pass: every prime up to value is in the result. Unless no step
      was taken, the largest candidate before the last step, a ghost, was below value. */
  method ExecUntil(value: nat) returns (r: seq<nat>, ghost last: Sieve, ghost prev: Sieve)
    ensures Valid(last) && Last(last.sieved) >= value
    ensures PrimesBelow(r, Prod(last.primes))
    ensures forall q: nat :: IsPrime(q) && q <= value ==> q in r
    ensures last == Default() ||
            (Valid(prev) && |prev.sieved| >= 2 && last == Advance(prev) && Last(prev.sieved) < value)
  {
    var sieve := Default();
    DefaultValid();
    prev := sieve;
    while !(|sieve.sieved| > 0 && value <= sieve.sieved[|sieve.sieved| - 1])
      invariant Valid(sieve)
      invariant sieve == Default() ||
                (Valid(prev) && |prev.sieved| >= 2 && sieve == Advance(prev) && Last(prev.sieved) < value)
      decreases value - Last(sieve.sieved)
    {
      ValidShape(sieve);
      AdvanceGrows(sieve);
      prev := sieve;
      sieve := Run(sieve);
    }
    ValidShape(sieve);
    r := Get(sieve);
    last := sieve;
  }
}
