# Wheel sieve of primes_sieve_concurrent, modelled in Dafny

The program finds primes with a growing wheel. A sieve state holds two lists:

- `primes`, the basis: the first few primes in ascending order;
- `sieved`, the wheel: every number below the product of the basis that no basis prime divides, in ascending order.

The program's operations are:

- A **wheel step** (`run`) takes the second candidate as the next prime. It appends that prime to the basis and rebuilds the wheel from `prime` shifted copies of itself, dropping the new prime's multiples.
- The **boundary scan** (`seq_get`) walks the candidates up to the square root of the product. It promotes each candidate that none of the candidates promoted earlier in the scan divides, and returns the index of the first candidate above the root.
- The **verification pass** (`get`) cuts the remaining candidates into four contiguous sections. Each worker keeps the candidates of its section that pass trial division (`coprime`) against the extended basis. The results are appended in section order.
- Three **drivers** (`exec_exact`, `exec_count`, `exec_until`) run wheel steps until a condition holds, then run the verification pass.

The model is split into five modules:

- `Numbers` (numbers.dfy): divisibility, primality, the product of a list, the integer square root, and the arithmetic lemmas.
- `Seqs` (seqs.dfy): ascending sequences, order-preserving filters, concatenation of parts, and shifted copies.
- `Wheel` (wheel.dfy):
  - the sieve state, `Sieve(primes, sieved)`, and its invariant `Valid`;
  - `Coprime`, the trial division with early exit;
  - `Default`, the initial state;
  - `Advance`, the specification of a wheel step, and the proof that it keeps the invariant and grows the wheel.
- `Sections` (sections.dfy): the four section bounds of the verification pass.
- `Sieve` (sieve.dfy):
  - the operations as the program performs them: `Run`, `SeqGet`, `Get` with its worker part `SiftSections`, and the drivers;
  - `Promoted` and `Sift`, the specifications of the scan and of the workers' filter;
  - the proof that a valid sieve yields exactly the primes below the product.

A sieve is a value. The program moves `self` into `run` and `get`. The scan's in-place `push` onto `self.primes` is modelled as a method that returns the extended basis together with the index.

## Model

| member | source | states |
|---|---|---|
| Numbers.IsqrtBounds | src/sieve.rs:47 | the integer square root r of n is the largest number with r * r <= n: r * r <= n < (r + 1) * (r + 1) |
| Wheel.CoprimeMeans | src/sieve.rs:1-10 | trial division answers true exactly when no element it reaches divides the item; an element is reached when every earlier element's square is at most the item |
| Wheel.CoprimeDecidesPrimality | src/sieve.rs:1-10 | for an item of at least 2 that is not in the list, and ascending primes holding every prime factor whose square is at most the item, trial division answers true if and only if the item is prime |
| Wheel.CoprimeIsPrimalityTest | src/sieve.rs:1-10 | for an item of at least 2 that is not in the list, and ascending primes holding every prime whose square is at most the item, trial division answers true if and only if the item is prime; with an empty list it answers true |
| Wheel.DefaultValid | src/sieve.rs:13-26 | the initial state [2, 3] / [1, 5] satisfies the invariant: the first two primes, and exactly the ascending numbers below 6 coprime to both |
| Wheel.ValidShape | src/sieve.rs:13-16 | under the invariant the basis starts with 2 and is positive, the product is at least 3, the wheel has at least two candidates, starts with 1, has every candidate positive and ends with product - 1 |
| Wheel.NextPrime | src/sieve.rs:30-32 | under the invariant the second candidate is a prime above every basis prime, and the basis with it appended is still an initial segment of the primes |
| Wheel.EpochsMembers | src/sieve.rs:35-41 | m is in the rebuilt wheel after count epochs exactly when the new prime does not divide m, m lies in one of the first count blocks of the old product, and m's offset in its block is an old candidate |
| Wheel.EpochsAscending | src/sieve.rs:35-41 | the rebuilt wheel is strictly ascending and stays below count times the old product |
| Wheel.AdvanceMember | src/sieve.rs:29-43 | a number is a candidate after the step exactly when it is below the new product and no prime of the new basis divides it |
| Wheel.AdvanceValid | src/sieve.rs:29-43 | the step keeps the invariant; the second candidate is prime and is appended to the basis; the new product is the old product times it |
| Wheel.AdvanceLonger | src/sieve.rs:35-41 | the step makes the wheel strictly longer |
| Wheel.AdvanceGrows | src/sieve.rs:29-43 | the step makes the wheel strictly longer and raises its last candidate, which is the new product minus one |
| Wheel.FirstAdvance | src/sieve.rs:19-43 | one step from the initial state gives basis [2, 3, 5] and wheel [1, 7, 11, 13, 17, 19, 23, 29]; 5 and 25 are dropped |
| Sieve.Product | src/sieve.rs:31 | the left fold of the basis from 1 is its product |
| Sieve.Run | src/sieve.rs:29-43 | the epoch-by-epoch loop builds exactly the specified step; on a valid sieve the second candidate is prime, it is appended to the basis, and the result is valid |
| Sieve.EpochSurvivors | src/sieve.rs:36-40 | the candidate loop of one epoch keeps, in order, exactly the shifted old candidates that the new prime does not divide |
| Sieve.SeqGet | src/sieve.rs:45-59 | the index is between 1 and the wheel length; every candidate before it is at most the root and the candidate at it is above the root; the basis is extended only by appending the candidates the scan promotes |
| Sieve.PromotedArePrimes | src/sieve.rs:50-56 | on a valid sieve, the candidates the scan promotes among any prefix of the wheel after the first candidate are exactly the primes in it, in order |
| Sections.SectionBound | src/sieve.rs:68-71 | every section bound from 0 to 4 lies between the start and the wheel length |
| Sections.SectionBounds | src/sieve.rs:68-71 | bound 0 is the start, bound 4 is the wheel length, and the bounds never decrease, so consecutive sections share their endpoints |
| Sections.SectionsJoin | src/sieve.rs:68-73 | the four sections, joined in order, are exactly the candidates from the start on |
| Sieve.SiftSections | src/sieve.rs:68-85 | the workers' results appended in section order are the extended basis followed by one filter of all candidates from the start on: nothing is reordered, duplicated or dropped |
| Sieve.Get | src/sieve.rs:61-87 | on a valid sieve the result is the strictly ascending list of exactly the primes below the product of the basis, and it begins with 2 and 3 |
| Sieve.BasisProductAbove3 | src/sieve.rs:13-16 | the product of a valid basis is above 3 |
| Sieve.BeyondBoundary | src/sieve.rs:77 | past the boundary, trial division by the basis and the scanned primes answers true exactly for the prime candidates |
| Sieve.SiftFindsPrimes | src/sieve.rs:61-87 | the extended basis followed by the candidates past the boundary that pass trial division is the list of all primes below the product |
| Sieve.AllPrimesBelow | src/sieve.rs:13-16 | under the invariant the basis followed by the primes among the candidates after the first is the ascending list of all primes below the product |
| Sieve.ScanFindsPrimes | src/sieve.rs:45-87 | the scan followed by the pass yields the ascending list of all primes below the product |
| Sieve.PrimesBelowStart | src/sieve.rs:13 | a list of exactly the primes below a bound above 3, in ascending order, begins with 2 and 3 |
| Sieve.ExecExact | src/sieve.rs:89-96 | the final sieve is valid with a basis of max(steps, 2) primes, and the result is every prime below their product, in order |
| Sieve.ExecCount | src/sieve.rs:98-105 | the loop stops with a valid sieve holding at least count candidates; the result is every prime below its product; unless no step was taken, the sieve one step earlier had fewer than count candidates |
| Sieve.ExecUntil | src/sieve.rs:107-114 | the loop stops with a valid sieve whose last candidate is at least value; the result is every prime below its product, so it holds every prime up to value; unless no step was taken, the last candidate one step earlier was below value |

## Left out

- src/main.rs (argument parsing, timing, printing) is not part of this model.
- The four worker threads in `get`, with `Arc`, `spawn`, `join().unwrap()` and `Arc::into_inner`, are modelled as a sequential filter of each section. The results are appended in section order, as the program's `join` order gives.
- The square root at src/sieve.rs:47: the program casts the product to `f64`, takes its square root and truncates it. The model takes that root to be exact (`Isqrt`), so rounding of very large products is not modelled.
- 64-bit overflow is not modelled: numbers are unbounded `nat`. This covers the product folds, `epoch * bound + n` and `prime * prime` in `coprime`.
- Sieve.Run requires at least two candidates: the program panics on the missing index `sieved[1]`. Every valid sieve meets this condition. A second candidate of 0 is allowed; it gives no epochs and an empty wheel, as in the program.
- Sieve.SeqGet and Sieve.Get require the candidates after the first to be positive, and Get a positive basis. Otherwise the program's trial division can divide by zero: a zero promoted by the scan is a divisor for every later item tested. Every valid sieve meets both conditions.
- Sieve.ExecCount and Sieve.ExecUntil state minimality only for the step before the last. That the earlier sieves also fell short follows from Wheel.AdvanceGrows, which every loop iteration calls; the whole history is not returned.
- Memory use and running time are not modelled. This includes the choice of four workers.

## Notes

- One step from the initial state builds `prime` = 5 shifted copies of the wheel [1, 5] and drops every multiple of 5, 5 itself included. The new wheel is [1, 7, 11, 13, 17, 19, 23, 29] (Wheel.FirstAdvance).
- `exec_until(v)` stops once the wheel's last candidate, the product minus one, is at least v. The largest prime returned can therefore be below v: v = 200 stops at product 210, and the largest prime below 210 is 199. Sieve.ExecUntil states that every prime up to v is returned.
- The scan's trial division uses only the primes promoted earlier in the same scan. On a valid sieve this already decides primality for every candidate in the scanned prefix (Sieve.PromotedArePrimes). The square-root cut-off only limits how far the scan goes.
