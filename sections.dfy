/** How the verification pass splits the candidates after the boundary into equal
    contiguous sections, one per worker thread. */
module Sections {
  import opened Numbers
  import opened Seqs

  /** The number of worker threads of the verification pass. */
  const Workers: nat := 4

  /** The first index of section i of the candidates from start to len:
      start plus the share i / Workers of their number, rounded down. */
  function SectionBound(start: nat, len: nat, i: nat): (b: nat)
    requires start <= len
    ensures i <= Workers ==> start <= b <= len
  {
    var delta := len - start;
    if i <= Workers then
      DivModUnique(delta * Workers, Workers, delta, 0);
      MulMono(delta, i, Workers);
      DivMono(delta * i, delta * Workers, Workers);
      start + delta * i / Workers
    else
      start + delta * i / Workers
  }

  /** The section bounds run from start to len without going backward, so the
      sections are contiguous, in order, and cover every candidate once. */
  lemma SectionBounds(start: nat, len: nat)
    requires start <= len
    ensures SectionBound(start, len, 0) == start
    ensures SectionBound(start, len, Workers) == len
    ensures forall i, j :: 0 <= i <= j <= Workers ==>
              SectionBound(start, len, i) <= SectionBound(start, len, j)
  {
    var delta := len - start;
    DivModUnique(delta * Workers, Workers, delta, 0);
    forall i, j | 0 <= i <= j <= Workers
      ensures SectionBound(start, len, i) <= SectionBound(start, len, j)
    {
      MulMono(delta, i, j);
      DivMono(delta * i, delta * j, Workers);
    }
  }

  /** Section i of the candidates of xs from start on, as worker i receives it. */
  function Section(xs: seq<nat>, start: nat, i: nat): seq<nat>
    requires start <= |xs| && i < Workers
  {
    SectionBounds(start, |xs|);
    xs[SectionBound(start, |xs|, i)..SectionBound(start, |xs|, i + 1)]
  }

  /** The first k sections, joined in order, are the candidates from start up to the
      bound of section k. */
  lemma {:induction false} SectionsPrefix(xs: seq<nat>, start: nat, parts: seq<seq<nat>>, k: nat)
    requires start <= |xs| && k <= |parts| == Workers
    requires forall i :: 0 <= i < Workers ==> parts[i] == Section(xs, start, i)
    ensures Concat(parts[..k]) == xs[start..SectionBound(start, |xs|, k)]
  {
    SectionBounds(start, |xs|);
    if k > 0 {
      SectionsPrefix(xs, start, parts, k - 1);
      ConcatPrefix(parts, k - 1);
      var lo, hi := SectionBound(start, |xs|, k - 1), SectionBound(start, |xs|, k);
      assert xs[start..hi] == xs[start..lo] + xs[lo..hi];
    }
  }

  /** All Workers sections, joined in order, are every candidate from start on, each
      once and in order. */
  lemma SectionsJoin(xs: seq<nat>, start: nat, parts: seq<seq<nat>>)
    requires start <= |xs| && |parts| == Workers
    requires forall i :: 0 <= i < Workers ==> parts[i] == Section(xs, start, i)
    ensures Concat(parts) == xs[start..]
  {
    SectionBounds(start, |xs|);
    SectionsPrefix(xs, start, parts, Workers);
    assert parts[..Workers] == parts;
  }
}
