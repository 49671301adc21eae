/** Order, filtering and shifting of sequences of naturals. */
module Seqs {

  /** Every element is smaller than every later one (so no element repeats). */
  ghost predicate StrictlyAscending(s: seq<nat>) {
    forall i, j :: 0 <= i < j < |s| ==> s[i] < s[j]
  }

  /** The elements of xs that satisfy f, in their original order. */
  function Filter(f: nat -> bool, xs: seq<nat>): seq<nat> {
    if |xs| == 0 then []
    else Filter(f, xs[..|xs| - 1]) + (if f(xs[|xs| - 1]) then [xs[|xs| - 1]] else [])
  }

  /** The last element of xs, or 0 when there is none. */
  function Last(xs: seq<nat>): nat {
    if |xs| == 0 then 0 else xs[|xs| - 1]
  }

  /** The parts joined end to end, in order. */
  function Concat(parts: seq<seq<nat>>): seq<nat> {
    if |parts| == 0 then [] else Concat(parts[..|parts| - 1]) + parts[|parts| - 1]
  }

  lemma ConcatPrefix(parts: seq<seq<nat>>, k: nat)
    requires k < |parts|
    ensures Concat(parts[..k + 1]) == Concat(parts[..k]) + parts[k]
  {
    assert parts[..k + 1][..k] == parts[..k];
  }

  /** Filtering one more element of xs keeps it exactly when it satisfies f. */
  lemma FilterPrefix(f: nat -> bool, xs: seq<nat>, k: nat)
    requires k < |xs|
    ensures Filter(f, xs[..k + 1]) == Filter(f, xs[..k]) + (if f(xs[k]) then [xs[k]] else [])
  {
    assert xs[..k + 1][..k] == xs[..k];
  }

  /** Every element of xs with offset added, in the same order. */
  function Shifted(xs: seq<nat>, offset: nat): seq<nat> {
    seq(|xs|, i requires 0 <= i < |xs| => offset + xs[i])
  }

  /** Filter keeps exactly the elements that satisfy f. */
  lemma {:induction false} FilterMembers(f: nat -> bool, xs: seq<nat>)
    ensures forall x :: x in Filter(f, xs) <==> x in xs && f(x)
  {
    if |xs| > 0 {
      var init := xs[..|xs| - 1];
      FilterMembers(f, init);
      assert xs == init + [xs[|xs| - 1]];
    }
  }

  /** Filtering a strictly ascending sequence leaves it strictly ascending. */
  lemma {:induction false} FilterAscending(f: nat -> bool, xs: seq<nat>)
    requires StrictlyAscending(xs)
    ensures StrictlyAscending(Filter(f, xs))
  {
    if |xs| > 0 {
      var init, last := xs[..|xs| - 1], xs[|xs| - 1];
      FilterAscending(f, init);
      FilterMembers(f, init);
      if f(last) {
        forall x | x in Filter(f, init) ensures x < last {
          var i :| 0 <= i < |init| && init[i] == x;
        }
        AscendingSnoc(Filter(f, init), last);
      }
    }
  }

  /** Filtering distributes over concatenation, keeping the order of the parts. */
  lemma {:induction false} FilterConcat(f: nat -> bool, a: seq<nat>, b: seq<nat>)
    ensures Filter(f, a + b) == Filter(f, a) + Filter(f, b)
  {
    if |b| == 0 {
      assert a + b == a;
    } else {
      var init := b[..|b| - 1];
      assert (a + b)[..|a + b| - 1] == a + init;
      FilterConcat(f, a, init);
    }
  }

  /** Filtering the parts one by one and joining the results filters the joined parts. */
  lemma {:induction false} FilterParts(f: nat -> bool, parts: seq<seq<nat>>, results: seq<seq<nat>>)
    requires |results| == |parts|
    requires forall i :: 0 <= i < |parts| ==> results[i] == Filter(f, parts[i])
    ensures Concat(results) == Filter(f, Concat(parts))
  {
    if |parts| > 0 {
      var n := |parts| - 1;
      FilterParts(f, parts[..n], results[..n]);
      FilterConcat(f, Concat(parts[..n]), parts[n]);
    }
  }

  /** Two tests that agree on every element of xs filter it alike. */
  lemma {:induction false} FilterAgree(f: nat -> bool, g: nat -> bool, xs: seq<nat>)
    requires forall i :: 0 <= i < |xs| ==> f(xs[i]) == g(xs[i])
    ensures Filter(f, xs) == Filter(g, xs)
  {
    if |xs| > 0 {
      var init := xs[..|xs| - 1];
      assert forall i :: 0 <= i < |init| ==> init[i] == xs[i];
      FilterAgree(f, g, init);
    }
  }

  lemma AscendingSnoc(s: seq<nat>, y: nat)
    requires StrictlyAscending(s)
    requires forall x :: x in s ==> x < y
    ensures StrictlyAscending(s + [y])
  {
    forall i, j | 0 <= i < j < |s + [y]| ensures (s + [y])[i] < (s + [y])[j] {
      if j == |s| {
        assert s[i] in s;
      }
    }
  }

  lemma AscendingConcat(a: seq<nat>, b: seq<nat>)
    requires StrictlyAscending(a) && StrictlyAscending(b)
    requires forall x, y :: x in a && y in b ==> x < y
    ensures StrictlyAscending(a + b)
  {
    forall i, j | 0 <= i < j < |a + b| ensures (a + b)[i] < (a + b)[j] {
      if j < |a| {
      } else if i >= |a| {
        assert (a + b)[i] == b[i - |a|] && (a + b)[j] == b[j - |a|];
      } else {
        assert (a[i] in a) && (b[j - |a|] in b);
      }
    }
  }

  /** Shifting keeps strict order. */
  lemma ShiftedAscending(xs: seq<nat>, offset: nat)
    requires StrictlyAscending(xs)
    ensures StrictlyAscending(Shifted(xs, offset))
  {
  }

  /** The shifted sequence holds exactly the old elements plus the offset. */
  lemma ShiftedMembers(xs: seq<nat>, offset: nat, m: nat)
    ensures m in Shifted(xs, offset) <==> m >= offset && m - offset in xs
  {
    var ys := Shifted(xs, offset);
    if m >= offset && m - offset in xs {
      var i :| 0 <= i < |xs| && xs[i] == m - offset;
      assert ys[i] == m;
    }
  }

  /** In a strictly ascending sequence the order of values is the order of positions. */
  lemma AscendingIndex(s: seq<nat>, i: nat, j: nat)
    requires StrictlyAscending(s) && i < |s| && j < |s|
    ensures s[i] < s[j] <==> i < j
    ensures s[i] == s[j] <==> i == j
  {
  }

  /** Joining is associative. */
  lemma JoinAssoc(a: seq<nat>, b: seq<nat>, c: seq<nat>)
    ensures a + b + c == a + (b + c)
  {
  }
}
