/** Sequences without repetition, and how many numbers fit below a bound. */
module Distinctness {

  ghost predicate Distinct(s: seq<nat>) {
    forall i, j :: 0 <= i < j < |s| ==> s[i] != s[j]
  }

  /** Distinct numbers below n. */
  ghost predicate Nodes(n: nat, s: seq<nat>) {
    Distinct(s) && forall k :: 0 <= k < |s| ==> s[k] < n
  }

  /** Every number below n is somewhere in a sequence of n distinct ones. */
  lemma PositionOf(n: nat, s: seq<nat>, i: nat) returns (p: nat)
    requires Nodes(n, s) && |s| == n && i < n
    ensures p < |s| && s[p] == i
  {
    if i !in s {
      Missing(n, s, i);
    }
    p :| 0 <= p < |s| && s[p] == i;
  }

  lemma Missing(n: nat, s: seq<nat>, i: nat)
    requires Nodes(n, s) && i < n && i !in s
    ensures |s| < n
  {
    DistinctSize(s);
    BelowSize(n);
    SubsetSize(Elements(s) + {i}, Below(n));
  }

  lemma NodesFit(n: nat, s: seq<nat>)
    requires Nodes(n, s)
    ensures |s| <= n
  {
    DistinctSize(s);
    BelowSize(n);
    SubsetSize(Elements(s), Below(n));
  }

  ghost function Elements(s: seq<nat>): (r: set<nat>)
    ensures forall x :: x in r <==> x in s
  {
    if s == [] then {} else Elements(s[..|s| - 1]) + {s[|s| - 1]}
  }

  lemma {:induction false} DistinctSize(s: seq<nat>)
    requires Distinct(s)
    ensures |Elements(s)| == |s|
  {
    if |s| > 0 {
      DistinctSize(s[..|s| - 1]);
    }
  }

  ghost function Below(n: nat): (s: set<nat>)
    ensures forall x: nat :: x in s <==> x < n
  {
    if n == 0 then {} else Below(n - 1) + {n - 1}
  }

  lemma {:induction false} BelowSize(n: nat)
    ensures |Below(n)| == n
  {
    if n > 0 {
      BelowSize(n - 1);
    }
  }

  lemma SubsetSize(a: set<nat>, b: set<nat>)
    requires a <= b
    ensures |a| <= |b|
  {
    assert b == a + (b - a);
  }

  lemma DistinctJoin(a: seq<nat>, b: seq<nat>)
    requires Distinct(a) && Distinct(b) && forall x :: x in a ==> x !in b
    ensures Distinct(a + b)
  {
    forall i, j | 0 <= i < j < |a + b|
      ensures (a + b)[i] != (a + b)[j]
    {
      if i < |a| <= j {
        assert (a + b)[i] in a && (a + b)[j] in b;
      }
    }
  }

  function Range(lo: nat, hi: nat): (s: set<nat>)
    requires lo <= hi
    ensures forall p :: p in s <==> lo <= p < hi
    decreases hi - lo
  {
    if lo == hi then {} else {lo} + Range(lo + 1, hi)
  }
}
