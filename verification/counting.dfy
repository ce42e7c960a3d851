/** Counting facts about finite collections of node identities, used to show that the
    heap array and the processed list never overflow their `n` slots. */
module Counting {
  /** No two positions of `s` hold the same value. */
  ghost predicate Distinct(s: seq<nat>)
  {
    forall i, j :: 0 <= i < j < |s| ==> s[i] != s[j]
  }

  /** The values of `s` as a set. */
  ghost function Values(s: seq<nat>): set<nat>
  {
    set i | 0 <= i < |s| :: s[i]
  }

  /** A sequence without repeats has as many distinct values as elements. */
  lemma {:induction false} DistinctValues(s: seq<nat>)
    requires Distinct(s)
    ensures |Values(s)| == |s|
  {
    if s != [] {
      var r, x := s[..|s| - 1], s[|s| - 1];
      DistinctValues(r);
      forall i | 0 <= i < |r| ensures r[i] != x {
        assert s[i] != s[|s| - 1];
      }
      assert Values(s) == Values(r) + {x};
      assert x !in Values(r);
    }
  }

  /** The naturals below `n`. */
  ghost function Below(n: nat): (r: set<nat>)
    ensures forall x: nat :: x in r <==> x < n
    ensures |r| == n
  {
    if n == 0 then {} else Below(n - 1) + {n - 1}
  }

  /** Pigeonhole: distinct values below `n` number at most `n`. */
  lemma DistinctBelow(s: seq<nat>, n: nat)
    requires Distinct(s)
    requires forall i :: 0 <= i < |s| ==> s[i] < n
    ensures |s| <= n
  {
    DistinctValues(s);
    var a, b := Values(s), Below(n);
    assert a <= b;
    assert |b - a| + |a| == |b| by {
      assert b == (b - a) + a;
    }
  }
}
