/** Adjacent pairs within one run, and the number of runs a pair occurs in. */
module Pairs {
  import opened Runs

  /** An ordered pair of registry indices. */
  type Pair = (nat, nat)

  /** The pair starting at position `k`. */
  function PairAt(w: Run, k: nat): Pair
    requires k + 1 < |w|
  {
    (w[k], w[k + 1])
  }

  /** The set of adjacent pairs `(w[k], w[k+1])` of a run. */
  function PairSet(w: Run): set<Pair>
  {
    set k: nat | k + 1 < |w| :: PairAt(w, k)
  }

  /** A run adds one to the count of `p` when it is longer than one and holds `p` adjacently. */
  predicate Contributes(w: Run, p: Pair)
  {
    |w| > 1 && p in PairSet(w)
  }

  /** The number of runs of `rs` that contribute to `p`, counted run by run. */
  function Count(rs: seq<Run>, p: Pair): nat
  {
    if rs == [] then 0
    else Count(rs[..|rs| - 1], p) + (if Contributes(rs[|rs| - 1], p) then 1 else 0)
  }

  /** The positions of the runs that contain `p`: an independent description of `Count`. */
  function RunsWith(rs: seq<Run>, p: Pair): set<nat>
  {
    set j | 0 <= j < |rs| && Contributes(rs[j], p)
  }

  lemma {:induction false} PairSetSnoc(w: Run, x: nat)
    requires |w| >= 1
    ensures PairSet(w + [x]) == PairSet(w) + {(w[|w| - 1], x)}
  {
    var v := w + [x];
    forall q | q in PairSet(v)
      ensures q in PairSet(w) + {(w[|w| - 1], x)}
    {
      var k: nat :| k + 1 < |v| && q == PairAt(v, k);
      if k < |w| - 1 {
        assert PairAt(v, k) == PairAt(w, k);
      } else {
        assert PairAt(v, k) == (w[|w| - 1], x);
      }
    }
    forall q | q in PairSet(w)
      ensures q in PairSet(v)
    {
      var k: nat :| k + 1 < |w| && q == PairAt(w, k);
      assert PairAt(v, k) == PairAt(w, k);
    }
    assert PairAt(v, |w| - 1) in PairSet(v);
  }

  /** A run of length `n >= 1` has at most `n - 1` distinct adjacent pairs. */
  lemma {:induction false} PairSetBound(w: Run)
    requires |w| >= 1
    ensures |PairSet(w)| <= |w| - 1
  {
    if |w| == 1 {
      assert PairSet(w) == {};
    } else {
      var init := w[..|w| - 1];
      assert w == init + [w[|w| - 1]];
      PairSetSnoc(init, w[|w| - 1]);
      PairSetBound(init);
    }
  }

  /** A run of length at least two contributes to its first pair. */
  lemma FirstPairContributes(w: Run)
    requires |w| >= 2
    ensures Contributes(w, (w[0], w[1]))
  {
    assert PairAt(w, 0) in PairSet(w);
  }

  /**
   * The count of `p` is the number of runs that contain it, so it never
   * exceeds the number of runs.
   */
  lemma {:induction false} CountIsRunsWith(rs: seq<Run>, p: Pair)
    ensures Count(rs, p) == |RunsWith(rs, p)|
    ensures Count(rs, p) <= |rs|
  {
    if rs == [] {
      assert RunsWith(rs, p) == {};
    } else {
      var init := rs[..|rs| - 1];
      var last := |rs| - 1;
      CountIsRunsWith(init, p);
      var s := RunsWith(init, p);
      assert last !in s;
      if Contributes(rs[last], p) {
        assert RunsWith(rs, p) == s + {last};
      } else {
        assert RunsWith(rs, p) == s;
      }
    }
  }

  /** The count is positive exactly when some run contains the pair. */
  lemma CountPositive(rs: seq<Run>, p: Pair)
    ensures Count(rs, p) > 0 <==> exists j :: 0 <= j < |rs| && Contributes(rs[j], p)
  {
    CountIsRunsWith(rs, p);
    if Count(rs, p) > 0 {
      var j :| j in RunsWith(rs, p);
    } else {
      assert RunsWith(rs, p) == {};
    }
  }

  /** When no pair has a positive count, every run has at most one index. */
  lemma NoPairShortRuns(rs: seq<Run>)
    requires forall p :: Count(rs, p) == 0
    ensures forall j :: 0 <= j < |rs| ==> |rs[j]| <= 1
  {
    forall j | 0 <= j < |rs|
      ensures |rs[j]| <= 1
    {
      if |rs[j]| > 1 {
        FirstPairContributes(rs[j]);
        CountPositive(rs, (rs[j][0], rs[j][1]));
      }
    }
  }

  /** Both halves of a counted pair lie below any bound that every index of the runs lies below. */
  lemma CountedPairBelow(rs: seq<Run>, p: Pair, m: nat)
    requires IndicesBelow(rs, m) && Count(rs, p) > 0
    ensures p.0 < m && p.1 < m
  {
    CountPositive(rs, p);
    var j :| 0 <= j < |rs| && Contributes(rs[j], p);
    var k: nat :| k + 1 < |rs[j]| && p == PairAt(rs[j], k);
  }
}
