/**
 * The merge step: every run is rewritten by replacing non-overlapping
 * occurrences of the chosen pair, scanning greedily from the left, with
 * the new index. Also the spelling of a run through the registry, which a
 * merge leaves unchanged.
 */
module Merge {
  import opened Runs
  import opened Pairs

  /** One run after merging `p` into `n`, greedily from the left. */
  function MergeRun(w: Run, p: Pair, n: nat): Run
    decreases |w|
  {
    if |w| == 0 then []
    else if w[0] == p.0 && |w| >= 2 && w[1] == p.1 then [n] + MergeRun(w[2..], p, n)
    else [w[0]] + MergeRun(w[1..], p, n)
  }

  /** Every run merged, one output run per input run, in order. */
  function MergeAll(rs: seq<Run>, p: Pair, n: nat): seq<Run>
  {
    if rs == [] then [] else MergeAll(rs[..|rs| - 1], p, n) + [MergeRun(rs[|rs| - 1], p, n)]
  }

  /** The inverse of a merge: every `n` is expanded back to the two indices of `p`. */
  function Expand(v: Run, p: Pair, n: nat): Run
  {
    if v == [] then []
    else (if v[0] == n then [p.0, p.1] else [v[0]]) + Expand(v[1..], p, n)
  }

  lemma PairSetCons(x: nat, w: Run, q: Pair)
    ensures q in PairSet([x] + w) <==> (|w| >= 1 && q == (x, w[0])) || q in PairSet(w)
  {
    var v := [x] + w;
    if q in PairSet(v) {
      var k: nat :| k + 1 < |v| && q == PairAt(v, k);
      if k > 0 {
        assert PairAt(w, k - 1) == q;
      }
    }
    if q in PairSet(w) {
      var k: nat :| k + 1 < |w| && q == PairAt(w, k);
      assert PairAt(v, k + 1) == q;
    }
    if |w| >= 1 {
      assert PairAt(v, 0) == (x, w[0]);
    }
  }

  /**
   * A merge never lengthens a run, and it shortens every run in which the
   * pair occurs adjacently.
   */
  lemma {:induction false} MergeRunShrinks(w: Run, p: Pair, n: nat)
    ensures |MergeRun(w, p, n)| <= |w|
    ensures p in PairSet(w) ==> |MergeRun(w, p, n)| < |w|
    decreases |w|
  {
    if |w| > 0 {
      assert w == [w[0]] + w[1..];
      PairSetCons(w[0], w[1..], p);
      if w[0] == p.0 && |w| >= 2 && w[1] == p.1 {
        MergeRunShrinks(w[2..], p, n);
      } else {
        MergeRunShrinks(w[1..], p, n);
      }
    }
  }

  /** A run in which the pair does not occur adjacently is returned unchanged. */
  lemma {:induction false} MergeRunUnchanged(w: Run, p: Pair, n: nat)
    requires p !in PairSet(w)
    ensures MergeRun(w, p, n) == w
    decreases |w|
  {
    if |w| > 0 {
      assert w == [w[0]] + w[1..];
      PairSetCons(w[0], w[1..], p);
      MergeRunUnchanged(w[1..], p, n);
    }
  }

  /** Every output index is the new index or an index copied from the input run. */
  lemma {:induction false} MergeRunElements(w: Run, p: Pair, n: nat)
    ensures forall k :: 0 <= k < |MergeRun(w, p, n)| ==>
              MergeRun(w, p, n)[k] == n || MergeRun(w, p, n)[k] in w
    decreases |w|
  {
    if |w| > 0 {
      var out := MergeRun(w, p, n);
      if w[0] == p.0 && |w| >= 2 && w[1] == p.1 {
        MergeRunElements(w[2..], p, n);
        forall k | 1 <= k < |out| ensures out[k] == n || out[k] in w {
          assert out[k] == MergeRun(w[2..], p, n)[k - 1];
          assert forall x :: x in w[2..] ==> x in w;
        }
      } else {
        MergeRunElements(w[1..], p, n);
        forall k | 1 <= k < |out| ensures out[k] == n || out[k] in w {
          assert out[k] == MergeRun(w[1..], p, n)[k - 1];
          assert forall x :: x in w[1..] ==> x in w;
        }
      }
    }
  }

  /**
   * Merging is exhaustive: when the new index differs from both halves of
   * the pair, no adjacent occurrence of the pair is left behind.
   */
  lemma {:induction false} MergeRunExhaustive(w: Run, p: Pair, n: nat)
    requires n != p.0 && n != p.1
    ensures p !in PairSet(MergeRun(w, p, n))
    decreases |w|
  {
    if |w| > 0 {
      if w[0] == p.0 && |w| >= 2 && w[1] == p.1 {
        var rest := MergeRun(w[2..], p, n);
        MergeRunExhaustive(w[2..], p, n);
        PairSetCons(n, rest, p);
      } else {
        var rest := MergeRun(w[1..], p, n);
        MergeRunExhaustive(w[1..], p, n);
        PairSetCons(w[0], rest, p);
        if |w| >= 2 {
          assert w[1..][0] == w[1];
          assert rest[0] == n || rest[0] == w[1];
        }
      }
    }
  }

  /** When the new index does not already occur in the run, expanding it undoes the merge. */
  lemma {:induction false} ExpandMergeRun(w: Run, p: Pair, n: nat)
    requires n !in w
    ensures Expand(MergeRun(w, p, n), p, n) == w
    decreases |w|
  {
    if |w| > 0 {
      var out := MergeRun(w, p, n);
      if w[0] == p.0 && |w| >= 2 && w[1] == p.1 {
        assert n !in w[2..];
        ExpandMergeRun(w[2..], p, n);
        assert out[1..] == MergeRun(w[2..], p, n);
        assert w == [w[0], w[1]] + w[2..];
      } else {
        assert n !in w[1..];
        ExpandMergeRun(w[1..], p, n);
        assert out[1..] == MergeRun(w[1..], p, n);
        assert w == [w[0]] + w[1..];
      }
    }
  }

  /**
   * When the new index is neither half of the pair, a merge changes nothing
   * once both sides are expanded, even if the index already occurs in the
   * run: the copied indices keep their order around the merged ones.
   */
  lemma {:induction false} ExpandMergeRunKept(w: Run, p: Pair, n: nat)
    requires n != p.0 && n != p.1
    ensures Expand(MergeRun(w, p, n), p, n) == Expand(w, p, n)
    decreases |w|
  {
    if |w| > 0 {
      var out := MergeRun(w, p, n);
      if w[0] == p.0 && |w| >= 2 && w[1] == p.1 {
        ExpandMergeRunKept(w[2..], p, n);
        assert out[1..] == MergeRun(w[2..], p, n);
        assert w[1..][1..] == w[2..];
        assert Expand(w[1..], p, n) == [p.1] + Expand(w[2..], p, n);
      } else {
        ExpandMergeRunKept(w[1..], p, n);
        assert out[1..] == MergeRun(w[1..], p, n);
      }
    }
  }

  /** The non-overlapping, left-greedy case: `[x, x, x]` with pair `(x, x)` becomes `[n, x]`. */
  lemma MergeRunGreedy(x: nat, n: nat)
    ensures MergeRun([x, x, x], (x, x), n) == [n, x]
  {
    assert [x, x, x][2..] == [x];
    assert MergeRun([x], (x, x), n) == [x];
  }

  /** `MergeAll` gives one output run per input run, the merge of that run. */
  lemma {:induction false} MergeAllAt(rs: seq<Run>, p: Pair, n: nat)
    ensures |MergeAll(rs, p, n)| == |rs|
    ensures forall j :: 0 <= j < |rs| ==> MergeAll(rs, p, n)[j] == MergeRun(rs[j], p, n)
  {
    if rs != [] {
      MergeAllAt(rs[..|rs| - 1], p, n);
    }
  }

  /**
   * Every run that contains the pair loses at least one index, so the total
   * number of indices drops by at least the pair's count.
   */
  lemma {:induction false} MergeAllShrinks(rs: seq<Run>, p: Pair, n: nat)
    ensures Total(MergeAll(rs, p, n)) + Count(rs, p) <= Total(rs)
  {
    if rs != [] {
      var init := rs[..|rs| - 1];
      var last := rs[|rs| - 1];
      MergeAllShrinks(init, p, n);
      MergeAllAt(init, p, n);
      MergeRunShrinks(last, p, n);
      var m := MergeAll(rs, p, n);
      assert m[..|m| - 1] == MergeAll(init, p, n);
    }
  }

  /** Merging into an index below `m` keeps every index below `m`. */
  lemma MergeAllIndicesBelow(rs: seq<Run>, p: Pair, n: nat, m: nat)
    requires IndicesBelow(rs, m) && n < m
    ensures IndicesBelow(MergeAll(rs, p, n), m)
  {
    MergeAllAt(rs, p, n);
    forall j | 0 <= j < |rs|
      ensures forall k :: 0 <= k < |MergeRun(rs[j], p, n)| ==> MergeRun(rs[j], p, n)[k] < m
    {
      MergeRunElements(rs[j], p, n);
    }
  }

  /**
   * When the new index names the concatenation of the pair's two strings,
   * a merge does not change the text a run spells.
   */
  lemma {:induction false} MergeRunSpells(w: Run, p: Pair, n: nat, objs: seq<string>)
    requires forall k :: 0 <= k < |w| ==> w[k] < |objs|
    requires p.0 < |objs| && p.1 < |objs| && n < |objs|
    requires objs[n] == objs[p.0] + objs[p.1]
    ensures forall k :: 0 <= k < |MergeRun(w, p, n)| ==> MergeRun(w, p, n)[k] < |objs|
    ensures Spell(MergeRun(w, p, n), objs) == Spell(w, objs)
    decreases |w|
  {
    MergeRunElements(w, p, n);
    if |w| > 0 {
      if w[0] == p.0 && |w| >= 2 && w[1] == p.1 {
        MergeRunSpells(w[2..], p, n, objs);
        SpellMergedPair(w, MergeRun(w[2..], p, n), n, objs);
      } else {
        MergeRunSpells(w[1..], p, n, objs);
        SpellCons(w[0], MergeRun(w[1..], p, n), objs);
        SpellCons(w[0], w[1..], objs);
        assert w == [w[0]] + w[1..];
      }
    }
  }

  /** Replacing the first two indices of a run by one that spells both keeps the spelling. */
  lemma SpellMergedPair(w: Run, merged: Run, n: nat, objs: seq<string>)
    requires |w| >= 2 && forall k :: 0 <= k < |w| ==> w[k] < |objs|
    requires n < |objs| && objs[n] == objs[w[0]] + objs[w[1]]
    requires forall k :: 0 <= k < |merged| ==> merged[k] < |objs|
    requires Spell(merged, objs) == Spell(w[2..], objs)
    ensures Spell([n] + merged, objs) == Spell(w, objs)
  {
    var a, b, rest := w[0], w[1], w[2..];
    SpellCons(n, merged, objs);
    SpellCons(b, rest, objs);
    assert w[1..] == [b] + rest;
    SpellCons(a, w[1..], objs);
    assert w == [a] + w[1..];
    calc {
      Spell([n] + merged, objs);
      objs[n] + Spell(merged, objs);
      (objs[a] + objs[b]) + Spell(rest, objs);
      objs[a] + (objs[b] + Spell(rest, objs));
      Spell(w, objs);
    }
  }
}
