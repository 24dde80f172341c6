/**
 * Runs and the working corpus: a run is a sequence of registry indices,
 * the working corpus a sequence of runs. The helpers here are generic so
 * that runs of token strings and runs of indices share them.
 */
module Runs {
  /** A run of registry indices. */
  type Run = seq<nat>

  /** All elements of all runs, run after run. */
  function Concat<T>(rs: seq<seq<T>>): seq<T>
  {
    if rs == [] then [] else Concat(rs[..|rs| - 1]) + rs[|rs| - 1]
  }

  /** The total number of elements across all runs. */
  function Total<T>(rs: seq<seq<T>>): nat
  {
    |Concat(rs)|
  }

  /** Every element of every run is below `m` (a valid registry index). */
  predicate IndicesBelow(rs: seq<Run>, m: nat)
  {
    forall j, k :: 0 <= j < |rs| && 0 <= k < |rs[j]| ==> rs[j][k] < m
  }

  lemma {:induction false} ConcatAppend<T>(a: seq<seq<T>>, b: seq<seq<T>>)
    ensures Concat(a + b) == Concat(a) + Concat(b)
  {
    if b != [] {
      var init := b[..|b| - 1];
      assert (a + b)[..|a + b| - 1] == a + init;
      ConcatAppend(a, init);
    } else {
      assert a + b == a;
    }
  }

  lemma ConcatPrefixStep<T>(rs: seq<seq<T>>, i: nat)
    requires i < |rs|
    ensures Concat(rs[..i + 1]) == Concat(rs[..i]) + rs[i]
  {
    assert rs[..i + 1][..i] == rs[..i];
  }

  lemma ConcatCons<T>(x: seq<T>, rs: seq<seq<T>>)
    ensures Concat([x] + rs) == x + Concat(rs)
  {
    ConcatAppend([x], rs);
    assert [x][..0] == [];
  }

  /** Every element of a run occurs in the concatenation. */
  lemma {:induction false} ConcatMember<T>(rs: seq<seq<T>>, j: nat, k: nat)
    requires j < |rs| && k < |rs[j]|
    ensures rs[j][k] in Concat(rs)
  {
    var init := rs[..|rs| - 1];
    if j < |rs| - 1 {
      ConcatMember(init, j, k);
    } else {
      assert Concat(rs) == Concat(init) + rs[j];
      assert Concat(rs)[|Concat(init)| + k] == rs[j][k];
    }
  }

  /** The registry strings that the indices of a run name. */
  function Symbols(w: Run, objs: seq<string>): (r: seq<string>)
    requires forall k :: 0 <= k < |w| ==> w[k] < |objs|
  {
    seq(|w|, k requires 0 <= k < |w| => objs[w[k]])
  }

  /** The text a run spells: its symbols' strings, concatenated. */
  function Spell(w: Run, objs: seq<string>): string
    requires forall k :: 0 <= k < |w| ==> w[k] < |objs|
  {
    Concat(Symbols(w, objs))
  }

  lemma SpellCons(a: nat, v: Run, objs: seq<string>)
    requires a < |objs| && forall k :: 0 <= k < |v| ==> v[k] < |objs|
    ensures Spell([a] + v, objs) == objs[a] + Spell(v, objs)
  {
    assert Symbols([a] + v, objs) == [objs[a]] + Symbols(v, objs);
    ConcatCons(objs[a], Symbols(v, objs));
  }

  /** Growing the registry at its end does not change what a run spells. */
  lemma SpellExtend(w: Run, objs: seq<string>, more: seq<string>)
    requires |objs| <= |more| && more[..|objs|] == objs
    requires forall k :: 0 <= k < |w| ==> w[k] < |objs|
    ensures Spell(w, more) == Spell(w, objs)
  {
    assert Symbols(w, more) == Symbols(w, objs);
  }
}
