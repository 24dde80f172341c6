/**
 * The symbol registry that the trainer grows: a bidirectional mapping
 * between strings and the indices 0, 1, 2, ... in order of registration.
 * Its source is not part of this model; the class below is an abstract
 * stand-in whose contracts are the ones the trainer relies on.
 */
module Indexer {
  import opened Wrappers

  /** The registry after `s` is registered: unchanged if `s` is known, else `s` appended. */
  function Register(objs: seq<string>, s: string): (r: seq<string>)
    ensures s in r
  {
    if s in objs then objs else objs + [s]
  }

  /** Registering every token of `tokens`, in order. */
  function RegisterAll(objs: seq<string>, tokens: seq<string>): seq<string>
  {
    if tokens == [] then objs
    else Register(RegisterAll(objs, tokens[..|tokens| - 1]), tokens[|tokens| - 1])
  }

  lemma RegisterAllSnoc(objs: seq<string>, tokens: seq<string>, t: string)
    ensures RegisterAll(objs, tokens + [t]) == Register(RegisterAll(objs, tokens), t)
  {
    assert (tokens + [t])[..|tokens|] == tokens;
  }

  /** Being a prefix is transitive. */
  lemma PrefixTrans(a: seq<string>, b: seq<string>, c: seq<string>)
    requires |a| <= |b| && b[..|a|] == a
    requires |b| <= |c| && c[..|b|] == b
    ensures c[..|a|] == a
  {
    assert c[..|a|] == b[..|a|];
  }

  /** No string occurs twice. */
  predicate Distinct(objs: seq<string>)
  {
    forall i, j :: 0 <= i < j < |objs| ==> objs[i] != objs[j]
  }

  /** Registration is idempotent: registering the same string twice equals registering it once. */
  lemma RegisterIdempotent(objs: seq<string>, s: string)
    ensures Register(Register(objs, s), s) == Register(objs, s)
  {
  }

  /**
   * Registering a sequence of tokens keeps the old registry as a prefix,
   * registers every token, adds nothing else and keeps the entries distinct.
   */
  lemma {:induction false} RegisterAllSpec(objs: seq<string>, tokens: seq<string>)
    requires Distinct(objs)
    ensures |objs| <= |RegisterAll(objs, tokens)|
    ensures RegisterAll(objs, tokens)[..|objs|] == objs
    ensures forall t :: t in tokens ==> t in RegisterAll(objs, tokens)
    ensures forall t :: t in RegisterAll(objs, tokens) ==> t in objs || t in tokens
    ensures Distinct(RegisterAll(objs, tokens))
  {
    if tokens != [] {
      var init := tokens[..|tokens| - 1];
      var last := tokens[|tokens| - 1];
      RegisterAllSpec(objs, init);
      assert tokens == init + [last];
      var prev := RegisterAll(objs, init);
      assert prev[..|objs|] == objs;
      if last !in prev {
        assert (prev + [last])[..|objs|] == prev[..|objs|];
      }
    }
  }

  class Indexer {
    /** The registered strings; a string's index is its position. */
    var objs: seq<string>
    /** The reverse direction: each registered string's index. */
    var ids: map<string, nat>

    /** The two directions agree: a bijection between `objs` and `[0, |objs|)`. */
    ghost predicate Valid()
      reads this
    {
      |ids| == |objs| &&
      (forall s :: s in ids ==> ids[s] < |objs| && objs[ids[s]] == s) &&
      (forall i :: 0 <= i < |objs| ==> objs[i] in ids && ids[objs[i]] == i)
    }

    constructor ()
      ensures Valid() && objs == []
    {
      objs := [];
      ids := map[];
    }

    /** The number of registered symbols. */
    function Len(): (r: nat)
      reads this
      requires Valid()
      ensures r == |ids|
    {
      |objs|
    }

    /** The index of `s`, or None when `s` was never registered. */
    function IndexOf(s: string): (r: Option<nat>)
      reads this
      requires Valid()
      ensures r.None? <==> s !in objs
      ensures r.Some? ==> r.value < |objs| && objs[r.value] == s
    {
      if s in ids then Some(ids[s]) else None
    }

    /** The string with index `i`, or None when `i` is out of range. */
    function GetObject(i: int): (r: Option<string>)
      reads this
      requires Valid()
      ensures r.Some? <==> 0 <= i < |objs|
      ensures r.Some? ==> IndexOf(r.value) == Some(i)
    {
      if 0 <= i < |objs| then Some(objs[i]) else None
    }

    /**
     * Registers `s` if it is new (appending it, so its index is the old size)
     * and returns its index; a known string leaves the registry unchanged.
     */
    method AddAndGetIndex(s: string) returns (idx: nat)
      requires Valid()
      modifies this
      ensures Valid()
      ensures objs == Register(old(objs), s)
      ensures s in old(objs) ==> idx == old(IndexOf(s)).value
      ensures s !in old(objs) ==> idx == old(|objs|)
      ensures IndexOf(s) == Some(idx)
    {
      if s in ids {
        idx := ids[s];
      } else {
        idx := |objs|;
        objs := objs + [s];
        ids := ids[s := idx];
      }
    }
  }

  /** The strings of a valid registry are distinct. */
  lemma ValidDistinct(v: Indexer)
    requires v.Valid()
    ensures Distinct(v.objs)
  {
    forall i, j | 0 <= i < j < |v.objs|
      ensures v.objs[i] != v.objs[j]
    {
      assert v.ids[v.objs[i]] == i && v.ids[v.objs[j]] == j;
    }
  }
}
