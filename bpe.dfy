/**
 * The vocabulary trainer: seeds the registry with every token, turns the
 * corpus into runs of indices and then repeatedly counts pairs, selects a
 * most frequent one, registers the concatenation of its two symbols and
 * merges it in every run.
 */
module Bpe {
  import opened Wrappers
  import opened Runs
  import opened Pairs
  import opened Merge
  import opened Tokenise
  import opened Indexer

  /** Why the merge loop stopped. */
  datatype StopReason =
    | ReachedTarget      // the registry reached the requested size
    | NoPairs            // no run holds two indices, so there is no pair to count
    | TooFewOccurrences  // the best pair occurs in at most two runs

  /** Entry `i` of the registry is the concatenation of two earlier entries, left then right. */
  ghost predicate IsMergedSymbol(objs: seq<string>, i: nat)
    requires i < |objs|
  {
    exists a, b :: 0 <= a < i && 0 <= b < i && objs[i] == objs[a] + objs[b]
  }

  lemma MergedSymbolExtend(objs: seq<string>, more: seq<string>, i: nat)
    requires i < |objs| <= |more| && more[..|objs|] == objs
    requires IsMergedSymbol(objs, i)
    ensures IsMergedSymbol(more, i)
  {
    var a, b :| 0 <= a < i && 0 <= b < i && objs[i] == objs[a] + objs[b];
    assert more[i] == objs[i] && more[a] == objs[a] && more[b] == objs[b];
  }

  /**
   * One registration keeps the seeded prefix and the rule that every entry
   * after it is the concatenation of two earlier entries.
   */
  lemma RegistryRound(seeded: seq<string>, before: seq<string>, a: nat, b: nat)
    requires |seeded| <= |before| && before[..|seeded|] == seeded
    requires forall i :: |seeded| <= i < |before| ==> IsMergedSymbol(before, i)
    requires a < |before| && b < |before|
    ensures var after := Register(before, before[a] + before[b]);
      |before| <= |after| && after[..|before|] == before &&
      after[..|seeded|] == seeded &&
      forall i :: |seeded| <= i < |after| ==> IsMergedSymbol(after, i)
  {
    var after := Register(before, before[a] + before[b]);
    assert after[..|before|] == before;
    assert after[..|seeded|] == before[..|seeded|];
    forall i | |seeded| <= i < |after|
      ensures IsMergedSymbol(after, i)
    {
      if i < |before| {
        MergedSymbolExtend(before, after, i);
      } else {
        assert after[i] == after[a] + after[b];
      }
    }
  }

  /**
   * One merge round over the runs: the number of runs stays, every index
   * stays registered, every run still spells the text of its token run and
   * the total drops by at least the pair's count.
   */
  lemma RunsRound(rs: seq<Run>, tokenRuns: seq<seq<string>>, before: seq<string>,
                  after: seq<string>, p: Pair, n: nat)
    requires |before| <= |after| && after[..|before|] == before
    requires p.0 < |before| && p.1 < |before| && n < |after|
    requires after[n] == before[p.0] + before[p.1]
    requires |rs| == |tokenRuns| && IndicesBelow(rs, |before|)
    requires forall j :: 0 <= j < |rs| ==> Spell(rs[j], before) == Concat(tokenRuns[j])
    ensures |MergeAll(rs, p, n)| == |tokenRuns|
    ensures IndicesBelow(MergeAll(rs, p, n), |after|)
    ensures forall j :: 0 <= j < |rs| ==> Spell(MergeAll(rs, p, n)[j], after) == Concat(tokenRuns[j])
    ensures Total(MergeAll(rs, p, n)) + Count(rs, p) <= Total(rs)
  {
    MergeAllAt(rs, p, n);
    MergeAllShrinks(rs, p, n);
    MergeAllIndicesBelow(rs, p, n, |after|);
    forall j | 0 <= j < |rs|
      ensures Spell(MergeAll(rs, p, n)[j], after) == Concat(tokenRuns[j])
    {
      SpellExtend(rs[j], before, after);
      MergeRunSpells(rs[j], p, n, after);
    }
  }

  /**
   * What the merge loop keeps: the seeded registry stays a prefix and every
   * later entry is a merged symbol; the runs keep their number, name only
   * registered indices and still spell their original token runs.
   */
  ghost predicate LoopState(rs: seq<Run>, objs: seq<string>, seeded: seq<string>, tokenRuns: seq<seq<string>>)
  {
    |seeded| <= |objs| && objs[..|seeded|] == seeded &&
    (forall i :: |seeded| <= i < |objs| ==> IsMergedSymbol(objs, i)) &&
    |rs| == |tokenRuns| && IndicesBelow(rs, |objs|) &&
    forall j :: 0 <= j < |rs| ==> Spell(rs[j], objs) == Concat(tokenRuns[j])
  }

  /**
   * A round that registers the concatenation of a counted pair and merges it
   * keeps the loop state and lowers the total by at least the pair's count.
   */
  lemma MergeRound(rs: seq<Run>, objs: seq<string>, seeded: seq<string>, tokenRuns: seq<seq<string>>,
                   p: Pair, n: nat, after: seq<string>)
    requires LoopState(rs, objs, seeded, tokenRuns)
    requires p.0 < |objs| && p.1 < |objs|
    requires after == Register(objs, objs[p.0] + objs[p.1])
    requires n < |after| && after[n] == objs[p.0] + objs[p.1]
    ensures LoopState(MergeAll(rs, p, n), after, seeded, tokenRuns)
    ensures Total(MergeAll(rs, p, n)) + Count(rs, p) <= Total(rs)
  {
    RegistryRound(seeded, objs, p.0, p.1);
    RunsRound(rs, tokenRuns, objs, after, p, n);
  }

  /** One round of the merge loop: the pair it merged and the index of the pair's symbol. */
  type Round = (Pair, nat)

  /** The runs after the merges of `rounds`, applied first to last. */
  function Replay(rs: seq<Run>, rounds: seq<Round>): seq<Run>
    decreases |rounds|
  {
    if rounds == [] then rs else Replay(MergeAll(rs, rounds[0].0, rounds[0].1), rounds[1..])
  }

  /**
   * The selection rule, round by round: each merged pair has a maximal count
   * in the runs as they stood before its round, and that count exceeds two.
   */
  ghost predicate Greedy(rs: seq<Run>, rounds: seq<Round>)
    decreases |rounds|
  {
    rounds == [] ||
    (var p := rounds[0].0;
     Count(rs, p) > 2 && (forall q :: Count(rs, q) <= Count(rs, p)) &&
     Greedy(MergeAll(rs, p, rounds[0].1), rounds[1..]))
  }

  /** A further round that follows the selection rule extends a greedy history. */
  lemma {:induction false} GreedySnoc(rs: seq<Run>, rounds: seq<Round>, p: Pair, n: nat)
    requires Greedy(rs, rounds)
    requires Count(Replay(rs, rounds), p) > 2
    requires forall q :: Count(Replay(rs, rounds), q) <= Count(Replay(rs, rounds), p)
    ensures Replay(rs, rounds + [(p, n)]) == MergeAll(Replay(rs, rounds), p, n)
    ensures Greedy(rs, rounds + [(p, n)])
    decreases |rounds|
  {
    if rounds == [] {
      assert rounds + [(p, n)] == [(p, n)];
      assert [(p, n)][1..] == [];
    } else {
      assert (rounds + [(p, n)])[0] == rounds[0];
      assert (rounds + [(p, n)])[1..] == rounds[1..] + [(p, n)];
      GreedySnoc(MergeAll(rs, rounds[0].0, rounds[0].1), rounds[1..], p, n);
    }
  }

  /** Every round's index names the concatenation of the strings of its pair. */
  ghost predicate RoundsRegistered(objs: seq<string>, rounds: seq<Round>)
  {
    forall i :: 0 <= i < |rounds| ==>
      rounds[i].0.0 < |objs| && rounds[i].0.1 < |objs| && rounds[i].1 < |objs| &&
      objs[rounds[i].1] == objs[rounds[i].0.0] + objs[rounds[i].0.1]
  }

  /** Growing the registry keeps earlier rounds registered, and a new round adds its own entry. */
  lemma RoundsRegisteredStep(before: seq<string>, after: seq<string>, rounds: seq<Round>, p: Pair, n: nat)
    requires |before| <= |after| && after[..|before|] == before
    requires RoundsRegistered(before, rounds)
    requires p.0 < |before| && p.1 < |before| && n < |after|
    requires after[n] == before[p.0] + before[p.1]
    ensures RoundsRegistered(after, rounds + [(p, n)])
  {
    var more := rounds + [(p, n)];
    forall i | 0 <= i < |more|
      ensures more[i].0.0 < |after| && more[i].0.1 < |after| && more[i].1 < |after| &&
              after[more[i].1] == after[more[i].0.0] + after[more[i].0.1]
    {
      if i < |rounds| {
        var r := rounds[i];
        assert more[i] == r;
        assert after[r.1] == before[r.1] && after[r.0.0] == before[r.0.0] && after[r.0.1] == before[r.0.1];
      } else {
        assert more[i] == (p, n);
        assert after[p.0] == before[p.0] && after[p.1] == before[p.1];
      }
    }
  }

  /**
   * The registry the rounds leave behind: each round, first to last,
   * registers the concatenation of its pair's two strings. A pair outside
   * the registry registers nothing; no round of the loop has one.
   */
  ghost function RegisterRounds(objs: seq<string>, rounds: seq<Round>): seq<string>
    decreases |rounds|
  {
    if rounds == [] then objs
    else
      var prev := RegisterRounds(objs, rounds[..|rounds| - 1]);
      var p := rounds[|rounds| - 1].0;
      if p.0 < |prev| && p.1 < |prev| then Register(prev, prev[p.0] + prev[p.1]) else prev
  }

  /** The rounds keep the registry as a prefix and add at most one entry each. */
  lemma {:induction false} RegisterRoundsGrowth(objs: seq<string>, rounds: seq<Round>)
    ensures var r := RegisterRounds(objs, rounds);
      |objs| <= |r| <= |objs| + |rounds| && r[..|objs|] == objs
    decreases |rounds|
  {
    if rounds != [] {
      var init := rounds[..|rounds| - 1];
      RegisterRoundsGrowth(objs, init);
      var prev := RegisterRounds(objs, init);
      assert prev[..|objs|] == objs;
      var r := RegisterRounds(objs, rounds);
      assert r[..|prev|] == prev;
      assert r[..|objs|] == prev[..|objs|];
    }
  }

  /** Every round began while the registry was still below `length`. */
  ghost predicate RoundsBelowTarget(objs0: seq<string>, rounds: seq<Round>, length: int)
  {
    forall i :: 0 <= i < |rounds| ==> |RegisterRounds(objs0, rounds[..i])| < length
  }

  /**
   * What the merge loop records about its rounds: the registry is `objs0`
   * with the rounds' symbols registered in order, every round began below
   * `length`, the runs are those of the rounds replayed on `D0`, every
   * round followed the selection rule and registered its pair's symbol, and
   * each round removed at least three indices.
   */
  ghost predicate History(D0: seq<Run>, rs: seq<Run>, rounds: seq<Round>, objs0: seq<string>,
                          objs: seq<string>, length: int)
  {
    |objs0| <= |objs| && objs[..|objs0|] == objs0 &&
    objs == RegisterRounds(objs0, rounds) && RoundsBelowTarget(objs0, rounds, length) &&
    rs == Replay(D0, rounds) && Greedy(D0, rounds) &&
    RoundsRegistered(objs, rounds) &&
    Total(rs) + 3 * |rounds| <= Total(D0)
  }

  /** One further round, as the loop registers it, extends the registered record and the target bound. */
  lemma RegisterRoundsSnoc(objs0: seq<string>, rounds: seq<Round>, length: int,
                           before: seq<string>, p: Pair, n: nat)
    requires before == RegisterRounds(objs0, rounds) && RoundsBelowTarget(objs0, rounds, length)
    requires |before| < length && p.0 < |before| && p.1 < |before|
    ensures RegisterRounds(objs0, rounds + [(p, n)]) == Register(before, before[p.0] + before[p.1])
    ensures RoundsBelowTarget(objs0, rounds + [(p, n)], length)
  {
    var more := rounds + [(p, n)];
    assert more[..|rounds|] == rounds;
    forall i | 0 <= i < |more|
      ensures |RegisterRounds(objs0, more[..i])| < length
    {
      if i < |rounds| {
        assert more[..i] == rounds[..i];
      }
    }
  }

  /** A round that merges a maximal pair counted more than twice extends the history. */
  lemma HistoryRound(D0: seq<Run>, rs: seq<Run>, rounds: seq<Round>, objs0: seq<string>,
                     before: seq<string>, after: seq<string>, p: Pair, n: nat, length: int)
    requires History(D0, rs, rounds, objs0, before, length) && |before| < length
    requires Count(rs, p) > 2 && forall q :: Count(rs, q) <= Count(rs, p)
    requires p.0 < |before| && p.1 < |before|
    requires after == Register(before, before[p.0] + before[p.1])
    requires n < |after| && after[n] == before[p.0] + before[p.1]
    requires Total(MergeAll(rs, p, n)) + Count(rs, p) <= Total(rs)
    ensures History(D0, MergeAll(rs, p, n), rounds + [(p, n)], objs0, after, length)
  {
    assert after[..|before|] == before;
    GreedySnoc(D0, rounds, p, n);
    RoundsRegisteredStep(before, after, rounds, p, n);
    RegisterRoundsSnoc(objs0, rounds, length, before, p, n);
    PrefixTrans(objs0, before, after);
  }

  /**
   * A round of the loop: the counter maps every counted pair to its count,
   * `p` is a key no other key exceeds, its count is above two, and `n` is
   * the index of the registered concatenation of its strings. Merging `p`
   * keeps the loop state, extends the history and lowers the total.
   */
  lemma SelectedRound(D0: seq<Run>, rs: seq<Run>, rounds: seq<Round>, objs0: seq<string>,
                      seeded: seq<string>, tokenRuns: seq<seq<string>>, counts: map<Pair, nat>,
                      p: Pair, n: nat, before: seq<string>, after: seq<string>, length: int)
    requires LoopState(rs, before, seeded, tokenRuns) && History(D0, rs, rounds, objs0, before, length)
    requires |before| < length
    requires forall q :: q in counts <==> Count(rs, q) > 0
    requires forall q :: q in counts ==> counts[q] == Count(rs, q)
    requires p in counts && counts[p] > 2 && forall q :: q in counts ==> counts[q] <= counts[p]
    requires p.0 < |before| && p.1 < |before|
    requires after == Register(before, before[p.0] + before[p.1])
    requires n < |after| && after[n] == before[p.0] + before[p.1]
    ensures LoopState(MergeAll(rs, p, n), after, seeded, tokenRuns)
    ensures History(D0, MergeAll(rs, p, n), rounds + [(p, n)], objs0, after, length)
    ensures Total(MergeAll(rs, p, n)) < Total(rs)
  {
    SelectedIsMaximal(rs, counts, p);
    MergeRound(rs, before, seeded, tokenRuns, p, n, after);
    assert after[..|before|] == before;
    HistoryRound(D0, rs, rounds, objs0, before, after, p, n, length);
  }

  /** What the runs of phase 2 give the merge loop to start from. */
  lemma InitialRunsFacts(rs: seq<Run>, objs: seq<string>, corpus: seq<seq<string>>, isAlpha: string -> bool)
    requires Encodes(rs, objs, SplitCorpus(corpus, isAlpha))
    ensures |rs| == |SplitCorpus(corpus, isAlpha)| == RunCount(corpus, isAlpha)
    ensures Total(rs) == Total(SplitCorpus(corpus, isAlpha)) == |Concat(corpus)|
    ensures IndicesBelow(rs, |objs|)
    ensures forall j :: 0 <= j < |rs| ==> Spell(rs[j], objs) == Concat(SplitCorpus(corpus, isAlpha)[j])
  {
    var tokenRuns := SplitCorpus(corpus, isAlpha);
    SplitCorpusSpec(corpus, isAlpha);
    EncodesTotal(rs, objs, tokenRuns);
    forall j | 0 <= j < |rs|
      ensures forall k :: 0 <= k < |rs[j]| ==> rs[j][k] < |objs|
      ensures Spell(rs[j], objs) == Concat(tokenRuns[j])
    {
      EncodesSpell(rs[j], objs, tokenRuns[j]);
    }
  }

  /** An empty counter means every run has at most one index. */
  lemma EmptyCounterStop(rs: seq<Run>, counts: map<Pair, nat>)
    requires forall p :: p in counts <==> Count(rs, p) > 0
    requires counts == map[]
    ensures forall j :: 0 <= j < |rs| ==> |rs[j]| <= 1
  {
    assert forall p :: Count(rs, p) == 0 by {
      forall p ensures Count(rs, p) == 0 {
        assert p !in counts;
      }
    }
    NoPairShortRuns(rs);
  }

  /** When a most frequent pair occurs in at most two runs, so does every pair. */
  lemma LowCountStop(rs: seq<Run>, counts: map<Pair, nat>, top: Pair)
    requires forall p :: p in counts <==> Count(rs, p) > 0
    requires forall p :: p in counts ==> counts[p] == Count(rs, p)
    requires top in counts && counts[top] <= 2
    requires forall q :: q in counts ==> counts[q] <= counts[top]
    ensures exists p :: Count(rs, p) > 0
    ensures forall p :: Count(rs, p) <= 2
  {
    forall p | Count(rs, p) > 0
      ensures Count(rs, p) <= 2
    {
      assert p in counts;
    }
  }

  /** The pair `most_common(1)` selects has a count no other pair exceeds, counted or not. */
  lemma SelectedIsMaximal(rs: seq<Run>, counts: map<Pair, nat>, top: Pair)
    requires forall p :: p in counts <==> Count(rs, p) > 0
    requires forall p :: p in counts ==> counts[p] == Count(rs, p)
    requires top in counts
    requires forall q :: q in counts ==> counts[q] <= counts[top]
    ensures forall q :: Count(rs, q) <= Count(rs, top)
  {
    forall q
      ensures Count(rs, q) <= Count(rs, top)
    {
      if q in counts {
        assert counts[q] <= counts[top];
      }
    }
  }

  lemma SeedStart(objs: seq<string>, corpus: seq<seq<string>>, i: nat)
    requires i < |corpus|
    ensures RegisterAll(objs, Concat(corpus[..i]) + corpus[i][..0]) == RegisterAll(objs, Concat(corpus[..i]))
  {
    assert Concat(corpus[..i]) + corpus[i][..0] == Concat(corpus[..i]);
  }

  lemma SeedStep(objs: seq<string>, corpus: seq<seq<string>>, i: nat, k: nat)
    requires i < |corpus| && k < |corpus[i]|
    ensures RegisterAll(objs, Concat(corpus[..i]) + corpus[i][..k + 1])
         == Register(RegisterAll(objs, Concat(corpus[..i]) + corpus[i][..k]), corpus[i][k])
  {
    var seen := Concat(corpus[..i]) + corpus[i][..k];
    RegisterAllSnoc(objs, seen, corpus[i][k]);
    assert Concat(corpus[..i]) + corpus[i][..k + 1] == seen + [corpus[i][k]];
  }

  lemma SeedEnd(objs: seq<string>, corpus: seq<seq<string>>, i: nat)
    requires i < |corpus|
    ensures RegisterAll(objs, Concat(corpus[..i]) + corpus[i][..|corpus[i]|])
         == RegisterAll(objs, Concat(corpus[..i + 1]))
  {
    assert corpus[i][..|corpus[i]|] == corpus[i];
    ConcatPrefixStep(corpus, i);
  }

  /**
   * The selection `most_common(1)` of a counter: a pair with a maximal
   * count, or None when the counter is empty. Ties go to whichever maximal
   * pair the scan meets first; the order of the scan is left open.
   */
  method MostCommon(counts: map<Pair, nat>) returns (best: Option<(Pair, nat)>)
    ensures best.None? <==> counts == map[]
    ensures best.Some? ==> best.value.0 in counts && best.value.1 == counts[best.value.0]
    ensures best.Some? ==> forall q :: q in counts ==> counts[q] <= best.value.1
  {
    best := None;
    var rest := counts.Keys;
    while rest != {}
      invariant rest <= counts.Keys
      invariant best.None? <==> rest == counts.Keys
      invariant best.Some? ==> best.value.0 in counts && best.value.1 == counts[best.value.0]
      invariant best.Some? ==> forall q :: q in counts.Keys - rest ==> counts[q] <= best.value.1
      decreases |rest|
    {
      var q :| q in rest;
      if best.None? || counts[q] > best.value.1 {
        best := Some((q, counts[q]));
      }
      rest := rest - {q};
    }
    if best.None? {
      assert counts.Keys == {};
    }
  }

  class BPE {
    /** The registry the trainer grows. */
    var vocab: Indexer

    constructor (vocab: Indexer)
      ensures this.vocab == vocab
    {
      this.vocab := vocab;
    }

    /** The set of adjacent pairs of a non-empty run. */
    method GetPairs(word: Run) returns (pairs: set<Pair>)
      requires |word| >= 1
      ensures pairs == PairSet(word)
      ensures forall a, b :: (a, b) in pairs <==>
                exists k :: 0 <= k < |word| - 1 && word[k] == a && word[k + 1] == b
      ensures |pairs| <= |word| - 1
    {
      pairs := {};
      var prevChar := word[0];
      assert PairSet(word[..1]) == {};
      for i := 1 to |word|
        invariant prevChar == word[i - 1]
        invariant pairs == PairSet(word[..i])
      {
        PairSetSnoc(word[..i], word[i]);
        assert word[..i + 1] == word[..i] + [word[i]];
        pairs := pairs + {(prevChar, word[i])};
        prevChar := word[i];
      }
      assert word[..|word|] == word;
      PairSetBound(word);
      forall a, b | (a, b) in pairs
        ensures exists k :: 0 <= k < |word| - 1 && word[k] == a && word[k + 1] == b
      {
        var k: nat :| k + 1 < |word| && (a, b) == PairAt(word, k);
      }
      forall a, b, k | 0 <= k < |word| - 1 && word[k] == a && word[k + 1] == b
        ensures (a, b) in pairs
      {
        assert PairAt(word, k) == (a, b);
      }
    }

    /**
     * For every pair, the number of runs longer than one that hold it
     * adjacently; pairs held by no run are absent.
     */
    method CountPairs(D: seq<Run>) returns (pairs: map<Pair, nat>)
      ensures forall p :: p in pairs <==> Count(D, p) > 0
      ensures forall p :: p in pairs ==> pairs[p] == Count(D, p)
    {
      pairs := map[];
      for j := 0 to |D|
        invariant forall p :: p in pairs <==> Count(D[..j], p) > 0
        invariant forall p :: p in pairs ==> pairs[p] == Count(D[..j], p)
      {
        var word := D[j];
        assert D[..j + 1][..j] == D[..j] && D[..j + 1][j] == word;
        if |word| > 1 {
          var wordPairs := GetPairs(word);
          var rest := wordPairs;
          while rest != {}
            invariant rest <= wordPairs
            invariant forall p :: p in pairs <==> Count(D[..j], p) > 0 || p in wordPairs - rest
            invariant forall p :: p in pairs ==>
                        pairs[p] == Count(D[..j], p) + (if p in wordPairs - rest then 1 else 0)
            decreases |rest|
          {
            var pair :| pair in rest;
            pairs := pairs[pair := (if pair in pairs then pairs[pair] else 0) + 1];
            rest := rest - {pair};
          }
        }
      }
      assert D[..|D|] == D;
    }

    /** Every run with non-overlapping occurrences of `pair` replaced by `newIndex`, from the left. */
    method MergeVocab(pair: Pair, D: seq<Run>, newIndex: nat) returns (vOut: seq<Run>)
      ensures vOut == MergeAll(D, pair, newIndex)
      ensures |vOut| == |D|
      ensures forall j :: 0 <= j < |D| ==> vOut[j] == MergeRun(D[j], pair, newIndex)
    {
      vOut := [];
      for j := 0 to |D|
        invariant vOut == MergeAll(D[..j], pair, newIndex)
      {
        var word := D[j];
        var sen: Run := [];
        var i := 0;
        while i < |word|
          invariant 0 <= i <= |word|
          invariant sen + MergeRun(word[i..], pair, newIndex) == MergeRun(word, pair, newIndex)
        {
          var tail := word[i..];
          assert tail[0] == word[i];
          if word[i] == pair.0 && i < |word| - 1 && word[i + 1] == pair.1 {
            assert tail[1] == word[i + 1] && tail[2..] == word[i + 2..];
            sen := sen + [newIndex];
            i := i + 2;
          } else {
            assert tail[1..] == word[i + 1..];
            sen := sen + [word[i]];
            i := i + 1;
          }
        }
        assert word[i..] == [];
        assert sen == MergeRun(D[j], pair, newIndex);
        assert D[..j + 1][..j] == D[..j] && D[..j + 1][j] == D[j];
        vOut := vOut + [sen];
      }
      assert D[..|D|] == D;
      MergeAllAt(D, pair, newIndex);
    }

    /** Phase 1: every token of every sentence is registered, in corpus order. */
    method SeedVocab(corpus: seq<seq<string>>)
      requires vocab.Valid()
      modifies vocab
      ensures vocab.Valid()
      ensures vocab.objs == RegisterAll(old(vocab.objs), Concat(corpus))
    {
      ghost var objs0 := vocab.objs;
      for i := 0 to |corpus|
        invariant vocab.Valid()
        invariant vocab.objs == RegisterAll(objs0, Concat(corpus[..i]))
      {
        var sentence := corpus[i];
        SeedStart(objs0, corpus, i);
        for k := 0 to |sentence|
          invariant vocab.Valid()
          invariant vocab.objs == RegisterAll(objs0, Concat(corpus[..i]) + sentence[..k])
        {
          SeedStep(objs0, corpus, i, k);
          var index := vocab.AddAndGetIndex(sentence[k]);
        }
        SeedEnd(objs0, corpus, i);
      }
      assert corpus[..|corpus|] == corpus;
    }

    /**
     * Phase 2: the corpus as runs of indices; run by run and position by
     * position, each index names the token of the corresponding token run.
     */
    method InitialRuns(corpus: seq<seq<string>>, isAlpha: string -> bool) returns (D: seq<Run>)
      requires vocab.Valid()
      requires forall t :: t in Concat(corpus) ==> t in vocab.objs
      ensures Encodes(D, vocab.objs, SplitCorpus(corpus, isAlpha))
    {
      D := [];
      for i := 0 to |corpus|
        invariant Encodes(D, vocab.objs, SplitCorpus(corpus[..i], isAlpha))
      {
        var sentence := corpus[i];
        ghost var done := SplitCorpus(corpus[..i], isAlpha);
        var words: Run := [];
        for k := 0 to |sentence|
          invariant var r := Split(sentence[..k], isAlpha);
            Encodes(D, vocab.objs, done + r[..|r| - 1]) && EncodesRun(words, vocab.objs, r[|r| - 1])
        {
          var word := sentence[k];
          ConcatMember(corpus, i, k);
          if isAlpha(word) {
            var index := vocab.IndexOf(word).value;
            EncodeAlphaStep(D, vocab.objs, done, sentence, k, words, index, isAlpha);
            words := words + [index];
          } else {
            var index := vocab.IndexOf(word).value;
            EncodeBoundaryStep(D, vocab.objs, done, sentence, k, words, index, isAlpha);
            D := D + [words];
            words := [];
            words := words + [index];
          }
        }
        EncodeSentenceEnd(D, vocab.objs, done, corpus, i, words, isAlpha);
        D := D + [words];
      }
      assert corpus[..|corpus|] == corpus;
    }

    /**
     * Registers the concatenation of the strings of a registered pair and
     * returns the index of that string.
     */
    method AddMergedSymbol(pair: Pair) returns (newIndex: nat)
      requires vocab.Valid() && pair.0 < |vocab.objs| && pair.1 < |vocab.objs|
      modifies vocab
      ensures vocab.Valid()
      ensures vocab.objs == Register(old(vocab.objs), old(vocab.objs)[pair.0] + old(vocab.objs)[pair.1])
      ensures |old(vocab.objs)| <= |vocab.objs| && vocab.objs[..|old(vocab.objs)|] == old(vocab.objs)
      ensures newIndex < |vocab.objs| && vocab.objs[newIndex] == old(vocab.objs)[pair.0] + old(vocab.objs)[pair.1]
    {
      var symbol := vocab.GetObject(pair.0).value + vocab.GetObject(pair.1).value;
      var added := vocab.AddAndGetIndex(symbol);
      newIndex := vocab.IndexOf(symbol).value;
      assert vocab.objs[..|old(vocab.objs)|] == old(vocab.objs);
    }

    /**
     * Phase 3: count, select, register and merge until the registry reaches
     * `length`, no pair is left, or the best pair occurs in at most two runs.
     */
    method MergeLoop(D0: seq<Run>, length: int, ghost seeded: seq<string>, ghost tokenRuns: seq<seq<string>>)
      returns (D: seq<Run>, reason: StopReason, ghost rounds: seq<Round>)
      requires vocab.Valid()
      requires LoopState(D0, vocab.objs, seeded, tokenRuns)
      modifies vocab
      ensures vocab.Valid()
      ensures LoopState(D, vocab.objs, seeded, tokenRuns)
      ensures History(D0, D, rounds, old(vocab.objs), vocab.objs, length)
      ensures reason == ReachedTarget <==> vocab.Len() >= length
      ensures reason == NoPairs ==> forall j :: 0 <= j < |D| ==> |D[j]| <= 1
      ensures reason == TooFewOccurrences ==>
                (exists p :: Count(D, p) > 0) && forall p :: Count(D, p) <= 2
    {
      D := D0;
      reason := ReachedTarget;
      rounds := [];
      ghost var objs0 := vocab.objs;
      while vocab.Len() < length
        invariant vocab.Valid()
        invariant LoopState(D, vocab.objs, seeded, tokenRuns)
        invariant History(D0, D, rounds, objs0, vocab.objs, length)
        invariant reason == ReachedTarget
        decreases Total(D)
      {
        var counts := CountPairs(D);
        var best := MostCommon(counts);
        if best.None? {
          reason := NoPairs;
          EmptyCounterStop(D, counts);
          break;
        }
        if best.value.1 <= 2 {
          reason := TooFewOccurrences;
          LowCountStop(D, counts, best.value.0);
          break;
        }
        var pair := best.value.0;
        CountedPairBelow(D, pair, |vocab.objs|);
        ghost var before := vocab.objs;
        var newIndex := AddMergedSymbol(pair);
        SelectedRound(D0, D, rounds, objs0, seeded, tokenRuns, counts, pair, newIndex, before, vocab.objs, length);
        D := MergeVocab(pair, D, newIndex);
        rounds := rounds + [(pair, newIndex)];
      }
    }

    /**
     * Builds the vocabulary: seeds it, tokenises the corpus, then merges a
     * most frequent pair per round until the registry reaches `length`, no
     * pair is left, or the best pair occurs in at most two runs. Returns the
     * final runs and why the loop stopped.
     */
    method BuildVocab(corpus: seq<seq<string>>, length: int, isAlpha: string -> bool)
      returns (D: seq<Run>, reason: StopReason, ghost initial: seq<Run>, ghost rounds: seq<Round>)
      requires vocab.Valid()
      modifies vocab
      ensures vocab.Valid()
      ensures |old(vocab.objs)| <= |vocab.objs| && vocab.objs[..|old(vocab.objs)|] == old(vocab.objs)
      ensures var seeded := RegisterAll(old(vocab.objs), Concat(corpus));
        |seeded| <= |vocab.objs| && vocab.objs[..|seeded|] == seeded &&
        (forall i :: |seeded| <= i < |vocab.objs| ==> IsMergedSymbol(vocab.objs, i)) &&
        Encodes(initial, seeded, SplitCorpus(corpus, isAlpha)) &&
        vocab.objs == RegisterRounds(seeded, rounds) && RoundsBelowTarget(seeded, rounds, length)
      ensures D == Replay(initial, rounds) && Greedy(initial, rounds)
      ensures RoundsRegistered(vocab.objs, rounds)
      ensures |D| == |SplitCorpus(corpus, isAlpha)| == RunCount(corpus, isAlpha)
      ensures Total(D) + 3 * |rounds| <= |Concat(corpus)|
      ensures IndicesBelow(D, |vocab.objs|)
      ensures forall j :: 0 <= j < |D| ==>
                Spell(D[j], vocab.objs) == Concat(SplitCorpus(corpus, isAlpha)[j])
      ensures reason == ReachedTarget <==> vocab.Len() >= length
      ensures reason == NoPairs ==> forall j :: 0 <= j < |D| ==> |D[j]| <= 1
      ensures reason == TooFewOccurrences ==>
                (exists p :: Count(D, p) > 0) && forall p :: Count(D, p) <= 2
    {
      ghost var objs0 := vocab.objs;
      ValidDistinct(vocab);
      RegisterAllSpec(objs0, Concat(corpus));
      SeedVocab(corpus);
      ghost var seeded := vocab.objs;

      D := InitialRuns(corpus, isAlpha);
      initial := D;
      ghost var tokenRuns := SplitCorpus(corpus, isAlpha);
      InitialRunsFacts(D, vocab.objs, corpus, isAlpha);

      D, reason, rounds := MergeLoop(D, length, seeded, tokenRuns);
      PrefixTrans(objs0, seeded, vocab.objs);
    }
  }
}
