/**
 * The initial tokenisation: each sentence (a sequence of tokens) becomes a
 * sequence of runs. An alphabetic token joins the open run; any other token
 * closes the open run, even an empty one, and opens a new run holding
 * itself, which following alphabetic tokens then join. The classifier
 * `isAlpha` is a parameter.
 */
module Tokenise {
  import opened Runs

  /** The runs of tokens of one sentence, built token by token from the left. */
  function Split(s: seq<string>, isAlpha: string -> bool): (r: seq<seq<string>>)
    ensures |r| >= 1
  {
    if s == [] then [[]]
    else
      var prev := Split(s[..|s| - 1], isAlpha);
      var t := s[|s| - 1];
      if isAlpha(t) then prev[..|prev| - 1] + [prev[|prev| - 1] + [t]]
      else prev + [[t]]
  }

  /** The number of non-alphabetic tokens of a sentence. */
  function NonAlpha(s: seq<string>, isAlpha: string -> bool): nat
  {
    if s == [] then 0
    else NonAlpha(s[..|s| - 1], isAlpha) + (if isAlpha(s[|s| - 1]) then 0 else 1)
  }

  /** The runs of a whole corpus: the runs of each sentence, sentence after sentence. */
  function SplitCorpus(corpus: seq<seq<string>>, isAlpha: string -> bool): seq<seq<string>>
  {
    if corpus == [] then []
    else SplitCorpus(corpus[..|corpus| - 1], isAlpha) + Split(corpus[|corpus| - 1], isAlpha)
  }

  /** The number of runs a corpus yields: one per sentence plus one per non-alphabetic token. */
  function RunCount(corpus: seq<seq<string>>, isAlpha: string -> bool): nat
  {
    if corpus == [] then 0
    else RunCount(corpus[..|corpus| - 1], isAlpha) + 1 + NonAlpha(corpus[|corpus| - 1], isAlpha)
  }

  /** `w` holds, position by position, the registry indices of the tokens `r`. */
  predicate EncodesRun(w: Run, objs: seq<string>, r: seq<string>)
  {
    |w| == |r| && forall k :: 0 <= k < |w| ==> w[k] < |objs| && objs[w[k]] == r[k]
  }

  /** Run by run, `rs` encodes the token runs `tr`. */
  predicate Encodes(rs: seq<Run>, objs: seq<string>, tr: seq<seq<string>>)
  {
    |rs| == |tr| && forall j :: 0 <= j < |rs| ==> EncodesRun(rs[j], objs, tr[j])
  }

  /** A sentence yields one run more than it has non-alphabetic tokens. */
  lemma {:induction false} SplitCount(s: seq<string>, isAlpha: string -> bool)
    ensures |Split(s, isAlpha)| == 1 + NonAlpha(s, isAlpha)
  {
    if s != [] {
      SplitCount(s[..|s| - 1], isAlpha);
    }
  }

  /** Concatenating the runs of a sentence gives back the sentence: no token is lost or added. */
  lemma {:induction false} SplitConcat(s: seq<string>, isAlpha: string -> bool)
    ensures Concat(Split(s, isAlpha)) == s
  {
    if s != [] {
      var init := s[..|s| - 1];
      var t := s[|s| - 1];
      var prev := Split(init, isAlpha);
      SplitConcat(init, isAlpha);
      assert s == init + [t];
      var head := prev[..|prev| - 1];
      var open := prev[|prev| - 1];
      assert prev == head + [open];
      assert Concat(prev) == Concat(head) + open;
      if isAlpha(t) {
        var r := head + [open + [t]];
        assert r[..|r| - 1] == head;
        assert Concat(r) == Concat(head) + (open + [t]);
      } else {
        var r := prev + [[t]];
        assert r[..|r| - 1] == prev;
      }
    }
  }

  /**
   * The shape of the runs: the first holds only alphabetic tokens; every
   * later run starts with a non-alphabetic token followed by alphabetic ones.
   */
  lemma {:induction false} SplitShape(s: seq<string>, isAlpha: string -> bool)
    ensures forall k :: 0 <= k < |Split(s, isAlpha)[0]| ==> isAlpha(Split(s, isAlpha)[0][k])
    ensures forall j :: 1 <= j < |Split(s, isAlpha)| ==>
              Split(s, isAlpha)[j] != [] && !isAlpha(Split(s, isAlpha)[j][0])
    ensures forall j, k :: 0 <= j < |Split(s, isAlpha)| && 1 <= k < |Split(s, isAlpha)[j]| ==>
              isAlpha(Split(s, isAlpha)[j][k])
  {
    if s != [] {
      var init := s[..|s| - 1];
      var t := s[|s| - 1];
      var prev := Split(init, isAlpha);
      SplitShape(init, isAlpha);
      var r := Split(s, isAlpha);
      if isAlpha(t) {
        var m := |prev| - 1;
        assert r == prev[..m] + [prev[m] + [t]];
        assert forall j :: 0 <= j < m ==> r[j] == prev[j];
        assert r[m] == prev[m] + [t];
      } else {
        assert r == prev + [[t]];
        assert forall j :: 0 <= j < |prev| ==> r[j] == prev[j];
      }
    }
  }

  /** A sentence that starts with a non-alphabetic token yields an empty first run. */
  lemma LeadingEmptyRun(s: seq<string>, isAlpha: string -> bool)
    requires |s| >= 1 && !isAlpha(s[0])
    ensures Split(s, isAlpha)[0] == []
  {
    var r := Split(s, isAlpha);
    SplitShape(s, isAlpha);
    SplitConcat(s, isAlpha);
    if r[0] != [] {
      assert r == [r[0]] + r[1..];
      ConcatCons(r[0], r[1..]);
    }
  }

  /**
   * Tokens `a b c e` with `c` the only non-alphabetic one (as in `ab cd . ef`)
   * give the runs `[a, b]` and `[c, e]`: the boundary token opens the second run.
   */
  lemma SplitExample(a: string, b: string, c: string, e: string, isAlpha: string -> bool)
    requires isAlpha(a) && isAlpha(b) && !isAlpha(c) && isAlpha(e)
    ensures Split([a, b, c, e], isAlpha) == [[a, b], [c, e]]
  {
    var s0: seq<string> := [];
    var s1, s2, s3, s4 := s0 + [a], s0 + [a] + [b], s0 + [a] + [b] + [c], s0 + [a] + [b] + [c] + [e];
    var r0 := Split(s0, isAlpha);
    assert r0 == [[]];
    var r1 := Split(s1, isAlpha);
    assert r1 == [[a]] by {
      SplitSnoc(s0, a, isAlpha);
      assert [] + [a] == [a];
    }
    var r2 := Split(s2, isAlpha);
    assert r2 == [[a, b]] by {
      SplitSnoc(s1, b, isAlpha);
      assert [a] + [b] == [a, b];
    }
    var r3 := Split(s3, isAlpha);
    assert r3 == [[a, b], [c]] by {
      SplitSnoc(s2, c, isAlpha);
    }
    var r4 := Split(s4, isAlpha);
    assert r4 == [[a, b], [c, e]] by {
      SplitSnoc(s3, e, isAlpha);
      assert [c] + [e] == [c, e];
      assert r3[..1] == [[a, b]];
    }
    assert s4 == [a, b, c, e];
  }

  /** The step that defines `Split`: the last token joins the open run or opens a new one. */
  lemma SplitSnoc(s: seq<string>, t: string, isAlpha: string -> bool)
    ensures var r := Split(s, isAlpha);
      Split(s + [t], isAlpha) == if isAlpha(t) then r[..|r| - 1] + [r[|r| - 1] + [t]] else r + [[t]]
  {
    assert (s + [t])[..|s|] == s;
  }

  /**
   * Over a whole corpus, the runs number one per sentence plus one per
   * non-alphabetic token, and together they hold exactly the corpus's
   * tokens in order.
   */
  lemma {:induction false} SplitCorpusSpec(corpus: seq<seq<string>>, isAlpha: string -> bool)
    ensures |SplitCorpus(corpus, isAlpha)| == RunCount(corpus, isAlpha)
    ensures Concat(SplitCorpus(corpus, isAlpha)) == Concat(corpus)
  {
    if corpus != [] {
      var init := corpus[..|corpus| - 1];
      var last := corpus[|corpus| - 1];
      SplitCorpusSpec(init, isAlpha);
      SplitCount(last, isAlpha);
      SplitConcat(last, isAlpha);
      ConcatAppend(SplitCorpus(init, isAlpha), Split(last, isAlpha));
    }
  }

  lemma EncodesSnoc(rs: seq<Run>, objs: seq<string>, tr: seq<seq<string>>, w: Run, r: seq<string>)
    requires Encodes(rs, objs, tr) && EncodesRun(w, objs, r)
    ensures Encodes(rs + [w], objs, tr + [r])
  {
    var rs', tr' := rs + [w], tr + [r];
    forall j | 0 <= j < |rs'|
      ensures EncodesRun(rs'[j], objs, tr'[j])
    {
      if j < |rs| {
        assert rs'[j] == rs[j] && tr'[j] == tr[j];
      }
    }
  }

  /** Encoded runs hold as many indices as the token runs hold tokens. */
  lemma {:induction false} EncodesTotal(rs: seq<Run>, objs: seq<string>, tr: seq<seq<string>>)
    requires Encodes(rs, objs, tr)
    ensures Total(rs) == Total(tr)
  {
    if rs != [] {
      var n := |rs| - 1;
      assert Encodes(rs[..n], objs, tr[..n]) by {
        assert forall j :: 0 <= j < n ==> rs[..n][j] == rs[j] && tr[..n][j] == tr[j];
      }
      EncodesTotal(rs[..n], objs, tr[..n]);
      assert EncodesRun(rs[n], objs, tr[n]);
    }
  }

  /** An encoded run spells the concatenation of its tokens. */
  lemma EncodesSpell(w: Run, objs: seq<string>, r: seq<string>)
    requires EncodesRun(w, objs, r)
    ensures forall k :: 0 <= k < |w| ==> w[k] < |objs|
    ensures Spell(w, objs) == Concat(r)
  {
    assert Symbols(w, objs) == r;
  }

  /**
   * One token of the tokenisation loop: with `done` the runs of earlier
   * sentences, the closed runs `rs` and the open run `words` encode the
   * runs of the first `k` tokens; an alphabetic token extends the open run.
   */
  lemma EncodeAlphaStep(rs: seq<Run>, objs: seq<string>, done: seq<seq<string>>,
                        s: seq<string>, k: nat, words: Run, idx: nat, isAlpha: string -> bool)
    requires k < |s| && isAlpha(s[k]) && idx < |objs| && objs[idx] == s[k]
    requires var r := Split(s[..k], isAlpha);
      Encodes(rs, objs, done + r[..|r| - 1]) && EncodesRun(words, objs, r[|r| - 1])
    ensures var r := Split(s[..k + 1], isAlpha);
      Encodes(rs, objs, done + r[..|r| - 1]) && EncodesRun(words + [idx], objs, r[|r| - 1])
  {
    var r := Split(s[..k], isAlpha);
    assert s[..k + 1][..k] == s[..k];
    var r' := Split(s[..k + 1], isAlpha);
    assert r'[..|r'| - 1] == r[..|r| - 1];
    assert r'[|r'| - 1] == r[|r| - 1] + [s[k]];
  }

  /** A non-alphabetic token closes the open run and opens one holding only itself. */
  lemma EncodeBoundaryStep(rs: seq<Run>, objs: seq<string>, done: seq<seq<string>>,
                           s: seq<string>, k: nat, words: Run, idx: nat, isAlpha: string -> bool)
    requires k < |s| && !isAlpha(s[k]) && idx < |objs| && objs[idx] == s[k]
    requires var r := Split(s[..k], isAlpha);
      Encodes(rs, objs, done + r[..|r| - 1]) && EncodesRun(words, objs, r[|r| - 1])
    ensures var r := Split(s[..k + 1], isAlpha);
      Encodes(rs + [words], objs, done + r[..|r| - 1]) && EncodesRun([idx], objs, r[|r| - 1])
  {
    var r := Split(s[..k], isAlpha);
    assert s[..k + 1][..k] == s[..k];
    var r' := Split(s[..k + 1], isAlpha);
    assert r' == r + [[s[k]]];
    EncodesSnoc(rs, objs, done + r[..|r| - 1], words, r[|r| - 1]);
    assert done + r[..|r| - 1] + [r[|r| - 1]] == done + r'[..|r'| - 1];
  }

  /** The end of a sentence closes its open run. */
  lemma EncodeSentenceEnd(rs: seq<Run>, objs: seq<string>, done: seq<seq<string>>,
                          corpus: seq<seq<string>>, i: nat, words: Run, isAlpha: string -> bool)
    requires i < |corpus| && done == SplitCorpus(corpus[..i], isAlpha)
    requires var s := corpus[i]; var r := Split(s[..|s|], isAlpha);
      Encodes(rs, objs, done + r[..|r| - 1]) && EncodesRun(words, objs, r[|r| - 1])
    ensures Encodes(rs + [words], objs, SplitCorpus(corpus[..i + 1], isAlpha))
  {
    var s := corpus[i];
    assert s[..|s|] == s;
    var r := Split(s, isAlpha);
    EncodesSnoc(rs, objs, done + r[..|r| - 1], words, r[|r| - 1]);
    assert done + r[..|r| - 1] + [r[|r| - 1]] == done + r;
    assert corpus[..i + 1][..i] == corpus[..i];
  }
}
