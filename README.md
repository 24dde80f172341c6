# Byte-Pair-Encoding vocabulary trainer, modelled in Dafny

This project models the class `BPE` of `bpe.py` and proves properties of the model. The class trains a Byte-Pair-Encoding vocabulary. It registers every token of a corpus in a symbol registry (an `Indexer`). It cuts each sentence into runs of registry indices. Then it runs rounds until a stop condition holds. Each round counts, for every adjacent pair of indices, the number of runs that hold it. It picks a most frequent pair and registers the concatenation of that pair's two strings as a new symbol. Finally it rewrites every run, replacing non-overlapping occurrences of the pair, from the left, by the new symbol's index.

Layout, one module per file:

- `wrappers.dfy` (`Wrappers`): `Option`, for registry lookups that can miss.
- `indexer.dfy` (`Indexer`): the registry as a class with a sequence of strings and a reverse map. `Register`/`RegisterAll` give its contents as plain values.
- `runs.dfy` (`Runs`): runs, concatenation, the total number of indices, and the text a run spells through the registry (`Spell`).
- `pairs.dfy` (`Pairs`): the set of adjacent pairs of a run (`PairSet`) and the count of runs holding a pair (`Count`).
- `merge.dfy` (`Merge`): the greedy merge of one run (`MergeRun`) and of all runs (`MergeAll`), and its inverse `Expand`.
- `tokenise.dfy` (`Tokenise`): the runs of tokens a sentence yields (`Split`), and how index runs encode them (`Encodes`).
- `bpe.dfy` (`Bpe`): the class `BPE`. Its methods keep the source's loops: `GetPairs`, `CountPairs`, `MergeVocab` and `BuildVocab`. `BuildVocab`'s three phases are written as `SeedVocab`, `InitialRuns` and `MergeLoop`, and the registration of a merged symbol as `AddMergedSymbol`. `MostCommon` stands for `Counter.most_common(1)`.

Every loop method is proved against the functions above. The properties of those functions are proved as lemmas.

The source of `Indexer` is not available. The class `Indexer.Indexer` is an abstract stand-in: a bijection between a `seq<string>` and a `map<string, nat>`. Its contracts give only what `bpe.py` relies on:
- registration is idempotent and otherwise appends;
- `index_of` is defined for registered strings;
- `get_object` is defined for indices in range;
- `len` is the number of registered symbols.

These are **assumptions** about the real `Indexer`. They are proved about the stand-in, not about the real class.

The classifier `str.isalpha` is modelled as a function parameter `isAlpha: string -> bool`. Nothing is assumed about it.

The tokenisation follows the code, not the usual description of it. A non-alphabetic token closes the open run and appends it, even when it is empty. It then opens a new run that holds the token itself, and the alphabetic tokens that follow join that run (bpe.py:81-84). So `ab cd . ef` gives two runs, `[ab, cd]` and `[., ef]`, not three. A sentence that starts with a non-alphabetic token gives an empty first run (`Tokenise.SplitExample`, `Tokenise.LeadingEmptyRun`).

`build_vocab` returns nothing and discards its local `D`. `BPE.BuildVocab` and `BPE.MergeLoop` also return the final runs and a `StopReason`. Without these outputs the postcondition could not name the three stop cases. They also return, as ghost values, the initial runs and the rounds the loop performed, each a merged pair and the index of its symbol (`Bpe.Round`). `Bpe.Replay` applies rounds to runs, `Bpe.RegisterRounds` applies them to the registry, and `Bpe.Greedy` states the selection rule round by round.

## Model

| member | source | states |
|---|---|---|
| `Indexer.Indexer.AddAndGetIndex` | bpe.py:98 | registering a known string leaves the registry unchanged and returns its index; a new string is appended and gets the old size as its index (assumed `Indexer` behaviour) |
| `Indexer.Indexer.IndexOf` | bpe.py:99 | the index of a string is defined exactly when the string is registered, and it names that string (assumed) |
| `Indexer.Indexer.GetObject` | bpe.py:97 | the string of an index is defined exactly when the index is in range, and looking that string up gives the index back (assumed) |
| `Indexer.Indexer.Len` | bpe.py:87 | the size is the number of registered strings (assumed) |
| `Indexer.Indexer.constructor` | bpe.py:115 | a new registry is empty and consistent (assumed) |
| `Indexer.RegisterIdempotent` | bpe.py:70 | registering the same string twice equals registering it once |
| `Indexer.RegisterAllSpec` | bpe.py:68-70 | seeding keeps the old registry as a prefix, registers every token, adds nothing else and keeps the entries distinct |
| `Indexer.ValidDistinct` | bpe.py:98 | no string is registered twice |
| `Bpe.BPE.constructor` | bpe.py:6-7 | the trainer holds the registry it was given |
| `Bpe.BPE.GetPairs` | bpe.py:9-20 | for a non-empty run, the result holds exactly the pairs `(word[k], word[k+1])`, and at most `|word| - 1` of them |
| `Pairs.PairSetBound` | bpe.py:15-20 | a run of length n >= 1 has at most n - 1 distinct adjacent pairs |
| `Bpe.BPE.CountPairs` | bpe.py:22-34 | a pair is a key exactly when some run longer than one holds it, and its value is the number of such runs |
| `Pairs.CountIsRunsWith` | bpe.py:28-34 | the count of a pair is the size of the set of runs that contribute to it, so it never exceeds the number of runs |
| `Pairs.CountPositive` | bpe.py:29-33 | a count is positive exactly when some run contributes to the pair |
| `Pairs.FirstPairContributes` | bpe.py:30-31 | a run of length at least two contributes to its first pair |
| `Pairs.NoPairShortRuns` | bpe.py:94-96 | when no pair is counted, every run has at most one index |
| `Pairs.CountedPairBelow` | bpe.py:97 | both halves of a counted pair lie below any bound that holds for every index in the runs; with the registry size as the bound, both are registered |
| `Bpe.MostCommon` | bpe.py:89 | the selection is undefined exactly for an empty counter; otherwise it is a key with its count, and no count is larger |
| `Bpe.BPE.MergeVocab` | bpe.py:36-56 | one output run per input run, in order, each the greedy left-to-right merge of its input |
| `Merge.MergeAllAt` | bpe.py:44-45 | merging all runs keeps their number and merges each run in place |
| `Merge.MergeRunShrinks` | bpe.py:47-54 | a merged run is never longer than its input, and strictly shorter when the pair occurs in it |
| `Merge.MergeRunUnchanged` | bpe.py:47-54 | a run in which the pair does not occur adjacently comes back unchanged |
| `Merge.MergeRunElements` | bpe.py:48-54 | every output index is the new index or an index of the input run |
| `Merge.MergeRunGreedy` | bpe.py:49-51 | `[x, x, x]` with pair `(x, x)` becomes `[n, x]`: matches never overlap and are taken from the left |
| `Merge.ExpandMergeRun` | bpe.py:48-54 | when the new index does not occur in the run, expanding it into the pair gives back the input, so copied indices keep their order |
| `Merge.ExpandMergeRunKept` | bpe.py:48-54 | when the new index is neither half of the pair, expanding the merged run gives the same result as expanding the input, even if the index already occurs in the run, so copied indices keep their order |
| `Merge.MergeRunExhaustive` | bpe.py:48-54 | when the new index is neither half of the pair, no adjacent occurrence of the pair survives the merge |
| `Merge.MergeAllShrinks` | bpe.py:99 | one merge lowers the total number of indices by at least the pair's count |
| `Merge.MergeAllIndicesBelow` | bpe.py:99 | merging into a registered index keeps every index registered |
| `Merge.MergeRunSpells` | bpe.py:97-99 | when the new index names the concatenation of the pair's strings, a merge does not change the text the run spells |
| `Runs.SpellExtend` | bpe.py:98 | growing the registry does not change the text a run spells |
| `Bpe.BPE.SeedVocab` | bpe.py:68-70 | phase 1 leaves the registry equal to the old one with every corpus token registered, in corpus order |
| `Bpe.BPE.InitialRuns` | bpe.py:75-85 | phase 2 gives runs of indices, and each index names the corresponding token of the corpus's token runs |
| `Tokenise.Split` | bpe.py:77-85 | a sentence always yields at least one run |
| `Tokenise.SplitCount` | bpe.py:81-85 | a sentence yields one run plus one per non-alphabetic token |
| `Tokenise.SplitConcat` | bpe.py:78-85 | concatenating a sentence's runs gives back the sentence: no token is lost, added or reordered |
| `Tokenise.SplitShape` | bpe.py:79-84 | the first run holds only alphabetic tokens; every later run starts with a non-alphabetic token and holds only alphabetic ones after it |
| `Tokenise.LeadingEmptyRun` | bpe.py:81-83 | a sentence that starts with a non-alphabetic token yields an empty first run |
| `Tokenise.SplitExample` | bpe.py:79-85 | alphabetic `a`, `b`, `e` around a non-alphabetic `c` give the runs `[a, b]` and `[c, e]` |
| `Tokenise.SplitCorpusSpec` | bpe.py:75-85 | the corpus yields one run per sentence plus one per non-alphabetic token, holding exactly the corpus's tokens in order |
| `Tokenise.EncodesTotal` | bpe.py:80-84 | index runs that encode token runs hold as many indices as there are tokens |
| `Tokenise.EncodesSpell` | bpe.py:80-84 | an encoded run spells the concatenation of its tokens |
| `Bpe.InitialRunsFacts` | bpe.py:75-85 | after phase 2 the total number of indices equals the number of corpus tokens, and every run spells its tokens |
| `Bpe.RegistryRound` | bpe.py:97-98 | registering the concatenation of two registered strings keeps the registry a growing prefix, and every entry after the seeded ones is the concatenation of two earlier entries |
| `Bpe.MergeRound` | bpe.py:97-99 | one round keeps the loop state and lowers the total number of indices by at least the pair's count |
| `Bpe.EmptyCounterStop` | bpe.py:94-96 | an empty counter means every run has at most one index |
| `Bpe.LowCountStop` | bpe.py:90-92 | when a most frequent pair occurs in at most two runs, every pair does |
| `Bpe.SelectedIsMaximal` | bpe.py:89 | the pair `most_common(1)` selects has a count no pair exceeds, counted or not |
| `Bpe.GreedySnoc` | bpe.py:87-99 | a further round that merges a maximal pair counted more than twice extends a history of such rounds, and replaying the longer history merges that pair into the runs the shorter one gives |
| `Bpe.RoundsRegisteredStep` | bpe.py:97-98 | growing the registry keeps every earlier round's index naming its pair's concatenation, and the new round's index names its own |
| `Bpe.RegisterRoundsGrowth` | bpe.py:97-98 | registering the rounds' symbols keeps the registry as a prefix and adds at most one entry per round |
| `Bpe.RegisterRoundsSnoc` | bpe.py:87-98 | a round that starts below `length` and registers its pair's concatenation extends the folded registry by exactly that registration, and every round still began below `length` |
| `Bpe.HistoryRound` | bpe.py:87-99 | one round that starts below `length` extends the history. The registry is the start registry with the rounds' concatenations registered in order. Every round began below `length`. The runs are the replayed rounds. Every round followed the selection rule and registered its symbol, and each removed at least three indices |
| `Bpe.SelectedRound` | bpe.py:87-99 | while the registry is below `length`, merging the selected pair keeps the loop state, extends the history and strictly lowers the total number of indices |
| `Bpe.BPE.AddMergedSymbol` | bpe.py:97-98 | the concatenation of the pair's two strings is registered, the old registry stays a prefix, and the returned index names that concatenation |
| `Bpe.BPE.MergeLoop` | bpe.py:87-99 | the loop stops only on these conditions: size at least `length`; no run longer than one; or some pair counted but none in more than two runs. The final registry is the input registry with each round's concatenation registered, in order, and nothing else. Every round began while the registry was below `length`. The final runs are the recorded rounds replayed on the input runs. In every round the merged pair had a maximal count, above two, in the runs of that round, and the round's index names the concatenation of the pair's strings. Each round removed at least three indices. The loop state is kept |
| `Bpe.BPE.BuildVocab` | bpe.py:58-100 | the registry only grows; it holds the seeded tokens and then only concatenations of two earlier entries. The final registry is the seeded one with each round's concatenation registered, in order, and every round began while the registry was below `length`. The initial runs encode the corpus's token runs through the seeded registry. The final runs are the recorded greedy rounds replayed on them. They keep their number and spell their original token runs. Their total is at most the token count minus three per round. The stop reasons are those of `MergeLoop` |

## Left out

- The `__main__` block (bpe.py:102-119) loads a dataset, which is external I/O.
- The `print` progress messages are console output only.
- The internals of `Indexer` are not modelled; `indexer.dfy` is not a model of that file. Its behaviour is assumed as stated above.
- The tie-break of `Counter.most_common(1)` depends on the iteration order of Python dicts and sets. `Bpe.MostCommon` may return any pair of maximal count.
- The Unicode semantics of `str.isalpha` are not modelled; the classifier is an uninterpreted parameter.
- `Bpe.BPE.GetPairs`: requires a non-empty run. On an empty one the source raises `IndexError` at `word[0]`, and `count_pairs` only calls it with runs longer than one.
- `Bpe.BPE.CountPairs`: the source iterates the set of a run's pairs in Python's set order. The model takes the elements in an arbitrary order, which does not affect the counts.
