# Sentiment-lexicon builder, modelled in Dafny

This project models the core of a Java system that builds a sentiment lexicon
from a corpus of tweets and then classifies tweets with it. It covers six parts:

- **Raw-tweet admission filter** (`TweetFilterer`). A chain of rejection rules
  decides whether a tweet is kept. A deduplicating pass then writes each kept
  tweet whose filtered form has not been seen. The map of seen forms is thinned
  every ten million lines.
- **Canonical dictionary** (`CanonicalDictionary`). Words are grouped by the
  canonical form they reduce to, with a count per spelling. Rare forms and
  spellings are pruned, and the survivors are listed per form.
- **N-gram counting trie** (`TweetNGramsPMI`). Every tweet is split into
  sentences and then whitespace tokens. Every window of at most `n` tokens is
  counted along a path of a word trie. The trie is pruned every 200000 lines.
  At the end, the frequent phrases are read out with a PMI-style score and
  filtered against intensifiers and stop words.
- **Phrase graph and propagation** (`Graph`). Phrase nodes collect mirrored
  left/right context counts. Similarity pairs at or above a threshold become
  undirected weighted edges. Sentiment spreads from seed phrases of a prior
  polarity lexicon for `pathLength` breadth-first rounds, each node passing its
  running score times the edge weight to its `neighborLimit` heaviest
  neighbours. The phrase→score lexicon is read out.
- **Classifier** (`Classifier`). A marking pass gives every token one role, in
  this priority: a lexicon value, a negator whose scope runs to the end of the
  sentence or `NEGATION_SCOPE_LENGTH` tokens, or an intensifier of the next
  token. The token values are then summed and bucketed by two thresholds.
- **Classifier options** (`ClassifierOptions`). These are the word-list
  membership tests, the special-class-word test, and the named numeric
  variables.

Modules:

| Dafny file | module | models |
|---|---|---|
| `text.dfy` | `Text` | the `String` operations the core uses: `trim`, whitespace split and join, ASCII lower-casing, `contains`/`startsWith` |
| `java_num.dfy` | `JavaNum` | Java's `(int)` cast of a non-integral value and `int` division, both truncating toward zero |
| `wrappers.dfy` | `Wrappers` | `Option` |
| `graph_model.dfy` | `PhraseGraph` | nodes, context updates and edge creation as functions on the node map, and the invariants they keep |
| `graph_propagation.dfy` | `Propagation` | top-k neighbour choice, one send, one round, a seed walk and all seeds, and the bounds on what they touch |
| `graph.dfy` | `LexiconGraph` | the `Graph` class: its node map updated in place by methods proved against those functions |
| `graph_scenarios.dfy` | `GraphScenarios` | small graphs worked through, including one that shows seeds are not additive |
| `ngram_trie.dfy` | `NGramTrie` | the trie as a class whose counts the methods update in place, with increment, lookup, recursive pruning and phrase extraction |
| `tweet_ngrams.dfy` | `TweetNGrams` | sentence split, windowing, the per-tweet loop with periodic pruning, and `getFrequentNGrams` |
| `canonical_dictionary.dfy` | `CanonicalDictionary` | counting, `removeInfrequent`, the tweet loop and the options projection |
| `classifier_options.dfy` | `ClassifierOptions` | the options object and its predicates |
| `classifier.dfy` | `Classifier` | the marking pass over an array of tokens, the sum and the threshold hand-off |
| `tweet_filterer.dfy` | `TweetFilterer` | `shouldInclude`, the `endsWithNumber` pattern, and the dedup loop of `rawTweetCleaner` |

Two points where the code does something other than what a reader might
expect:

- Sentiment propagation is not additive over seeds. The javadoc of
  `propagateSentiment` (Graph.java:76-80) describes each seed spreading its
  score along paths, so one might expect that running seeds together equals
  the sum of running each alone. It does not, because a node passes on its
  running total (line 99), and that total includes what earlier seeds sent
  it. The model follows the code. `GraphScenarios.SeedsNotAdditive`
  exhibits this: two seeds joined by one edge leave a score of 3 together,
  but 1 + 1 when run separately.
- In `getCoOccurrences`, line 57 fills the even column 2j of row i with node
  i's left score for node j. Line 58, which fills the odd column beside it,
  reads node j's right score for node j's own phrase and ignores i. By the
  parallel with line 57, it evidently means node i's right score for node j.
  The model gives both readings and builds the matrix from the intended one
  (see Findings, and the `GetCoOccurrences` line under Left out).

## Model

Paths are relative to the repository root. `Graph.java` is
`src/com/freva/masteroppgave/lexicon/graph/Graph.java`, and the others are
named in full.

| member | source | states |
|---|---|---|
| LexiconGraph.Graph.constructor | src/com/freva/masteroppgave/lexicon/graph/Graph.java:20-24 | a new graph has no nodes and no prior lexicon, stores the three parameters, and satisfies the graph invariant |
| LexiconGraph.Graph.UpdatePhraseContext | src/com/freva/masteroppgave/lexicon/graph/Graph.java:27-38 | the node map becomes `WithContext` of the old map, and the invariant (closed, mirrored, symmetric, edges above threshold) is kept |
| PhraseGraph.WithContextNodes | src/com/freva/masteroppgave/lexicon/graph/Graph.java:27-35 | the key set gains exactly `token1` and `token2`; every other node is unchanged; an existing node keeps its neighbours and score; no context entry is lost |
| PhraseGraph.WithContextScores | src/com/freva/masteroppgave/lexicon/graph/Graph.java:36-37 | `token1` records (`scoreLeft`, `scoreRight`) against `token2` and `token2` records them swapped against `token1`; both updates land on the same entry when the tokens coincide; every other entry is unchanged |
| PhraseGraph.WithContextMirrored | src/com/freva/masteroppgave/lexicon/graph/Graph.java:36-37 | if every left score of a for b equals the right score of b for a, that still holds after an update |
| PhraseGraph.WithContextClosed | src/com/freva/masteroppgave/lexicon/graph/Graph.java:27-37 | context entries and edge targets stay phrases of the graph |
| LexiconGraph.WithContextKeepsEdges | src/com/freva/masteroppgave/lexicon/graph/Graph.java:27-37 | context updates keep the edge lists symmetric and above the threshold |
| LexiconGraph.Graph.SetPriorPolarityLexicon | src/com/freva/masteroppgave/lexicon/graph/Graph.java:45-47 | the lexicon is stored and the nodes are untouched |
| LexiconGraph.Graph.CreateEdges | src/com/freva/masteroppgave/lexicon/graph/Graph.java:65-72 | the node map becomes `WithEdges` of the old map under the stored threshold, and the invariant is kept |
| PhraseGraph.WithEdges | src/com/freva/masteroppgave/lexicon/graph/Graph.java:65-72 | edge creation never adds or removes a phrase |
| PhraseGraph.AddPairEdges | src/com/freva/masteroppgave/lexicon/graph/Graph.java:67-70 | a pair below the threshold changes nothing; at or above it, each endpoint's list gets exactly one edge to the other endpoint with the pair's weight, appended (two for a self-pair); no other list changes |
| PhraseGraph.AddPairCount | src/com/freva/masteroppgave/lexicon/graph/Graph.java:67-70 | the number of copies of any edge a→b of weight w grows by exactly the copies the accepted pair contributes |
| PhraseGraph.WithEdgesAppends | src/com/freva/masteroppgave/lexicon/graph/Graph.java:65-72 | every old edge list is a prefix of the new one, and the new list is longer by exactly the number of accepted pairs that end at that phrase |
| PhraseGraph.WithEdgesKeepsRest | src/com/freva/masteroppgave/lexicon/graph/Graph.java:65-72 | edge creation changes no context and no score |
| PhraseGraph.AddPairSymmetric | src/com/freva/masteroppgave/lexicon/graph/Graph.java:69-70 | one accepted pair keeps the edge multiset symmetric: a→b of weight w as often as b→a |
| PhraseGraph.WithEdgesSymmetric | src/com/freva/masteroppgave/lexicon/graph/Graph.java:65-72 | the whole pass keeps the edge multiset symmetric |
| PhraseGraph.WithEdgesAboveThreshold | src/com/freva/masteroppgave/lexicon/graph/Graph.java:67 | no edge below the threshold is ever created |
| PhraseGraph.WithEdgesClosed | src/com/freva/masteroppgave/lexicon/graph/Graph.java:65-72 | edges only point to phrases of the graph |
| LexiconGraph.Graph.PropagateSentiment | src/com/freva/masteroppgave/lexicon/graph/Graph.java:81-106 | the seeds are distinct and are exactly the lexicon phrases that are nodes; the new node map is `Propagated` over the seeds in the order taken; the invariant is kept |
| LexiconGraph.Graph.WalkFrom | src/com/freva/masteroppgave/lexicon/graph/Graph.java:89-103 | one seed's walk: the node map becomes `SeedWalk` (credit the seed, then `pathLength` rounds) |
| LexiconGraph.Graph.RunRound | src/com/freva/masteroppgave/lexicon/graph/Graph.java:94-102 | popping exactly the queued phrases and appending their targets yields `Round`: the same scores and the next frontier |
| LexiconGraph.Graph.SendAlong | src/com/freva/masteroppgave/lexicon/graph/Graph.java:98-101 | the chosen edges are credited in order, and their targets are appended to the queue in order |
| LexiconGraph.PropagatedSnoc | src/com/freva/masteroppgave/lexicon/graph/Graph.java:88-106 | adding one seed runs its walk on the scores the earlier seeds left |
| LexiconGraph.RoundSnoc | src/com/freva/masteroppgave/lexicon/graph/Graph.java:94-101 | one more popped phrase sends to its top neighbours and extends the next frontier by their targets |
| LexiconGraph.ShapeKeepsInvariants | src/com/freva/masteroppgave/lexicon/graph/Graph.java:81-106 | anything that changes scores only keeps the graph invariant |
| LexiconGraph.Graph.GetLexicon | src/com/freva/masteroppgave/lexicon/graph/Graph.java:113-120 | the lexicon's keys are exactly the node phrases, each mapped to its node's score |
| LexiconGraph.Graph.ListPhrases | src/com/freva/masteroppgave/lexicon/graph/Graph.java:122-124 | the listing holds every phrase exactly once |
| LexiconGraph.Graph.GetCoOccurrences | src/com/freva/masteroppgave/lexicon/graph/Graph.java:52-62 | a fresh \|nodes\| × 2\|nodes\| matrix over a listing of every phrase once; cell (i, 2j) is i's left score for j and (i, 2j+1) is i's right score for j (corrected form, see Findings) |
| LexiconGraph.CoOccurrenceMirrored | src/com/freva/masteroppgave/lexicon/graph/Graph.java:52-62 | on a mirrored graph the corrected matrix is mirrored: cell (i, 2j) equals cell (j, 2i+1) |
| LexiconGraph.AsWrittenIgnoresRow | src/com/freva/masteroppgave/lexicon/graph/Graph.java:58 | as written, every odd column is the same in every row |
| LexiconGraph.AsWrittenLosesRightCounts | src/com/freva/masteroppgave/lexicon/graph/Graph.java:58 | after one context update "a"–"b" with scores 1 and 2, the as-written cell (0, 3) is 0 where a's right score for b is 2 |
| Propagation.InsertByWeight | src/com/freva/masteroppgave/lexicon/graph/Graph.java:96 | inserting an edge yields a permutation of the list plus that edge |
| Propagation.InsertKeepsSorted | src/com/freva/masteroppgave/lexicon/graph/Graph.java:96 | insertion into a heaviest-first list keeps it heaviest-first |
| Propagation.SortByWeight | src/com/freva/masteroppgave/lexicon/graph/Graph.java:96 | the neighbour queue's order is a permutation of the edges, heaviest first |
| Propagation.TopNeighbors | src/com/freva/masteroppgave/lexicon/graph/Graph.java:96 | the chosen edges number min(`neighborLimit`, degree) and are a sub-multiset of the node's edges |
| Propagation.TopNeighborsChoice | src/com/freva/masteroppgave/lexicon/graph/Graph.java:96 | the chosen edges are heaviest first, and no edge left out is heavier than a chosen one |
| Propagation.SortedPrefix | src/com/freva/masteroppgave/lexicon/graph/Graph.java:96 | any prefix of the sorted edges is sorted, drawn from the edges, and leaves out nothing heavier |
| Propagation.Targets | src/com/freva/masteroppgave/lexicon/graph/Graph.java:100 | each chosen edge appends exactly one phrase to the queue |
| Propagation.CreditScore | src/com/freva/masteroppgave/lexicon/graph/Graph.java:92 | crediting a phrase adds the amount to its score and to no other |
| Propagation.SendWithoutSelfLoop | src/com/freva/masteroppgave/lexicon/graph/Graph.java:98-100 | without a self-loop among the chosen edges, every phrase gains the sender's score times its total chosen weight |
| Propagation.SendReceives | src/com/freva/masteroppgave/lexicon/graph/Graph.java:98-100 | when no chosen edge points back to the sender, a phrase's new score is its old score plus what it receives from the chosen edges |
| Propagation.ReceivedIsProduct | src/com/freva/masteroppgave/lexicon/graph/Graph.java:99 | what a phrase receives is the sender's score times the sum of the chosen weights to it |
| Propagation.SendLastEdge | src/com/freva/masteroppgave/lexicon/graph/Graph.java:99 | the last chosen edge adds the sender's current score times its weight to its target only |
| Propagation.SendCreditsTargets | src/com/freva/masteroppgave/lexicon/graph/Graph.java:98-100 | a phrase that no chosen edge reaches keeps its score |
| Propagation.SendShape | src/com/freva/masteroppgave/lexicon/graph/Graph.java:98-100 | sending changes scores only: keys, contexts and edges stay |
| Propagation.RoundShape | src/com/freva/masteroppgave/lexicon/graph/Graph.java:94-101 | a round changes scores only |
| Propagation.RoundsShape | src/com/freva/masteroppgave/lexicon/graph/Graph.java:93-103 | any number of rounds changes scores only |
| Propagation.PropagatedShape | src/com/freva/masteroppgave/lexicon/graph/Graph.java:81-106 | propagation over all seeds changes scores only |
| Propagation.RoundFrontierSize | src/com/freva/masteroppgave/lexicon/graph/Graph.java:94-101 | the next frontier has exactly Σ min(`neighborLimit`, degree) phrases over the popped ones |
| Propagation.RoundStaysAdjacent | src/com/freva/masteroppgave/lexicon/graph/Graph.java:94-101 | a round's next frontier, and every score it changes, lie one hop from the current frontier |
| Propagation.SendOutside | src/com/freva/masteroppgave/lexicon/graph/Graph.java:98-100 | sending changes no score outside the chosen targets' set |
| Propagation.RoundsHopBound | src/com/freva/masteroppgave/lexicon/graph/Graph.java:93-103 | after k rounds, the frontier and every changed score lie within k hops of the start |
| Propagation.SeedWalkHopBound | src/com/freva/masteroppgave/lexicon/graph/Graph.java:89-103 | a phrase more than `pathLength` hops from the seed keeps its score |
| Propagation.BallShape | src/com/freva/masteroppgave/lexicon/graph/Graph.java:93-103 | the k-hop neighbourhood is the same in graphs that differ only in scores |
| GraphScenarios.FirstRound | src/com/freva/masteroppgave/lexicon/graph/Graph.java:92-101 | a one-round walk is: credit the seed, then send along its top neighbours |
| GraphScenarios.OneSender | src/com/freva/masteroppgave/lexicon/graph/Graph.java:94-101 | a round from one phrase sends along its chosen edges, and their targets form the next frontier |
| GraphScenarios.TwoSenders | src/com/freva/masteroppgave/lexicon/graph/Graph.java:94-101 | the second phrase of a round sends using the scores the first left |
| GraphScenarios.TwoRounds | src/com/freva/masteroppgave/lexicon/graph/Graph.java:93-101 | the second round starts from the first round's frontier and scores |
| GraphScenarios.StarOneRound | src/com/freva/masteroppgave/lexicon/graph/Graph.java:88-103 | seed "good" (3) with edges 0.8 and 0.4, limit 2, one round: scores 3, 2.4 and 1.2 |
| GraphScenarios.StarOneNeighbor | src/com/freva/masteroppgave/lexicon/graph/Graph.java:96-100 | with limit 1 only the heavier neighbour receives: 2.4 and 0 |
| GraphScenarios.PathTwoRounds | src/com/freva/masteroppgave/lexicon/graph/Graph.java:93-103 | two rounds reach "awesome", two hops away, with 3 · 0.8 · 0.5 = 1.2 |
| GraphScenarios.EdgeWalk | src/com/freva/masteroppgave/lexicon/graph/Graph.java:89-101 | across a single edge of weight 1, the neighbour receives the seed's whole credited score |
| GraphScenarios.OneSeed | src/com/freva/masteroppgave/lexicon/graph/Graph.java:88-103 | propagation from one seed is that seed's walk |
| GraphScenarios.TwoSeeds | src/com/freva/masteroppgave/lexicon/graph/Graph.java:88-103 | the second seed walks on the scores the first left |
| GraphScenarios.SeedsNotAdditive | src/com/freva/masteroppgave/lexicon/graph/Graph.java:88-103 | two seeds joined by an edge: "a" ends at 3 when both run, but at 1 and 1 when each runs alone |
| NGramTrie.Root | src/com/freva/masteroppgave/preprocessing/preprocessors/TweetNGramsPMI.java:63 | the fresh trie (a root of count 0) is well formed |
| NGramTrie.NGramTree.constructor | src/com/freva/masteroppgave/preprocessing/preprocessors/TweetNGramsPMI.java:63 | a new tree holds the root only, and the tree invariant holds |
| NGramTrie.NGramTree.IncrementNGram | src/com/freva/masteroppgave/preprocessing/preprocessors/TweetNGramsPMI.java:65-77 | the counts become `Incremented`: the root and every node on the n-gram's path gain 1, missing nodes are created, and the tree invariant is kept |
| NGramTrie.IncrementedWellFormed | src/com/freva/masteroppgave/preprocessing/preprocessors/TweetNGramsPMI.java:65-77 | incrementing keeps the trie prefix-closed, non-negative, and every child's count at most its parent's |
| NGramTrie.IncrementedRoot | src/com/freva/masteroppgave/preprocessing/preprocessors/TweetNGramsPMI.java:66-67 | the empty n-gram adds 1 to the root only |
| NGramTrie.IncrementedSnoc | src/com/freva/masteroppgave/preprocessing/preprocessors/TweetNGramsPMI.java:69-76 | one more word adds 1 to that child, starting from 0 if it was missing, and leaves the rest as for the shorter n-gram |
| NGramTrie.IncrementedReaches | src/com/freva/masteroppgave/preprocessing/preprocessors/TweetNGramsPMI.java:65-77 | after an increment the n-gram's node exists with a count of at least 1 |
| NGramTrie.InPathTo | src/com/freva/masteroppgave/preprocessing/preprocessors/TweetNGramsPMI.java:65-77 | the nodes incremented are exactly the prefixes of the n-gram |
| NGramTrie.IncrementThenFind | src/com/freva/masteroppgave/preprocessing/preprocessors/TweetNGramsPMI.java:65-89 | after incrementing an n-gram of words, splitting its joined phrase finds a node |
| NGramTrie.AncestorAtLeast | src/com/freva/masteroppgave/preprocessing/preprocessors/TweetNGramsPMI.java:65-77 | in a well-formed trie every ancestor exists and counts at least as much |
| NGramTrie.NGramTree.GetNode | src/com/freva/masteroppgave/preprocessing/preprocessors/TweetNGramsPMI.java:79-89 | the lookup follows the whitespace-split words and finds a node exactly when that path exists |
| NGramTrie.ChildWords | src/com/freva/masteroppgave/preprocessing/preprocessors/TweetNGramsPMI.java:151-153 | the children of a node are exactly the words that extend its path |
| NGramTrie.RemoveSubtree | src/com/freva/masteroppgave/preprocessing/preprocessors/TweetNGramsPMI.java:156 | removing a child drops exactly the paths through it |
| NGramTrie.NGramTree.PruneInfrequent | src/com/freva/masteroppgave/preprocessing/preprocessors/TweetNGramsPMI.java:91-93 | the counts become `Pruned(old, limit)`, and the tree invariant is kept |
| NGramTrie.NGramTree.PruneChildren | src/com/freva/masteroppgave/preprocessing/preprocessors/TweetNGramsPMI.java:150-161 | pruning below a node removes each child under the limit with its subtree, and recurses into the others |
| NGramTrie.PartlyPrunedAll | src/com/freva/masteroppgave/preprocessing/preprocessors/TweetNGramsPMI.java:150-161 | handling every child in turn, in any order, gives the pruned subtree |
| NGramTrie.RemoveStep | src/com/freva/masteroppgave/preprocessing/preprocessors/TweetNGramsPMI.java:155-156 | removing an infrequent child is that child's turn of the loop |
| NGramTrie.RecurseStep | src/com/freva/masteroppgave/preprocessing/preprocessors/TweetNGramsPMI.java:157-158 | recursing into a frequent child is that child's turn of the loop |
| NGramTrie.PrunedWellFormed | src/com/freva/masteroppgave/preprocessing/preprocessors/TweetNGramsPMI.java:150-161 | pruning keeps the trie well formed |
| NGramTrie.PrunedExactly | src/com/freva/masteroppgave/preprocessing/preprocessors/TweetNGramsPMI.java:150-161 | after pruning, a path is left exactly when it was there and it is the root or its count reaches the limit; its count is unchanged |
| NGramTrie.NGramTree.AddFrequentPhrases | src/com/freva/masteroppgave/preprocessing/preprocessors/TweetNGramsPMI.java:163-177 | the map gains exactly the phrases below the prefix whose every level, and the node of every level's last word, reach the limit, each scored by `Pmi` |
| NGramTrie.NGramTree.AddChildPhrases | src/com/freva/masteroppgave/preprocessing/preprocessors/TweetNGramsPMI.java:165-174 | one child's turn: if the child and its last word's node are frequent, the child's phrase gets its score and the recursion adds its own frequent phrases; otherwise nothing changes |
| NGramTrie.LastLevel | src/com/freva/masteroppgave/preprocessing/preprocessors/TweetNGramsPMI.java:165-168 | every collected phrase has a count, and a last word's count, that reach the limit |
| NGramTrie.ThroughChild | src/com/freva/masteroppgave/preprocessing/preprocessors/TweetNGramsPMI.java:164-173 | every phrase collected below a node passes through a frequent child of it |
| NGramTrie.BelowChild | src/com/freva/masteroppgave/preprocessing/preprocessors/TweetNGramsPMI.java:173 | below a taken child, the phrases collected are those collected from the parent through it |
| NGramTrie.AllChildren | src/com/freva/masteroppgave/preprocessing/preprocessors/TweetNGramsPMI.java:164-176 | the loop over all children collects every phrase below the node |
| NGramTrie.RootChildKeys | src/com/freva/masteroppgave/preprocessing/preprocessors/TweetNGramsPMI.java:98-103 | the phrases starting with a top-level word are the word itself if its count reaches the limit, plus those its recursion collects |
| NGramTrie.AllRootChildren | src/com/freva/masteroppgave/preprocessing/preprocessors/TweetNGramsPMI.java:98-104 | the loop over the root's children yields `NGrams`: frequent unigrams scored by their count, and longer phrases by `Pmi` |
| NGramTrie.FilterStep | src/com/freva/masteroppgave/preprocessing/preprocessors/TweetNGramsPMI.java:107-115 | one entry's turn removes it exactly when its value is negative, a word is an intensifier, or the last word is a stop word |
| NGramTrie.FilterEnd | src/com/freva/masteroppgave/preprocessing/preprocessors/TweetNGramsPMI.java:106-116 | after every entry's turn the map is `Filtered` |
| NGramTrie.NGramTree.GetNGrams | src/com/freva/masteroppgave/preprocessing/preprocessors/TweetNGramsPMI.java:95-119 | the result is `Filtered(NGrams(counts, limit))`: the frequent phrases, minus those with a negative score, an intensifier or a final stop word |
| TweetNGrams.FirstEnd | src/com/freva/masteroppgave/preprocessing/filters/RegexFilters.java:32 | the first `!`, `?` or `.`, or the length when there is none |
| TweetNGrams.Pieces | src/com/freva/masteroppgave/preprocessing/preprocessors/TweetNGramsPMI.java:42 | splitting at every sentence end yields at least one piece |
| TweetNGrams.PiecesRebuild | src/com/freva/masteroppgave/preprocessing/preprocessors/TweetNGramsPMI.java:42 | there is one more piece than end marks, and putting the marks back between the pieces restores the text |
| TweetNGrams.PiecesHaveNoEnd | src/com/freva/masteroppgave/preprocessing/preprocessors/TweetNGramsPMI.java:42 | no piece contains a sentence-end mark |
| TweetNGrams.Sentences | src/com/freva/masteroppgave/preprocessing/preprocessors/TweetNGramsPMI.java:42 | as with Java's `split`, the sentences are a prefix of the pieces, and every piece left off the end is empty |
| TweetNGrams.WindowsAreWords | src/com/freva/masteroppgave/preprocessing/preprocessors/TweetNGramsPMI.java:43-47 | every window counted is a list of non-empty, space-free words, at most `n` long and not empty when `n ≥ 1` |
| TweetNGrams.WindowAt | src/com/freva/masteroppgave/preprocessing/preprocessors/TweetNGramsPMI.java:46-47 | a sentence of more than one token gives one window per start index i: tokens[i, min(i+n, len)) |
| TweetNGrams.CountAllCounts | src/com/freva/masteroppgave/preprocessing/preprocessors/TweetNGramsPMI.java:46-48 | after counting a list of windows, a path's count is its old count plus the number of windows it is a prefix of, and the path exists exactly when it existed before or some window starts with it |
| TweetNGrams.CountAllWellFormed | src/com/freva/masteroppgave/preprocessing/preprocessors/TweetNGramsPMI.java:46-48 | counting keeps the trie well formed |
| TweetNGrams.CountAllAppend | src/com/freva/masteroppgave/preprocessing/preprocessors/TweetNGramsPMI.java:42-48 | counting two lists of windows in turn is counting their concatenation |
| TweetNGrams.OccurrencesOfRoot | src/com/freva/masteroppgave/preprocessing/preprocessors/TweetNGramsPMI.java:67 | the root is a prefix of every window |
| TweetNGrams.CountWindows | src/com/freva/masteroppgave/preprocessing/preprocessors/TweetNGramsPMI.java:46-48 | the counts gain exactly the sentence's windows, in order |
| TweetNGrams.ProcessTweet | src/com/freva/masteroppgave/preprocessing/preprocessors/TweetNGramsPMI.java:34-50 | the counts become: prune with `(int)(cutoff·k)/8` when the line number k is a multiple of 200000, then count every window of every sentence of the filtered line |
| TweetNGrams.StartOfLineKeeps | src/com/freva/masteroppgave/preprocessing/preprocessors/TweetNGramsPMI.java:36-37 | the periodic pruning keeps the trie well formed and the root, and only removes nodes without changing counts |
| TweetNGrams.CountedSnoc | src/com/freva/masteroppgave/preprocessing/preprocessors/TweetNGramsPMI.java:34-50 | one more line is pruned if due and then has its windows counted |
| TweetNGrams.CountedWellFormed | src/com/freva/masteroppgave/preprocessing/preprocessors/TweetNGramsPMI.java:34-50 | the trie stays well formed over the whole corpus |
| TweetNGrams.RootCountsAllNGrams | src/com/freva/masteroppgave/preprocessing/preprocessors/TweetNGramsPMI.java:36-48 | pruning never touches the root, so its count is the number of windows counted in the corpus |
| TweetNGrams.NeverOvercounts | src/com/freva/masteroppgave/preprocessing/preprocessors/TweetNGramsPMI.java:36-48 | every node's count is at most the number of windows it is a prefix of, and a node other than the root has at least one |
| TweetNGrams.NoPruneYet | src/com/freva/masteroppgave/preprocessing/preprocessors/TweetNGramsPMI.java:36-37 | before line 200000 nothing is pruned: the trie is the plain count of all windows |
| TweetNGrams.CountsExactBeforeFirstPrune | src/com/freva/masteroppgave/preprocessing/preprocessors/TweetNGramsPMI.java:36-48 | before the first pruning, a path is in the trie exactly when some window starts with it, and its count is the number of such windows |
| TweetNGrams.GetFrequentNGrams | src/com/freva/masteroppgave/preprocessing/preprocessors/TweetNGramsPMI.java:29-53 | the result is the filtered frequent phrases of the corpus counts, with the limit `(int)(cutoff · number of lines)` |
| CanonicalDictionary.SumCounts | src/com/freva/masteroppgave/preprocessing/preprocessors/CanonicalDictionary.java:73 | the loop computes the total of a group's counts |
| CanonicalDictionary.TotalRemove | src/com/freva/masteroppgave/preprocessing/preprocessors/CanonicalDictionary.java:73 | any count can be taken out first: the total is that count plus the total of the rest, so every iteration order gives the same sum |
| CanonicalDictionary.RemoveRareOriginals | src/com/freva/masteroppgave/preprocessing/preprocessors/CanonicalDictionary.java:80-84 | exactly the spellings counted below the bound are removed; the others keep their counts |
| CanonicalDictionary.OnlySelfKeys | src/com/freva/masteroppgave/preprocessing/preprocessors/CanonicalDictionary.java:86 | "one spelling, equal to the form" means the spelling set is exactly {form} |
| CanonicalDictionary.PruneCanonical | src/com/freva/masteroppgave/preprocessing/preprocessors/CanonicalDictionary.java:71-88 | one form's turn: it is dropped when its total, taken before any removal, is under the term limit, or when only itself is left; otherwise its rare spellings are dropped; other forms are untouched |
| CanonicalDictionary.RemoveInfrequent | src/com/freva/masteroppgave/preprocessing/preprocessors/CanonicalDictionary.java:67-90 | a form stays exactly when it survives; a kept form keeps exactly its frequent spellings with their counts; nothing is added |
| CanonicalDictionary.CountWords | src/com/freva/masteroppgave/preprocessing/preprocessors/CanonicalDictionary.java:46-53 | the counter becomes `AddWords`: each word adds 1 to its spelling under its canonical form |
| CanonicalDictionary.AddWordsCount | src/com/freva/masteroppgave/preprocessing/preprocessors/CanonicalDictionary.java:46-53 | a spelling's count under a form grows by its number of occurrences if it reduces to that form, and by nothing otherwise |
| CanonicalDictionary.AddWordsKeys | src/com/freva/masteroppgave/preprocessing/preprocessors/CanonicalDictionary.java:48-50 | the forms present afterwards are the old ones plus the forms of the words |
| CanonicalDictionary.AddWordsSpellings | src/com/freva/masteroppgave/preprocessing/preprocessors/CanonicalDictionary.java:46-53 | a spelling is listed under a form exactly when it was before or is a word that reduces to it |
| CanonicalDictionary.CountingKeepsGrouped | src/com/freva/masteroppgave/preprocessing/preprocessors/CanonicalDictionary.java:46-53 | counting keeps every spelling under its own form, and every spelling is a word seen |
| CanonicalDictionary.PruningKeepsGrouped | src/com/freva/masteroppgave/preprocessing/preprocessors/CanonicalDictionary.java:67-90 | pruning keeps that grouping |
| CanonicalDictionary.ProjectOptions | src/com/freva/masteroppgave/preprocessing/preprocessors/CanonicalDictionary.java:58-61 | every remaining form maps to exactly the set of its remaining spellings |
| CanonicalDictionary.ProjectionGrouped | src/com/freva/masteroppgave/preprocessing/preprocessors/CanonicalDictionary.java:58-61 | the projection keeps the grouping |
| CanonicalDictionary.CountTweets | src/com/freva/masteroppgave/preprocessing/preprocessors/CanonicalDictionary.java:40-54 | the loop counts every tweet, and the counter is `Tally`: every 100000th tweet, a pruning with half the limits comes before its words are counted |
| CanonicalDictionary.TallySnoc | src/com/freva/masteroppgave/preprocessing/preprocessors/CanonicalDictionary.java:42-53 | the tally of one more tweet is: the pruning with half the limits if that tweet's index is a multiple of 100000, then counting its words |
| CanonicalDictionary.CreateCanonicalDictionary | src/com/freva/masteroppgave/preprocessing/preprocessors/CanonicalDictionary.java:33-61 | the dictionary is the projection of the final pruning of `Tally`; every listed spelling reduces to its form and was a word of some tweet; no form lists only itself |
| Classifier.ChooseAction | src/com/freva/masteroppgave/classifier/Classifier.java:53-61 | exactly one branch fires, in priority order: the lexicon value, then negation, then intensification with the intensifier's value |
| Classifier.NegateFrom | src/com/freva/masteroppgave/classifier/Classifier.java:68-73 | marking negation changes no phrase and no sentence-end flag |
| Classifier.NegatedWindow | src/com/freva/masteroppgave/classifier/Classifier.java:66-74 | exactly the tokens after the negator, within the scope length and the list, up to and including the first sentence end, are marked negated; nothing else changes |
| Classifier.NegateFromWindow | src/com/freva/masteroppgave/classifier/Classifier.java:68-73 | the loop from position i marks exactly the in-scope tokens from i on |
| Classifier.Intensified | src/com/freva/masteroppgave/classifier/Classifier.java:76-80 | if the token is not at a sentence end, the next token gains the intensification; every other token is unchanged |
| Classifier.Step | src/com/freva/masteroppgave/classifier/Classifier.java:50-61 | one token's turn changes no phrase and no sentence-end flag |
| Classifier.MarkFrom | src/com/freva/masteroppgave/classifier/Classifier.java:49-62 | the pass changes no phrase and no sentence-end flag |
| Classifier.LexiconValueIsSet | src/com/freva/masteroppgave/classifier/Classifier.java:53-54 | after the pass, every token found in the lexicon carries the lexicon's value |
| Classifier.UntouchedWithoutModifiers | src/com/freva/masteroppgave/classifier/Classifier.java:49-62 | a token that follows no intensifier and lies in no negator's scope keeps its negation flag and intensifications |
| Classifier.Classifier.ActionFromOptions | src/com/freva/masteroppgave/classifier/ClassifierOptions.java:56-78 | a phrase outside the lexicon takes the negation branch exactly when `isNegation` holds; otherwise the intensifier branch exactly when `isIntensifier` holds, with the amount `getIntensifierValue` returns; otherwise no branch |
| Classifier.Classifier.constructor | src/com/freva/masteroppgave/classifier/Classifier.java:18-22 | the classifier stores its lexicon |
| Classifier.Classifier.PropagateNegation | src/com/freva/masteroppgave/classifier/Classifier.java:66-74 | the token array becomes `Negated`, with the scope read from `NEGATION_SCOPE_LENGTH` |
| Classifier.Classifier.IntensifyNext | src/com/freva/masteroppgave/classifier/Classifier.java:76-80 | the token array becomes `Intensified` |
| Classifier.Classifier.ApplyStep | src/com/freva/masteroppgave/classifier/Classifier.java:50-61 | one token's turn of the loop applies `Step` |
| Classifier.Classifier.CalculateSentiment | src/com/freva/masteroppgave/classifier/Classifier.java:43-64 | the tokens become `Marked`, and the result is the sum of their values |
| Classifier.Classifier.Classify | src/com/freva/masteroppgave/classifier/Classifier.java:35-41 | the marked tokens' sum is bucketed with the lower and then the higher threshold variable |
| ClassifierOptions.NameInjective | src/com/freva/masteroppgave/classifier/ClassifierOptions.java:96-99 | distinct variables have distinct option names |
| ClassifierOptions.SpecialClassWordShape | src/com/freva/masteroppgave/classifier/ClassifierOptions.java:80-82 | a special class word starts and ends with "\|\|"; "\|\|" and "\|\|\|" qualify and "\|" does not |
| ClassifierOptions.Options.constructor | src/com/freva/masteroppgave/classifier/ClassifierOptions.java:19-29 | the four loaded collections are stored |
| ClassifierOptions.Options.ContainsStopWord | src/com/freva/masteroppgave/classifier/ClassifierOptions.java:31-43 | true exactly when some word passes `isStopWord` (membership in the stop-word set), so false for no words |
| ClassifierOptions.Options.ContainsNegation | src/com/freva/masteroppgave/classifier/ClassifierOptions.java:46-58 | true exactly when some word passes `isNegation` (membership in the negator set) |
| ClassifierOptions.Options.ContainsIntensifier | src/com/freva/masteroppgave/classifier/ClassifierOptions.java:61-74 | true exactly when some word passes `isIntensifier` (a key of the intensifier map) |
| ClassifierOptions.Options.SetVariable | src/com/freva/masteroppgave/classifier/ClassifierOptions.java:84-90 | afterwards `getVariable` of the variable is the new value; every other variable keeps whether it is set and its value; the word lists are unchanged |
| ClassifierOptions.Options.GetOptions | src/com/freva/masteroppgave/classifier/ClassifierOptions.java:92-94 | a value copy equal to the options, so every set variable reads the same through it |
| TweetFilterer.TrailingDigits | src/com/freva/masteroppgave/preprocessing/preprocessors/TweetFilterer.java:15 | the length of the maximal run of digits that ends the text |
| TweetFilterer.EndsWithNumberMeaning | src/com/freva/masteroppgave/preprocessing/preprocessors/TweetFilterer.java:15 | the pattern is found exactly when, at some place `$` matches (the end, or before a final line terminator), one of `.`, `,` or `x` is followed by one or more digits |
| TweetFilterer.NumberEndsAtMatches | src/com/freva/masteroppgave/preprocessing/preprocessors/TweetFilterer.java:15 | a digit run preceded by `.`, `,` or `x` is a match of the pattern |
| TweetFilterer.NumberMatchIsTrailingRun | src/com/freva/masteroppgave/preprocessing/preprocessors/TweetFilterer.java:15 | every match of the pattern is such a run |
| TweetFilterer.EndsWithNumberExamples | src/com/freva/masteroppgave/preprocessing/preprocessors/TweetFilterer.java:15 | "sold for 4.50" and "size x12" followed by a newline match; "route 66" and "4.5kg" do not |
| TweetFilterer.FirstRejection | src/com/freva/masteroppgave/preprocessing/preprocessors/TweetFilterer.java:49-59 | the rule that returns early does reject the text |
| TweetFilterer.ShouldIncludeIffNoRuleFires | src/com/freva/masteroppgave/preprocessing/preprocessors/TweetFilterer.java:49-59 | a tweet is included exactly when none of the seven rules rejects it |
| TweetFilterer.RetweetAndLinkRejected | src/com/freva/masteroppgave/preprocessing/preprocessors/TweetFilterer.java:50-51 | a retweet and a tweet with a link are rejected |
| TweetFilterer.HarryStylesRejected | src/com/freva/masteroppgave/preprocessing/preprocessors/TweetFilterer.java:53 | "I love Harry_Styles" is rejected by the lower-cased test, and by that rule first |
| TweetFilterer.LowerOfExample | src/com/freva/masteroppgave/preprocessing/preprocessors/TweetFilterer.java:53 | the example's lower-cased form is "i love harry_styles" |
| TweetFilterer.PlainTextRule | src/com/freva/masteroppgave/preprocessing/preprocessors/TweetFilterer.java:49-59 | a text without ':', '_', 'T', '°', 'R' or 'G' is included exactly when it does not end with a number |
| TweetFilterer.NoRuleMatchesPlainText | src/com/freva/masteroppgave/preprocessing/preprocessors/TweetFilterer.java:51-55 | a text lacking a character of each pattern matches none of the substring rules |
| TweetFilterer.RemoveInfrequentItems | src/com/freva/masteroppgave/preprocessing/preprocessors/TweetFilterer.java:33 | the periodic cleanup only removes entries, keeps each survivor's count, and keeps exactly the entries its criterion accepts |
| TweetFilterer.Cleaned | src/com/freva/masteroppgave/preprocessing/preprocessors/TweetFilterer.java:31-43 | the lines written are input lines, in input order, and each passes the admission filter |
| TweetFilterer.PeriodFacts | src/com/freva/masteroppgave/preprocessing/preprocessors/TweetFilterer.java:32-33 | a line's period starts at or before it; a multiple of ten million starts a new period; any other line shares the previous line's period |
| TweetFilterer.ProgressTick | src/com/freva/masteroppgave/preprocessing/preprocessors/TweetFilterer.java:32-33 | the cleanup runs only on a progress line, so nesting it there loses no cleanup |
| TweetFilterer.StepInvariant | src/com/freva/masteroppgave/preprocessing/preprocessors/TweetFilterer.java:31-43 | one line keeps the loop invariant: recorded forms were written, this period's forms are recorded, no form is repeated within a period, and every admitted line with a new form was written |
| TweetFilterer.CleanedInvariant | src/com/freva/masteroppgave/preprocessing/preprocessors/TweetFilterer.java:31-43 | the invariant holds after any number of lines |
| TweetFilterer.NoDuplicateWithinPeriod | src/com/freva/masteroppgave/preprocessing/preprocessors/TweetFilterer.java:33-41 | two written lines from the same ten-million-line period never share a filtered form |
| TweetFilterer.NewFormIsWritten | src/com/freva/masteroppgave/preprocessing/preprocessors/TweetFilterer.java:36-42 | an admitted line whose form differs from every line written before it is written |
| TweetFilterer.RawTweetCleaner | src/com/freva/masteroppgave/preprocessing/preprocessors/TweetFilterer.java:25-46 | the loop writes exactly the lines of `Cleaned` over the input with `shouldInclude` as the admission filter |
| Text.ToLowerAscii | src/com/freva/masteroppgave/preprocessing/preprocessors/TweetFilterer.java:53 | ASCII lower-casing keeps the length and maps each character on its own (see Left out for non-ASCII letters) |
| Text.LowerContainsIgnoringCase | src/com/freva/masteroppgave/preprocessing/preprocessors/TweetFilterer.java:53 | for a lower-case pattern such as "harry_styles", the lower-cased text contains it exactly when the text spells it at some position in any mix of ASCII case |
| Text.Trim | src/com/freva/masteroppgave/preprocessing/preprocessors/TweetNGramsPMI.java:43 | the trimmed text is a slice of the original that starts and ends with a character above ' ', and only characters ≤ ' ' follow it |
| Text.DropTrailingEmpty | src/com/freva/masteroppgave/preprocessing/preprocessors/TweetNGramsPMI.java:42-43 | Java's `split` drops exactly the trailing empty strings |
| Text.SplitTrimmedAreWords | src/com/freva/masteroppgave/preprocessing/preprocessors/TweetNGramsPMI.java:43 | the tokens of a trimmed sentence, unless there is just one, are non-empty and space-free |
| Text.SplitJoin | src/com/freva/masteroppgave/preprocessing/preprocessors/TweetNGramsPMI.java:171 | splitting the space-joined phrase of some words gives the words back |
| Text.SplitLikeJava | src/com/freva/masteroppgave/preprocessing/preprocessors/TweetNGramsPMI.java:43 | `split("\\s+")` as Java defines it: a text without whitespace comes back whole; otherwise no piece holds whitespace and the last piece is not empty; whitespace only gives no pieces; a leading whitespace run before other text gives a leading empty piece |
| Text.JoinInjective | src/com/freva/masteroppgave/preprocessing/preprocessors/TweetNGramsPMI.java:171 | distinct word lists have distinct joined phrases, so keying the result by word lists loses nothing |
| JavaNum.TruncToInt | src/com/freva/masteroppgave/preprocessing/preprocessors/TweetNGramsPMI.java:52 | the `(int)` cast truncates toward zero |
| JavaNum.JavaDiv | src/com/freva/masteroppgave/preprocessing/preprocessors/TweetNGramsPMI.java:37 | `int` division truncates toward zero |

## Left out

- Concurrency: `Parallel.For`, `synchronized` and `AtomicInteger` in `TweetNGramsPMI.java`. The lines are processed one after the other in input order, so the model does not capture interleavings of the unsynchronised tree updates.
- `Math.log` and the cached `getLogScore`. The logarithm is a function parameter `logOf`, because reals have no logarithm here.
- Floating point. Scores, weights, thresholds and cutoffs are reals. The model has no `float`/`double` rounding, NaN or infinities.
- JavaNum.TruncToInt: does not saturate at `Integer.MAX_VALUE`/`MIN_VALUE` as Java's cast does; the limits are taken as unbounded integers.
- TweetNGrams.GetFrequentNGrams: the line counter and node counts are unbounded integers, so `int` overflow after 2³¹ lines or occurrences is not modelled. `n` is a natural number: a negative `n`, for which `Arrays.copyOfRange` throws, is not modelled.
- The tweet filter chains (`Filters`, `WordFilters`) are function parameters. `CanonicalForm.reduceToCanonicalForm` is the parameter `reduce`.
- Regular expressions. Only the patterns the core uses are modelled: the whitespace split, the sentence-end split and `endsWithNumber`. Whitespace is the `\s` class of `java.util.regex` without Unicode flags.
- N-gram keys are lists of words, not space-joined strings. `Text.SplitJoin` and `Text.JoinInjective` show that this loses nothing for the words the tokeniser produces.
- `getProgress`, the console progress output, and file and JSON I/O (`LineReader`, `TweetReader`, `FileUtils`, `JSONUtils`, `loadOptions`). The inputs are sequences of lines, and the outputs are returned values.
- `Node`, `Edge`, `PairSimilarity` and `PriorPolarityLexicon` are not part of this model beyond what `Graph.java` uses. A node is a datatype holding context scores per phrase, a neighbour list and a running score. Context updates add to the stored scores, and `getCurrentScore` and `getSentimentScore` both read the running total.
- `FixedPriorityQueue` is modelled by its contract: a stable sort by descending weight, then the first `neighborLimit` edges.
- Cosine similarity, computed outside `Graph.java`, enters as the list of pairs given to `createEdges`.
- `MapUtils.removeInfrequentItems` is modelled by its contract. It is a shrink of the map that keeps exactly the entries a given criterion accepts, with their counts.
- `LexicalParser` and `LexicalToken` are not part of this model. The tokens arrive as an array of records. `getSentimentValue` and `classifyFromThresholds` are function parameters.
- Classifier.Classifier.CalculateSentiment: requires that an intensifier which is the last token is marked as the end of a sentence, and that `NEGATION_SCOPE_LENGTH` is set when a negator occurs; the source throws there, and the model excludes those inputs rather than modelling the exceptions.
- Classifier.Classifier.Classify: requires both threshold variables to be set; the source throws on a missing one.
- Order: `HashMap` and `HashSet` iteration order is unspecified. The methods pick the next key by choice, and `PropagateSentiment` returns the seed order it used as a ghost value.
- LexiconGraph.Graph.GetCoOccurrences: fills the odd columns with the intended value, node i's right score for node j, not with what Graph.java:58 computes (node j's right score for its own phrase). The as-written matrix is `CoOccurrenceAsWritten`, and the Findings row shows where they differ.
- Text.ToLowerAscii: lower-cases only `A`–`Z`, whereas Java's `toLowerCase()` also lower-cases other letters (`Ä` to `ä`) and can change the length (`İ` becomes two characters). The one rule that uses it compares against "harry_styles". No non-ASCII character lower-cases to any of that pattern's letters, so the rule's verdict is unaffected.
- Score normalisation in `propagateSentiment` is commented out in the source and is not modelled.

## Findings

| source | as written | input that shows it | evidently intended | confidence | as-written member | corrected member |
|---|---|---|---|---|---|---|
| src/com/freva/masteroppgave/lexicon/graph/Graph.java:58 | the odd column of row i reads node j's right score for node j's own phrase, so it ignores i | one context update between "a" and "b" with scores 1 and 2: cell (0, 3) is 0, while a's right score for b is 2 | cell (i, 2j+1) holds node i's right score for node j, beside its left score in column 2j | not executed | LexiconGraph.AsWrittenLosesRightCounts | LexiconGraph.CoOccurrenceMirrored |
