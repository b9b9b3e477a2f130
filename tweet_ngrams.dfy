/**
  `TweetNGramsPMI.getFrequentNGrams`: every line of the corpus is filtered, cut
  into sentences at `!`, `?` and `.`, each sentence is trimmed and split on
  whitespace, and from every token a window of up to `n` tokens is counted in
  an `NGramTree`. Every 200000 lines the tree is pruned, so that rare branches
  do not pile up; at the end the frequent phrases are read off the tree.
 */
module TweetNGrams {
  import opened NGramTrie
  import Text
  import JavaNum

  // ---------------------------------------------------------------------------
  // Sentences

  /** The characters of the regex class `[!?.]`. */
  predicate IsSentenceEnd(c: char) {
    c == '!' || c == '?' || c == '.'
  }

  /** Index of the first sentence-end character of `s`, or `|s|` when there is none. */
  function FirstEnd(s: string): (i: nat)
    ensures i <= |s|
    ensures forall k :: 0 <= k < i ==> !IsSentenceEnd(s[k])
    ensures i < |s| ==> IsSentenceEnd(s[i])
  {
    if s == [] || IsSentenceEnd(s[0]) then 0 else 1 + FirstEnd(s[1..])
  }

  /**
    The pieces around every sentence-end character, as `Pattern.split` collects
    them before trailing empty strings are dropped. The pattern matches one
    character, so two ends in a row leave an empty piece between them.
   */
  function Pieces(s: string): (r: seq<string>)
    ensures |r| >= 1
    decreases |s|
  {
    var i := FirstEnd(s);
    if i == |s| then [s] else [s[..i]] + Pieces(s[i + 1..])
  }

  /** The sentence-end characters of `s`, in order. */
  function Ends(s: string): seq<char> {
    if s == [] then []
    else (if IsSentenceEnd(s[0]) then [s[0]] else []) + Ends(s[1..])
  }

  /** The pieces put back together, each end character between two neighbouring pieces. */
  function Rebuild(pieces: seq<string>, ends: seq<char>): string
    requires |pieces| == |ends| + 1
    decreases |ends|
  {
    if ends == [] then pieces[0] else pieces[0] + [ends[0]] + Rebuild(pieces[1..], ends[1..])
  }

  /** `SENTENCE_END_PUNCTUATION.split(tweet)`: no match gives the tweet itself; otherwise trailing empty pieces are dropped. */
  function Sentences(s: string): (r: seq<string>)
    ensures |r| <= |Pieces(s)| && r == Pieces(s)[..|r|]
    ensures forall i :: |r| <= i < |Pieces(s)| ==> Pieces(s)[i] == ""
  {
    if FirstEnd(s) == |s| then [s] else Text.DropTrailingEmpty(Pieces(s))
  }

  /** A plain prefix contributes no end character. */
  lemma {:induction false} EndsAfterPlain(s: string, i: nat)
    requires i <= |s| && forall k :: 0 <= k < i ==> !IsSentenceEnd(s[k])
    ensures Ends(s) == Ends(s[i..])
    decreases i
  {
    if i > 0 {
      EndsAfterPlain(s[1..], i - 1);
      assert s[1..][i - 1..] == s[i..];
    }
  }

  /** Splitting at the sentence ends loses nothing: the pieces and the ends rebuild the tweet. */
  lemma {:induction false} PiecesRebuild(s: string)
    ensures |Pieces(s)| == |Ends(s)| + 1
    ensures Rebuild(Pieces(s), Ends(s)) == s
    decreases |s|
  {
    var i := FirstEnd(s);
    if i < |s| {
      var rest := s[i + 1..];
      PiecesRebuild(rest);
      PiecesStep(s);
    } else {
      EndsAfterPlain(s, i);
      assert s[i..] == [];
    }
  }

  /** Up to the first end character: one piece, that character, and the pieces and ends of the rest. */
  lemma PiecesStep(s: string)
    requires FirstEnd(s) < |s|
    ensures var i := FirstEnd(s);
            Pieces(s) == [s[..i]] + Pieces(s[i + 1..]) &&
            Ends(s) == [s[i]] + Ends(s[i + 1..]) &&
            s == s[..i] + [s[i]] + s[i + 1..]
  {
    var i := FirstEnd(s);
    EndsStep(s, i);
    SplitAround(s, i);
  }

  lemma EndsStep(s: string, i: nat)
    requires i < |s| && IsSentenceEnd(s[i])
    requires forall k :: 0 <= k < i ==> !IsSentenceEnd(s[k])
    ensures Ends(s) == [s[i]] + Ends(s[i + 1..])
  {
    var t := s[i..];
    EndsAfterPlain(s, i);
    assert t[0] == s[i] && t[1..] == s[i + 1..];
    assert Ends(t) == [t[0]] + Ends(t[1..]);
  }

  lemma SplitAround(s: string, i: nat)
    requires i < |s|
    ensures s == s[..i] + [s[i]] + s[i + 1..]
  {
  }

  /** No piece, and so no sentence, holds a sentence-end character. */
  lemma {:induction false} PiecesHaveNoEnd(s: string)
    ensures forall k, j :: 0 <= k < |Pieces(s)| && 0 <= j < |Pieces(s)[k]| ==> !IsSentenceEnd(Pieces(s)[k][j])
    decreases |s|
  {
    var i := FirstEnd(s);
    if i < |s| {
      PiecesHaveNoEnd(s[i + 1..]);
      assert forall k :: 1 <= k < |Pieces(s)| ==> Pieces(s)[k] == Pieces(s[i + 1..])[k - 1];
    }
  }

  // ---------------------------------------------------------------------------
  // N-grams of a line

  /** `WHITESPACE.split(sentence.trim())`. */
  function Tokens(sentence: string): seq<string> {
    Text.Split(Text.Trim(sentence))
  }

  function Min(a: int, b: int): int {
    if a < b then a else b
  }

  /**
    The windows one sentence contributes: none when it has a single token,
    otherwise one starting at every token, cut at `n` tokens or at the end.
   */
  function SentenceNGrams(tokens: seq<string>, n: nat): seq<Path> {
    if |tokens| == 1 then []
    else seq(|tokens|, i requires 0 <= i < |tokens| => tokens[i..Min(i + n, |tokens|)])
  }

  /** The windows of the sentences, sentence by sentence. */
  function GramsOf(sentences: seq<string>, n: nat): seq<Path> {
    if sentences == [] then []
    else GramsOf(sentences[..|sentences| - 1], n) + SentenceNGrams(Tokens(sentences[|sentences| - 1]), n)
  }

  /** Every n-gram one line contributes. */
  function LineNGrams(line: string, n: nat): seq<Path> {
    GramsOf(Sentences(line), n)
  }

  /**
    Every counted window is a run of whole words of `n` tokens at most, so its
    space-joined phrase splits back into it (`Text.SplitJoin`); for `n >= 1`
    it is never empty.
   */
  lemma WindowsAreWords(sentence: string, n: nat)
    ensures var windows := SentenceNGrams(Tokens(sentence), n);
            forall i :: 0 <= i < |windows| ==>
              Text.AllWords(windows[i]) && |windows[i]| <= n && (n >= 1 ==> |windows[i]| >= 1)
  {
    var tokens := Tokens(sentence);
    Text.SplitTrimmedAreWords(sentence);
    forall i | 0 <= i < |SentenceNGrams(tokens, n)|
      ensures var g := SentenceNGrams(tokens, n)[i];
              Text.AllWords(g) && |g| <= n && (n >= 1 ==> |g| >= 1)
    {
      WindowOfWords(tokens, n, i);
    }
  }

  lemma WindowOfWords(tokens: seq<string>, n: nat, i: nat)
    requires |tokens| != 1 && Text.AllWords(tokens) && i < |tokens|
    ensures var g := SentenceNGrams(tokens, n)[i];
            Text.AllWords(g) && |g| <= n && (n >= 1 ==> |g| >= 1)
  {
    var g := tokens[i..Min(i + n, |tokens|)];
    assert SentenceNGrams(tokens, n)[i] == g;
    assert forall k :: 0 <= k < |g| ==> g[k] == tokens[i + k];
  }

  // ---------------------------------------------------------------------------
  // Counting

  /** `incrementNGram` on each n-gram in turn. */
  function CountAll(c: Counts, gs: seq<Path>): Counts {
    if gs == [] then c else Incremented(CountAll(c, gs[..|gs| - 1]), gs[|gs| - 1])
  }

  /** How many of the n-grams pass through node `p`: those of which `p` is a prefix. */
  function Occurrences(gs: seq<Path>, p: Path): nat {
    if gs == [] then 0 else Occurrences(gs[..|gs| - 1], p) + (if p <= gs[|gs| - 1] then 1 else 0)
  }

  lemma CountAllSnoc(c: Counts, gs: seq<Path>, i: nat)
    requires i < |gs|
    ensures CountAll(c, gs[..i + 1]) == Incremented(CountAll(c, gs[..i]), gs[i])
  {
    assert gs[..i + 1][..i] == gs[..i];
  }

  lemma {:induction false} CountAllAppend(c: Counts, a: seq<Path>, b: seq<Path>)
    ensures CountAll(c, a + b) == CountAll(CountAll(c, a), b)
    decreases |b|
  {
    if b == [] {
      assert a + b == a;
    } else {
      var init := b[..|b| - 1];
      assert (a + b)[..|a + b| - 1] == a + init;
      CountAllAppend(c, a, init);
    }
  }

  lemma {:induction false} OccurrencesAppend(a: seq<Path>, b: seq<Path>, p: Path)
    ensures Occurrences(a + b, p) == Occurrences(a, p) + Occurrences(b, p)
    decreases |b|
  {
    if b == [] {
      assert a + b == a;
    } else {
      var init := b[..|b| - 1];
      assert (a + b)[..|a + b| - 1] == a + init;
      OccurrencesAppend(a, init, p);
    }
  }

  /** Every n-gram passes through the root. */
  lemma {:induction false} OccurrencesOfRoot(gs: seq<Path>)
    ensures Occurrences(gs, []) == |gs|
  {
    if gs != [] {
      OccurrencesOfRoot(gs[..|gs| - 1]);
    }
  }

  /**
    Counting adds to a node exactly the number of counted n-grams that pass
    through it, and creates exactly the nodes some n-gram passes through.
   */
  lemma {:induction false} CountAllCounts(c: Counts, gs: seq<Path>, p: Path)
    ensures p in CountAll(c, gs) <==> p in c || Occurrences(gs, p) > 0
    ensures p in CountAll(c, gs) ==> CountAll(c, gs)[p] == (if p in c then c[p] else 0) + Occurrences(gs, p)
  {
    if gs != [] {
      CountAllCounts(c, gs[..|gs| - 1], p);
      InPathTo(gs[|gs| - 1], p);
    }
  }

  lemma {:induction false} CountAllWellFormed(c: Counts, gs: seq<Path>)
    requires WellFormed(c)
    ensures WellFormed(CountAll(c, gs))
  {
    if gs != [] {
      CountAllWellFormed(c, gs[..|gs| - 1]);
      IncrementedWellFormed(CountAll(c, gs[..|gs| - 1]), gs[|gs| - 1]);
    }
  }

  // ---------------------------------------------------------------------------
  // The corpus

  /** Lines between two prunings. */
  const PruneInterval := 200000

  /** `(int) (frequencyCutoff * lineCounter)`: the final frequency limit once `k` lines have been read. */
  function CountLimit(cutoff: real, k: int): int {
    JavaNum.TruncToInt(cutoff * k as real)
  }

  /** `(int) (frequencyCutoff * lineCounter) / 8`: the prune limit once `k` lines have been read. */
  function PruneLimit(cutoff: real, k: int): int {
    JavaNum.JavaDiv(CountLimit(cutoff, k), 8)
  }

  /** The n-grams of every line, line by line, after the line filter. */
  function CorpusNGrams(lines: seq<string>, n: nat, filter: string -> string): seq<seq<Path>> {
    seq(|lines|, i requires 0 <= i < |lines| => LineNGrams(filter(lines[i]), n))
  }

  /** The tree as the `k`-th line (counting from 1) starts: pruned first when `k` is a multiple of 200000. */
  ghost function StartOfLine(before: Counts, k: int, cutoff: real): Counts {
    if k % PruneInterval == 0 then Pruned(before, PruneLimit(cutoff, k)) else before
  }

  /** The tree after reading lines whose n-grams are `perLine`: each line starts with `StartOfLine` and counts its n-grams. */
  ghost function Counted(perLine: seq<seq<Path>>, cutoff: real): Counts {
    if perLine == [] then Root()
    else
      var k := |perLine|;
      CountAll(StartOfLine(Counted(perLine[..k - 1], cutoff), k, cutoff), perLine[k - 1])
  }

  /** Every n-gram read, line after line. */
  function Flatten(perLine: seq<seq<Path>>): seq<Path> {
    if perLine == [] then [] else Flatten(perLine[..|perLine| - 1]) + perLine[|perLine| - 1]
  }

  /** Starting a line keeps the tree well formed, never removes the root and changes no count it keeps. */
  lemma StartOfLineKeeps(before: Counts, k: int, cutoff: real, p: Path)
    requires WellFormed(before)
    ensures WellFormed(StartOfLine(before, k, cutoff))
    ensures [] in StartOfLine(before, k, cutoff)
    ensures p in StartOfLine(before, k, cutoff) ==> p in before && StartOfLine(before, k, cutoff)[p] == before[p]
  {
    PrunedWellFormed(before, PruneLimit(cutoff, k));
    PrunedExactly(before, PruneLimit(cutoff, k), p);
    PrunedExactly(before, PruneLimit(cutoff, k), []);
  }

  lemma {:induction false} CountedWellFormed(perLine: seq<seq<Path>>, cutoff: real)
    ensures WellFormed(Counted(perLine, cutoff))
    decreases |perLine|
  {
    if perLine != [] {
      var k := |perLine|;
      var before := Counted(perLine[..k - 1], cutoff);
      CountedWellFormed(perLine[..k - 1], cutoff);
      StartOfLineKeeps(before, k, cutoff, []);
      CountAllWellFormed(StartOfLine(before, k, cutoff), perLine[k - 1]);
    }
  }

  /**
    Pruning never touches the root, so its count is the number of n-grams
    read, the total that the PMI score divides by.
   */
  lemma {:induction false} RootCountsAllNGrams(perLine: seq<seq<Path>>, cutoff: real)
    ensures [] in Counted(perLine, cutoff)
    ensures Counted(perLine, cutoff)[[]] == |Flatten(perLine)|
    decreases |perLine|
  {
    if perLine != [] {
      var k := |perLine|;
      var before := Counted(perLine[..k - 1], cutoff);
      RootCountsAllNGrams(perLine[..k - 1], cutoff);
      CountedWellFormed(perLine[..k - 1], cutoff);
      StartOfLineKeeps(before, k, cutoff, []);
      CountAllCounts(StartOfLine(before, k, cutoff), perLine[k - 1], []);
      OccurrencesOfRoot(perLine[k - 1]);
    }
  }

  /**
    Pruning can only lose counts: every node of the tree has been passed
    through by some n-gram read, and its count is at most the number of them.
   */
  lemma {:induction false} NeverOvercounts(perLine: seq<seq<Path>>, cutoff: real, p: Path)
    requires p in Counted(perLine, cutoff)
    ensures p == [] || Occurrences(Flatten(perLine), p) > 0
    ensures Counted(perLine, cutoff)[p] <= Occurrences(Flatten(perLine), p)
    decreases |perLine|
  {
    if perLine == [] {
      assert p in Root();
    } else {
      var k := |perLine|;
      var init := perLine[..k - 1];
      var before := Counted(init, cutoff);
      var start := StartOfLine(before, k, cutoff);
      CountAllCounts(start, perLine[k - 1], p);
      OccurrencesAppend(Flatten(init), perLine[k - 1], p);
      if p in start {
        CountedWellFormed(init, cutoff);
        StartOfLineKeeps(before, k, cutoff, p);
        NeverOvercounts(init, cutoff, p);
      }
    }
  }

  lemma NoPruneBelowInterval(k: int)
    requires 0 < k < PruneInterval
    ensures k % PruneInterval != 0
  {
  }

  /** Before the first pruning the tree is every n-gram read, counted in order. */
  lemma {:induction false} NoPruneYet(perLine: seq<seq<Path>>, cutoff: real)
    requires |perLine| < PruneInterval
    ensures Counted(perLine, cutoff) == CountAll(Root(), Flatten(perLine))
    decreases |perLine|
  {
    if perLine != [] {
      var k := |perLine|;
      var init := perLine[..k - 1];
      NoPruneYet(init, cutoff);
      NoPruneBelowInterval(k);
      assert StartOfLine(Counted(init, cutoff), k, cutoff) == Counted(init, cutoff);
      CountAllAppend(Root(), Flatten(init), perLine[k - 1]);
    }
  }

  /**
    Before the first pruning the counts are exact: a path is a node exactly when
    it is the root or some n-gram read passes through it, and its count is the
    number of those n-grams.
   */
  lemma CountsExactBeforeFirstPrune(perLine: seq<seq<Path>>, cutoff: real, p: Path)
    requires |perLine| < PruneInterval
    ensures p in Counted(perLine, cutoff) <==> p == [] || Occurrences(Flatten(perLine), p) > 0
    ensures p in Counted(perLine, cutoff) ==> Counted(perLine, cutoff)[p] == Occurrences(Flatten(perLine), p)
  {
    NoPruneYet(perLine, cutoff);
    CountAllCounts(Root(), Flatten(perLine), p);
  }

  lemma WindowAt(tokens: seq<string>, n: nat, i: nat)
    requires |tokens| != 1 && i < |tokens|
    ensures |SentenceNGrams(tokens, n)| == |tokens|
    ensures SentenceNGrams(tokens, n)[i] == tokens[i..Min(i + n, |tokens|)]
  {
  }

  /** Counting one more sentence counts its windows after those of the sentences before it. */
  lemma SentenceStep(start: Counts, sentences: seq<string>, si: nat, n: nat)
    requires si < |sentences|
    ensures var windows := SentenceNGrams(Tokens(sentences[si]), n);
            CountAll(start, GramsOf(sentences[..si + 1], n)) == CountAll(CountAll(start, GramsOf(sentences[..si], n)), windows) &&
            (windows == [] ==> CountAll(start, GramsOf(sentences[..si + 1], n)) == CountAll(start, GramsOf(sentences[..si], n)))
  {
    GramsOfSnoc(sentences, si, n);
    CountAllAppend(start, GramsOf(sentences[..si], n), SentenceNGrams(Tokens(sentences[si]), n));
  }

  lemma GramsOfSnoc(sentences: seq<string>, i: nat, n: nat)
    requires i < |sentences|
    ensures GramsOf(sentences[..i + 1], n) == GramsOf(sentences[..i], n) + SentenceNGrams(Tokens(sentences[i]), n)
  {
    assert sentences[..i + 1][..i] == sentences[..i];
  }

  lemma CountedSnoc(perLine: seq<seq<Path>>, i: nat, cutoff: real)
    requires i < |perLine|
    ensures Counted(perLine[..i + 1], cutoff) == CountAll(StartOfLine(Counted(perLine[..i], cutoff), i + 1, cutoff), perLine[i])
  {
    assert perLine[..i + 1][..i] == perLine[..i];
  }

  /** The innermost loop: the window starting at every token of a sentence of more than one token is counted. */
  method CountWindows(nGramTree: NGramTree, tokens: seq<string>, n: nat)
    modifies nGramTree
    requires nGramTree.Valid() && |tokens| != 1
    ensures nGramTree.Valid()
    ensures nGramTree.counts == CountAll(old(nGramTree.counts), SentenceNGrams(tokens, n))
  {
    ghost var windows := SentenceNGrams(tokens, n);
    for i := 0 to |tokens|
      invariant nGramTree.Valid() && nGramTree.counts == CountAll(old(nGramTree.counts), windows[..i])
    {
      CountAllSnoc(old(nGramTree.counts), windows, i);
      WindowAt(tokens, n, i);
      nGramTree.IncrementNGram(tokens[i..Min(i + n, |tokens|)]);
    }
    assert windows[..|tokens|] == windows;
  }

  /**
    The per-line body handed to `Parallel.For`: the line counter has already
    been advanced to `lineCounter`; at every 200000th line the tree is pruned
    first, then every window of every sentence of the filtered line is counted.
   */
  method ProcessTweet(nGramTree: NGramTree, lineCounter: int, line: string, n: nat, frequencyCutoff: real,
                      filter: string -> string)
    modifies nGramTree
    requires nGramTree.Valid()
    ensures nGramTree.Valid()
    ensures nGramTree.counts == CountAll(StartOfLine(old(nGramTree.counts), lineCounter, frequencyCutoff), LineNGrams(filter(line), n))
  {
    if lineCounter % PruneInterval == 0 {
      nGramTree.PruneInfrequent(PruneLimit(frequencyCutoff, lineCounter));
    }
    ghost var start := nGramTree.counts;
    var tweet := filter(line);
    var sentences := Sentences(tweet);
    for si := 0 to |sentences|
      invariant nGramTree.Valid() && nGramTree.counts == CountAll(start, GramsOf(sentences[..si], n))
    {
      var tokens := Tokens(sentences[si]);
      SentenceStep(start, sentences, si, n);
      if |tokens| == 1 {
        continue;
      }
      CountWindows(nGramTree, tokens, n);
    }
    assert sentences[..|sentences|] == sentences;
  }

  /**
    `getFrequentNGrams`: the lines are read in order with a line counter, the
    tree is pruned at every 200000th line before that line is counted, and the
    phrases seen at least `(int) (frequencyCutoff * lines read)` times are
    returned with their scores.
   */
  method GetFrequentNGrams(lines: seq<string>, n: nat, frequencyCutoff: real, filter: string -> string,
                           logOf: int -> real, intensifiers: set<string>, stopWords: set<string>)
    returns (nGrams: map<Path, real>)
    ensures nGrams == Filtered(NGrams(Counted(CorpusNGrams(lines, n, filter), frequencyCutoff),
                                      CountLimit(frequencyCutoff, |lines|), logOf),
                               intensifiers, stopWords)
  {
    ghost var corpus := CorpusNGrams(lines, n, filter);
    var lineCounter := 0;
    var nGramTree := new NGramTree();
    for li := 0 to |lines|
      invariant lineCounter == li
      invariant nGramTree.Valid() && nGramTree.counts == Counted(corpus[..li], frequencyCutoff)
    {
      lineCounter := lineCounter + 1;
      ProcessTweet(nGramTree, lineCounter, lines[li], n, frequencyCutoff, filter);
      CountedSnoc(corpus, li, frequencyCutoff);
    }
    assert corpus[..|lines|] == corpus;
    nGrams := nGramTree.GetNGrams(CountLimit(frequencyCutoff, lineCounter), logOf, intensifiers, stopWords);
  }
}
