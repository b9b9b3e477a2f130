/**
  The canonical dictionary: words are grouped by the canonical form they reduce
  to, with a count per original spelling; groups whose total is too small, and
  spellings too rare within their group, are pruned; what remains maps each
  canonical form to its surviving spellings.
 */
module CanonicalDictionary {
  import opened Text
  import opened JavaNum

  /** Per canonical form, the count of each original spelling seen. */
  type Counter = map<string, map<string, int>>

  const CorrectFrequency: real := 0.05
  const TermFrequency: real := 0.0005

  /** The sum of the counts of an inner map, in no particular order. */
  ghost function Total(m: map<string, int>): int
    decreases |m|
  {
    if m == map[] then 0
    else
      var k :| k in m;
      m[k] + Total(m - {k})
  }

  /** The sum does not depend on which key is taken out first. */
  lemma {:induction false} TotalRemove(m: map<string, int>, k: string)
    requires k in m
    ensures Total(m) == m[k] + Total(m - {k})
    decreases |m|
  {
    var j :| j in m && Total(m) == m[j] + Total(m - {j});
    if j != k {
      TotalRemove(m - {j}, k);
      TotalRemove(m - {k}, j);
      assert m - {j} - {k} == m - {k} - {j};
    }
  }

  /** `termCounter`: the sum of the counts of one canonical form's spellings. */
  method SumCounts(inner: map<string, int>) returns (termCounter: int)
    ensures termCounter == Total(inner)
  {
    termCounter := 0;
    var rest := inner;
    while rest != map[]
      invariant termCounter + Total(rest) == Total(inner)
      decreases |rest|
    {
      var k :| k in rest;
      TotalRemove(rest, k);
      termCounter := termCounter + rest[k];
      rest := rest - {k};
    }
  }

  /** The spellings whose count is not below `bound`, with their counts. */
  function KeepFrequent(inner: map<string, int>, bound: real): map<string, int> {
    map w | w in inner && !(inner[w] as real < bound) :: inner[w]
  }

  /** A group whose only spelling left is the canonical form itself says nothing. */
  predicate OnlySelf(canonical: string, inner: map<string, int>) {
    |inner| == 1 && canonical in inner
  }

  lemma OnlySelfKeys(c: string, inner: map<string, int>)
    ensures OnlySelf(c, inner) <==> inner.Keys == {c}
  {
    if c in inner && |inner| == 1 {
      var rest := inner.Keys - {c};
      assert |rest| == 0;
      assert inner.Keys == rest + {c};
    }
  }

  /** The inner loop of `removeInfrequent`: every spelling counted below `bound` is removed. */
  method RemoveRareOriginals(inner: map<string, int>, bound: real) returns (kept: map<string, int>)
    ensures kept.Keys <= inner.Keys
    ensures forall w :: w in kept ==> kept[w] == inner[w]
    ensures forall w :: w in inner ==> (w in kept <==> !(inner[w] as real < bound))
  {
    kept := inner;
    var originals := inner.Keys;
    while originals != {}
      invariant originals <= inner.Keys
      invariant kept.Keys <= inner.Keys
      invariant forall w :: w in kept ==> kept[w] == inner[w]
      invariant forall w :: w in inner && w !in originals ==> (w in kept <==> !(inner[w] as real < bound))
      invariant forall w :: w in originals ==> w in kept
      decreases |originals|
    {
      var w :| w in originals;
      if inner[w] as real < bound {
        kept := kept - {w};
      }
      originals := originals - {w};
    }
  }

  /** A map that keeps exactly the entries not below the bound, unchanged, is `KeepFrequent`. */
  lemma KeptAreFrequent(inner: map<string, int>, bound: real, kept: map<string, int>)
    requires kept.Keys <= inner.Keys
    requires forall w :: w in kept ==> kept[w] == inner[w]
    requires forall w :: w in inner ==> (w in kept <==> !(inner[w] as real < bound))
    ensures kept == KeepFrequent(inner, bound)
  {
  }

  /** The frequency bound of a group: its total times the cut-off. */
  ghost function Bound(inner: map<string, int>, cutoff: real): real {
    Total(inner) as real * cutoff
  }

  /**
    Whether `removeInfrequent` keeps canonical form `c`: its total, taken
    before anything is removed, reaches `termLimit`, and once its spellings
    counted below the bound are dropped it is not left with only itself.
   */
  ghost predicate Survives(counter: Counter, c: string, termLimit: int, cutoff: real) {
    c in counter && Total(counter[c]) >= termLimit &&
    !OnlySelf(c, KeepFrequent(counter[c], Bound(counter[c], cutoff)))
  }

  /** What `removeInfrequent` leaves for canonical form `c`. */
  ghost predicate PrunedAt(counter: Counter, pruned: Counter, c: string, termLimit: int, cutoff: real) {
    (c in pruned <==> Survives(counter, c, termLimit, cutoff)) &&
    (c in pruned ==> pruned[c] == KeepFrequent(counter[c], Bound(counter[c], cutoff)))
  }

  /** One canonical form's turn in the loop of `removeInfrequent`; the other forms are left alone. */
  method PruneCanonical(counter: Counter, pruned: Counter, c: string, termLimit: int, cutoff: real)
    returns (pruned': Counter)
    requires c in counter && c in pruned && pruned[c] == counter[c]
    ensures PrunedAt(counter, pruned', c, termLimit, cutoff)
    ensures forall d :: d != c ==> (d in pruned' <==> d in pruned) && (d in pruned' ==> pruned'[d] == pruned[d])
  {
    var termCounter := SumCounts(counter[c]);
    if termCounter < termLimit {
      pruned' := pruned - {c};
      return;
    }
    var kept := RemoveRareOriginals(counter[c], termCounter as real * cutoff);
    KeptAreFrequent(counter[c], Bound(counter[c], cutoff), kept);
    if |kept| == 1 && c in kept {
      pruned' := pruned - {c};
    } else {
      pruned' := pruned[c := kept];
    }
  }

  /**
    `removeInfrequent(counter, termLimit, cutoff)`: exactly the surviving forms
    stay, each with exactly its frequent spellings; it only deletes, so every
    count left is the count it had.
   */
  method RemoveInfrequent(counter: Counter, termLimit: int, cutoff: real) returns (pruned: Counter)
    ensures pruned.Keys <= counter.Keys
    ensures forall c :: c in pruned <==> Survives(counter, c, termLimit, cutoff)
    ensures forall c :: c in pruned ==> pruned[c] == KeepFrequent(counter[c], Bound(counter[c], cutoff))
    ensures forall c, w :: c in pruned && w in pruned[c] ==> w in counter[c] && pruned[c][w] == counter[c][w]
    ensures pruned == PrunedCounter(counter, termLimit, cutoff)
  {
    pruned := counter;
    var canonicals := counter.Keys;
    while canonicals != {}
      invariant canonicals <= counter.Keys
      invariant forall c :: c in canonicals ==> c in pruned && pruned[c] == counter[c]
      invariant forall c :: c !in canonicals ==> PrunedAt(counter, pruned, c, termLimit, cutoff)
      decreases |canonicals|
    {
      var c :| c in canonicals;
      pruned := PruneCanonical(counter, pruned, c, termLimit, cutoff);
      canonicals := canonicals - {c};
    }
    forall c | c in pruned
      ensures c in counter && pruned[c] == KeepFrequent(counter[c], Bound(counter[c], cutoff))
    {
      assert PrunedAt(counter, pruned, c, termLimit, cutoff);
    }
    PrunedCounterIs(counter, pruned, termLimit, cutoff);
  }

  lemma PrunedCounterIs(counter: Counter, pruned: Counter, termLimit: int, cutoff: real)
    requires pruned.Keys <= counter.Keys
    requires forall c :: c in pruned <==> Survives(counter, c, termLimit, cutoff)
    requires forall c :: c in pruned ==> pruned[c] == KeepFrequent(counter[c], Bound(counter[c], cutoff))
    ensures pruned == PrunedCounter(counter, termLimit, cutoff)
  {
  }

  /** What `removeInfrequent` leaves of `counter`: the surviving forms, each with its frequent spellings. */
  ghost function PrunedCounter(counter: Counter, termLimit: int, cutoff: real): Counter {
    map c | c in counter && Survives(counter, c, termLimit, cutoff) :: KeepFrequent(counter[c], Bound(counter[c], cutoff))
  }

  /** The count of `w` in an inner map, zero when absent. */
  function Count(inner: map<string, int>, w: string): int {
    if w in inner then inner[w] else 0
  }

  /** The inner map of canonical form `c`, empty when absent. */
  function Group(counter: Counter, c: string): map<string, int> {
    if c in counter then counter[c] else map[]
  }

  /**
    One word of the counting loop: one more for its spelling under its
    canonical form, the group created on first sight. `reduce` stands for
    `CanonicalForm.reduceToCanonicalForm`, and `MapUtils.incrementMapByValue`
    is taken to add to the stored count, or to zero when there is none.
   */
  function AddWord(counter: Counter, word: string, reduce: string -> string): Counter {
    var c := reduce(word);
    var inner := Group(counter, c);
    counter[c := inner[word := Count(inner, word) + 1]]
  }

  /** The counting loop over `words`, in order. */
  function AddWords(counter: Counter, words: seq<string>, reduce: string -> string): Counter {
    if words == [] then counter
    else AddWord(AddWords(counter, words[..|words| - 1], reduce), words[|words| - 1], reduce)
  }

  /**
    After counting `words`, the count of each spelling under each canonical
    form has grown by its number of occurrences among the words that reduce to
    that form, and by nothing else.
   */
  lemma {:induction false} AddWordsCount(counter: Counter, words: seq<string>, reduce: string -> string,
                                         c: string, w: string)
    ensures Count(Group(AddWords(counter, words, reduce), c), w) ==
            Count(Group(counter, c), w) + (if reduce(w) == c then multiset(words)[w] else 0)
  {
    if words != [] {
      var init := words[..|words| - 1];
      var last := words[|words| - 1];
      AddWordsCount(counter, init, reduce, c, w);
      assert words == init + [last];
    }
  }

  /** Counting creates a group for each form a word reduces to, and for nothing else. */
  lemma {:induction false} AddWordsKeys(counter: Counter, words: seq<string>, reduce: string -> string)
    ensures AddWords(counter, words, reduce).Keys == counter.Keys + set w | w in words :: reduce(w)
  {
    if words != [] {
      var init := words[..|words| - 1];
      var last := words[|words| - 1];
      AddWordsKeys(counter, init, reduce);
      assert words == init + [last];
      assert (set w | w in words :: reduce(w)) == (set w | w in init :: reduce(w)) + {reduce(last)};
    }
  }

  /** A spelling is listed under a form after counting iff it was before, or is one of the words and reduces to it. */
  lemma {:induction false} AddWordsSpellings(counter: Counter, words: seq<string>, reduce: string -> string,
                                             c: string, w: string)
    ensures w in Group(AddWords(counter, words, reduce), c) <==>
            w in Group(counter, c) || (w in words && reduce(w) == c)
  {
    if words != [] {
      var init := words[..|words| - 1];
      var last := words[|words| - 1];
      AddWordsSpellings(counter, init, reduce, c, w);
      assert words == init + [last];
    }
  }

  /** The word loop of `createCanonicalDictionary` for one tweet. */
  method CountWords(counter: Counter, words: seq<string>, reduce: string -> string) returns (counted: Counter)
    ensures counted == AddWords(counter, words, reduce)
  {
    counted := counter;
    for i := 0 to |words|
      invariant counted == AddWords(counter, words[..i], reduce)
    {
      ghost var before := counted;
      var word := words[i];
      var reduced := reduce(word);
      if reduced !in counted {
        counted := counted[reduced := map[]];
      }
      var inner := counted[reduced];
      assert inner == Group(before, reduced);
      counted := counted[reduced := inner[word := Count(inner, word) + 1]];
      assert counted == AddWord(before, word, reduce);
      AddWordsSnoc(counter, words, i, reduce);
    }
    assert words[..|words|] == words;
  }

  lemma AddWordsSnoc(counter: Counter, words: seq<string>, i: nat, reduce: string -> string)
    requires i < |words|
    ensures AddWords(counter, words[..i + 1], reduce) == AddWord(AddWords(counter, words[..i], reduce), words[i], reduce)
  {
    assert words[..i + 1][..i] == words[..i];
  }

  /** The projection that ends `createCanonicalDictionary`: each form to the key set of its spellings. */
  method ProjectOptions(counter: Counter) returns (options: map<string, set<string>>)
    ensures options.Keys == counter.Keys
    ensures forall c :: c in options ==> options[c] == counter[c].Keys
  {
    options := map[];
    var entries := counter.Keys;
    while entries != {}
      invariant entries <= counter.Keys
      invariant options.Keys == counter.Keys - entries
      invariant forall c :: c in options ==> options[c] == counter[c].Keys
      decreases |entries|
    {
      var c :| c in entries;
      options := options[c := counter[c].Keys];
      entries := entries - {c};
    }
  }

  function Elements(ws: seq<string>): set<string> {
    set i | 0 <= i < |ws| :: ws[i]
  }

  /** The words of the tweets, as the whitespace split gives them. */
  ghost function WordsOf(tweets: seq<string>): set<string> {
    if tweets == [] then {}
    else WordsOf(tweets[..|tweets| - 1]) + Elements(Split(tweets[|tweets| - 1]))
  }

  /** Every spelling sits under its own canonical form and was seen in `seen`. */
  ghost predicate Grouped(counter: Counter, reduce: string -> string, seen: set<string>) {
    forall c, w :: c in counter && w in counter[c] ==> reduce(w) == c && w in seen
  }

  lemma CountingKeepsGrouped(counter: Counter, words: seq<string>, reduce: string -> string, seen: set<string>)
    requires Grouped(counter, reduce, seen)
    ensures Grouped(AddWords(counter, words, reduce), reduce, seen + Elements(words))
  {
    var counted := AddWords(counter, words, reduce);
    forall c, w | c in counted && w in counted[c]
      ensures reduce(w) == c && w in seen + Elements(words)
    {
      AddWordsSpellings(counter, words, reduce, c, w);
      if w !in seen {
        var i :| 0 <= i < |words| && words[i] == w;
      }
    }
  }

  /** Pruning only deletes, so it keeps every spelling under its form. */
  lemma PruningKeepsGrouped(counter: Counter, pruned: Counter, reduce: string -> string, seen: set<string>)
    requires Grouped(counter, reduce, seen)
    requires pruned.Keys <= counter.Keys
    requires forall c, w :: c in pruned && w in pruned[c] ==> w in counter[c]
    ensures Grouped(pruned, reduce, seen)
  {
  }

  /** Every spelling listed for a form reduces to it and was seen in `seen`. */
  ghost predicate OptionsGrouped(options: map<string, set<string>>, reduce: string -> string, seen: set<string>) {
    forall c, w :: c in options && w in options[c] ==> reduce(w) == c && w in seen
  }

  /** The projection lists exactly the spellings of each group, so it keeps them grouped. */
  lemma ProjectionGrouped(counter: Counter, options: map<string, set<string>>, reduce: string -> string,
                          seen: set<string>)
    requires Grouped(counter, reduce, seen)
    requires options.Keys == counter.Keys
    requires forall c :: c in options ==> options[c] == counter[c].Keys
    ensures OptionsGrouped(options, reduce, seen)
  {
  }

  lemma WordsOfNext(tweets: seq<string>, n: nat)
    requires n < |tweets|
    ensures WordsOf(tweets[..n + 1]) == WordsOf(tweets[..n]) + Elements(Split(tweets[n]))
  {
    assert tweets[..n + 1][..n] == tweets[..n];
  }

  /**
    The counter after the tweet loop of `createCanonicalDictionary`: before the
    tweet at 0-based position `k`, whenever `k` is a multiple of 100000, the
    counter is pruned with half the final limits, the term limit taken from
    the count `k + 1` of tweets read so far; then the tweet's words are counted.
   */
  ghost function Tally(tweets: seq<string>, reduce: string -> string): Counter {
    if tweets == [] then map[]
    else
      var k := |tweets| - 1;
      var before := Tally(tweets[..k], reduce);
      AddWords(TallyStart(before, k), Split(tweets[k]), reduce)
  }

  /** The counter as the tweet at position `k` finds it: pruned first when `k` is a multiple of 100000. */
  ghost function TallyStart(counter: Counter, k: nat): Counter {
    if k % 100000 == 0 then PrunedCounter(counter, HalfTermLimit(k), CorrectFrequency / 2.0) else counter
  }

  /** The term limit of the pruning before the tweet at position `k`, from the `k + 1` tweets read. */
  function HalfTermLimit(k: nat): int {
    TruncToInt((k + 1) as real * TermFrequency / 2.0)
  }

  lemma TallySnoc(tweets: seq<string>, n: nat, reduce: string -> string)
    requires n < |tweets|
    ensures Tally(tweets[..n + 1], reduce) == AddWords(TallyStart(Tally(tweets[..n], reduce), n), Split(tweets[n]), reduce)
  {
    assert tweets[..n + 1][..n] == tweets[..n] && tweets[..n + 1][n] == tweets[n];
  }

  /** The spellings `createCanonicalDictionary` lists per canonical form. */
  function Projected(counter: Counter): map<string, set<string>> {
    map c | c in counter :: counter[c].Keys
  }

  /**
    The tweet loop of `createCanonicalDictionary`: count the words of each
    tweet, pruning with half the final limits every 100000 tweets (the test
    reads the counter before its increment, the limit after it).
   */
  method CountTweets(tweets: seq<string>, reduce: string -> string) returns (counter: Counter, iteration: nat)
    ensures iteration == |tweets|
    ensures counter == Tally(tweets, reduce)
    ensures Grouped(counter, reduce, WordsOf(tweets))
  {
    iteration := 0;
    counter := map[];
    while iteration < |tweets|
      invariant iteration <= |tweets|
      invariant counter == Tally(tweets[..iteration], reduce)
      invariant Grouped(counter, reduce, WordsOf(tweets[..iteration]))
    {
      var tweet := tweets[iteration];
      var test := iteration;
      ghost var before := counter;
      iteration := iteration + 1;
      if test % 100000 == 0 {
        var pruned := RemoveInfrequent(counter, HalfTermLimit(test), CorrectFrequency / 2.0);
        PruningKeepsGrouped(counter, pruned, reduce, WordsOf(tweets[..test]));
        counter := pruned;
      }
      assert counter == TallyStart(before, test);
      var words := Split(tweet);
      CountingKeepsGrouped(counter, words, reduce, WordsOf(tweets[..test]));
      counter := CountWords(counter, words, reduce);
      WordsOfNext(tweets, test);
      TallySnoc(tweets, test, reduce);
    }
    assert tweets[..iteration] == tweets;
  }

  /**
    `createCanonicalDictionary` over the preprocessed tweets: the tweet loop,
    a last pruning with the full limits, and the projection. Every spelling in
    the result reduces to its canonical form and was a word of some tweet, and
    no form is listed with only itself as spelling.
   */
  method CreateCanonicalDictionary(tweets: seq<string>, reduce: string -> string)
    returns (options: map<string, set<string>>)
    ensures options == Projected(PrunedCounter(Tally(tweets, reduce), TruncToInt(|tweets| as real * TermFrequency), CorrectFrequency))
    ensures OptionsGrouped(options, reduce, WordsOf(tweets))
    ensures forall c :: c in options ==> options[c] != {c}
  {
    var counter, iteration := CountTweets(tweets, reduce);
    var termLimit := TruncToInt(iteration as real * TermFrequency);
    var pruned := RemoveInfrequent(counter, termLimit, CorrectFrequency);
    PruningKeepsGrouped(counter, pruned, reduce, WordsOf(tweets));
    options := ProjectOptions(pruned);
    forall c | c in options
      ensures options[c] != {c}
    {
      assert Survives(counter, c, termLimit, CorrectFrequency);
      assert pruned[c] == KeepFrequent(counter[c], Bound(counter[c], CorrectFrequency));
      OnlySelfKeys(c, pruned[c]);
    }
    ProjectionGrouped(pruned, options, reduce, WordsOf(tweets));
  }
}
