/**
  The n-gram counting trie of the PMI phrase miner (`NGramTree` and its `Node`s).

  A trie node is identified by the path of words leading to it from the root,
  so the tree is held as one map from paths to occurrence counts: the root is
  the empty path, and the children of node `p` are the paths `p + [w]` present
  in the map. The Java node's `phrase` is the last word of its path and its
  `numOccurrences` is the count.
 */
module NGramTrie {
  import opened Wrappers
  import Text

  type Path = seq<string>
  type Counts = map<Path, int>

  /** The root is a node and so is the parent of every other node. */
  ghost predicate PrefixClosed(c: Counts) {
    [] in c && forall p, w :: p + [w] in c ==> p in c
  }

  /** No child has been seen more often than its parent. */
  ghost predicate ChildAtMostParent(c: Counts) {
    forall p, w :: p + [w] in c && p in c ==> c[p + [w]] <= c[p]
  }

  /** A non-empty path is its parent's path plus its last word. */
  lemma ParentIn(c: Counts, p: Path)
    requires PrefixClosed(c) && p in c && p != []
    ensures p[..|p| - 1] in c
  {
    assert p == p[..|p| - 1] + [p[|p| - 1]];
  }

  lemma ParentAtLeast(c: Counts, p: Path)
    requires WellFormed(c) && p in c && p != []
    ensures p[..|p| - 1] in c && c[p] <= c[p[..|p| - 1]]
  {
    assert p == p[..|p| - 1] + [p[|p| - 1]];
  }

  ghost predicate NonNegative(c: Counts) {
    forall p :: p in c ==> c[p] >= 0
  }

  /** The shape every trie keeps between operations. */
  ghost predicate WellFormed(c: Counts) {
    PrefixClosed(c) && ChildAtMostParent(c) && NonNegative(c)
  }

  /** Every prefix of a node is a node. */
  lemma {:induction false} AncestorIn(c: Counts, p: Path, k: nat)
    requires PrefixClosed(c) && p in c && k <= |p|
    ensures p[..k] in c
    decreases |p| - k
  {
    if k == |p| {
      assert p[..k] == p;
    } else {
      ParentIn(c, p);
      AncestorIn(c, p[..|p| - 1], k);
      assert p[..|p| - 1][..k] == p[..k];
    }
  }

  /** Counts shrink along every path: an ancestor has been seen at least as often as its descendant. */
  lemma {:induction false} AncestorAtLeast(c: Counts, p: Path, k: nat)
    requires WellFormed(c) && p in c && k <= |p|
    ensures p[..k] in c && c[p] <= c[p[..k]]
    decreases |p| - k
  {
    AncestorIn(c, p, k);
    if k == |p| {
      assert p[..k] == p;
    } else {
      var q := p[..|p| - 1];
      ParentAtLeast(c, p);
      AncestorAtLeast(c, q, k);
      assert q[..k] == p[..k];
    }
  }

  /** The trie of a fresh `NGramTree`: only the root, seen 0 times. */
  function Root(): (c: Counts)
    ensures WellFormed(c)
  {
    map[[] := 0]
  }

  /** The nodes on the path of an n-gram, root included. */
  function PathTo(g: Path): set<Path> {
    set k | 0 <= k <= |g| :: g[..k]
  }

  /**
    The trie after counting one n-gram: the root and every node on its path
    gain one, the nodes of the path that were missing are created from 0, and
    nothing else changes.
   */
  function Incremented(c: Counts, g: Path): Counts {
    map p | p in c.Keys + PathTo(g) :: (if p in c then c[p] else 0) + (if p <= g then 1 else 0)
  }

  lemma InPathTo(g: Path, p: Path)
    ensures p in PathTo(g) <==> p <= g
  {
    if p <= g {
      assert g[..|p|] == p;
    }
  }

  /** Counting an n-gram keeps the trie well formed: in particular no child overtakes its parent. */
  lemma IncrementedWellFormed(c: Counts, g: Path)
    requires WellFormed(c)
    ensures WellFormed(Incremented(c, g))
  {
    var r := Incremented(c, g);
    forall p | p in r
      ensures p <= g <==> p in PathTo(g)
    {
      InPathTo(g, p);
    }
    assert [] <= g;
    forall q, w | q + [w] in r
      ensures q in r && r[q + [w]] <= r[q]
    {
      var p := q + [w];
      assert p[..|p| - 1] == q;
      if p in c {
        ParentAtLeast(c, p);
      }
      if p <= g {
        assert q <= g;
        InPathTo(g, q);
      }
    }
  }

  /** Counting the empty n-gram only adds one to the root. */
  lemma IncrementedRoot(c: Counts)
    requires [] in c
    ensures Incremented(c, []) == c[[] := c[[]] + 1]
  {
    var r := Incremented(c, []);
    forall p | p in r
      ensures p in c || p == []
    {
      InPathTo([], p);
    }
    assert r.Keys == c.Keys;
  }

  /** Counting one word more changes only the node at the end of the longer path. */
  lemma IncrementedSnoc(c: Counts, g: Path, w: string)
    ensures Incremented(c, g + [w]) ==
            Incremented(c, g)[g + [w] := (if g + [w] in c then c[g + [w]] else 0) + 1]
  {
    var g' := g + [w];
    var a := Incremented(c, g');
    var b := Incremented(c, g)[g' := (if g' in c then c[g'] else 0) + 1];
    forall p
      ensures p in PathTo(g') <==> p in PathTo(g) || p == g'
      ensures p != g' ==> (p <= g' <==> p <= g)
    {
      InPathTo(g', p);
      InPathTo(g, p);
      if p <= g' && p != g' {
        assert |p| < |g'|;
        assert g[..|p|] == g'[..|p|];
      }
      if p <= g {
        assert g'[..|p|] == g[..|p|];
      }
    }
    assert a.Keys == b.Keys;
    forall p | p in a
      ensures a[p] == b[p]
    {
      if p != g' {
        assert p in Incremented(c, g);
      }
    }
  }

  /** After counting `g` its node exists and has been seen at least once. */
  lemma IncrementedReaches(c: Counts, g: Path)
    requires NonNegative(c)
    ensures g in Incremented(c, g) && Incremented(c, g)[g] >= 1
  {
    InPathTo(g, g);
  }

  /**
    After counting a tokenized n-gram, looking up its space-joined phrase from
    the root finds the n-gram's node.
   */
  lemma IncrementThenFind(c: Counts, g: Path)
    requires |g| >= 1 && Text.AllWords(g)
    ensures Text.Split(Text.Join(g)) in Incremented(c, g)
  {
    Text.SplitJoin(g);
    InPathTo(g, g);
  }

  /** Every node on the way from `p` down to `q` (excluding `p`) has been seen at least `limit` times. */
  ghost predicate SurvivesFrom(c: Counts, p: Path, q: Path, limit: int) {
    forall k :: |p| < k <= |q| ==> q[..k] in c && c[q[..k]] >= limit
  }

  /**
    Pruning below node `p`: a descendant of `p` is kept exactly when it and
    every node between it and `p` have been seen at least `limit` times (a
    removed child takes its whole subtree with it); the counts of the kept
    nodes and of every node outside the subtree are unchanged.
   */
  ghost function PrunedBelow(c: Counts, p: Path, limit: int): Counts {
    map q | q in c && (!(p <= q) || SurvivesFrom(c, p, q, limit)) :: c[q]
  }

  /** Pruning the whole tree; the root itself is never removed. */
  ghost function Pruned(c: Counts, limit: int): Counts {
    PrunedBelow(c, [], limit)
  }

  /** The words under which node `p` has a child. */
  function ChildWords(c: Counts, p: Path): (ws: set<string>)
    ensures forall w {:trigger w in ws} :: w in ws <==> p + [w] in c
  {
    var ws := set q | q in c.Keys && |q| == |p| + 1 && q[..|p|] == p :: q[|p|];
    assert forall w :: p + [w] in c ==> (p + [w])[..|p|] == p && (p + [w])[|p|] == w;
    assert forall q :: |q| == |p| + 1 && q[..|p|] == p ==> q == p + [q[|p|]];
    ws
  }

  /** The tree without the subtree rooted at `p` (Java: the child's entry is removed). */
  function RemoveSubtree(c: Counts, p: Path): (r: Counts)
    ensures forall q :: q in r <==> q in c && !(p <= q)
  {
    map q | q in c && !(p <= q) :: c[q]
  }

  /** The nodes of the subtree rooted at `p`. */
  ghost function Subtree(c: Counts, p: Path): set<Path> {
    set q | q in c && p <= q
  }

  /** Pruning below `p` once the children whose words are in `done` have been dealt with. */
  ghost function PartlyPruned(c: Counts, p: Path, done: set<string>, limit: int): Counts {
    map q | q in c && (!(p < q) || q[|p|] !in done || SurvivesFrom(c, p, q, limit)) :: c[q]
  }

  lemma ChildOf(p: Path, w: string, q: Path)
    ensures p + [w] <= q <==> p < q && q[|p|] == w
  {
    if p < q && q[|p|] == w {
      assert q[..|p| + 1] == p + [w];
    }
    if p + [w] <= q {
      assert q[..|p|] == (p + [w])[..|p|] == p;
    }
  }

  lemma PartlyPrunedNone(c: Counts, p: Path, limit: int)
    ensures PartlyPruned(c, p, {}, limit) == c
  {
  }

  lemma PartlyPrunedAll(c: Counts, p: Path, limit: int)
    requires PrefixClosed(c)
    ensures PartlyPruned(c, p, ChildWords(c, p), limit) == PrunedBelow(c, p, limit)
  {
    var a := PartlyPruned(c, p, ChildWords(c, p), limit);
    var b := PrunedBelow(c, p, limit);
    forall q | q in c && p < q
      ensures q[|p|] in ChildWords(c, p)
    {
      AncestorIn(c, q, |p| + 1);
      ChildOf(p, q[|p|], q);
    }
    assert a.Keys == b.Keys;
  }

  lemma PartlyPrunedClosed(c: Counts, p: Path, done: set<string>, limit: int)
    requires PrefixClosed(c)
    ensures PrefixClosed(PartlyPruned(c, p, done, limit))
  {
    var r := PartlyPruned(c, p, done, limit);
    forall u, w | u + [w] in r
      ensures u in r
    {
      var q := u + [w];
      assert u == q[..|q| - 1];
      ParentIn(c, q);
      if p < u {
        assert q[|p|] == u[|p|];
        assert p < q;
        assert forall k :: |p| < k <= |u| ==> u[..k] == q[..k];
      }
    }
  }

  /** Removing a child seen fewer than `limit` times is what pruning does to that child. */
  lemma RemoveStep(c: Counts, p: Path, done: set<string>, w: string, limit: int)
    requires w !in done && p + [w] in c && c[p + [w]] < limit
    ensures RemoveSubtree(PartlyPruned(c, p, done, limit), p + [w]) == PartlyPruned(c, p, done + {w}, limit)
  {
    var a := RemoveSubtree(PartlyPruned(c, p, done, limit), p + [w]);
    var b := PartlyPruned(c, p, done + {w}, limit);
    forall q
      ensures q in a <==> q in b
    {
      ChildOf(p, w, q);
      if p + [w] <= q {
        assert q[..|p| + 1] == p + [w];
      }
    }
    assert a.Keys == b.Keys;
  }

  /** Pruning below a child seen at least `limit` times is what pruning does to that child. */
  lemma RecurseStep(c: Counts, p: Path, done: set<string>, w: string, limit: int)
    requires w !in done && p + [w] in c && c[p + [w]] >= limit
    ensures PrunedBelow(PartlyPruned(c, p, done, limit), p + [w], limit) == PartlyPruned(c, p, done + {w}, limit)
  {
    var m := PartlyPruned(c, p, done, limit);
    var a := PrunedBelow(m, p + [w], limit);
    var b := PartlyPruned(c, p, done + {w}, limit);
    forall q
      ensures q in a <==> q in b
    {
      ChildOf(p, w, q);
      if p + [w] <= q && q in c {
        assert q[..|p| + 1] == p + [w];
        forall k | |p| + 1 < k <= |q|
          ensures q[..k] in m <==> q[..k] in c
        {
          assert q[..k][..|p| + 1] == p + [w];
          ChildOf(p, w, q[..k]);
        }
      }
    }
    assert a.Keys == b.Keys;
  }

  /** The subtree of a child is smaller than its parent's, whatever was pruned in between. */
  lemma SubtreeShrinks(c: Counts, p: Path, done: set<string>, w: string, limit: int)
    requires p in c
    ensures |Subtree(PartlyPruned(c, p, done, limit), p + [w])| < |Subtree(c, p)|
  {
    var a := Subtree(PartlyPruned(c, p, done, limit), p + [w]);
    var b := Subtree(c, p);
    forall q | q in a
      ensures q in b && q != p
    {
      ChildOf(p, w, q);
    }
    assert p in b;
    SubsetCard(a, b - {p});
  }

  /** A child's subtree is smaller than its parent's. */
  lemma ChildSubtreeSmaller(c: Counts, p: Path, w: string)
    requires p in c
    ensures |Subtree(c, p + [w])| < |Subtree(c, p)|
  {
    PartlyPrunedNone(c, p, 0);
    SubtreeShrinks(c, p, {}, w, 0);
  }

  lemma {:induction false} SubsetCard<T>(a: set<T>, b: set<T>)
    requires a <= b
    ensures |a| <= |b|
    decreases b
  {
    if a != {} {
      var x :| x in a;
      SubsetCard(a - {x}, b - {x});
    }
  }

  /** Pruning keeps the tree well formed. */
  lemma PrunedWellFormed(c: Counts, limit: int)
    requires WellFormed(c)
    ensures WellFormed(Pruned(c, limit))
  {
    PartlyPrunedAll(c, [], limit);
    PartlyPrunedClosed(c, [], ChildWords(c, []), limit);
  }

  /**
    Because counts only shrink along a path, pruning keeps exactly the root and
    the nodes seen at least `limit` times, with their counts.
   */
  lemma PrunedExactly(c: Counts, limit: int, q: Path)
    requires WellFormed(c)
    ensures q in Pruned(c, limit) <==> q in c && (q == [] || c[q] >= limit)
    ensures q in Pruned(c, limit) ==> Pruned(c, limit)[q] == c[q]
  {
    if q in c && q != [] && c[q] >= limit {
      forall k | 0 < k <= |q|
        ensures q[..k] in c && c[q[..k]] >= limit
      {
        AncestorAtLeast(c, q, k);
      }
    }
    if q in Pruned(c, limit) && q != [] {
      assert q[..|q|] == q;
    }
  }

  /** `getNode(word)` finds a node for the word and that node was seen at least `limit` times. */
  ghost predicate LastWordFrequent(c: Counts, w: string, limit: int) {
    Text.Split(w) in c && c[Text.Split(w)] >= limit
  }

  /** The `k`-th node on the path of `q` was seen at least `limit` times, and so was the node `getNode` finds for its word. */
  ghost predicate FrequentLevel(c: Counts, q: Path, k: nat, limit: int)
    requires 0 < k <= |q|
  {
    q[..k] in c && c[q[..k]] >= limit && LastWordFrequent(c, q[k - 1], limit)
  }

  /** The phrase extension from node `p` down to node `q` is taken: every level below `p` is frequent. */
  ghost predicate ExtendsFrequently(c: Counts, p: Path, q: Path, limit: int) {
    forall k :: |p| < k <= |q| ==> FrequentLevel(c, q, k, limit)
  }

  /** The count of a node, 0 for a path that is not one. */
  function CountOf(c: Counts, q: Path): int {
    if q in c then c[q] else 0
  }

  /**
    The score of a phrase of two or more words: the logarithms of the root's
    count and of the phrase's count, minus those of its prefix's count and of
    the count of its last word's node.
   */
  function Pmi(c: Counts, q: Path, logOf: int -> real): real
    requires |q| >= 2
  {
    logOf(CountOf(c, [])) + logOf(CountOf(c, q)) - logOf(CountOf(c, q[..|q| - 1])) - logOf(CountOf(c, Text.Split(q[|q| - 1])))
  }

  /** What the last level of an extended phrase guarantees. */
  lemma LastLevel(c: Counts, p: Path, q: Path, limit: int)
    requires |p| < |q| && ExtendsFrequently(c, p, q, limit)
    ensures q in c && c[q] >= limit && LastWordFrequent(c, q[|q| - 1], limit)
  {
    assert FrequentLevel(c, q, |q|, limit);
    assert q[..|q|] == q;
  }

  /** The phrases `addFrequentPhrases` collects below node `p`, with their scores. */
  ghost function FrequentBelow(c: Counts, p: Path, limit: int, logOf: int -> real): map<Path, real>
    requires |p| >= 1
  {
    map q | q in c && p < q && ExtendsFrequently(c, p, q, limit) :: Pmi(c, q, logOf)
  }

  /**
    The phrases `getNGrams` collects before its final filter: every word seen
    at least `limit` times, scored by its count, and every longer phrase that
    extends a top-level word frequently, scored by `Pmi`.
   */
  ghost function NGrams(c: Counts, limit: int, logOf: int -> real): map<Path, real> {
    map q | q in c && |q| >= 1 && (if |q| == 1 then c[q] >= limit else ExtendsFrequently(c, q[..1], q, limit)) ::
      if |q| == 1 then c[q] as real else Pmi(c, q, logOf)
  }

  /** `containsIntensifier(tokens)` */
  predicate ContainsAny(words: Path, list: set<string>) {
    exists i :: 0 <= i < |words| && words[i] in list
  }

  /** An entry the final pass of `getNGrams` removes: a negative score, an intensifier among its words, or a stop word at its end. */
  predicate Discarded(q: Path, score: real, intensifiers: set<string>, stopWords: set<string>)
    requires q != []
  {
    score < 0.0 || ContainsAny(q, intensifiers) || q[|q| - 1] in stopWords
  }

  /** The entries of `m` the final pass keeps. */
  ghost function Filtered(m: map<Path, real>, intensifiers: set<string>, stopWords: set<string>): map<Path, real> {
    map q | q in m && q != [] && !Discarded(q, m[q], intensifiers, stopWords) :: m[q]
  }

  /** The final pass part-way: the entries still in `pending` have not been looked at yet. */
  ghost function FilteredExcept(m: map<Path, real>, pending: set<Path>, intensifiers: set<string>, stopWords: set<string>): map<Path, real> {
    map q | q in m && q != [] && (q in pending || !Discarded(q, m[q], intensifiers, stopWords)) :: m[q]
  }

  lemma FilterStart(m: map<Path, real>, intensifiers: set<string>, stopWords: set<string>)
    requires forall q :: q in m ==> q != []
    ensures FilteredExcept(m, m.Keys, intensifiers, stopWords) == m
  {
  }

  lemma FilterStep(m: map<Path, real>, pending: set<Path>, q: Path, intensifiers: set<string>, stopWords: set<string>)
    requires q in pending && q in m && q != []
    ensures var r := FilteredExcept(m, pending, intensifiers, stopWords);
            FilteredExcept(m, pending - {q}, intensifiers, stopWords) ==
            if Discarded(q, m[q], intensifiers, stopWords) then r - {q} else r
  {
    var a := FilteredExcept(m, pending - {q}, intensifiers, stopWords);
    var r := FilteredExcept(m, pending, intensifiers, stopWords);
    if Discarded(q, m[q], intensifiers, stopWords) {
      assert a.Keys == (r - {q}).Keys;
    } else {
      assert a.Keys == r.Keys;
    }
  }

  lemma FilterEnd(m: map<Path, real>, intensifiers: set<string>, stopWords: set<string>)
    ensures FilteredExcept(m, {}, intensifiers, stopWords) == Filtered(m, intensifiers, stopWords)
  {
  }

  /** The entries of `m` below `p` whose next word is in `done`. */
  ghost function FromChildren(m: map<Path, real>, p: Path, done: set<string>): map<Path, real> {
    map q | q in m && |q| > |p| && q[|p|] in done :: m[q]
  }

  lemma FromNoChildren(m: map<Path, real>, p: Path)
    ensures FromChildren(m, p, {}) == map[]
  {
  }

  /** Writing one entry and then a batch into the running map, against adding their union at once. */
  lemma UnionStep<K, V>(m: map<K, V>, x: map<K, V>, y: map<K, V>, k: K, v: V, batch: map<K, V>)
    requires y.Keys == x.Keys + {k} + batch.Keys
    requires y[k] == v
    requires forall q :: q in batch ==> y[q] == batch[q]
    requires forall q :: q in x && q !in batch && q != k ==> y[q] == x[q]
    ensures (m + x)[k := v] + batch == m + y
  {
    var a := (m + x)[k := v] + batch;
    assert a.Keys == (m + y).Keys;
  }

  /** Adding only a batch. */
  lemma BatchStep<K, V>(m: map<K, V>, x: map<K, V>, y: map<K, V>, batch: map<K, V>)
    requires y.Keys == x.Keys + batch.Keys
    requires forall q :: q in batch ==> y[q] == batch[q]
    requires forall q :: q in x && q !in batch ==> y[q] == x[q]
    ensures (m + x) + batch == m + y
  {
    var a := (m + x) + batch;
    assert a.Keys == (m + y).Keys;
  }

  /** The child of `p` that a collected phrase goes through is a frequent level. */
  lemma ThroughChild(c: Counts, p: Path, q: Path, limit: int)
    requires |p| < |q| && p < q && ExtendsFrequently(c, p, q, limit)
    ensures q[..|p| + 1] == p + [q[|p|]]
    ensures p + [q[|p|]] in c && c[p + [q[|p|]]] >= limit && LastWordFrequent(c, q[|p|], limit)
  {
    assert FrequentLevel(c, q, |p| + 1, limit);
    assert q[..|p| + 1] == q[..|p|] + [q[|p|]];
  }

  /** `addFrequentPhrases` collects the child of `p` under `w`: it was seen at least `limit` times and so was its word's node. */
  ghost predicate Taken(c: Counts, p: Path, w: string, limit: int) {
    p + [w] in c && c[p + [w]] >= limit && LastWordFrequent(c, w, limit)
  }

  /** A child that is not taken contributes nothing below its parent. */
  lemma SkipStep(c: Counts, p: Path, done: set<string>, w: string, limit: int, logOf: int -> real)
    requires |p| >= 1 && !Taken(c, p, w, limit)
    ensures FromChildren(FrequentBelow(c, p, limit, logOf), p, done + {w}) ==
            FromChildren(FrequentBelow(c, p, limit, logOf), p, done)
  {
    var fb := FrequentBelow(c, p, limit, logOf);
    forall q | q in fb
      ensures q[|p|] != w
    {
      ThroughChild(c, p, q, limit);
    }
    assert FromChildren(fb, p, done + {w}).Keys == FromChildren(fb, p, done).Keys;
  }

  /** Below a taken child, extending from the child is extending from its parent. */
  lemma BelowChild(c: Counts, p: Path, w: string, q: Path, limit: int)
    requires Taken(c, p, w, limit)
    ensures p + [w] < q ==> (ExtendsFrequently(c, p + [w], q, limit) <==> ExtendsFrequently(c, p, q, limit))
    ensures ExtendsFrequently(c, p, p + [w], limit)
  {
    var child := p + [w];
    assert child[..|child|] == child;
    if child < q {
      assert q[..|child|] == child;
      assert FrequentLevel(c, q, |child|, limit);
    }
  }

  /**
    Dealing with one child `w` of `p`: when the entries below `p` that go
    through `w` are `k` itself (if present) and the batch, writing them into
    the running map gives the entries for `done` plus `w`.
   */
  lemma ChildStep(m: map<Path, real>, all: map<Path, real>, p: Path, done: set<string>, w: string, k: Path, present: bool, batch: map<Path, real>)
    requires w !in done && |k| > |p| && k[|p|] == w
    requires forall q :: q in all && |q| > |p| && q[|p|] == w <==> (present && q == k) || q in batch
    requires forall q :: q in batch ==> all[q] == batch[q]
    ensures var x := FromChildren(all, p, done);
            (if present then (m + x)[k := all[k]] else m + x) + batch == m + FromChildren(all, p, done + {w})
  {
    var x := FromChildren(all, p, done);
    var y := FromChildren(all, p, done + {w});
    if present {
      assert y.Keys == x.Keys + {k} + batch.Keys;
      UnionStep(m, x, y, k, all[k], batch);
    } else {
      assert y.Keys == x.Keys + batch.Keys;
      BatchStep(m, x, y, batch);
    }
  }

  lemma AddKeys(c: Counts, p: Path, w: string, limit: int, logOf: int -> real, q: Path)
    requires |p| >= 1 && Taken(c, p, w, limit)
    ensures var fb := FrequentBelow(c, p, limit, logOf);
            var below := FrequentBelow(c, p + [w], limit, logOf);
            (q in fb && |q| > |p| && q[|p|] == w <==> q == p + [w] || q in below) &&
            (q in below ==> fb[q] == below[q])
  {
    ChildOf(p, w, q);
    BelowChild(c, p, w, q, limit);
  }

  /** A child that is taken contributes itself and what is collected below it. */
  lemma AddStep(c: Counts, p: Path, done: set<string>, w: string, limit: int, logOf: int -> real, m: map<Path, real>)
    requires |p| >= 1 && w !in done && Taken(c, p, w, limit)
    ensures var fb := FrequentBelow(c, p, limit, logOf);
            (m + FromChildren(fb, p, done))[p + [w] := Pmi(c, p + [w], logOf)] + FrequentBelow(c, p + [w], limit, logOf) ==
            m + FromChildren(fb, p, done + {w})
  {
    var child := p + [w];
    var fb := FrequentBelow(c, p, limit, logOf);
    var below := FrequentBelow(c, child, limit, logOf);
    BelowChild(c, p, w, child, limit);
    assert child in fb && fb[child] == Pmi(c, child, logOf);
    forall q
      ensures q in fb && |q| > |p| && q[|p|] == w <==> q == child || q in below
      ensures q in below ==> fb[q] == below[q]
    {
      AddKeys(c, p, w, limit, logOf, q);
    }
    ChildStep(m, fb, p, done, w, child, true, below);
  }

  /**
    One turn of the loop over the children of `p`: what the turn for child `w`
    writes (see `AddChildPhrases`) extends the entries collected for `done`
    to those for `done` plus `w`.
   */
  lemma ChildTurn(c: Counts, p: Path, done: set<string>, w: string, limit: int, logOf: int -> real,
                  m: map<Path, real>, before: map<Path, real>, after: map<Path, real>)
    requires |p| >= 1 && w !in done
    requires before == m + FromChildren(FrequentBelow(c, p, limit, logOf), p, done)
    requires after == if Taken(c, p, w, limit) then before[p + [w] := Pmi(c, p + [w], logOf)] + FrequentBelow(c, p + [w], limit, logOf)
                      else before
    ensures after == m + FromChildren(FrequentBelow(c, p, limit, logOf), p, done + {w})
  {
    if Taken(c, p, w, limit) {
      AddStep(c, p, done, w, limit, logOf, m);
    } else {
      SkipStep(c, p, done, w, limit, logOf);
    }
  }

  /** Every phrase collected below `p` continues through one of its children. */
  lemma AllChildren(c: Counts, p: Path, limit: int, logOf: int -> real, m: map<Path, real>)
    requires [] in c && p in c && |p| >= 1
    ensures var fb := FrequentBelow(c, p, limit, logOf);
            m + FromChildren(fb, p, ChildWords(c, p)) == m + fb
  {
    var fb := FrequentBelow(c, p, limit, logOf);
    forall q | q in fb
      ensures q[|p|] in ChildWords(c, p)
    {
      ThroughChild(c, p, q, limit);
    }
    assert FromChildren(fb, p, ChildWords(c, p)) == fb;
  }

  /** The collected phrases of two or more words starting with `w` are those collected below `w`'s node. */
  lemma RootKeys(c: Counts, w: string, limit: int, logOf: int -> real, q: Path)
    requires WellFormed(c) && [w] in c
    ensures q in FrequentBelow(c, [w], limit, logOf) <==> q in NGrams(c, limit, logOf) && |q| >= 2 && q[0] == w
  {
    ChildOf([], w, q);
    if |q| >= 1 && q[0] == w {
      assert q[..1] == [w];
    }
  }

  /** The collected phrases that start with top-level word `w`: `[w]` itself when frequent, and those below its node. */
  lemma RootChildKeys(c: Counts, w: string, limit: int, logOf: int -> real, q: Path)
    requires WellFormed(c) && [w] in c
    ensures var ng := NGrams(c, limit, logOf);
            var below := FrequentBelow(c, [w], limit, logOf);
            (q in ng && |q| > 0 && q[0] == w <==> (c[[w]] >= limit && q == [w]) || q in below) &&
            (q in below ==> ng[q] == below[q])
  {
    RootKeys(c, w, limit, logOf, q);
    if |q| == 1 {
      assert q == [q[0]];
    }
  }

  lemma EmptyUnion<K, V>(x: map<K, V>)
    ensures map[] + x == x
  {
  }

  /** A top-level word contributes itself when frequent, and what is collected below it. */
  lemma RootStep(c: Counts, done: set<string>, w: string, limit: int, logOf: int -> real)
    requires WellFormed(c) && [w] in c && w !in done
    ensures var ng := NGrams(c, limit, logOf);
            var x := FromChildren(ng, [], done);
            (c[[w]] >= limit ==> [w] in ng && ng[[w]] == c[[w]] as real) &&
            (if c[[w]] >= limit then x[[w] := c[[w]] as real] else x) + FrequentBelow(c, [w], limit, logOf) ==
            FromChildren(ng, [], done + {w})
  {
    var ng := NGrams(c, limit, logOf);
    var below := FrequentBelow(c, [w], limit, logOf);
    forall q
      ensures q in ng && |q| > 0 && q[0] == w <==> (c[[w]] >= limit && q == [w]) || q in below
      ensures q in below ==> ng[q] == below[q]
    {
      RootChildKeys(c, w, limit, logOf, q);
    }
    EmptyUnion(FromChildren(ng, [], done));
    ChildStep(map[], ng, [], done, w, [w], c[[w]] >= limit, below);
  }

  /** Every collected phrase starts with a top-level word. */
  lemma AllRootChildren(c: Counts, limit: int, logOf: int -> real)
    requires WellFormed(c)
    ensures FromChildren(NGrams(c, limit, logOf), [], ChildWords(c, [])) == NGrams(c, limit, logOf)
  {
    var ng := NGrams(c, limit, logOf);
    forall q | q in ng
      ensures q[0] in ChildWords(c, [])
    {
      AncestorIn(c, q, 1);
      assert q[..1] == [] + [q[0]];
    }
  }

  /** `NGramTree` with its `Node`s. */
  class NGramTree {
    var counts: Counts

    ghost predicate Valid()
      reads this
    {
      WellFormed(counts)
    }

    constructor ()
      ensures Valid() && counts == Root()
    {
      counts := Root();
    }

    /** The words of an n-gram are followed from the root, creating missing children, each visited node counting one more. */
    method IncrementNGram(nGram: Path)
      modifies this
      requires Valid()
      ensures Valid()
      ensures counts == Incremented(old(counts), nGram)
    {
      var current: Path := [];
      IncrementedRoot(counts);
      counts := counts[current := counts[current] + 1];
      for i := 0 to |nGram|
        invariant current == nGram[..i]
        invariant counts == Incremented(old(counts), current)
      {
        var word := nGram[i];
        IncrementedSnoc(old(counts), current, word);
        if current + [word] !in counts {
          counts := counts[current + [word] := 0];
        }
        current := current + [word];
        counts := counts[current := counts[current] + 1];
      }
      assert current == nGram;
      IncrementedWellFormed(old(counts), nGram);
    }

    /** Every child of the root seen fewer than `limit` times is removed with its subtree; the survivors are pruned in turn. */
    method PruneInfrequent(limit: int)
      modifies this
      requires Valid()
      ensures Valid()
      ensures counts == Pruned(old(counts), limit)
    {
      PruneChildren([], limit);
      PrunedWellFormed(old(counts), limit);
    }

    /** `Node.pruneInfrequent` on the node at `p`. */
    method PruneChildren(p: Path, limit: int)
      modifies this
      requires p in counts && PrefixClosed(counts)
      ensures counts == PrunedBelow(old(counts), p, limit)
      decreases |Subtree(counts, p)|
    {
      ghost var c0 := counts;
      var children := ChildWords(counts, p);
      ghost var done: set<string> := {};
      PartlyPrunedNone(c0, p, limit);
      while children != {}
        invariant children + done == ChildWords(c0, p) && children !! done
        invariant counts == PartlyPruned(c0, p, done, limit)
        decreases children
      {
        var w :| w in children;
        children := children - {w};
        assert p + [w] in counts by {
          ChildOf(p, w, p + [w]);
        }
        if counts[p + [w]] < limit {
          RemoveStep(c0, p, done, w, limit);
          counts := RemoveSubtree(counts, p + [w]);
        } else {
          PartlyPrunedClosed(c0, p, done, limit);
          SubtreeShrinks(c0, p, done, w, limit);
          RecurseStep(c0, p, done, w, limit);
          PruneChildren(p + [w], limit);
        }
        done := done + {w};
      }
      PartlyPrunedAll(c0, p, limit);
    }

    /**
      The phrases of two or more words below node `prefix`: a child seen at
      least `limit` times whose word's own node was too is scored and
      collected, and the search goes on below it.
     */
    method AddFrequentPhrases(nGrams: map<Path, real>, limit: int, prefix: Path, logOf: int -> real) returns (r: map<Path, real>)
      requires Valid() && prefix in counts && |prefix| >= 1
      ensures r == nGrams + FrequentBelow(counts, prefix, limit, logOf)
      decreases |Subtree(counts, prefix)|, 1
    {
      r := nGrams;
      var children := ChildWords(counts, prefix);
      ghost var done: set<string> := {};
      ghost var size := |Subtree(counts, prefix)|;
      ghost var fb := FrequentBelow(counts, prefix, limit, logOf);
      FromNoChildren(fb, prefix);
      while children != {}
        invariant children + done == ChildWords(counts, prefix) && children !! done
        invariant r == nGrams + FromChildren(fb, prefix, done)
        invariant size == |Subtree(counts, prefix)|
        decreases children
      {
        var w :| w in children;
        children := children - {w};
        r := AddChildPhrases(r, limit, prefix, w, logOf, nGrams, done);
        done := done + {w};
      }
      assert done == ChildWords(counts, prefix);
      AllChildren(counts, prefix, limit, logOf, nGrams);
    }

    /** One turn of the loop of `addFrequentPhrases`: the child of `prefix` under `w`. */
    method AddChildPhrases(nGrams: map<Path, real>, limit: int, prefix: Path, w: string, logOf: int -> real,
                           ghost start: map<Path, real>, ghost done: set<string>) returns (r: map<Path, real>)
      requires Valid() && prefix in counts && |prefix| >= 1 && prefix + [w] in counts && w !in done
      requires nGrams == start + FromChildren(FrequentBelow(counts, prefix, limit, logOf), prefix, done)
      ensures r == if Taken(counts, prefix, w, limit)
                   then nGrams[prefix + [w] := Pmi(counts, prefix + [w], logOf)] + FrequentBelow(counts, prefix + [w], limit, logOf)
                   else nGrams
      ensures r == start + FromChildren(FrequentBelow(counts, prefix, limit, logOf), prefix, done + {w})
      decreases |Subtree(counts, prefix)|, 0
    {
      r := nGrams;
      var child := prefix + [w];
      if counts[child] >= limit {
        var lastWord := GetNode(w);
        if lastWord.Some? && counts[lastWord.value] >= limit {
          assert Taken(counts, prefix, w, limit);
          var temp := logOf(counts[[]]) + logOf(counts[child]) - logOf(counts[prefix]) - logOf(counts[lastWord.value]);
          assert temp == Pmi(counts, child, logOf) by {
            assert child[..|child| - 1] == prefix && child[|child| - 1] == w;
          }
          ChildSubtreeSmaller(counts, prefix, w);
          r := AddFrequentPhrases(r[child := temp], limit, child, logOf);
        } else {
          assert !Taken(counts, prefix, w, limit);
        }
      } else {
        assert !Taken(counts, prefix, w, limit);
      }
      ChildTurn(counts, prefix, done, w, limit, logOf, start, nGrams, r);
    }

    /**
      The frequent phrases with their scores: each top-level word seen at least
      `limit` times with its count, the longer phrases below every top-level
      word, and then every entry with a negative score, an intensifier or a
      final stop word removed.
     */
    method GetNGrams(limit: int, logOf: int -> real, intensifiers: set<string>, stopWords: set<string>) returns (nGrams: map<Path, real>)
      requires Valid()
      ensures nGrams == Filtered(NGrams(counts, limit, logOf), intensifiers, stopWords)
    {
      nGrams := map[];
      var children := ChildWords(counts, []);
      ghost var done: set<string> := {};
      ghost var ng := NGrams(counts, limit, logOf);
      FromNoChildren(ng, []);
      while children != {}
        invariant children + done == ChildWords(counts, []) && children !! done
        invariant nGrams == FromChildren(ng, [], done)
        decreases children
      {
        var w :| w in children;
        children := children - {w};
        var child := [w];
        assert child == [] + [w];
        RootStep(counts, done, w, limit, logOf);
        ghost var x := FromChildren(ng, [], done);
        if counts[child] >= limit {
          nGrams := nGrams[child := counts[child] as real];
        }
        assert nGrams == if counts[child] >= limit then x[child := counts[child] as real] else x;
        nGrams := AddFrequentPhrases(nGrams, limit, child, logOf);
        assert nGrams == FromChildren(ng, [], done + {w});
        done := done + {w};
      }
      AllRootChildren(counts, limit, logOf);
      assert nGrams == ng;
      var unfiltered := nGrams;
      var entries := nGrams.Keys;
      FilterStart(unfiltered, intensifiers, stopWords);
      while entries != {}
        invariant entries <= unfiltered.Keys
        invariant forall q :: q in unfiltered ==> q != []
        invariant nGrams == FilteredExcept(unfiltered, entries, intensifiers, stopWords)
        decreases entries
      {
        var q :| q in entries;
        FilterStep(unfiltered, entries, q, intensifiers, stopWords);
        entries := entries - {q};
        if Discarded(q, unfiltered[q], intensifiers, stopWords) {
          nGrams := nGrams - {q};
        }
      }
      FilterEnd(unfiltered, intensifiers, stopWords);
    }

    /**
      The node of a phrase: its whitespace-separated words are followed from
      the root, giving up at the first word without a child.
     */
    method GetNode(phrase: string) returns (r: Option<Path>)
      requires Valid()
      ensures var words := Text.Split(phrase);
              r == if words in counts then Some(words) else None
    {
      var words := Text.Split(phrase);
      var current: Path := [];
      for i := 0 to |words|
        invariant current == words[..i] && current in counts
      {
        if current + [words[i]] !in counts {
          assert words[..i + 1] == current + [words[i]];
          if words in counts {
            AncestorIn(counts, words, i + 1);
          }
          return None;
        }
        current := current + [words[i]];
      }
      assert current == words;
      return Some(current);
    }
  }
}
