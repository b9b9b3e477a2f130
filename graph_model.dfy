/**
  The phrase graph as values: nodes keyed by their phrase, each holding the
  context scores it shares with other phrases, its weighted adjacency list and
  its running sentiment score. This file covers the two construction steps,
  context updates and edge creation, and the invariants they keep.

  A node object in the source is created once per phrase and never replaced,
  so a node is identified here by its phrase and an edge points at a phrase.
  The node and edge classes are not part of this model. The model assumes
  of them that a context update adds to the stored pair, that a new neighbour
  is appended to the list, and that a sentiment update adds to the running
  score, which is also the score a node passes on.
 */
module PhraseGraph {

  type Phrase = string

  /** How often a phrase was seen to the left and to the right of another. */
  datatype ContextScore = ContextScore(left: int, right: int)

  datatype Edge = Edge(neighbor: Phrase, weight: real)

  datatype Node = Node(context: map<Phrase, ContextScore>, neighbors: seq<Edge>, score: real)

  /** A similarity computed for a pair of nodes, before thresholding. */
  datatype PairSimilarity = PairSimilarity(entry1: Phrase, entry2: Phrase, similarity: real)

  type Nodes = map<Phrase, Node>

  /** `new Node(phrase)`: no context, no neighbours, score zero. */
  const NewNode: Node := Node(map[], [], 0.0)

  function Score(nodes: Nodes, p: Phrase): real {
    if p in nodes then nodes[p].score else 0.0
  }

  function Neighbors(nodes: Nodes, p: Phrase): seq<Edge> {
    if p in nodes then nodes[p].neighbors else []
  }

  /** The context score node `a` holds for phrase `b`, zero when it has none. */
  function Ctx(nodes: Nodes, a: Phrase, b: Phrase): ContextScore {
    if a in nodes && b in nodes[a].context then nodes[a].context[b] else ContextScore(0, 0)
  }

  // ---------------------------------------------------------------------------
  // Context updates

  function WithNode(nodes: Nodes, p: Phrase): Nodes {
    if p in nodes then nodes else nodes[p := NewNode]
  }

  /** `Node.updatePhraseContext(other, left, right)`: adds to the pair stored for `other`. */
  function AddContext(n: Node, other: Phrase, left: int, right: int): Node {
    var c := if other in n.context then n.context[other] else ContextScore(0, 0);
    n.(context := n.context[other := ContextScore(c.left + left, c.right + right)])
  }

  /**
    `Graph.updatePhraseContext(token1, token2, scoreLeft, scoreRight)`: create
    the nodes that are missing, then update both, the second with the scores
    swapped.
   */
  function WithContext(nodes: Nodes, token1: Phrase, token2: Phrase, scoreLeft: int, scoreRight: int): Nodes {
    var created := WithNode(WithNode(nodes, token1), token2);
    var first := created[token1 := AddContext(created[token1], token2, scoreLeft, scoreRight)];
    first[token2 := AddContext(first[token2], token1, scoreRight, scoreLeft)]
  }

  /**
    The node set after a context update: the two phrases are added when
    missing, an existing node is updated rather than replaced (its neighbours
    and score stay), a created node starts empty, and every other node is
    untouched.
   */
  lemma WithContextNodes(nodes: Nodes, token1: Phrase, token2: Phrase, scoreLeft: int, scoreRight: int)
    ensures var r := WithContext(nodes, token1, token2, scoreLeft, scoreRight);
            r.Keys == nodes.Keys + {token1, token2} &&
            (forall p :: p in nodes && p != token1 && p != token2 ==> r[p] == nodes[p]) &&
            (forall p :: p == token1 || p == token2 ==>
               r[p].neighbors == Neighbors(nodes, p) && r[p].score == Score(nodes, p)) &&
            (forall p :: p in nodes ==> r[p].context.Keys >= nodes[p].context.Keys)
  {
  }

  /**
    The context scores after an update: `token1` gains (scoreLeft, scoreRight)
    for `token2` and `token2` gains them swapped for `token1`; a phrase updated
    against itself gains both; every other pair is unchanged.
   */
  lemma WithContextScores(nodes: Nodes, token1: Phrase, token2: Phrase, scoreLeft: int, scoreRight: int,
                          a: Phrase, b: Phrase)
    ensures var r := WithContext(nodes, token1, token2, scoreLeft, scoreRight);
            var c := Ctx(nodes, a, b);
            Ctx(r, a, b) ==
              if token1 == token2 && a == token1 && b == token1 then
                ContextScore(c.left + scoreLeft + scoreRight, c.right + scoreRight + scoreLeft)
              else if a == token1 && b == token2 then ContextScore(c.left + scoreLeft, c.right + scoreRight)
              else if a == token2 && b == token1 then ContextScore(c.left + scoreRight, c.right + scoreLeft)
              else c
  {
  }

  /** Context scores are mirrored: what `a` records on its left for `b`, `b` records on its right for `a`. */
  ghost predicate Mirrored(nodes: Nodes) {
    forall a, b :: Ctx(nodes, a, b).left == Ctx(nodes, b, a).right
  }

  /** The swapped second update keeps context scores mirrored. */
  lemma WithContextMirrored(nodes: Nodes, token1: Phrase, token2: Phrase, scoreLeft: int, scoreRight: int)
    requires Mirrored(nodes)
    ensures Mirrored(WithContext(nodes, token1, token2, scoreLeft, scoreRight))
  {
    var r := WithContext(nodes, token1, token2, scoreLeft, scoreRight);
    forall a, b
      ensures Ctx(r, a, b).left == Ctx(r, b, a).right
    {
      WithContextScores(nodes, token1, token2, scoreLeft, scoreRight, a, b);
      WithContextScores(nodes, token1, token2, scoreLeft, scoreRight, b, a);
    }
  }

  // ---------------------------------------------------------------------------
  // Edge creation

  function AddNeighbor(n: Node, e: Edge): Node {
    n.(neighbors := n.neighbors + [e])
  }

  /** Both endpoints of every pair are nodes. */
  predicate PairsInGraph(nodes: Nodes, sims: seq<PairSimilarity>) {
    forall i :: 0 <= i < |sims| ==> sims[i].entry1 in nodes && sims[i].entry2 in nodes
  }

  /** One pair of `createEdges`: skipped below the threshold, otherwise an edge each way. */
  function AddPair(nodes: Nodes, p: PairSimilarity, threshold: real): Nodes
    requires p.entry1 in nodes && p.entry2 in nodes
  {
    if p.similarity < threshold then nodes
    else
      var first := nodes[p.entry1 := AddNeighbor(nodes[p.entry1], Edge(p.entry2, p.similarity))];
      first[p.entry2 := AddNeighbor(first[p.entry2], Edge(p.entry1, p.similarity))]
  }

  /** `createEdges(similarities)`: the pairs in order. */
  function WithEdges(nodes: Nodes, sims: seq<PairSimilarity>, threshold: real): (r: Nodes)
    requires PairsInGraph(nodes, sims)
    ensures r.Keys == nodes.Keys
  {
    if sims == [] then nodes
    else
      var before := WithEdges(nodes, sims[..|sims| - 1], threshold);
      AddPair(before, sims[|sims| - 1], threshold)
  }

  /**
    One pair adds edges exactly when its similarity reaches the threshold
    (equality creates them): each endpoint gets an edge to the other with the
    pair's similarity as weight, a pair of a phrase with itself gives it two.
   */
  lemma AddPairEdges(nodes: Nodes, p: PairSimilarity, threshold: real, a: Phrase)
    requires p.entry1 in nodes && p.entry2 in nodes
    ensures var r := AddPair(nodes, p, threshold);
            r.Keys == nodes.Keys &&
            Neighbors(r, a) ==
              if p.similarity < threshold then Neighbors(nodes, a)
              else if a == p.entry1 && a == p.entry2 then
                Neighbors(nodes, a) + [Edge(p.entry2, p.similarity), Edge(p.entry1, p.similarity)]
              else if a == p.entry1 then Neighbors(nodes, a) + [Edge(p.entry2, p.similarity)]
              else if a == p.entry2 then Neighbors(nodes, a) + [Edge(p.entry1, p.similarity)]
              else Neighbors(nodes, a)
  {
  }

  /** Edge creation touches nothing but adjacency lists. */
  lemma {:induction false} WithEdgesKeepsRest(nodes: Nodes, sims: seq<PairSimilarity>, threshold: real, a: Phrase)
    requires PairsInGraph(nodes, sims) && a in nodes
    ensures var r := WithEdges(nodes, sims, threshold);
            r[a].context == nodes[a].context && r[a].score == nodes[a].score
  {
    if sims != [] {
      WithEdgesKeepsRest(nodes, sims[..|sims| - 1], threshold, a);
    }
  }

  /** How many edges the pairs give phrase `a`: one per accepted pair per end at `a`. */
  function AcceptedEnds(sims: seq<PairSimilarity>, a: Phrase, threshold: real): nat {
    if sims == [] then 0
    else
      var p := sims[|sims| - 1];
      AcceptedEnds(sims[..|sims| - 1], a, threshold) +
        (if p.similarity < threshold then 0
         else (if p.entry1 == a then 1 else 0) + (if p.entry2 == a then 1 else 0))
  }

  /**
    Edges are only appended: each node keeps its adjacency list as a prefix and
    gains exactly one edge per end of an accepted pair at it.
   */
  lemma {:induction false} WithEdgesAppends(nodes: Nodes, sims: seq<PairSimilarity>, threshold: real, a: Phrase)
    requires PairsInGraph(nodes, sims)
    ensures var r := Neighbors(WithEdges(nodes, sims, threshold), a);
            |r| == |Neighbors(nodes, a)| + AcceptedEnds(sims, a, threshold) &&
            r[..|Neighbors(nodes, a)|] == Neighbors(nodes, a)
  {
    if sims != [] {
      var init := sims[..|sims| - 1];
      WithEdgesAppends(nodes, init, threshold, a);
      AddPairEdges(WithEdges(nodes, init, threshold), sims[|sims| - 1], threshold, a);
    }
  }

  /** The number of edges from `a` to `b` with weight `w`. */
  function EdgeCount(nodes: Nodes, a: Phrase, b: Phrase, w: real): nat {
    multiset(Neighbors(nodes, a))[Edge(b, w)]
  }

  /** The adjacency lists are symmetric: as many edges `a` to `b` of a weight as `b` to `a`. */
  ghost predicate Symmetric(nodes: Nodes) {
    forall a, b, w :: EdgeCount(nodes, a, b, w) == EdgeCount(nodes, b, a, w)
  }

  lemma AddPairSymmetric(nodes: Nodes, p: PairSimilarity, threshold: real)
    requires p.entry1 in nodes && p.entry2 in nodes
    requires Symmetric(nodes)
    ensures Symmetric(AddPair(nodes, p, threshold))
  {
    var r := AddPair(nodes, p, threshold);
    forall a, b, w
      ensures EdgeCount(r, a, b, w) == EdgeCount(r, b, a, w)
    {
      AddPairCount(nodes, p, threshold, a, b, w);
      AddPairCount(nodes, p, threshold, b, a, w);
    }
  }

  lemma AddPairCount(nodes: Nodes, p: PairSimilarity, threshold: real, a: Phrase, b: Phrase, w: real)
    requires p.entry1 in nodes && p.entry2 in nodes
    ensures EdgeCount(AddPair(nodes, p, threshold), a, b, w) ==
            EdgeCount(nodes, a, b, w) +
              (if p.similarity < threshold then 0 else Gained(p.entry1, p.entry2, p.similarity, a, b, w))
  {
    AddPairEdges(nodes, p, threshold, a);
    if p.similarity >= threshold {
      AddedCount(Neighbors(nodes, a), Neighbors(AddPair(nodes, p, threshold), a), p.entry1, p.entry2, p.similarity, a, b, w);
    }
  }

  /** Appending the pair's edges to `a`'s list adds `Gained` edges `a` to `b` of weight `w`. */
  lemma AddedCount(before: seq<Edge>, after: seq<Edge>, e1: Phrase, e2: Phrase, s: real, a: Phrase, b: Phrase, w: real)
    requires after == if a == e1 && a == e2 then before + [Edge(e2, s), Edge(e1, s)]
                      else if a == e1 then before + [Edge(e2, s)]
                      else if a == e2 then before + [Edge(e1, s)]
                      else before
    ensures multiset(after)[Edge(b, w)] == multiset(before)[Edge(b, w)] + Gained(e1, e2, s, a, b, w)
  {
    if a == e1 && a == e2 {
      assert multiset(after) == multiset(before) + multiset{Edge(e2, s), Edge(e1, s)};
    } else if a == e1 {
      assert multiset(after) == multiset(before) + multiset{Edge(e2, s)};
    } else if a == e2 {
      assert multiset(after) == multiset(before) + multiset{Edge(e1, s)};
    }
  }

  /** The edges `a` to `b` of weight `w` that an accepted pair adds. */
  function Gained(e1: Phrase, e2: Phrase, s: real, a: Phrase, b: Phrase, w: real): nat {
    (if a == e1 && b == e2 && w == s then 1 else 0) + (if a == e2 && b == e1 && w == s then 1 else 0)
  }

  /** `createEdges` keeps the adjacency lists symmetric. */
  lemma {:induction false} WithEdgesSymmetric(nodes: Nodes, sims: seq<PairSimilarity>, threshold: real)
    requires PairsInGraph(nodes, sims) && Symmetric(nodes)
    ensures Symmetric(WithEdges(nodes, sims, threshold))
  {
    if sims != [] {
      WithEdgesSymmetric(nodes, sims[..|sims| - 1], threshold);
      AddPairSymmetric(WithEdges(nodes, sims[..|sims| - 1], threshold), sims[|sims| - 1], threshold);
    }
  }

  /** Every edge weighs at least `threshold`. */
  ghost predicate AboveThreshold(nodes: Nodes, threshold: real) {
    forall a, i :: a in nodes && 0 <= i < |nodes[a].neighbors| ==> nodes[a].neighbors[i].weight >= threshold
  }

  /** Pairs below the threshold never become edges. */
  lemma {:induction false} WithEdgesAboveThreshold(nodes: Nodes, sims: seq<PairSimilarity>, threshold: real)
    requires PairsInGraph(nodes, sims) && AboveThreshold(nodes, threshold)
    ensures AboveThreshold(WithEdges(nodes, sims, threshold), threshold)
  {
    if sims != [] {
      var before := WithEdges(nodes, sims[..|sims| - 1], threshold);
      WithEdgesAboveThreshold(nodes, sims[..|sims| - 1], threshold);
      var r := WithEdges(nodes, sims, threshold);
      forall a, i | a in r && 0 <= i < |r[a].neighbors|
        ensures r[a].neighbors[i].weight >= threshold
      {
        AddPairEdges(before, sims[|sims| - 1], threshold, a);
        if i >= |before[a].neighbors| {
          assert sims[|sims| - 1].similarity >= threshold;
        }
      }
    }
  }

  /** Every edge and every context entry names a node of the graph. */
  ghost predicate Closed(nodes: Nodes) {
    (forall a, i :: a in nodes && 0 <= i < |nodes[a].neighbors| ==> nodes[a].neighbors[i].neighbor in nodes) &&
    (forall a, b :: a in nodes && b in nodes[a].context ==> b in nodes)
  }

  lemma WithContextClosed(nodes: Nodes, token1: Phrase, token2: Phrase, scoreLeft: int, scoreRight: int)
    requires Closed(nodes)
    ensures Closed(WithContext(nodes, token1, token2, scoreLeft, scoreRight))
  {
    var r := WithContext(nodes, token1, token2, scoreLeft, scoreRight);
    WithContextNodes(nodes, token1, token2, scoreLeft, scoreRight);
    forall a, b | a in r && b in r[a].context
      ensures b in r
    {
      if a != token1 && a != token2 {
        assert r[a] == nodes[a];
      }
    }
  }

  lemma {:induction false} WithEdgesClosed(nodes: Nodes, sims: seq<PairSimilarity>, threshold: real)
    requires PairsInGraph(nodes, sims) && Closed(nodes)
    ensures Closed(WithEdges(nodes, sims, threshold))
  {
    if sims != [] {
      var before := WithEdges(nodes, sims[..|sims| - 1], threshold);
      WithEdgesClosed(nodes, sims[..|sims| - 1], threshold);
      var r := WithEdges(nodes, sims, threshold);
      forall a, i | a in r && 0 <= i < |r[a].neighbors|
        ensures r[a].neighbors[i].neighbor in r
      {
        AddPairEdges(before, sims[|sims| - 1], threshold, a);
      }
      forall a, b | a in r && b in r[a].context
        ensures b in r
      {
        WithEdgesKeepsRest(nodes, sims, threshold, a);
      }
    }
  }
}
