/**
  The `Graph` object: the phrase nodes keyed by phrase, the prior polarity
  lexicon once it is set, and the three propagation parameters. Every method
  is proved against the value-level definitions of `PhraseGraph` and
  `Propagation`, and keeps the graph invariant `Valid`.
 */
module LexiconGraph {
  import opened Wrappers
  import opened PhraseGraph
  import opened Propagation

  /** Propagation changes no context and no edge, so it keeps every structural invariant. */
  lemma ShapeKeepsInvariants(a: Nodes, b: Nodes, threshold: real)
    requires SameShape(a, b)
    requires Closed(a) && Mirrored(a) && Symmetric(a) && AboveThreshold(a, threshold)
    ensures Closed(b) && Mirrored(b) && Symmetric(b) && AboveThreshold(b, threshold)
  {
    forall p, q
      ensures Ctx(b, p, q) == Ctx(a, p, q) && Neighbors(b, p) == Neighbors(a, p)
    {
    }
    forall p, q
      ensures Ctx(b, p, q).left == Ctx(b, q, p).right
    {
      assert Ctx(a, p, q).left == Ctx(a, q, p).right;
    }
    forall p, q, w
      ensures EdgeCount(b, p, q, w) == EdgeCount(b, q, p, w)
    {
      assert EdgeCount(a, p, q, w) == EdgeCount(a, q, p, w);
    }
  }

  /** Mirroring depends on the contexts alone. */
  lemma SameContextsMirrored(a: Nodes, b: Nodes)
    requires a.Keys == b.Keys && forall p :: p in a ==> a[p].context == b[p].context
    requires Mirrored(a)
    ensures Mirrored(b)
  {
    forall p, q
      ensures Ctx(b, p, q).left == Ctx(b, q, p).right
    {
      assert Ctx(b, p, q) == Ctx(a, p, q) && Ctx(b, q, p) == Ctx(a, q, p);
    }
  }

  /** A context update adds no edge, so it keeps the edge invariants. */
  lemma WithContextKeepsEdges(nodes: Nodes, token1: Phrase, token2: Phrase, scoreLeft: int, scoreRight: int, threshold: real)
    requires Symmetric(nodes) && AboveThreshold(nodes, threshold)
    ensures var r := WithContext(nodes, token1, token2, scoreLeft, scoreRight);
            Symmetric(r) && AboveThreshold(r, threshold)
  {
    var r := WithContext(nodes, token1, token2, scoreLeft, scoreRight);
    WithContextNodes(nodes, token1, token2, scoreLeft, scoreRight);
    forall p
      ensures Neighbors(r, p) == Neighbors(nodes, p)
    {
    }
    forall p, q, w
      ensures EdgeCount(r, p, q, w) == EdgeCount(r, q, p, w)
    {
      assert EdgeCount(nodes, p, q, w) == EdgeCount(nodes, q, p, w);
    }
    forall p, i | p in r && 0 <= i < |r[p].neighbors|
      ensures r[p].neighbors[i].weight >= threshold
    {
      assert r[p].neighbors == Neighbors(nodes, p);
    }
  }

  class Graph {
    var nodes: Nodes
    var priorPolarityLexicon: Option<map<Phrase, real>>
    const neighborLimit: nat
    const pathLength: int
    const edgeThreshold: real

    /**
      Every edge and context entry names a node, context scores are mirrored,
      adjacency is symmetric and no edge is lighter than the threshold.
     */
    ghost predicate Valid()
      reads this
    {
      Closed(nodes) && Mirrored(nodes) && Symmetric(nodes) && AboveThreshold(nodes, edgeThreshold)
    }

    constructor (neighborLimit: nat, pathLength: int, edgeThreshold: real)
      ensures nodes == map[] && priorPolarityLexicon == None
      ensures this.neighborLimit == neighborLimit && this.pathLength == pathLength
      ensures this.edgeThreshold == edgeThreshold
      ensures Valid()
    {
      this.neighborLimit := neighborLimit;
      this.pathLength := pathLength;
      this.edgeThreshold := edgeThreshold;
      nodes := map[];
      priorPolarityLexicon := None;
    }

    /** `updatePhraseContext`: creates missing nodes, then records the pair in both directions. */
    method UpdatePhraseContext(token1: Phrase, token2: Phrase, scoreLeft: int, scoreRight: int)
      requires Valid()
      modifies this
      ensures nodes == WithContext(old(nodes), token1, token2, scoreLeft, scoreRight)
      ensures priorPolarityLexicon == old(priorPolarityLexicon)
      ensures Valid()
    {
      ghost var before := nodes;
      if token1 !in nodes {
        nodes := nodes[token1 := NewNode];
      }
      if token2 !in nodes {
        nodes := nodes[token2 := NewNode];
      }
      nodes := nodes[token1 := AddContext(nodes[token1], token2, scoreLeft, scoreRight)];
      nodes := nodes[token2 := AddContext(nodes[token2], token1, scoreRight, scoreLeft)];
      WithContextClosed(before, token1, token2, scoreLeft, scoreRight);
      WithContextMirrored(before, token1, token2, scoreLeft, scoreRight);
      WithContextKeepsEdges(before, token1, token2, scoreLeft, scoreRight, edgeThreshold);
    }

    method SetPriorPolarityLexicon(lexicon: map<Phrase, real>)
      modifies this
      ensures priorPolarityLexicon == Some(lexicon) && nodes == old(nodes)
    {
      priorPolarityLexicon := Some(lexicon);
    }

    /**
      `createEdges`: every pair at or above the threshold becomes an edge each
      way, in the order of the list.
     */
    method CreateEdges(similarities: seq<PairSimilarity>)
      requires Valid() && PairsInGraph(nodes, similarities)
      modifies this
      ensures nodes == WithEdges(old(nodes), similarities, edgeThreshold)
      ensures priorPolarityLexicon == old(priorPolarityLexicon)
      ensures Valid()
    {
      ghost var before := nodes;
      for i := 0 to |similarities|
        invariant nodes == WithEdges(before, similarities[..i], edgeThreshold)
        invariant priorPolarityLexicon == old(priorPolarityLexicon)
      {
        assert similarities[..i + 1][..i] == similarities[..i];
        var p := similarities[i];
        if p.similarity < edgeThreshold {
          continue;
        }
        nodes := nodes[p.entry1 := AddNeighbor(nodes[p.entry1], Edge(p.entry2, p.similarity))];
        nodes := nodes[p.entry2 := AddNeighbor(nodes[p.entry2], Edge(p.entry1, p.similarity))];
      }
      assert similarities[..|similarities|] == similarities;
      WithEdgesClosed(before, similarities, edgeThreshold);
      WithEdgesSymmetric(before, similarities, edgeThreshold);
      WithEdgesAboveThreshold(before, similarities, edgeThreshold);
      forall p | p in nodes
        ensures nodes[p].context == before[p].context
      {
        WithEdgesKeepsRest(before, similarities, edgeThreshold, p);
      }
      SameContextsMirrored(before, nodes);
    }

    /**
      `propagateSentiment`: a walk from every prior polarity phrase that is a
      node. The set is iterated in an order the model does not fix; `seeds`
      records the order taken.
     */
    method PropagateSentiment() returns (ghost seeds: seq<Phrase>)
      requires Valid() && priorPolarityLexicon.Some?
      modifies this
      ensures priorPolarityLexicon == old(priorPolarityLexicon)
      ensures Distinct(seeds)
      ensures Members(seeds) == priorPolarityLexicon.value.Keys * old(nodes).Keys
      ensures nodes == Propagated(old(nodes), seeds, priorPolarityLexicon.value, neighborLimit, pathLength)
      ensures Valid()
    {
      var prior := priorPolarityLexicon.value;
      var subjective := prior.Keys;
      subjective := subjective * nodes.Keys;
      ghost var before := nodes;
      seeds := [];
      while subjective != {}
        invariant subjective <= before.Keys
        invariant Distinct(seeds) && Members(seeds) !! subjective
        invariant Members(seeds) + subjective == prior.Keys * before.Keys
        invariant nodes == Propagated(before, seeds, prior, neighborLimit, pathLength)
        invariant priorPolarityLexicon == old(priorPolarityLexicon)
        decreases |subjective|
      {
        var seed :| seed in subjective;
        PropagatedShape(before, seeds, prior, neighborLimit, pathLength);
        WalkFrom(seed, prior[seed]);
        PropagatedSnoc(before, seeds, seed, prior, neighborLimit, pathLength);
        TakeOne(seeds, subjective, seed, prior.Keys * before.Keys);
        seeds := seeds + [seed];
        subjective := subjective - {seed};
      }
      PropagatedShape(before, seeds, prior, neighborLimit, pathLength);
      ShapeKeepsInvariants(before, nodes, edgeThreshold);
    }

    /** One seed: credit it with its polarity, then run `pathLength` rounds from it. */
    method WalkFrom(seed: Phrase, polarity: real)
      requires seed in nodes
      modifies this
      ensures nodes == SeedWalk(old(nodes), seed, polarity, neighborLimit, pathLength)
      ensures priorPolarityLexicon == old(priorPolarityLexicon)
    {
      nodes := nodes[seed := nodes[seed].(score := nodes[seed].score + polarity)];
      ghost var credited := nodes;
      var nodesToCheck := [seed];
      var i := 0;
      while i < pathLength
        invariant 0 <= i && (pathLength >= 0 ==> i <= pathLength) && (pathLength < 0 ==> i == 0)
        invariant Walk(nodes, nodesToCheck) == Rounds(credited, [seed], neighborLimit, i)
        invariant priorPolarityLexicon == old(priorPolarityLexicon)
      {
        nodesToCheck := RunRound(nodesToCheck);
        i := i + 1;
      }
      assert i == RoundCount(pathLength);
      assert credited == Credit(old(nodes), seed, polarity);
    }

    /**
      One round: pops exactly the phrases queued before it began, and appends
      the chosen neighbours of each.
     */
    method RunRound(queue: seq<Phrase>) returns (nodesToCheck: seq<Phrase>)
      modifies this
      ensures Walk(nodes, nodesToCheck) == Round(old(nodes), queue, neighborLimit)
      ensures priorPolarityLexicon == old(priorPolarityLexicon)
    {
      nodesToCheck := queue;
      var size := |nodesToCheck|;
      ghost var start := nodes;
      ghost var popped := 0;
      ghost var w := Walk(nodes, []);
      while size > 0
        invariant 0 <= size <= |queue| && popped == |queue| - size
        invariant w == Round(start, queue[..popped], neighborLimit)
        invariant nodes == w.nodes && nodesToCheck == queue[popped..] + w.frontier
        invariant priorPolarityLexicon == old(priorPolarityLexicon)
      {
        PopFront(queue, popped, w.frontier);
        var nodeToCheck := nodesToCheck[0];
        nodesToCheck := nodesToCheck[1..];
        var neighbors := TopNeighbors(Neighbors(nodes, nodeToCheck), neighborLimit);
        nodesToCheck := SendAlong(nodeToCheck, neighbors, nodesToCheck);
        RoundAdvance(start, queue, popped, neighborLimit, w, neighbors, nodes, nodesToCheck);
        w := Walk(nodes, w.frontier + Targets(neighbors));
        size := size - 1;
        popped := popped + 1;
      }
      assert queue[..|queue|] == queue;
    }

    /** The inner loop: each chosen neighbour is credited and queued. */
    method SendAlong(from: Phrase, chosen: seq<Edge>, queue: seq<Phrase>) returns (nodesToCheck: seq<Phrase>)
      modifies this
      ensures nodes == Send(old(nodes), from, chosen)
      ensures nodesToCheck == queue + Targets(chosen)
      ensures priorPolarityLexicon == old(priorPolarityLexicon)
    {
      nodesToCheck := queue;
      for j := 0 to |chosen|
        invariant nodes == Send(old(nodes), from, chosen[..j])
        invariant nodesToCheck == queue + Targets(chosen[..j])
        invariant priorPolarityLexicon == old(priorPolarityLexicon)
      {
        SendSnoc(old(nodes), from, chosen, j);
        var edge := chosen[j];
        var amount := Passed(Score(nodes, from), edge.weight);
        if edge.neighbor in nodes {
          nodes := nodes[edge.neighbor := nodes[edge.neighbor].(score := nodes[edge.neighbor].score + amount)];
        }
        nodesToCheck := nodesToCheck + [edge.neighbor];
        assert Targets(chosen[..j + 1]) == Targets(chosen[..j]) + [edge.neighbor];
      }
      assert chosen[..|chosen|] == chosen;
    }

    /** `getLexicon`: every phrase of the graph with its sentiment score. */
    method GetLexicon() returns (lexicon: map<Phrase, real>)
      ensures lexicon.Keys == nodes.Keys
      ensures forall p :: p in lexicon ==> lexicon[p] == nodes[p].score
    {
      lexicon := map[];
      var entries := nodes.Keys;
      while entries != {}
        invariant entries <= nodes.Keys && lexicon.Keys == nodes.Keys - entries
        invariant forall p :: p in lexicon ==> lexicon[p] == nodes[p].score
        decreases |entries|
      {
        var p :| p in entries;
        lexicon := lexicon[p := nodes[p].score];
        entries := entries - {p};
      }
    }

    /**
      `getCoOccurrences`, as intended: row `i` holds, for each phrase `j` of
      the listing, the left and then the right count node `i` records for it.
      `order` is the listing of the nodes the matrix is indexed by.
     */
    method GetCoOccurrences() returns (order: seq<Phrase>, m: array2<int>)
      ensures Distinct(order) && Members(order) == nodes.Keys
      ensures fresh(m) && m.Length0 == |order| && m.Length1 == 2 * |order|
      ensures forall i, c :: 0 <= i < |order| && 0 <= c < 2 * |order| ==> m[i, c] == CoOccurrence(nodes, order, i, c)
    {
      order := ListPhrases();
      m := new int[|order|, 2 * |order|];
      for i := 0 to |order|
        invariant forall r, c :: 0 <= r < i && 0 <= c < 2 * |order| ==> m[r, c] == CoOccurrence(nodes, order, r, c)
      {
        for j := 0 to |order|
          invariant forall r, c :: 0 <= r < i && 0 <= c < 2 * |order| ==> m[r, c] == CoOccurrence(nodes, order, r, c)
          invariant forall c :: 0 <= c < 2 * j ==> m[i, c] == CoOccurrence(nodes, order, i, c)
        {
          m[i, j * 2] := Ctx(nodes, order[i], order[j]).left;
          m[i, j * 2 + 1] := Ctx(nodes, order[i], order[j]).right;
          assert CoOccurrence(nodes, order, i, j * 2) == m[i, j * 2];
          assert CoOccurrence(nodes, order, i, j * 2 + 1) == m[i, j * 2 + 1];
        }
      }
    }

    /** `new ArrayList<>(nodes.values())`: each node once, in map order. */
    method ListPhrases() returns (order: seq<Phrase>)
      ensures Distinct(order) && Members(order) == nodes.Keys
    {
      order := [];
      var rest := nodes.Keys;
      while rest != {}
        invariant Distinct(order) && Members(order) !! rest
        invariant Members(order) + rest == nodes.Keys
        decreases |rest|
      {
        var p :| p in rest;
        MembersSnoc(order, p);
        order := order + [p];
        rest := rest - {p};
      }
    }
  }

  predicate Distinct(s: seq<Phrase>) {
    forall i, j :: 0 <= i < j < |s| ==> s[i] != s[j]
  }

  function Members(s: seq<Phrase>): set<Phrase> {
    set p | p in s
  }

  lemma MembersSnoc(s: seq<Phrase>, x: Phrase)
    ensures Members(s + [x]) == Members(s) + {x}
  {
    assert forall p :: p in s + [x] <==> p in s || p == x;
  }

  /** Moving one phrase from the set still to visit to the end of the visited list. */
  lemma TakeOne(seeds: seq<Phrase>, rest: set<Phrase>, x: Phrase, all: set<Phrase>)
    requires Distinct(seeds) && Members(seeds) !! rest && Members(seeds) + rest == all && x in rest
    ensures Distinct(seeds + [x]) && Members(seeds + [x]) !! rest - {x}
    ensures Members(seeds + [x]) + (rest - {x}) == all
  {
    MembersSnoc(seeds, x);
    assert x !in seeds;
  }

  lemma PropagatedSnoc(nodes: Nodes, seeds: seq<Phrase>, s: Phrase, prior: map<Phrase, real>, limit: nat, pathLength: int)
    requires s in prior
    ensures Propagated(nodes, seeds + [s], prior, limit, pathLength) ==
            SeedWalk(Propagated(nodes, seeds, prior, limit, pathLength), s, prior[s], limit, pathLength)
  {
    assert (seeds + [s])[..|seeds|] == seeds;
  }

  lemma AppendAssoc(a: seq<Phrase>, b: seq<Phrase>, c: seq<Phrase>)
    ensures a + b + c == a + (b + c)
  {
  }

  lemma SendSnoc(nodes: Nodes, from: Phrase, chosen: seq<Edge>, j: nat)
    requires j < |chosen|
    ensures var before := Send(nodes, from, chosen[..j]);
            Send(nodes, from, chosen[..j + 1]) == Credit(before, chosen[j].neighbor, Passed(Score(before, from), chosen[j].weight))
  {
    var c := chosen[..j + 1];
    assert c[..|c| - 1] == chosen[..j] && c[|c| - 1] == chosen[j];
    assert c != [];
  }

  lemma PopFront(queue: seq<Phrase>, popped: nat, frontier: seq<Phrase>)
    requires popped < |queue|
    ensures (queue[popped..] + frontier)[0] == queue[popped]
    ensures (queue[popped..] + frontier)[1..] == queue[popped + 1..] + frontier
  {
  }

  /** One pop of the round's loop: the walk so far, extended by the popped phrase's sends and targets. */
  lemma RoundAdvance(start: Nodes, queue: seq<Phrase>, popped: nat, limit: nat, w: Walk, chosen: seq<Edge>,
                     after: Nodes, rest: seq<Phrase>)
    requires popped < |queue| && w == Round(start, queue[..popped], limit)
    requires chosen == TopNeighbors(Neighbors(w.nodes, queue[popped]), limit)
    requires after == Send(w.nodes, queue[popped], chosen)
    requires rest == queue[popped + 1..] + w.frontier + Targets(chosen)
    ensures Walk(after, w.frontier + Targets(chosen)) == Round(start, queue[..popped + 1], limit)
    ensures rest == queue[popped + 1..] + (w.frontier + Targets(chosen))
  {
    RoundSnoc(start, queue, popped, limit);
    AppendAssoc(queue[popped + 1..], w.frontier, Targets(chosen));
  }

  lemma RoundSnoc(nodes: Nodes, frontier: seq<Phrase>, t: nat, limit: nat)
    requires t < |frontier|
    ensures var w := Round(nodes, frontier[..t], limit);
            var chosen := TopNeighbors(Neighbors(w.nodes, frontier[t]), limit);
            Round(nodes, frontier[..t + 1], limit) == Walk(Send(w.nodes, frontier[t], chosen), w.frontier + Targets(chosen))
  {
    assert frontier[..t + 1][..t] == frontier[..t];
  }

  /** The intended matrix entry: node `row`'s left (even column) or right (odd column) count for phrase `col / 2`. */
  function CoOccurrence(nodes: Nodes, order: seq<Phrase>, row: nat, col: nat): int
    requires row < |order| && col < 2 * |order|
  {
    var c := Ctx(nodes, order[row], order[col / 2]);
    if col % 2 == 0 then c.left else c.right
  }

  /**
    The entry as the source writes it: odd columns take phrase `j`'s right
    count for itself, whatever the row.
   */
  function CoOccurrenceAsWritten(nodes: Nodes, order: seq<Phrase>, row: nat, col: nat): int
    requires row < |order| && col < 2 * |order|
  {
    var j := col / 2;
    if col % 2 == 0 then Ctx(nodes, order[row], order[j]).left else Ctx(nodes, order[j], order[j]).right
  }

  /**
    With mirrored contexts, the intended matrix is consistent with itself:
    what row `i` records on the left of `j` is what row `j` records on the
    right of `i`.
   */
  lemma CoOccurrenceMirrored(nodes: Nodes, order: seq<Phrase>, i: nat, j: nat)
    requires Mirrored(nodes) && i < |order| && j < |order|
    ensures CoOccurrence(nodes, order, i, 2 * j) == CoOccurrence(nodes, order, j, 2 * i + 1)
  {
    assert (2 * j) / 2 == j && (2 * j) % 2 == 0;
    assert (2 * i + 1) / 2 == i && (2 * i + 1) % 2 == 1;
    assert Ctx(nodes, order[i], order[j]).left == Ctx(nodes, order[j], order[i]).right;
  }

  /** As written, an odd column is the same in every row: it does not depend on the row's node. */
  lemma AsWrittenIgnoresRow(nodes: Nodes, order: seq<Phrase>, i: nat, k: nat, j: nat)
    requires i < |order| && k < |order| && j < |order|
    ensures CoOccurrenceAsWritten(nodes, order, i, 2 * j + 1) == CoOccurrenceAsWritten(nodes, order, k, 2 * j + 1)
  {
    assert (2 * j + 1) / 2 == j && (2 * j + 1) % 2 == 1;
  }

  /**
    After one context update of "a" before "b" with counts (1, 2), node "a"
    records a right count of 2 for "b"; the matrix as written reports 0 there.
   */
  lemma AsWrittenLosesRightCounts()
    ensures var nodes := WithContext(map[], "a", "b", 1, 2);
            CoOccurrence(nodes, ["a", "b"], 0, 3) == 2 &&
            CoOccurrenceAsWritten(nodes, ["a", "b"], 0, 3) == 0
  {
    var nodes := WithContext(map[], "a", "b", 1, 2);
    WithContextScores(map[], "a", "b", 1, 2, "a", "b");
    WithContextScores(map[], "a", "b", 1, 2, "b", "b");
    assert Ctx(nodes, "a", "b") == ContextScore(1, 2);
    assert Ctx(nodes, "b", "b") == ContextScore(0, 0);
  }
}
