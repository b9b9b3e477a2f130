/**
  Worked propagation examples, in the terms of the javadoc of
  `propagateSentiment` (a seed passes its score to its heaviest neighbours,
  they to theirs, up to `pathLength` hops), checked against the model:
  a seed "good" of polarity 3 with edges to "great" (0.8) and "nice" (0.4),
  and optionally an edge from "great" to "awesome" (0.5). Edges are stored
  both ways, as edge creation leaves them.
 */
module GraphScenarios {
  import opened PhraseGraph
  import opened Propagation

  function Star(): Nodes {
    map["good" := Node(map[], [Edge("great", 0.8), Edge("nice", 0.4)], 0.0),
        "great" := Node(map[], [Edge("good", 0.8)], 0.0),
        "nice" := Node(map[], [Edge("good", 0.4)], 0.0)]
  }

  /** The first round from the seed: the seed's chosen edges are sent along, scaled by its credited score. */
  lemma FirstRound(nodes: Nodes, seed: Phrase, polarity: real, limit: nat, chosen: seq<Edge>)
    requires seed in nodes
    requires chosen == TopNeighbors(Neighbors(Credit(nodes, seed, polarity), seed), limit)
    ensures SeedWalk(nodes, seed, polarity, limit, 1) == Send(Credit(nodes, seed, polarity), seed, chosen)
  {
    var c := Credit(nodes, seed, polarity);
    assert RoundCount(1) == 1;
    assert Rounds(c, [seed], limit, 0) == Walk(c, [seed]);
    assert Rounds(c, [seed], limit, 1) == Round(c, [seed], limit);
    assert [seed][..0] == [] && [seed][0] == seed;
    assert Round(c, [], limit) == Walk(c, []);
    assert Round(c, [seed], limit).nodes == Send(c, seed, Chosen(c, seed, limit));
  }

  /** neighborLimit 2, pathLength 1: "good" keeps 3, "great" receives 2.4 and "nice" 1.2. */
  lemma StarOneRound()
    ensures var r := SeedWalk(Star(), "good", 3.0, 2, 1);
            Score(r, "good") == 3.0 && Score(r, "great") == 2.4 && Score(r, "nice") == 1.2
  {
    var c := Credit(Star(), "good", 3.0);
    var chosen := StarChoice(c);
    FirstRound(Star(), "good", 3.0, 2, chosen);
    StarCredited(c);
    StarWeights(chosen);
    SendWithoutSelfLoop(c, "good", chosen, "good");
    SendWithoutSelfLoop(c, "good", chosen, "great");
    SendWithoutSelfLoop(c, "good", chosen, "nice");
  }

  /** Crediting the seed changes its score alone. */
  lemma StarCredited(c: Nodes)
    requires c == Credit(Star(), "good", 3.0)
    ensures "good" in c && "great" in c && "nice" in c
    ensures Score(c, "good") == 3.0 && Score(c, "great") == 0.0 && Score(c, "nice") == 0.0
    ensures Neighbors(c, "good") == [Edge("great", 0.8), Edge("nice", 0.4)]
  {
    Distinct4();
    var g := Star()["good"];
    assert c == Star()["good" := g.(score := g.score + 3.0)];
    assert c["great"] == Star()["great"] && c["nice"] == Star()["nice"];
  }

  lemma StarChoice(c: Nodes) returns (chosen: seq<Edge>)
    requires c == Credit(Star(), "good", 3.0)
    ensures chosen == [Edge("great", 0.8), Edge("nice", 0.4)]
    ensures chosen == TopNeighbors(Neighbors(c, "good"), 2)
  {
    chosen := [Edge("great", 0.8), Edge("nice", 0.4)];
    assert Neighbors(c, "good") == chosen;
    assert SortByWeight([Edge("nice", 0.4)]) == [Edge("nice", 0.4)];
    assert SortByWeight(chosen) == chosen;
  }

  lemma StarWeights(chosen: seq<Edge>)
    requires chosen == [Edge("great", 0.8), Edge("nice", 0.4)]
    ensures WeightTo(chosen, "great") == 0.8 && WeightTo(chosen, "nice") == 0.4 && WeightTo(chosen, "good") == 0.0
    ensures forall i :: 0 <= i < |chosen| ==> chosen[i].neighbor != "good"
  {
    assert chosen[..1] == [Edge("great", 0.8)] && chosen[..1][..0] == [];
    assert "nice" != "great" && "nice" != "good" && "great" != "good" by {
      assert "nice"[0] != "great"[0] && "nice"[0] != "good"[0] && "great"[2] != "good"[2];
    }
    assert WeightTo([Edge("great", 0.8)], "great") == 0.8;
    assert WeightTo([Edge("great", 0.8)], "nice") == 0.0;
    assert WeightTo([Edge("great", 0.8)], "good") == 0.0;
  }

  /** Of "good"'s edges on the path graph, the one of weight 0.8 leads to "great", none to "awesome" or back. */
  lemma PathWeights(chosen: seq<Edge>)
    requires chosen == [Edge("great", 0.8), Edge("nice", 0.4)]
    ensures WeightTo(chosen, "great") == 0.8 && WeightTo(chosen, "awesome") == 0.0
    ensures forall i :: 0 <= i < |chosen| ==> chosen[i].neighbor != "good"
  {
    Distinct4();
    assert chosen[..1] == [Edge("great", 0.8)] && chosen[..1][..0] == [];
    assert WeightTo(chosen[..1], "great") == 0.8;
    assert WeightTo(chosen[..1], "awesome") == 0.0;
  }

  /** neighborLimit 1: only the heavier neighbour "great" is reached; "nice" stays at 0. */
  lemma StarOneNeighbor()
    ensures var r := SeedWalk(Star(), "good", 3.0, 1, 1);
            Score(r, "great") == 2.4 && Score(r, "nice") == 0.0
  {
    var c := Credit(Star(), "good", 3.0);
    var chosen := StarTopOne(c);
    FirstRound(Star(), "good", 3.0, 1, chosen);
    StarCredited(c);
    SendWithoutSelfLoop(c, "good", chosen, "great");
    SendWithoutSelfLoop(c, "good", chosen, "nice");
  }

  /** With room for one neighbour, "good" chooses its heavier edge, to "great". */
  lemma StarTopOne(c: Nodes) returns (chosen: seq<Edge>)
    requires c == Credit(Star(), "good", 3.0)
    ensures chosen == [Edge("great", 0.8)] && chosen == TopNeighbors(Neighbors(c, "good"), 1)
    ensures WeightTo(chosen, "great") == 0.8 && WeightTo(chosen, "nice") == 0.0
    ensures forall i :: 0 <= i < |chosen| ==> chosen[i].neighbor != "good"
  {
    StarCredited(c);
    var all := [Edge("great", 0.8), Edge("nice", 0.4)];
    assert SortByWeight([Edge("nice", 0.4)]) == [Edge("nice", 0.4)];
    assert SortByWeight(all) == all;
    chosen := [Edge("great", 0.8)];
    assert all[..1] == chosen;
    Distinct4();
    assert chosen[..0] == [];
  }

  function Path(): Nodes {
    map["good" := Node(map[], [Edge("great", 0.8), Edge("nice", 0.4)], 0.0),
        "great" := Node(map[], [Edge("good", 0.8), Edge("awesome", 0.5)], 0.0),
        "nice" := Node(map[], [Edge("good", 0.4)], 0.0),
        "awesome" := Node(map[], [Edge("great", 0.5)], 0.0)]
  }

  lemma Distinct4()
    ensures "good" != "great" && "good" != "nice" && "good" != "awesome"
    ensures "great" != "nice" && "great" != "awesome" && "nice" != "awesome"
  {
    assert "great"[2] != "good"[2] && "good"[0] != "nice"[0] && "good"[0] != "awesome"[0];
    assert "great"[0] != "nice"[0] && "great"[0] != "awesome"[0] && "nice"[0] != "awesome"[0];
  }

  /** Two rounds split into the first and the second. */
  lemma TwoRounds(c: Nodes, seed: Phrase, limit: nat)
    ensures var w1 := Round(c, [seed], limit);
            Rounds(c, [seed], limit, 2) == Round(w1.nodes, w1.frontier, limit)
  {
    assert Rounds(c, [seed], limit, 0) == Walk(c, [seed]);
  }

  lemma OneSender(nodes: Nodes, q: Phrase, limit: nat)
    ensures Round(nodes, [q], limit) == Walk(Send(nodes, q, Chosen(nodes, q, limit)), Targets(Chosen(nodes, q, limit)))
  {
    assert [q][..0] == [] && [q][0] == q;
    assert Round(nodes, [], limit) == Walk(nodes, []);
  }

  lemma TwoSenders(nodes: Nodes, q1: Phrase, q2: Phrase, limit: nat)
    ensures var w := Round(nodes, [q1], limit);
            Round(nodes, [q1, q2], limit).nodes == Send(w.nodes, q2, Chosen(w.nodes, q2, limit))
  {
    assert [q1, q2][..1] == [q1] && [q1, q2][1] == q2;
  }

  /** "good"'s two edges, already heaviest first, are both chosen. */
  lemma PathChoice(c: Nodes) returns (chosen: seq<Edge>)
    requires c == Credit(Path(), "good", 3.0)
    ensures chosen == [Edge("great", 0.8), Edge("nice", 0.4)]
    ensures chosen == Chosen(c, "good", 2)
    ensures Targets(chosen) == ["great", "nice"]
  {
    chosen := [Edge("great", 0.8), Edge("nice", 0.4)];
    assert Neighbors(c, "good") == chosen;
    assert SortByWeight([Edge("nice", 0.4)]) == [Edge("nice", 0.4)];
    assert SortByWeight(chosen) == chosen;
  }

  /** Crediting the seed changes its score alone. */
  lemma PathCredited(c: Nodes)
    requires c == Credit(Path(), "good", 3.0)
    ensures "great" in c && "awesome" in c
    ensures Score(c, "good") == 3.0 && Score(c, "great") == 0.0 && Score(c, "awesome") == 0.0
    ensures Neighbors(c, "great") == [Edge("good", 0.8), Edge("awesome", 0.5)]
    ensures Neighbors(c, "nice") == [Edge("good", 0.4)]
  {
    Distinct4();
    var g := Path()["good"];
    assert c == Path()["good" := g.(score := g.score + 3.0)];
    assert c["great"] == Path()["great"] && c["nice"] == Path()["nice"] && c["awesome"] == Path()["awesome"];
  }

  /** The first round on the path graph: "great" holds 2.4, "awesome" nothing yet, and the frontier is ["great", "nice"]. */
  lemma PathFirstRound(c: Nodes) returns (w1: Walk)
    requires c == Credit(Path(), "good", 3.0)
    ensures w1 == Round(c, ["good"], 2) && w1.frontier == ["great", "nice"]
    ensures Score(w1.nodes, "great") == 2.4 && Score(w1.nodes, "awesome") == 0.0
    ensures SameShape(c, w1.nodes)
  {
    var chosen1 := PathChoice(c);
    OneSender(c, "good", 2);
    w1 := Round(c, ["good"], 2);
    assert w1.nodes == Send(c, "good", chosen1);
    PathCredited(c);
    PathWeights(chosen1);
    SendWithoutSelfLoop(c, "good", chosen1, "great");
    SendWithoutSelfLoop(c, "good", chosen1, "awesome");
    SendShape(c, "good", chosen1);
  }

  /** "great"'s two edges, already heaviest first, are both chosen. */
  lemma GreatChoice(w1: Nodes) returns (chosen: seq<Edge>)
    requires Neighbors(w1, "great") == [Edge("good", 0.8), Edge("awesome", 0.5)]
    ensures chosen == [Edge("good", 0.8), Edge("awesome", 0.5)]
    ensures chosen == Chosen(w1, "great", 2)
  {
    chosen := [Edge("good", 0.8), Edge("awesome", 0.5)];
    assert SortByWeight([Edge("awesome", 0.5)]) == [Edge("awesome", 0.5)];
    assert SortByWeight(chosen) == chosen;
  }

  /** Of "great"'s edges, only the one of weight 0.5 leads to "awesome", and none back to "great". */
  lemma GreatWeights(chosen: seq<Edge>)
    requires chosen == [Edge("good", 0.8), Edge("awesome", 0.5)]
    ensures WeightTo(chosen, "awesome") == 0.5
    ensures forall i :: 0 <= i < |chosen| ==> chosen[i].neighbor != "great"
  {
    Distinct4();
    assert chosen[..1] == [Edge("good", 0.8)] && chosen[..1][..0] == [];
    assert WeightTo(chosen[..1], "awesome") == 0.0;
  }

  /** In the second round "great" sends 2.4 times 0.5 to "awesome". */
  lemma PathGreatSends(w1: Nodes) returns (w2: Walk)
    requires Neighbors(w1, "great") == [Edge("good", 0.8), Edge("awesome", 0.5)]
    requires "awesome" in w1 && Score(w1, "great") == 2.4 && Score(w1, "awesome") == 0.0
    ensures w2 == Round(w1, ["great"], 2) && Score(w2.nodes, "awesome") == 1.2
    ensures SameShape(w1, w2.nodes)
  {
    var chosen2 := GreatChoice(w1);
    OneSender(w1, "great", 2);
    w2 := Round(w1, ["great"], 2);
    GreatWeights(chosen2);
    SendWithoutSelfLoop(w1, "great", chosen2, "awesome");
    SendShape(w1, "great", chosen2);
  }

  /** "nice"'s one edge leads back to "good", not to "awesome". */
  lemma NiceChoice(n: Nodes) returns (chosen: seq<Edge>)
    requires Neighbors(n, "nice") == [Edge("good", 0.4)]
    ensures chosen == Chosen(n, "nice", 2)
    ensures forall i :: 0 <= i < |chosen| ==> chosen[i].neighbor != "awesome"
  {
    chosen := [Edge("good", 0.4)];
    assert SortByWeight(chosen) == chosen;
    Distinct4();
  }

  /** The second round on the path graph: "great" then "nice" send; only "great" reaches "awesome". */
  lemma PathSecondRound(n1: Nodes)
    requires Neighbors(n1, "great") == [Edge("good", 0.8), Edge("awesome", 0.5)]
    requires Neighbors(n1, "nice") == [Edge("good", 0.4)]
    requires "awesome" in n1 && "nice" in n1 && Score(n1, "great") == 2.4 && Score(n1, "awesome") == 0.0
    ensures Score(Round(n1, ["great", "nice"], 2).nodes, "awesome") == 1.2
  {
    Distinct4();
    TwoSenders(n1, "great", "nice", 2);
    var w2 := PathGreatSends(n1);
    var chosen3 := NiceChoice(w2.nodes);
    SendCreditsTargets(w2.nodes, "nice", chosen3, "awesome");
  }

  /**
    pathLength 2 with an edge from "great" to "awesome" (0.5): in the second
    round "great" sends from the 2.4 it received in the first, so "awesome"
    receives 1.2.
   */
  lemma PathTwoRounds()
    ensures Score(SeedWalk(Path(), "good", 3.0, 2, 2), "awesome") == 1.2
  {
    var c := Credit(Path(), "good", 3.0);
    assert RoundCount(2) == 2;
    var w1 := PathFirstRound(c);
    TwoRounds(c, "good", 2);
    PathCredited(c);
    PathSecondRound(w1.nodes);
  }

  // ---------------------------------------------------------------------------
  // Walks from different seeds do not simply add up

  /** Two phrases joined by one edge of weight 1. */
  function Pair(): Nodes {
    map["a" := Node(map[], [Edge("b", 1.0)], 0.0),
        "b" := Node(map[], [Edge("a", 1.0)], 0.0)]
  }

  /** One round from `x` along its single edge of weight 1: `y` receives all of `x`'s credited score. */
  lemma EdgeWalk(nodes: Nodes, x: Phrase, y: Phrase, polarity: real)
    requires x in nodes && y in nodes && x != y
    requires Neighbors(nodes, x) == [Edge(y, 1.0)]
    ensures var r := SeedWalk(nodes, x, polarity, 1, 1);
            SameShape(nodes, r) &&
            Score(r, x) == Score(nodes, x) + polarity &&
            Score(r, y) == Score(nodes, y) + Score(nodes, x) + polarity
  {
    var c := Credit(nodes, x, polarity);
    var chosen := [Edge(y, 1.0)];
    assert Neighbors(c, x) == chosen;
    assert SortByWeight(chosen) == chosen;
    assert chosen[..1] == chosen;
    FirstRound(nodes, x, polarity, 1, chosen);
    CreditScore(nodes, x, polarity, x);
    CreditScore(nodes, x, polarity, y);
    assert chosen[..0] == [];
    assert WeightTo(chosen, x) == 0.0 && WeightTo(chosen, y) == 1.0;
    SendWithoutSelfLoop(c, x, chosen, x);
    SendWithoutSelfLoop(c, x, chosen, y);
    assert SameShape(nodes, c);
    SendShape(c, x, chosen);
    SameShapeTrans(nodes, c, Send(c, x, chosen));
  }

  /** A single seed is one walk from the unchanged scores. */
  lemma OneSeed(nodes: Nodes, s: Phrase, prior: map<Phrase, real>, limit: nat, pathLength: int)
    ensures Propagated(nodes, [s], prior, limit, pathLength) == SeedWalk(nodes, s, Polarity(prior, s), limit, pathLength)
  {
    assert [s][..0] == [];
  }

  /** Two seeds: the second walk starts from the scores the first one left. */
  lemma TwoSeeds(nodes: Nodes, s: Phrase, t: Phrase, prior: map<Phrase, real>, limit: nat, pathLength: int)
    ensures Propagated(nodes, [s, t], prior, limit, pathLength) ==
            SeedWalk(SeedWalk(nodes, s, Polarity(prior, s), limit, pathLength), t, Polarity(prior, t), limit, pathLength)
  {
    assert [s, t][..1] == [s];
    OneSeed(nodes, s, prior, limit, pathLength);
  }

  lemma PairFacts(g: Nodes, prior: map<Phrase, real>)
    requires g == Pair() && prior == map["a" := 1.0, "b" := 1.0]
    ensures "a" in g && "b" in g && "a" != "b"
    ensures Neighbors(g, "a") == [Edge("b", 1.0)] && Neighbors(g, "b") == [Edge("a", 1.0)]
    ensures Score(g, "a") == 0.0 && Score(g, "b") == 0.0
    ensures Polarity(prior, "a") == 1.0 && Polarity(prior, "b") == 1.0
  {
    assert "a"[0] != "b"[0];
  }

  /**
    Seeds "a" and "b" of polarity 1, neighborLimit 1, pathLength 1: together
    "a" ends at 3, because "b" passes on its running total, which already holds
    what "a" sent it; the two walks run alone leave "a" at 1 and 1.
   */
  lemma SeedsNotAdditive()
    ensures var prior := map["a" := 1.0, "b" := 1.0];
            Score(Propagated(Pair(), ["a", "b"], prior, 1, 1), "a") == 3.0 &&
            Score(Propagated(Pair(), ["a"], prior, 1, 1), "a") == 1.0 &&
            Score(Propagated(Pair(), ["b"], prior, 1, 1), "a") == 1.0
  {
    var prior := map["a" := 1.0, "b" := 1.0];
    var g := Pair();
    PairFacts(g, prior);
    OneSeed(g, "a", prior, 1, 1);
    OneSeed(g, "b", prior, 1, 1);
    TwoSeeds(g, "a", "b", prior, 1, 1);
    var r1 := SeedWalk(g, "a", 1.0, 1, 1);
    EdgeWalk(g, "a", "b", 1.0);
    EdgeWalk(r1, "b", "a", 1.0);
    EdgeWalk(g, "b", "a", 1.0);
  }
}
