/**
  Sentiment propagation over the phrase graph, as specification functions.

  From each seed the walk runs `pathLength` rounds over a FIFO frontier: every
  phrase of the frontier sends its current score times the edge weight to each
  of its `neighborLimit` heaviest neighbours, and those neighbours form the
  next frontier. Nothing remembers which phrases were already visited, so a
  phrase can be credited several times and an edge can carry credit back.
 */
module Propagation {
  import opened PhraseGraph

  // ---------------------------------------------------------------------------
  // Choosing the heaviest neighbours

  predicate SortedByWeight(es: seq<Edge>) {
    forall i, j :: 0 <= i < j < |es| ==> es[i].weight >= es[j].weight
  }

  /** Places `e` before the first edge it is at least as heavy as. */
  function InsertByWeight(e: Edge, sorted: seq<Edge>): (r: seq<Edge>)
    ensures multiset(r) == multiset(sorted) + multiset{e}
    ensures |r| == |sorted| + 1
  {
    if sorted == [] || e.weight >= sorted[0].weight then [e] + sorted
    else
      assert sorted == [sorted[0]] + sorted[1..];
      [sorted[0]] + InsertByWeight(e, sorted[1..])
  }

  lemma {:induction false} InsertKeepsSorted(e: Edge, sorted: seq<Edge>)
    requires SortedByWeight(sorted)
    ensures SortedByWeight(InsertByWeight(e, sorted))
  {
    if sorted == [] || e.weight >= sorted[0].weight {
      ConsSorted(e, sorted);
    } else {
      var tail := sorted[1..];
      InsertKeepsSorted(e, tail);
      InsertBounded(e, tail, sorted[0].weight);
      ConsSorted(sorted[0], InsertByWeight(e, tail));
    }
  }

  /** An edge at least as heavy as every edge of a sorted list can go in front of it. */
  lemma ConsSorted(x: Edge, es: seq<Edge>)
    requires SortedByWeight(es) && forall k :: 0 <= k < |es| ==> es[k].weight <= x.weight
    ensures SortedByWeight([x] + es)
  {
    var r := [x] + es;
    forall i, j | 0 <= i < j < |r|
      ensures r[i].weight >= r[j].weight
    {
      assert r[j] == es[j - 1];
      if i > 0 {
        assert r[i] == es[i - 1];
      }
    }
  }

  /** Inserting an edge no heavier than `w` among edges no heavier than `w` gives edges no heavier than `w`. */
  lemma {:induction false} InsertBounded(e: Edge, es: seq<Edge>, w: real)
    requires e.weight <= w && forall k :: 0 <= k < |es| ==> es[k].weight <= w
    ensures forall k :: 0 <= k < |InsertByWeight(e, es)| ==> InsertByWeight(e, es)[k].weight <= w
  {
    if !(es == [] || e.weight >= es[0].weight) {
      var tail := es[1..];
      InsertBounded(e, tail, w);
      var r := InsertByWeight(e, es);
      assert r == [es[0]] + InsertByWeight(e, tail);
    }
  }


  /** The edges from heaviest to lightest, ties in adjacency order. */
  function SortByWeight(es: seq<Edge>): (r: seq<Edge>)
    ensures multiset(r) == multiset(es) && |r| == |es|
    ensures SortedByWeight(r)
  {
    if es == [] then []
    else
      assert es == [es[0]] + es[1..];
      InsertKeepsSorted(es[0], SortByWeight(es[1..]));
      InsertByWeight(es[0], SortByWeight(es[1..]))
  }

  /** In a sorted list, everything after position `n` is no heavier than anything before it. */
  lemma SortedSplit(sorted: seq<Edge>, n: nat)
    requires SortedByWeight(sorted) && n <= |sorted|
    ensures forall e, i :: e in multiset(sorted[n..]) && 0 <= i < n ==> e.weight <= sorted[i].weight
  {
    forall e, i | e in multiset(sorted[n..]) && 0 <= i < n
      ensures e.weight <= sorted[i].weight
    {
      var j :| 0 <= j < |sorted[n..]| && sorted[n..][j] == e;
      assert sorted[n + j] == e;
    }
  }

  /** No edge of `es` left out of `chosen` is heavier than an edge in it. */
  ghost predicate NoHeavierLeftOut(es: seq<Edge>, chosen: seq<Edge>) {
    forall e, i :: e in multiset(es) - multiset(chosen) && 0 <= i < |chosen| ==> e.weight <= chosen[i].weight
  }

  /**
    What a `FixedPriorityQueue` of capacity `limit` holding the adjacency list
    yields: `min(limit, degree)` of its edges. Which ones, and in what order,
    is `TopNeighborsChoice`.
   */
  function TopNeighbors(es: seq<Edge>, limit: nat): (r: seq<Edge>)
    ensures |r| == if limit < |es| then limit else |es|
    ensures multiset(r) <= multiset(es)
  {
    var sorted := SortByWeight(es);
    var n := if limit < |es| then limit else |es|;
    SortedPrefix(es, sorted, n);
    sorted[..n]
  }

  /** The chosen edges are the heaviest, heaviest first: no edge left out outweighs one chosen. */
  lemma TopNeighborsChoice(es: seq<Edge>, limit: nat)
    ensures SortedByWeight(TopNeighbors(es, limit))
    ensures NoHeavierLeftOut(es, TopNeighbors(es, limit))
  {
    var sorted := SortByWeight(es);
    var n := if limit < |es| then limit else |es|;
    SortedPrefix(es, sorted, n);
  }

  lemma SortedPrefix(es: seq<Edge>, sorted: seq<Edge>, n: nat)
    requires multiset(sorted) == multiset(es) && SortedByWeight(sorted) && n <= |sorted|
    ensures multiset(sorted[..n]) <= multiset(es)
    ensures SortedByWeight(sorted[..n])
    ensures NoHeavierLeftOut(es, sorted[..n])
  {
    PrefixOfSorted(sorted, n);
    PrefixLeavesRest(es, sorted, n);
  }

  /** What a prefix of the sorted list leaves out is the rest of that list, none of it heavier. */
  lemma PrefixLeavesRest(es: seq<Edge>, sorted: seq<Edge>, n: nat)
    requires multiset(sorted) == multiset(es) && SortedByWeight(sorted) && n <= |sorted|
    requires multiset(sorted) == multiset(sorted[..n]) + multiset(sorted[n..])
    ensures NoHeavierLeftOut(es, sorted[..n])
  {
    assert multiset(es) - multiset(sorted[..n]) == multiset(sorted[n..]);
    SortedSplit(sorted, n);
  }

  /** A prefix of a sorted list is sorted, and the list is the prefix's edges plus the rest's. */
  lemma PrefixOfSorted(sorted: seq<Edge>, n: nat)
    requires SortedByWeight(sorted) && n <= |sorted|
    ensures SortedByWeight(sorted[..n])
    ensures multiset(sorted) == multiset(sorted[..n]) + multiset(sorted[n..])
  {
    assert sorted == sorted[..n] + sorted[n..];
  }

  // ---------------------------------------------------------------------------
  // Crediting

  /** `updateSentimentScore`: adds `amount` to the phrase's running score. */
  function Credit(nodes: Nodes, p: Phrase, amount: real): Nodes {
    if p in nodes then nodes[p := nodes[p].(score := nodes[p].score + amount)] else nodes
  }

  /**
    One phrase sends to its chosen edges in order; its own score is read anew
    for every edge, so a self-loop earlier in the list raises what later
    neighbours receive.
   */
  function Send(nodes: Nodes, from: Phrase, chosen: seq<Edge>): Nodes {
    if chosen == [] then nodes
    else
      var before := Send(nodes, from, chosen[..|chosen| - 1]);
      var e := chosen[|chosen| - 1];
      Credit(before, e.neighbor, Passed(Score(before, from), e.weight))
  }

  /** What an edge of weight `weight` passes on from a sender whose score is `score`. */
  function Passed(score: real, weight: real): real {
    score * weight
  }

  function Targets(chosen: seq<Edge>): (r: seq<Phrase>)
    ensures |r| == |chosen|
  {
    seq(|chosen|, i requires 0 <= i < |chosen| => chosen[i].neighbor)
  }

  function Chosen(nodes: Nodes, p: Phrase, limit: nat): seq<Edge> {
    TopNeighbors(Neighbors(nodes, p), limit)
  }

  /** The scores and the frontier between two steps of a walk. */
  datatype Walk = Walk(nodes: Nodes, frontier: seq<Phrase>)

  /** One round: every phrase of the frontier sends in turn; the targets, in order, are the next frontier. */
  function Round(nodes: Nodes, frontier: seq<Phrase>, limit: nat): Walk {
    if frontier == [] then Walk(nodes, [])
    else
      var w := Round(nodes, frontier[..|frontier| - 1], limit);
      var q := frontier[|frontier| - 1];
      var chosen := Chosen(w.nodes, q, limit);
      Walk(Send(w.nodes, q, chosen), w.frontier + Targets(chosen))
  }

  function Rounds(nodes: Nodes, frontier: seq<Phrase>, limit: nat, count: nat): Walk {
    if count == 0 then Walk(nodes, frontier)
    else
      var w := Rounds(nodes, frontier, limit, count - 1);
      Round(w.nodes, w.frontier, limit)
  }

  function RoundCount(pathLength: int): nat {
    if pathLength < 0 then 0 else pathLength
  }

  /** The seed is credited with its prior polarity, then `pathLength` rounds start from it alone. */
  function SeedWalk(nodes: Nodes, seed: Phrase, polarity: real, limit: nat, pathLength: int): Nodes {
    Rounds(Credit(nodes, seed, polarity), [seed], limit, RoundCount(pathLength)).nodes
  }

  function Polarity(prior: map<Phrase, real>, p: Phrase): real {
    if p in prior then prior[p] else 0.0
  }

  /** The walks from the seeds in the given order, each starting from the scores the earlier ones left. */
  function Propagated(nodes: Nodes, seeds: seq<Phrase>, prior: map<Phrase, real>, limit: nat, pathLength: int): Nodes {
    if seeds == [] then nodes
    else
      var before := Propagated(nodes, seeds[..|seeds| - 1], prior, limit, pathLength);
      var s := seeds[|seeds| - 1];
      SeedWalk(before, s, Polarity(prior, s), limit, pathLength)
  }

  // ---------------------------------------------------------------------------
  // Propagation changes scores only

  /** Same phrases, same contexts, same adjacency lists; scores may differ. */
  ghost predicate SameShape(a: Nodes, b: Nodes) {
    a.Keys == b.Keys &&
    forall p :: p in a ==> a[p].context == b[p].context && a[p].neighbors == b[p].neighbors
  }

  lemma {:induction false} SendShape(nodes: Nodes, from: Phrase, chosen: seq<Edge>)
    ensures SameShape(nodes, Send(nodes, from, chosen))
  {
    if chosen != [] {
      SendShape(nodes, from, chosen[..|chosen| - 1]);
    }
  }

  lemma {:induction false} RoundShape(nodes: Nodes, frontier: seq<Phrase>, limit: nat)
    ensures SameShape(nodes, Round(nodes, frontier, limit).nodes)
  {
    if frontier != [] {
      var w := Round(nodes, frontier[..|frontier| - 1], limit);
      RoundShape(nodes, frontier[..|frontier| - 1], limit);
      var q := frontier[|frontier| - 1];
      SendShape(w.nodes, q, Chosen(w.nodes, q, limit));
    }
  }

  lemma {:induction false} RoundsShape(nodes: Nodes, frontier: seq<Phrase>, limit: nat, count: nat)
    ensures SameShape(nodes, Rounds(nodes, frontier, limit, count).nodes)
  {
    if count > 0 {
      var w := Rounds(nodes, frontier, limit, count - 1);
      RoundsShape(nodes, frontier, limit, count - 1);
      RoundShape(w.nodes, w.frontier, limit);
    }
  }

  /** Propagation leaves the phrases, their contexts and their edges as they were. */
  lemma {:induction false} PropagatedShape(nodes: Nodes, seeds: seq<Phrase>, prior: map<Phrase, real>,
                                           limit: nat, pathLength: int)
    ensures SameShape(nodes, Propagated(nodes, seeds, prior, limit, pathLength))
  {
    if seeds != [] {
      var before := Propagated(nodes, seeds[..|seeds| - 1], prior, limit, pathLength);
      PropagatedShape(nodes, seeds[..|seeds| - 1], prior, limit, pathLength);
      var s := seeds[|seeds| - 1];
      RoundsShape(Credit(before, s, Polarity(prior, s)), [s], limit, RoundCount(pathLength));
    }
  }

  // ---------------------------------------------------------------------------
  // What one sender passes on

  /** The total weight of the chosen edges that lead to `p`. */
  function WeightTo(chosen: seq<Edge>, p: Phrase): real {
    if chosen == [] then 0.0
    else
      var e := chosen[|chosen| - 1];
      WeightTo(chosen[..|chosen| - 1], p) + (if e.neighbor == p then e.weight else 0.0)
  }

  /**
    Without a self-loop among the chosen edges the sender's score stays fixed
    while it sends, so each phrase of the graph receives the sender's score
    times the total weight of the chosen edges to it.
   */
  lemma {:induction false} SendWithoutSelfLoop(nodes: Nodes, from: Phrase, chosen: seq<Edge>, p: Phrase)
    requires forall i :: 0 <= i < |chosen| ==> chosen[i].neighbor != from
    requires p in nodes
    ensures Score(Send(nodes, from, chosen), p) == Score(nodes, p) + Score(nodes, from) * WeightTo(chosen, p)
  {
    SendReceives(nodes, from, chosen, p);
    ReceivedIsProduct(Score(nodes, from), chosen, p);
  }

  /** What phrase `p` receives from a sender whose score stays `x` while it sends along `chosen`. */
  function Received(x: real, chosen: seq<Edge>, p: Phrase): real {
    if chosen == [] then 0.0
    else
      var e := chosen[|chosen| - 1];
      Received(x, chosen[..|chosen| - 1], p) + (if e.neighbor == p then Passed(x, e.weight) else 0.0)
  }

  /** Without self-loops, every phrase gains what it receives from the sender's original score. */
  lemma {:induction false} SendReceives(nodes: Nodes, from: Phrase, chosen: seq<Edge>, p: Phrase)
    requires forall i :: 0 <= i < |chosen| ==> chosen[i].neighbor != from
    requires p in nodes
    ensures Score(Send(nodes, from, chosen), p) == Score(nodes, p) + Received(Score(nodes, from), chosen, p)
  {
    if chosen != [] {
      var init := chosen[..|chosen| - 1];
      assert forall i :: 0 <= i < |init| ==> init[i].neighbor != from;
      SendReceives(nodes, from, init, p);
      SendLastEdge(nodes, from, chosen, p);
    }
  }

  /** What is received from a fixed score is that score times the weight of the edges to `p`. */
  lemma {:induction false} ReceivedIsProduct(x: real, chosen: seq<Edge>, p: Phrase)
    ensures Received(x, chosen, p) == x * WeightTo(chosen, p)
  {
    if chosen != [] {
      var init := chosen[..|chosen| - 1];
      var e := chosen[|chosen| - 1];
      ReceivedIsProduct(x, init, p);
      if e.neighbor == p {
        AddProduct(0.0, Received(x, init, p), Received(x, chosen, p), x, WeightTo(init, p), e.weight, WeightTo(chosen, p));
      } else {
        assert WeightTo(chosen, p) == WeightTo(init, p);
      }
    }
  }

  /** The last chosen edge, when the earlier ones are no self-loops, passes the sender's original score. */
  lemma SendLastEdge(nodes: Nodes, from: Phrase, chosen: seq<Edge>, p: Phrase)
    requires chosen != [] && p in nodes
    requires forall i :: 0 <= i < |chosen| - 1 ==> chosen[i].neighbor != from
    ensures var e := chosen[|chosen| - 1];
            Score(Send(nodes, from, chosen), p) ==
            Score(Send(nodes, from, chosen[..|chosen| - 1]), p) + (if e.neighbor == p then Passed(Score(nodes, from), e.weight) else 0.0)
  {
    var init := chosen[..|chosen| - 1];
    var e := chosen[|chosen| - 1];
    var before := Send(nodes, from, init);
    assert forall i :: 0 <= i < |init| ==> init[i].neighbor != from;
    SendCreditsTargets(nodes, from, init, from);
    SendShape(nodes, from, init);
    CreditScore(before, e.neighbor, Passed(Score(before, from), e.weight), p);
  }

  lemma CreditScore(nodes: Nodes, q: Phrase, amount: real, p: Phrase)
    requires p in nodes
    ensures Score(Credit(nodes, q, amount), p) == Score(nodes, p) + (if q == p then amount else 0.0)
  {
  }

  /** A score that received `x * a` and then `Passed(x, b)` received `x * (a + b)`. */
  lemma AddProduct(start: real, middle: real, end: real, x: real, a: real, b: real, sum: real)
    requires middle == start + x * a && end == middle + Passed(x, b) && sum == a + b
    ensures end == start + x * sum
  {
  }

  // ---------------------------------------------------------------------------
  // Bounded fan-out

  function Min(a: nat, b: nat): nat {
    if a < b then a else b
  }

  /** How many phrases a round over `frontier` enqueues: at most `limit` per phrase. */
  function Fanout(nodes: Nodes, frontier: seq<Phrase>, limit: nat): nat {
    if frontier == [] then 0
    else Fanout(nodes, frontier[..|frontier| - 1], limit) + Min(limit, |Neighbors(nodes, frontier[|frontier| - 1])|)
  }

  /** The next frontier holds one entry per chosen edge: `min(limit, degree)` for each phrase sent from. */
  lemma {:induction false} RoundFrontierSize(nodes: Nodes, frontier: seq<Phrase>, limit: nat)
    ensures |Round(nodes, frontier, limit).frontier| == Fanout(nodes, frontier, limit)
  {
    if frontier != [] {
      var w := Round(nodes, frontier[..|frontier| - 1], limit);
      RoundFrontierSize(nodes, frontier[..|frontier| - 1], limit);
      RoundShape(nodes, frontier[..|frontier| - 1], limit);
      assert Neighbors(w.nodes, frontier[|frontier| - 1]) == Neighbors(nodes, frontier[|frontier| - 1]);
    }
  }

  // ---------------------------------------------------------------------------
  // Hop bound

  /** The phrases some phrase of `s` has an edge to. */
  ghost function Adjacent(nodes: Nodes, s: set<Phrase>): set<Phrase> {
    set p, i | p in s && p in nodes && 0 <= i < |nodes[p].neighbors| :: nodes[p].neighbors[i].neighbor
  }

  /** The phrases at most `hops` edges away from `s`. */
  ghost function Ball(nodes: Nodes, s: set<Phrase>, hops: nat): set<Phrase> {
    if hops == 0 then s
    else Ball(nodes, s, hops - 1) + Adjacent(nodes, Ball(nodes, s, hops - 1))
  }

  lemma AdjacentShape(a: Nodes, b: Nodes, s: set<Phrase>)
    requires SameShape(a, b)
    ensures Adjacent(a, s) == Adjacent(b, s)
  {
    forall p, i | p in s && p in a && 0 <= i < |a[p].neighbors|
      ensures a[p].neighbors[i].neighbor in Adjacent(b, s)
    {
      assert b[p].neighbors[i] == a[p].neighbors[i];
    }
  }

  /** Two graphs with the same adjacency have the same balls. */
  lemma {:induction false} BallSameAdjacency(a: Nodes, b: Nodes, s: set<Phrase>, hops: nat)
    requires forall t :: Adjacent(a, t) == Adjacent(b, t)
    ensures Ball(a, s, hops) == Ball(b, s, hops)
  {
    if hops > 0 {
      BallSameAdjacency(a, b, s, hops - 1);
      var inner := Ball(a, s, hops - 1);
      assert Adjacent(a, inner) == Adjacent(b, inner);
    }
  }

  lemma BallShape(a: Nodes, b: Nodes, s: set<Phrase>, hops: nat)
    requires SameShape(a, b)
    ensures Ball(a, s, hops) == Ball(b, s, hops)
  {
    forall t
      ensures Adjacent(a, t) == Adjacent(b, t)
    {
      AdjacentShape(a, b, t);
    }
    BallSameAdjacency(a, b, s, hops);
  }


  /** Sending credits only the targets of the chosen edges. */
  lemma {:induction false} SendCreditsTargets(nodes: Nodes, from: Phrase, chosen: seq<Edge>, p: Phrase)
    requires forall i :: 0 <= i < |chosen| ==> chosen[i].neighbor != p
    ensures Score(Send(nodes, from, chosen), p) == Score(nodes, p)
  {
    if chosen != [] {
      SendCreditsTargets(nodes, from, chosen[..|chosen| - 1], p);
    }
  }

  /** Every phrase of `q` lies in `s`. */
  ghost predicate Within(q: seq<Phrase>, s: set<Phrase>) {
    forall i :: 0 <= i < |q| ==> q[i] in s
  }

  /** `a` and `b` agree on the score of every phrase outside `s`. */
  ghost predicate ScoresAgreeOutside(a: Nodes, b: Nodes, s: set<Phrase>) {
    forall p :: p !in s ==> Score(a, p) == Score(b, p)
  }

  /** The targets of a phrase's chosen edges are adjacent to any set holding it. */
  lemma ChosenAdjacent(nodes: Nodes, q: Phrase, limit: nat, s: set<Phrase>)
    requires q in s
    ensures Within(Targets(Chosen(nodes, q, limit)), Adjacent(nodes, s))
  {
    var chosen := Chosen(nodes, q, limit);
    forall i | 0 <= i < |chosen|
      ensures chosen[i].neighbor in Adjacent(nodes, s)
    {
      assert chosen[i] in multiset(chosen);
      assert chosen[i] in multiset(Neighbors(nodes, q));
      var k :| 0 <= k < |nodes[q].neighbors| && nodes[q].neighbors[k] == chosen[i];
    }
  }

  lemma SendOutside(nodes: Nodes, from: Phrase, chosen: seq<Edge>, s: set<Phrase>)
    requires Within(Targets(chosen), s)
    ensures ScoresAgreeOutside(Send(nodes, from, chosen), nodes, s)
  {
    forall p | p !in s
      ensures Score(Send(nodes, from, chosen), p) == Score(nodes, p)
    {
      forall i | 0 <= i < |chosen|
        ensures chosen[i].neighbor != p
      {
        assert Targets(chosen)[i] in s;
      }
      SendCreditsTargets(nodes, from, chosen, p);
    }
  }

  /**
    A round from a frontier inside `s` enqueues and credits only phrases
    adjacent to `s`.
   */
  lemma {:induction false} RoundStaysAdjacent(nodes: Nodes, frontier: seq<Phrase>, limit: nat, s: set<Phrase>)
    requires Within(frontier, s)
    ensures Within(Round(nodes, frontier, limit).frontier, Adjacent(nodes, s))
    ensures ScoresAgreeOutside(Round(nodes, frontier, limit).nodes, nodes, Adjacent(nodes, s))
  {
    if frontier != [] {
      var init := frontier[..|frontier| - 1];
      var w := Round(nodes, init, limit);
      RoundStaysAdjacent(nodes, init, limit, s);
      RoundShape(nodes, init, limit);
      AdjacentShape(nodes, w.nodes, s);
      var q := frontier[|frontier| - 1];
      var chosen := Chosen(w.nodes, q, limit);
      ChosenAdjacent(w.nodes, q, limit, s);
      SendOutside(w.nodes, q, chosen, Adjacent(nodes, s));
      WithinAppend(w.frontier, Targets(chosen), Adjacent(nodes, s));
    }
  }

  lemma WithinAppend(a: seq<Phrase>, b: seq<Phrase>, s: set<Phrase>)
    requires Within(a, s) && Within(b, s)
    ensures Within(a + b, s)
  {
    forall i | 0 <= i < |a + b|
      ensures (a + b)[i] in s
    {
      if i >= |a| {
        assert (a + b)[i] == b[i - |a|];
      }
    }
  }

  /**
    After `count` rounds the frontier lies within `count` hops of where it
    started, and no phrase farther away has been credited.
   */
  /** A walk state whose frontier lies in `region` and whose scores differ from `nodes` only inside it. */
  ghost predicate Confined(nodes: Nodes, w: Walk, region: set<Phrase>) {
    Within(w.frontier, region) && ScoresAgreeOutside(w.nodes, nodes, region)
  }

  lemma RoundsHopBound(nodes: Nodes, frontier: seq<Phrase>, limit: nat, count: nat, start: set<Phrase>)
    requires Within(frontier, start)
    ensures Confined(nodes, Rounds(nodes, frontier, limit, count), Ball(nodes, start, count))
  {
    for k := 0 to count
      invariant SameShape(nodes, Rounds(nodes, frontier, limit, k).nodes)
      invariant Confined(nodes, Rounds(nodes, frontier, limit, k), Ball(nodes, start, k))
    {
      var w := Rounds(nodes, frontier, limit, k);
      HopStep(nodes, w, limit, Ball(nodes, start, k));
      RoundShape(w.nodes, w.frontier, limit);
      SameShapeTrans(nodes, w.nodes, Round(w.nodes, w.frontier, limit).nodes);
    }
  }

  lemma SameShapeTrans(a: Nodes, b: Nodes, c: Nodes)
    requires SameShape(a, b) && SameShape(b, c)
    ensures SameShape(a, c)
  {
  }

  /** One more round widens the region the walk has touched by one hop. */
  lemma HopStep(nodes: Nodes, w: Walk, limit: nat, inner: set<Phrase>)
    requires SameShape(nodes, w.nodes) && Confined(nodes, w, inner)
    ensures Confined(nodes, Round(w.nodes, w.frontier, limit), inner + Adjacent(nodes, inner))
  {
    RoundStaysAdjacent(w.nodes, w.frontier, limit, inner);
    AdjacentShape(nodes, w.nodes, inner);
    var outer := inner + Adjacent(nodes, inner);
    var r := Round(w.nodes, w.frontier, limit);
    forall i | 0 <= i < |r.frontier|
      ensures r.frontier[i] in outer
    {
      assert r.frontier[i] in Adjacent(w.nodes, inner);
    }
    forall p | p !in outer
      ensures Score(r.nodes, p) == Score(nodes, p)
    {
      assert p !in Adjacent(w.nodes, inner) && p !in inner;
    }
  }

  /**
    The hop bound of one seed: a walk of `pathLength` rounds changes no score
    farther than `pathLength` edges from the seed.
   */
  lemma SeedWalkHopBound(nodes: Nodes, seed: Phrase, polarity: real, limit: nat, pathLength: int, p: Phrase)
    requires p !in Ball(nodes, {seed}, RoundCount(pathLength))
    ensures Score(SeedWalk(nodes, seed, polarity, limit, pathLength), p) == Score(nodes, p)
  {
    var credited := Credit(nodes, seed, polarity);
    var count := RoundCount(pathLength);
    RoundsHopBound(credited, [seed], limit, count, {seed});
    BallShape(nodes, credited, {seed}, count);
    BallContainsStart(nodes, {seed}, count);
  }

  lemma {:induction false} BallContainsStart(nodes: Nodes, s: set<Phrase>, hops: nat)
    ensures s <= Ball(nodes, s, hops)
  {
    if hops > 0 {
      BallContainsStart(nodes, s, hops - 1);
    }
  }
}
