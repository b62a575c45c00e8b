/** The stages put together: the graph `initialize_nodes` builds from the
    input is what the rounds need, the rounds conserve its total weight,
    and what happens when the node ids are not `0 .. num_nodes - 1`. */
module Pipeline {
  import opened Wrappers
  import opened Sequences
  import opened LineParsing
  import opened Records
  import opened Initialization
  import opened Distribution
  import opened Collection
  import opened Rounds

  /** The ids `0 .. n - 1` are `n` of them. */
  lemma {:induction false} RangeCount(s: set<int>, n: nat)
    requires forall k :: k in s <==> 0 <= k < n
    ensures |s| == n
  {
    if n > 0 {
      var rest := s - {n - 1};
      RangeCount(rest, n - 1);
      assert s == rest + {n - 1};
    } else {
      assert forall k :: k !in s;
      assert s == {};
    }
  }

  lemma {:induction false} UnitWeights(g: Graph, ks: seq<int>)
    requires forall k :: k in ks ==> k in g && g[k].weight == 1.0 && g[k].oldWeight == 1.0
    ensures WeightOf(g, ks) == |ks| as real && OldWeightOf(g, ks) == |ks| as real
  {
    if ks != [] {
      UnitWeights(g, ks[..|ks| - 1]);
    }
  }

  /** Every target of an initial node is itself a node, and a graph with
      the single node 0 holds the edge `0 -> 0`. */
  lemma InitialGraphClosed(lines: seq<string>)
    requires InitializeNodes(lines).Some?
    ensures var g := InitializeNodes(lines).value;
      (forall k :: k in g ==> g[k].weight == 1.0 && g[k].oldWeight == 1.0) &&
      (forall k :: k in g ==> g[k].targets.Some? && g[k].targets.value <= g.Keys) &&
      (g.Keys == {0} ==> g[0].targets.value != {})
  {
    var g := InitializeNodes(lines).value;
    var edges := EdgeList(lines);
    InitializeNodesMeaning(lines);
    forall k, t | k in g && t in g[k].targets.value ensures t in g {
      assert (k, t) in edges;
    }
    if g.Keys == {0} {
      assert 0 in g;
      var e :| e in edges && (e.0 == 0 || e.1 == 0);
      assert e.0 in g && e.1 in g;
      assert 0 in g[0].targets.value;
    }
  }

  /** A graph on the ids `0 .. n - 1` whose weights are all 1.0 and whose
      targets are nodes is ready for the rounds, with total weight and total
      old weight `n`. */
  lemma UnitGraphReady(g: Graph, n: nat)
    requires forall k :: k in g <==> 0 <= k < n
    requires forall k :: k in g ==> g[k].weight == 1.0 && g[k].oldWeight == 1.0
    requires forall k :: k in g ==> g[k].targets.Some? && g[k].targets.value <= g.Keys
    requires g.Keys == {0} ==> g[0].targets.value != {}
    ensures Closed(g, n) && Positive(g)
    ensures TotalWeight(g) == n as real && TotalOldWeight(g) == n as real
  {
    if n == 1 {
      LoneNode(g);
      forall k | k in g
        ensures g[k].targets.value != {}
      {
        assert k == 0;
      }
    }
    assert Positive(g);
    UnitTotals(g, n);
  }

  /** A graph on the single id `0` has the key set `{0}`. */
  lemma LoneNode(g: Graph)
    requires forall k :: k in g <==> 0 <= k < 1
    ensures g.Keys == {0}
  {
    forall k
      ensures k in g.Keys <==> k in {0}
    {
      assert k in g <==> 0 <= k < 1;
    }
  }

  /** Unit weights on `n` ids total `n`, as weights and as old weights. */
  lemma UnitTotals(g: Graph, n: nat)
    requires forall k :: k in g <==> 0 <= k < n
    requires forall k :: k in g ==> g[k].weight == 1.0 && g[k].oldWeight == 1.0
    ensures TotalWeight(g) == n as real && TotalOldWeight(g) == n as real
  {
    UnitWeights(g, Enumerate(g.Keys));
    RangeCount(g.Keys, n);
  }

  /** When the node ids of the input are exactly `0 .. n - 1`, the
      initial graph meets what the rounds need: it is closed, its weights
      are positive, and its total weight and total old weight are both
      `n`. A single node can only come from the line `0 0`, so it is never
      dangling. */
  lemma InitialGraphReady(lines: seq<string>, n: nat)
    requires InitializeNodes(lines).Some?
    requires forall k :: k in InitializeNodes(lines).value <==> 0 <= k < n
    ensures var g := InitializeNodes(lines).value;
      Closed(g, n) && Positive(g) &&
      TotalWeight(g) == n as real && TotalOldWeight(g) == n as real
  {
    InitialGraphClosed(lines);
    UnitGraphReady(InitializeNodes(lines).value, n);
  }

  /** From any input whose node ids are exactly `0 .. n - 1`, every round
      succeeds, keeps the same nodes and each node's targets, and leaves
      the total weight at `n`. */
  lemma WeightConservedFromInput(lines: seq<string>, n: nat, rounds: nat)
    requires InitializeNodes(lines).Some?
    requires forall k :: k in InitializeNodes(lines).value <==> 0 <= k < n
    ensures var g := InitializeNodes(lines).value;
      Iterate(g, n, rounds).Some? &&
      Iterate(g, n, rounds).value.Keys == g.Keys &&
      (forall k :: k in g ==> Iterate(g, n, rounds).value[k].targets == g[k].targets) &&
      TotalWeight(Iterate(g, n, rounds).value) == n as real
  {
    InitialGraphReady(lines, n);
    RoundsConserve(InitializeNodes(lines).value, n, rounds, n as real);
  }

  /** A tuple addressed to an id that is not a node reaches a group with no
      self tuple, so `collect_weights` raises for it. */
  lemma StrayRecipientFails(g: Graph, n: int, m: Message)
    requires EmitAll(g, n, Enumerate(g.Keys)).Some?
    requires m in EmitAll(g, n, Enumerate(g.Keys)).value && m.dest !in g
    ensures UpdateWeights(g, n).None?
  {
    var ms := EmitAll(g, n, Enumerate(g.Keys)).value;
    var group := Group(ms, m.dest);
    EmitAllShape(g, n, Enumerate(g.Keys));
    forall v | v in group ensures v.oldContrib == 0.0 {
      GroupMembers(ms, m.dest, v);
    }
    CollectFails(group);
    CollectAllFails(ms, m);
  }

  /** Merging the three records of the edge `s -> t` (with `s != t`)
      gives `s` the target `t` and `t` no target. */
  lemma OneEdgeMerge(s: int, t: int)
    requires s != t
    ensures ReduceByKey([Entry(s, {t}), Entry(s, {}), Entry(t, {})]) == map[s := {t}, t := {}]
  {
    var es := [Entry(s, {t}), Entry(s, {}), Entry(t, {})];
    var m := ReduceByKey(es);
    assert m.Keys == {s, t} by {
      assert es[0].id == s && es[2].id == t;
    }
    assert m[s] == {t} by {
      assert es[0].id == s && t in es[0].targets;
    }
    assert m[t] == {};
  }

  /** The graph of a single line `s t` with `s != t`: node `s` links to
      `t`, and `t` is dangling. */
  lemma OneEdgeGraph(s: int, t: int)
    requires s != t
    ensures InitializeNodes([ShowInt(s) + " " + ShowInt(t)]) ==
      Some(map[s := Node(1.0, 1.0, Some({t})), t := Node(1.0, 1.0, Some({}))])
  {
    var line := ShowInt(s) + " " + ShowInt(t);
    var es := [Entry(s, {t}), Entry(s, {}), Entry(t, {})];
    EmitEdgesOfEdgeLine(s, t);
    assert [line][..0] == [];
    assert FlatMapLines([line]) == Some([] + es);
    assert [] + es == es;
    OneEdgeMerge(s, t);
    var g := InitializeWeights(map[s := {t}, t := {}]);
    var expected := map[s := Node(1.0, 1.0, Some({t})), t := Node(1.0, 1.0, Some({}))];
    assert g.Keys == expected.Keys;
    assert g[s] == expected[s] && g[t] == expected[t];
    SameGraph(g, expected);
  }

  /** The graph of the input `0 2`: nodes 0 and 2, node 2 dangling. */
  function GapGraph(): Graph
  {
    map[0 := Node(1.0, 1.0, Some({2})), 2 := Node(1.0, 1.0, Some({}))]
  }

  lemma GapGraphOfInput()
    ensures InitializeNodes(["0 2"]) == Some(GapGraph())
  {
    assert ShowInt(0) + " " + ShowInt(2) == "0 2";
    OneEdgeGraph(0, 2);
  }

  /** A dangling node whose share goes to an id in `0 .. num_nodes - 1`
      that is not a node makes the round raise. */
  lemma DanglingToMissingIdFails(g: Graph, n: int, j: int, d: int)
    requires j in g && g[j].targets == Some({}) && n >= 2
    requires 0 <= d < n && d != j && d !in g
    ensures UpdateWeights(g, n).None?
  {
    var ks := Enumerate(g.Keys);
    EmitAllSome(g, n, ks);
    var m := Message(d, Payload(0.0, DanglingShare(g[j], n), None));
    DanglingSendsTo(j, g[j], n, TargetOrder(g[j]), d);
    EmitAllContains(g, n, ks, j, m);
    StrayRecipientFails(g, n, m);
  }

  /** For the input `0 2` a round raises: `num_nodes` is 2, dangling
      node 2 sends a share to id 1, and the group of id 1 has no self
      tuple to bind `old`. */
  lemma GapInIdsFails()
    ensures |GapGraph()| == 2
    ensures UpdateWeights(GapGraph(), |GapGraph()|).None?
  {
    var g := GapGraph();
    assert g.Keys == {0, 2};
    DanglingToMissingIdFails(g, 2, 2, 1);
  }

  /** The graph of the input `0 1` with both weights and old weights at
      `w`: node 0 links to node 1, which is dangling. */
  function TwoNodeGraph(w: real): Graph
  {
    map[0 := Node(w, w, Some({1})), 1 := Node(w, w, Some({}))]
  }

  lemma TwoNodeGraphOfInput()
    ensures InitializeNodes(["0 1"]) == Some(TwoNodeGraph(1.0))
  {
    assert ShowInt(0) + " " + ShowInt(1) == "0 1";
    OneEdgeGraph(0, 1);
  }

  lemma TwoNodeReady(w: real)
    requires w > 0.0
    ensures Closed(TwoNodeGraph(w), 2) && Positive(TwoNodeGraph(w))
  {
    var g := TwoNodeGraph(w);
    assert g.Keys == {0, 1};
    assert forall k :: k in g <==> 0 <= k < 2;
  }

  lemma TwoIds(ks: seq<int>)
    requires Enumerates(ks, {0, 1})
    ensures ks == [0, 1] || ks == [1, 0]
  {
    EnumerationLength(ks, {0, 1});
    assert ks[0] in {0, 1} && ks[1] in {0, 1} && ks[0] != ks[1];
  }

  lemma IncomingOfTwo(g: Graph, n: int, a: int, b: int, d: int)
    requires a in g && b in g
    ensures IncomingFrom(g, n, [a, b], d) == Contribution(a, g[a], n, d) + Contribution(b, g[b], n, d)
  {
    assert [a, b][..1] == [a];
    assert [a][..0] == [];
    assert IncomingFrom(g, n, [a], d) == Contribution(a, g[a], n, d);
  }

  /** On the nodes 0 and 1, what a node receives is what node 0 passes
      to it plus what node 1 passes to it, whichever is visited first. */
  lemma IncomingOfPair(g: Graph, n: int, d: int)
    requires g.Keys == {0, 1}
    ensures Incoming(g, n, d) == Contribution(0, g[0], n, d) + Contribution(1, g[1], n, d)
  {
    var ks := Enumerate(g.Keys);
    TwoIds(ks);
    IncomingOfTwo(g, n, ks[0], ks[1], d);
  }

  lemma TwoNodeIncoming(w: real, d: int)
    requires d == 0 || d == 1
    ensures Incoming(TwoNodeGraph(w), 2, d) == 0.85 * w
  {
    var g := TwoNodeGraph(w);
    assert g.Keys == {0, 1};
    IncomingOfPair(g, 2, d);
    TwoNodeContributions(w);
  }

  /** Node 0 passes all of `0.85*w` to its one target, node 1, and the
      dangling node 1 passes `0.85*w` to the one other id, node 0. */
  lemma TwoNodeContributions(w: real)
    ensures var g := TwoNodeGraph(w);
      Contribution(0, g[0], 2, 1) == 0.85 * w && Contribution(1, g[1], 2, 0) == 0.85 * w &&
      Contribution(0, g[0], 2, 0) == 0.0 && Contribution(1, g[1], 2, 1) == 0.0
  {
    var g := TwoNodeGraph(w);
    assert |g[0].targets.value| == 1;
    assert ForwardShare(g[0]) == (0.85 / 1.0) * w;
    assert DanglingShare(g[1], 2) == (0.85 / 1.0) * w;
  }

  /** A closed graph in which every node's weight equals its old weight and
      receives `0.85` of it back from the nodes is a fixed point of a
      round. */
  lemma FixedPoint(g: Graph, n: int)
    requires Closed(g, n) && Positive(g)
    requires forall d :: d in g ==> g[d].oldWeight == g[d].weight
    requires forall d :: d in g ==> Incoming(g, n, d) == 0.85 * g[d].weight
    ensures UpdateWeights(g, n) == Some(g)
  {
    UpdateWeightsRule(g, n);
    var h := UpdateWeights(g, n).value;
    assert h.Keys == g.Keys;
    forall d | d in g ensures h[d] == g[d] {
      SteadyNode(g[d], Incoming(g, n, d));
    }
    SameGraph(h, g);
  }

  lemma SameGraph(h: Graph, g: Graph)
    requires h.Keys == g.Keys && forall d :: d in g ==> h[d] == g[d]
    ensures h == g
  {
    forall d | d in h
      ensures d in g && h[d] == g[d]
    {
      assert d in h.Keys;
    }
    forall d | d in g
      ensures d in h
    {
      assert d in g.Keys;
    }
  }

  /** A node that keeps its weight as old weight and receives `0.85` of it
      keeps its value. */
  lemma SteadyNode(nd: Node, incoming: real)
    requires nd.oldWeight == nd.weight && incoming == 0.85 * nd.weight
    ensures Node(nd.weight, Retained(nd) + incoming, nd.targets) == nd
  {
  }

  /** The input `0 1` with `num_nodes == 2`: node 1 is dangling and passes
      its share to node 0 only, node 0 passes its share to node 1, and equal
      positive weights (1.0 to begin with) stay as they are. */
  lemma TwoNodeRound(w: real)
    requires w > 0.0
    ensures |TwoNodeGraph(w)| == 2
    ensures UpdateWeights(TwoNodeGraph(w), |TwoNodeGraph(w)|) == Some(TwoNodeGraph(w))
  {
    var g := TwoNodeGraph(w);
    assert g.Keys == {0, 1};
    TwoNodeReady(w);
    TwoNodeIncoming(w, 0);
    TwoNodeIncoming(w, 1);
    FixedPoint(g, 2);
  }
}
