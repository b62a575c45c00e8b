/** `update_weights`, one round of the computation: every node is
    distributed (`flatMap`), the emitted tuples are grouped by recipient
    (`groupByKey`) and every group is collected (`map`). The order in which
    the nodes are visited and the frozensets iterated is left open: it is
    some enumeration, chosen once per set. */
module Rounds {
  import opened Wrappers
  import opened Sequences
  import opened Records
  import opened Distribution
  import opened Collection

  /** The order in which a node's frozenset of targets is iterated. */
  ghost function TargetOrder(nd: Node): (order: seq<int>)
    ensures Enumerates(order, TargetSet(nd))
  {
    Enumerate(TargetSet(nd))
  }

  /** `flatMap(distribute_weights)` over the nodes taken in the order `ks`;
      None when one of them raises. */
  ghost function EmitAll(g: Graph, n: int, ks: seq<int>): Option<seq<Message>>
    requires forall k :: k in ks ==> k in g
  {
    if ks == [] then Some([])
    else
      var j := ks[|ks| - 1];
      match EmitAll(g, n, ks[..|ks| - 1])
      case None => None
      case Some(front) =>
        match Distribute(j, g[j], n, TargetOrder(g[j]))
        case None => None
        case Some(p) => Some(front + p)
  }

  /** `groupByKey`: the payloads addressed to `d`, in emission order. */
  function Group(ms: seq<Message>, d: int): seq<Payload>
  {
    if ms == [] then []
    else
      var m := ms[|ms| - 1];
      Group(ms[..|ms| - 1], d) + (if m.dest == d then [m.payload] else [])
  }

  /** The keys `groupByKey` produces: every id some tuple was sent to. */
  ghost function Recipients(ms: seq<Message>): set<int>
  {
    set m | m in ms :: m.dest
  }

  /** `update_weights`: None when a `distribute_weights` or a
      `collect_weights` call raises. */
  ghost function UpdateWeights(g: Graph, n: int): Option<Graph>
  {
    match EmitAll(g, n, Enumerate(g.Keys))
    case None => None
    case Some(ms) => CollectAll(ms)
  }

  /** `groupByKey().map(collect_weights)` over the emitted tuples. */
  ghost function CollectAll(ms: seq<Message>): Option<Graph>
  {
    var ds := Recipients(ms);
    if exists d :: d in ds && Collect(Group(ms, d)).None? then None
    else Some(map d | d in ds :: Collect(Group(ms, d)).value)
  }

  /** `num_rounds` successive rounds; None once one of them raises. */
  ghost function Iterate(g: Graph, n: int, rounds: nat): Option<Graph>
    decreases rounds
  {
    if rounds == 0 then Some(g)
    else
      match UpdateWeights(g, n)
      case None => None
      case Some(g') => Iterate(g', n, rounds - 1)
  }

  // ---------------------------------------------------------------------
  // The update rule, stated without tuples

  /** The part of its own weight a node keeps: `0.05*weight +
      old_weight*0.1`, the second half of it being what the back button
      returns from the previous round. */
  function Retained(nd: Node): real
  {
    0.05 * nd.weight + nd.oldWeight * 0.1
  }

  /** What node `j` with value `nd` passes to node `d` in one round:
      `0.85/k` of its weight to each of its `k > 0` targets, or, when it
      has none, `0.85/(n-1)` of it to every other id in `0 .. n - 1`. */
  function Contribution(j: int, nd: Node, n: int, d: int): real
  {
    match nd.targets
    case None => 0.0
    case Some(ts) =>
      if |ts| != 0 then (if d in ts then ForwardShare(nd) else 0.0)
      else if n != 1 && 0 <= d < n && d != j then DanglingShare(nd, n)
      else 0.0
  }

  /** What the nodes `ks` pass to `d`. */
  function IncomingFrom(g: Graph, n: int, ks: seq<int>, d: int): real
    requires forall k :: k in ks ==> k in g
  {
    if ks == [] then 0.0
    else
      var k := ks[|ks| - 1];
      IncomingFrom(g, n, ks[..|ks| - 1], d) + Contribution(k, g[k], n, d)
  }

  /** What all nodes pass to `d` in one round. */
  ghost function Incoming(g: Graph, n: int, d: int): real
  {
    IncomingFrom(g, n, Enumerate(g.Keys), d)
  }

  /** The sum of the weights of the nodes `ks`. */
  function WeightOf(g: Graph, ks: seq<int>): real
    requires forall k :: k in ks ==> k in g
  {
    if ks == [] then 0.0
    else
      var k := ks[|ks| - 1];
      WeightOf(g, ks[..|ks| - 1]) + g[k].weight
  }

  /** The sum of the old weights of the nodes `ks`. */
  function OldWeightOf(g: Graph, ks: seq<int>): real
    requires forall k :: k in ks ==> k in g
  {
    if ks == [] then 0.0
    else
      var k := ks[|ks| - 1];
      OldWeightOf(g, ks[..|ks| - 1]) + g[k].oldWeight
  }

  ghost function TotalWeight(g: Graph): real
  {
    WeightOf(g, Enumerate(g.Keys))
  }

  ghost function TotalOldWeight(g: Graph): real
  {
    OldWeightOf(g, Enumerate(g.Keys))
  }

  /** The shape the computation relies on: the ids are exactly
      `0 .. num_nodes - 1`, every node holds a frozenset of targets that
      are themselves nodes, and a lone node is not dangling (the only id
      of `range(0, 1)` is the node itself, so its `0.85*weight` would go
      to no one and the total weight would shrink). */
  ghost predicate Closed(g: Graph, n: int)
  {
    (forall k :: k in g <==> 0 <= k < n) &&
    (forall k :: k in g ==> g[k].targets.Some? && g[k].targets.value <= g.Keys) &&
    (n == 1 ==> forall k :: k in g ==> g[k].targets.value != {})
  }

  /** Every weight is positive and every old weight non-negative. */
  ghost predicate Positive(g: Graph)
  {
    forall k :: k in g ==> g[k].weight > 0.0 && g[k].oldWeight >= 0.0
  }

  // ---------------------------------------------------------------------
  // Grouping

  lemma {:induction false} GroupAppend(a: seq<Message>, b: seq<Message>, d: int)
    ensures Group(a + b, d) == Group(a, d) + Group(b, d)
  {
    if b == [] {
      assert a + b == a;
    } else {
      var init := b[..|b| - 1];
      assert (a + b)[..|a + b| - 1] == a + init;
      assert (a + b)[|a + b| - 1] == b[|b| - 1];
      GroupAppend(a, init, d);
    }
  }

  /** The group of `d` holds exactly the payloads of the tuples sent to `d`. */
  lemma {:induction false} GroupMembers(ms: seq<Message>, d: int, v: Payload)
    ensures v in Group(ms, d) <==> Message(d, v) in ms
  {
    if ms != [] {
      var init := ms[..|ms| - 1];
      assert ms == init + [ms[|ms| - 1]];
      GroupMembers(init, d, v);
    }
  }

  lemma GroupOfOne(m: Message, d: int)
    ensures SumOf(Group([m], d), Contrib) == if m.dest == d then m.payload.weightContrib else 0.0
  {
    assert [m][..0] == [];
    assert Group([], d) == [];
    var g := Group([m], d);
    if m.dest == d {
      assert g == [m.payload];
      assert SumOf(g, Contrib) == SumOf([], Contrib) + Contrib(m.payload);
    } else {
      assert g == [];
    }
  }

  /** Equal shares to distinct destinations: the group of `d` receives one
      share if `d` is among them and nothing otherwise. */
  lemma {:induction false} SharesGroupSum(ds: seq<int>, a: real, d: int)
    requires Distinct(ds)
    ensures SumOf(Group(Shares(ds, a), d), Contrib) == if d in ds then a else 0.0
  {
    if ds == [] {
      assert Shares(ds, a) == [];
    } else {
      var init := ds[..|ds| - 1];
      var x := ds[|ds| - 1];
      assert ds == init + [x];
      var m := Message(x, Payload(0.0, a, None));
      SharesAppend(init, x, a);
      GroupAppend(Shares(init, a), [m], d);
      SumOfAppend(Group(Shares(init, a), d), Group([m], d), Contrib);
      GroupOfOne(m, d);
      SharesGroupSum(init, a, d);
      assert d in ds <==> d in init || d == x;
      assert x !in init;
    }
  }

  /** What one node's tuples add to the group of `d`: its retained part if
      it is `d` itself, plus its contribution to `d`. */
  lemma DistributeGroupSum(j: int, nd: Node, n: int, order: seq<int>, d: int)
    requires nd.targets.Some? && Enumerates(order, nd.targets.value)
    requires nd.targets.value == {} ==> n >= 2 && 0 <= j < n
    ensures Distribute(j, nd, n, order).Some?
    ensures SumOf(Group(Distribute(j, nd, n, order).value, d), Contrib) ==
      (if d == j then Retained(nd) else 0.0) + Contribution(j, nd, n, d)
  {
    var self := SelfMessage(j, nd);
    var ds: seq<int>;
    var a: real;
    if nd.targets.value != {} {
      ForwardCase(j, nd, n, order);
      ds, a := order, ForwardShare(nd);
      assert d in ds <==> d in nd.targets.value;
    } else {
      DanglingCase(j, nd, n, order);
      OtherIdsAscending(j, n);
      ds, a := OtherIds(j, n), DanglingShare(nd, n);
      assert d in ds <==> 0 <= d < n && d != j;
    }
    var p := Distribute(j, nd, n, order).value;
    assert p == [self] + Shares(ds, a);
    GroupAppend([self], Shares(ds, a), d);
    SumOfAppend(Group([self], d), Group(Shares(ds, a), d), Contrib);
    GroupOfOne(self, d);
    SharesGroupSum(ds, a, d);
  }

  // ---------------------------------------------------------------------
  // The emitted tuples

  /** Node `j` can be distributed and its tuples summed: it holds a
      frozenset, and if that is empty its id is in `0 .. n - 1` with
      `n >= 2`. */
  ghost predicate Emits(g: Graph, n: int, j: int)
    requires j in g
  {
    g[j].targets.Some? &&
    (g[j].targets.value == {} ==> n >= 2 && 0 <= j < n)
  }

  /** Emission succeeds unless some dangling node other than node 0 meets
      `num_nodes == 1`. */
  lemma {:induction false} EmitAllSome(g: Graph, n: int, ks: seq<int>)
    requires forall k :: k in ks ==> k in g
    ensures EmitAll(g, n, ks).Some? <==>
      forall k :: k in ks ==> !(g[k].targets == Some({}) && n == 1 && k != 0)
  {
    if ks != [] {
      var j := ks[|ks| - 1];
      var init := ks[..|ks| - 1];
      assert ks == init + [j];
      EmitAllSome(g, n, init);
      DistributeOutcome(j, g[j], n, TargetOrder(g[j]));
    }
  }

  /** Every tuple a node emits ends up in the emitted list. */
  lemma {:induction false} EmitAllContains(g: Graph, n: int, ks: seq<int>, j: int, m: Message)
    requires forall k :: k in ks ==> k in g
    requires EmitAll(g, n, ks).Some? && j in ks
    requires Distribute(j, g[j], n, TargetOrder(g[j])).Some?
    requires m in Distribute(j, g[j], n, TargetOrder(g[j])).value
    ensures m in EmitAll(g, n, ks).value
  {
    var last := ks[|ks| - 1];
    var init := ks[..|ks| - 1];
    assert ks == init + [last];
    if j != last {
      EmitAllContains(g, n, init, j, m);
    }
  }

  /** Only a node's own self tuple has a nonzero first component or a
      frozenset; every other tuple has `0.0` and `[]` there. */
  lemma {:induction false} EmitAllShape(g: Graph, n: int, ks: seq<int>)
    requires forall k :: k in ks ==> k in g
    requires EmitAll(g, n, ks).Some?
    ensures forall m :: m in EmitAll(g, n, ks).value ==>
      (m.dest in g && m == SelfMessage(m.dest, g[m.dest])) ||
      (m.payload.oldContrib == 0.0 && m.payload.carry.None?)
  {
    if ks != [] {
      var j := ks[|ks| - 1];
      var init := ks[..|ks| - 1];
      EmitAllShape(g, n, init);
      var order := TargetOrder(g[j]);
      var p := Distribute(j, g[j], n, order).value;
      DistributeOutcome(j, g[j], n, order);
      DistributeShape(j, g[j], n, order);
      forall m | m in p
        ensures (m.dest in g && m == SelfMessage(m.dest, g[m.dest])) ||
          (m.payload.oldContrib == 0.0 && m.payload.carry.None?)
      {
        var i :| 0 <= i < |p| && p[i] == m;
      }
    }
  }

  /** The tuples after the self tuple go to the destinations `ds`. */
  lemma DestsFromTail(p: seq<Message>, ds: seq<int>, allowed: set<int>)
    requires |p| > 0 && Destinations(p[1..]) == ds
    requires p[0].dest in allowed && forall x :: x in ds ==> x in allowed
    ensures forall m :: m in p ==> m.dest in allowed
  {
    forall m | m in p ensures m.dest in allowed {
      var i :| 0 <= i < |p| && p[i] == m;
      if i > 0 {
        assert p[1..][i - 1] == m;
        assert ds[i - 1] == m.dest;
      }
    }
  }

  /** In a closed graph every tuple is sent to a node. */
  lemma DistributeDests(g: Graph, n: int, j: int)
    requires Closed(g, n) && j in g
    requires Distribute(j, g[j], n, TargetOrder(g[j])).Some?
    ensures forall m :: m in Distribute(j, g[j], n, TargetOrder(g[j])).value ==> m.dest in g
  {
    var nd := g[j];
    var order := TargetOrder(nd);
    var p := Distribute(j, nd, n, order).value;
    DistributeOutcome(j, nd, n, order);
    if nd.targets.value != {} {
      DistributeForward(j, nd, n, order);
      DestsFromTail(p, order, g.Keys);
    } else {
      DistributeDangling(j, nd, n, order);
      DestsFromTail(p, OtherIds(j, n), g.Keys);
    }
  }

  lemma {:induction false} EmitAllDests(g: Graph, n: int, ks: seq<int>)
    requires Closed(g, n) && forall k :: k in ks ==> k in g
    requires EmitAll(g, n, ks).Some?
    ensures forall m :: m in EmitAll(g, n, ks).value ==> m.dest in g
  {
    if ks != [] {
      var j := ks[|ks| - 1];
      EmitAllDests(g, n, ks[..|ks| - 1]);
      DistributeDests(g, n, j);
    }
  }

  /** The group of `d` sums to `d`'s retained part (when `d` was visited)
      plus what the visited nodes pass to `d`. */
  lemma {:induction false} EmitAllGroupSum(g: Graph, n: int, ks: seq<int>, d: int)
    requires Distinct(ks) && forall k :: k in ks ==> k in g
    requires forall k :: k in ks ==> Emits(g, n, k)
    ensures EmitAll(g, n, ks).Some?
    ensures SumOf(Group(EmitAll(g, n, ks).value, d), Contrib) ==
      (if d in ks then Retained(g[d]) else 0.0) + IncomingFrom(g, n, ks, d)
  {
    if ks != [] {
      var j := ks[|ks| - 1];
      var init := ks[..|ks| - 1];
      assert ks == init + [j];
      DistinctInit(ks);
      EmitAllGroupSum(g, n, init, d);
      var front := EmitAll(g, n, init).value;
      DistributeGroupSum(j, g[j], n, TargetOrder(g[j]), d);
      var p := Distribute(j, g[j], n, TargetOrder(g[j])).value;
      GroupAppend(front, p, d);
      SumOfAppend(Group(front, d), Group(p, d), Contrib);
    }
  }

  /** What the visited nodes emit is worth `0.9` of their weights plus
      `0.1` of their old weights. */
  lemma {:induction false} EmitAllMass(g: Graph, n: int, ks: seq<int>)
    requires forall k :: k in ks ==> k in g
    requires forall k :: k in ks ==> Emits(g, n, k)
    ensures EmitAll(g, n, ks).Some?
    ensures SumOf(EmitAll(g, n, ks).value, MessageContrib) ==
      0.9 * WeightOf(g, ks) + 0.1 * OldWeightOf(g, ks)
  {
    if ks != [] {
      var j := ks[|ks| - 1];
      var init := ks[..|ks| - 1];
      EmitAllMass(g, n, init);
      var front := EmitAll(g, n, init).value;
      DistributeMass(j, g[j], n, TargetOrder(g[j]));
      var p := Distribute(j, g[j], n, TargetOrder(g[j])).value;
      SumOfAppend(front, p, MessageContrib);
    }
  }

  // ---------------------------------------------------------------------
  // Regrouping: grouping by recipient neither creates nor loses weight

  /** The total of the groups of the recipients `ds`. */
  function GroupTotal(ms: seq<Message>, ds: seq<int>): real
  {
    if ds == [] then 0.0
    else GroupTotal(ms, ds[..|ds| - 1]) + SumOf(Group(ms, ds[|ds| - 1]), Contrib)
  }

  lemma {:induction false} GroupTotalAppend(ms: seq<Message>, m: Message, ds: seq<int>)
    requires Distinct(ds)
    ensures GroupTotal(ms + [m], ds) ==
      GroupTotal(ms, ds) + (if m.dest in ds then MessageContrib(m) else 0.0)
  {
    if ds != [] {
      var x := ds[|ds| - 1];
      var init := ds[..|ds| - 1];
      assert ds == init + [x];
      assert x !in init;
      GroupTotalAppend(ms, m, init);
      GroupAppend(ms, [m], x);
      SumOfAppend(Group(ms, x), Group([m], x), Contrib);
      GroupOfOne(m, x);
    }
  }

  /** Over distinct recipients that cover every tuple, the groups add up
      to the whole emitted list. */
  lemma {:induction false} Regroup(ms: seq<Message>, ds: seq<int>)
    requires Distinct(ds) && forall m :: m in ms ==> m.dest in ds
    ensures GroupTotal(ms, ds) == SumOf(ms, MessageContrib)
  {
    if ms == [] {
      EmptyGroups(ds);
    } else {
      var init := ms[..|ms| - 1];
      var m := ms[|ms| - 1];
      assert ms == init + [m];
      Regroup(init, ds);
      GroupTotalAppend(init, m, ds);
    }
  }

  lemma {:induction false} EmptyGroups(ds: seq<int>)
    ensures GroupTotal([], ds) == 0.0
  {
    if ds != [] {
      EmptyGroups(ds[..|ds| - 1]);
    }
  }

  // ---------------------------------------------------------------------
  // One round

  /** Every node's self tuple is among the emitted tuples. */
  lemma EmitAllSelf(g: Graph, n: int, ks: seq<int>, j: int)
    requires forall k :: k in ks ==> k in g
    requires EmitAll(g, n, ks).Some? && j in ks
    ensures SelfMessage(j, g[j]) in EmitAll(g, n, ks).value
  {
    EmitAllSome(g, n, ks);
    DistributeOutcome(j, g[j], n, TargetOrder(g[j]));
    EmitAllContains(g, n, ks, j, SelfMessage(j, g[j]));
  }

  /** A group that receives its node's self tuple, and otherwise only
      tuples with `0.0` and `[]` in front, collects to that node's weight as
      the old weight, its targets, and the group's sum as the new weight. */
  lemma GroupSource(g: Graph, ms: seq<Message>, d: int)
    requires d in g && g[d].weight != 0.0
    requires SelfMessage(d, g[d]) in ms
    requires forall m :: m in ms ==>
      (m.dest in g && m == SelfMessage(m.dest, g[m.dest])) ||
      (m.payload.oldContrib == 0.0 && m.payload.carry.None?)
    ensures Collect(Group(ms, d)) == Some(Node(g[d].weight, SumOf(Group(ms, d), Contrib), g[d].targets))
  {
    var self := SelfMessage(d, g[d]).payload;
    GroupMembers(ms, d, self);
    forall v | v in Group(ms, d) && v != self
      ensures v.oldContrib == 0.0 && v.carry.None?
    {
      GroupMembers(ms, d, v);
      assert Message(d, v) in ms;
    }
    CollectSingleSource(Group(ms, d), self);
  }

  /** In a closed graph every node can be distributed and its tuples
      summed. */
  lemma ClosedEmits(g: Graph, n: int)
    requires Closed(g, n)
    ensures forall k :: k in g ==> Emits(g, n, k)
  {
  }

  /** Collecting groups that all succeed gives one node per recipient. */
  lemma CollectAllSucceeds(ms: seq<Message>)
    requires forall d :: d in Recipients(ms) ==> Collect(Group(ms, d)).Some?
    ensures CollectAll(ms).Some?
    ensures CollectAll(ms).value.Keys == Recipients(ms)
    ensures forall d :: d in Recipients(ms) ==> CollectAll(ms).value[d] == Collect(Group(ms, d)).value
  {
  }

  /** One group that fails makes the whole collect phase fail. */
  lemma CollectAllFails(ms: seq<Message>, m: Message)
    requires m in ms && Collect(Group(ms, m.dest)).None?
    ensures CollectAll(ms).None?
  {
    assert m.dest in Recipients(ms);
  }

  lemma RecipientsAreNodes(g: Graph, ms: seq<Message>)
    requires forall m :: m in ms ==> m.dest in g
    requires forall d :: d in g ==> SelfMessage(d, g[d]) in ms
    ensures Recipients(ms) == g.Keys
  {
    forall d | d in g ensures d in Recipients(ms) {
      assert SelfMessage(d, g[d]) in ms;
    }
  }

  /** In a closed graph with positive weights every node receives its own
      self tuple and every tuple is addressed to a node. */
  lemma EmittedToNodes(g: Graph, n: int)
    requires Closed(g, n) && Positive(g)
    ensures EmitAll(g, n, Enumerate(g.Keys)).Some?
    ensures var ms := EmitAll(g, n, Enumerate(g.Keys)).value;
      Recipients(ms) == g.Keys &&
      forall d :: d in g ==>
        Collect(Group(ms, d)) == Some(Node(g[d].weight, SumOf(Group(ms, d), Contrib), g[d].targets))
  {
    var ks := Enumerate(g.Keys);
    ClosedEmits(g, n);
    EmitAllMass(g, n, ks);
    var ms := EmitAll(g, n, ks).value;
    EmitAllShape(g, n, ks);
    EmitAllDests(g, n, ks);
    forall d | d in g
      ensures SelfMessage(d, g[d]) in ms
      ensures Collect(Group(ms, d)) == Some(Node(g[d].weight, SumOf(Group(ms, d), Contrib), g[d].targets))
    {
      EmitAllSelf(g, n, ks, d);
      GroupSource(g, ms, d);
    }
    RecipientsAreNodes(g, ms);
  }

  /** In a closed graph with positive weights a round succeeds, keeps
      every node and its targets, turns each weight into the old weight,
      and makes the sum of each node's group its new weight. */
  lemma UpdateWeightsByGroups(g: Graph, n: int)
    requires Closed(g, n) && Positive(g)
    ensures EmitAll(g, n, Enumerate(g.Keys)).Some?
    ensures UpdateWeights(g, n).Some?
    ensures var ms := EmitAll(g, n, Enumerate(g.Keys)).value;
      var g' := UpdateWeights(g, n).value;
      g'.Keys == g.Keys &&
      forall d :: d in g ==> g'[d] == Node(g[d].weight, SumOf(Group(ms, d), Contrib), g[d].targets)
  {
    EmittedToNodes(g, n);
    CollectAllSucceeds(EmitAll(g, n, Enumerate(g.Keys)).value);
  }

  /** The update rule of one round, as the tuples carry it out: in a
      closed graph with positive weights every node survives with its
      targets, its weight becomes its old weight, and its new weight is
      `0.05*weight + 0.1*old_weight` plus what the nodes pass to it (itself included, through a
      self-loop). */
  lemma UpdateWeightsRule(g: Graph, n: int)
    requires Closed(g, n) && Positive(g)
    ensures UpdateWeights(g, n).Some?
    ensures var g' := UpdateWeights(g, n).value;
      g'.Keys == g.Keys &&
      forall d :: d in g ==>
        g'[d] == Node(g[d].weight, Retained(g[d]) + Incoming(g, n, d), g[d].targets)
  {
    var ks := Enumerate(g.Keys);
    UpdateWeightsByGroups(g, n);
    ClosedEmits(g, n);
    forall d | d in g
      ensures SumOf(Group(EmitAll(g, n, ks).value, d), Contrib) == Retained(g[d]) + Incoming(g, n, d)
    {
      EmitAllGroupSum(g, n, ks, d);
    }
  }

  lemma ContributionNonNegative(j: int, nd: Node, n: int, d: int)
    requires nd.weight >= 0.0
    ensures Contribution(j, nd, n, d) >= 0.0
  {
    if nd.targets.Some? {
      var ts := nd.targets.value;
      if |ts| != 0 && d in ts {
        assert 0.85 / (|ts| as real) > 0.0;
      } else if |ts| == 0 && n != 1 && 0 <= d < n && d != j {
        assert 0.85 / ((n - 1) as real) > 0.0;
      }
    }
  }

  lemma {:induction false} IncomingNonNegative(g: Graph, n: int, ks: seq<int>, d: int)
    requires forall k :: k in ks ==> k in g && g[k].weight >= 0.0
    ensures IncomingFrom(g, n, ks, d) >= 0.0
  {
    if ks != [] {
      var k := ks[|ks| - 1];
      IncomingNonNegative(g, n, ks[..|ks| - 1], d);
      ContributionNonNegative(k, g[k], n, d);
    }
  }

  /** A round keeps a graph closed and its weights positive: each new
      weight is at least `0.05` of the old one. */
  lemma UpdateWeightsPreserves(g: Graph, n: int)
    requires Closed(g, n) && Positive(g)
    ensures UpdateWeights(g, n).Some?
    ensures Closed(UpdateWeights(g, n).value, n) && Positive(UpdateWeights(g, n).value)
  {
    UpdateWeightsRule(g, n);
    var g' := UpdateWeights(g, n).value;
    forall d | d in g ensures g'[d].weight > 0.0 {
      IncomingNonNegative(g, n, Enumerate(g.Keys), d);
    }
  }

  lemma {:induction false} WeightIsGroupTotal(g: Graph, ms: seq<Message>, ks: seq<int>)
    requires forall k :: k in ks ==> k in g && g[k].weight == SumOf(Group(ms, k), Contrib)
    ensures WeightOf(g, ks) == GroupTotal(ms, ks)
  {
    if ks != [] {
      WeightIsGroupTotal(g, ms, ks[..|ks| - 1]);
    }
  }

  lemma {:induction false} OldWeightIsWeight(g: Graph, g': Graph, ks: seq<int>)
    requires forall k :: k in ks ==> k in g && k in g' && g'[k].oldWeight == g[k].weight
    ensures OldWeightOf(g', ks) == WeightOf(g, ks)
  {
    if ks != [] {
      OldWeightIsWeight(g, g', ks[..|ks| - 1]);
    }
  }

  /** A round moves every weight into the old weight and makes the total
      weight `0.9` of the previous total weight plus `0.1` of the previous
      total old weight: `0.05 + 0.85` of each weight is passed on or kept,
      and `0.1` of each old weight is handed back. */
  lemma UpdateWeightsMass(g: Graph, n: int)
    requires Closed(g, n) && Positive(g)
    ensures UpdateWeights(g, n).Some?
    ensures var g' := UpdateWeights(g, n).value;
      TotalWeight(g') == 0.9 * TotalWeight(g) + 0.1 * TotalOldWeight(g) &&
      TotalOldWeight(g') == TotalWeight(g)
  {
    var ks := Enumerate(g.Keys);
    UpdateWeightsByGroups(g, n);
    var ms := EmitAll(g, n, ks).value;
    var g' := UpdateWeights(g, n).value;
    assert g'.Keys == g.Keys;
    WeightIsGroupTotal(g', ms, ks);
    EmitAllDests(g, n, ks);
    Regroup(ms, ks);
    ClosedEmits(g, n);
    EmitAllMass(g, n, ks);
    OldWeightIsWeight(g, g', ks);
  }

  /** Starting from equal total weight and total old weight `c`, every
      round succeeds, every node keeps the targets it started with, and
      both totals stay `c`: the computation neither creates nor loses
      weight. */
  lemma {:induction false} RoundsConserve(g: Graph, n: int, rounds: nat, c: real)
    requires Closed(g, n) && Positive(g)
    requires TotalWeight(g) == c && TotalOldWeight(g) == c
    ensures Iterate(g, n, rounds).Some?
    ensures var h := Iterate(g, n, rounds).value;
      Closed(h, n) && Positive(h) && h.Keys == g.Keys &&
      (forall k :: k in g ==> h[k].targets == g[k].targets) &&
      TotalWeight(h) == c && TotalOldWeight(h) == c
    decreases rounds
  {
    if rounds > 0 {
      UpdateWeightsPreserves(g, n);
      UpdateWeightsMass(g, n);
      UpdateWeightsRule(g, n);
      RoundsConserve(UpdateWeights(g, n).value, n, rounds - 1, c);
    }
  }
}
