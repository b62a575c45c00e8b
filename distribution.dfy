/** `distribute_weights`, the map phase of one round: a node sends itself a
    tuple carrying its weight, its back-edge retention term and its targets,
    then shares 0.85 of its weight among its targets, or, when it has none,
    among every other id in `0 .. num_nodes - 1`. */
module Distribution {
  import opened Wrappers
  import opened Sequences
  import opened Records

  /** The target set of a node; the `[]` placeholder has no targets. */
  function TargetSet(nd: Node): set<int>
  {
    match nd.targets
    case None => {}
    case Some(ts) => ts
  }

  /** The self tuple `(node, (weight, 0.05*weight + old_weight*0.1, targets))`. */
  function SelfMessage(node: int, nd: Node): Message
  {
    Message(node, Payload(nd.weight, 0.05 * nd.weight + nd.oldWeight * 0.1, nd.targets))
  }

  /** The tuples `(d, (0.0, amount, []))`, one per destination, in order. */
  function Shares(dests: seq<int>, amount: real): (r: seq<Message>)
    ensures |r| == |dests|
    ensures forall j :: 0 <= j < |r| ==> r[j] == Message(dests[j], Payload(0.0, amount, None))
  {
    if dests == [] then []
    else Shares(dests[..|dests| - 1], amount) + [Message(dests[|dests| - 1], Payload(0.0, amount, None))]
  }

  lemma SharesAppend(dests: seq<int>, d: int, amount: real)
    ensures Shares(dests + [d], amount) == Shares(dests, amount) + [Message(d, Payload(0.0, amount, None))]
  {
    assert (dests + [d])[..|dests|] == dests;
  }

  /** The ids `i` in `range(0, n)` with `i != node`, ascending: exactly the
      other ids, `n - 1` of them when `node` is itself in range. */
  function OtherIds(node: int, n: int): (r: seq<int>)
    ensures forall i :: i in r <==> 0 <= i < n && i != node
    ensures |r| == if n <= 0 then 0 else if 0 <= node < n then n - 1 else n
  {
    if n <= 0 then []
    else OtherIds(node, n - 1) + (if n - 1 != node then [n - 1] else [])
  }

  /** `range(0, num_nodes)` is visited in ascending order, so the other ids
      come out ascending and each once. */
  lemma {:induction false} OtherIdsAscending(node: int, n: int)
    ensures var r := OtherIds(node, n);
      (forall a, b :: 0 <= a < b < |r| ==> r[a] < r[b]) && Distinct(r)
  {
    if n > 0 {
      var lower := OtherIds(node, n - 1);
      OtherIdsAscending(node, n - 1);
      forall a | 0 <= a < |lower| ensures lower[a] < n - 1 {
        assert lower[a] in lower;
      }
    }
  }

  /** `(0.85/num) * weight`: the share of each of a node's `num` targets. */
  function ForwardShare(nd: Node): real
    requires nd.targets.Some? && |nd.targets.value| != 0
  {
    (0.85 / (|nd.targets.value| as real)) * nd.weight
  }

  /** `(0.85/(num_nodes-1)) * weight`: the share of each other id when the
      node is dangling. */
  function DanglingShare(nd: Node, numNodes: int): real
    requires numNodes != 1
  {
    (0.85 / ((numNodes - 1) as real)) * nd.weight
  }

  /** `distribute_weights` for the node `node` with value `nd`, where `order`
      is the order in which the frozenset of targets is iterated. None is the
      ZeroDivisionError of a dangling node when `num_nodes == 1`. */
  function Distribute(node: int, nd: Node, numNodes: int, order: seq<int>): (r: Option<seq<Message>>)
  {
    var self := SelfMessage(node, nd);
    if nd.targets.None? then Some([self])
    else
      var ts := nd.targets.value;
      if |ts| != 0 then
        Some([self] + Shares(order, ForwardShare(nd)))
      else if numNodes == 1 then
        if OtherIds(node, numNodes) == [] then Some([self]) else None
      else
        Some([self] + Shares(OtherIds(node, numNodes), DanglingShare(nd, numNodes)))
  }

  /** `distribute_weights` fails only with the ZeroDivisionError of a
      dangling node that is not node 0 when `num_nodes == 1`; otherwise its
      list starts with the self tuple. */
  lemma DistributeOutcome(node: int, nd: Node, numNodes: int, order: seq<int>)
    ensures var r := Distribute(node, nd, numNodes, order);
      (r.None? <==> nd.targets == Some({}) && numNodes == 1 && node != 0) &&
      (r.Some? ==> |r.value| > 0 && r.value[0] == SelfMessage(node, nd))
  {
    if nd.targets == Some({}) && numNodes == 1 {
      if node != 0 {
        assert 0 in OtherIds(node, numNodes);
      } else {
        assert |OtherIds(node, numNodes)| == 0;
      }
    }
  }

  lemma ForwardCase(node: int, nd: Node, numNodes: int, order: seq<int>)
    requires nd.targets.Some? && |nd.targets.value| != 0
    ensures Distribute(node, nd, numNodes, order) ==
      Some([SelfMessage(node, nd)] + Shares(order, ForwardShare(nd)))
  {
    var p := Distribute(node, nd, numNodes, order).value;
    var q := [SelfMessage(node, nd)] + Shares(order, ForwardShare(nd));
    assert forall i :: 0 <= i < |q| ==> p[i] == q[i];
  }

  lemma DanglingCase(node: int, nd: Node, numNodes: int, order: seq<int>)
    requires nd.targets == Some({}) && numNodes != 1
    ensures Distribute(node, nd, numNodes, order) ==
      Some([SelfMessage(node, nd)] + Shares(OtherIds(node, numNodes), DanglingShare(nd, numNodes)))
  {
    var p := Distribute(node, nd, numNodes, order).value;
    var q := [SelfMessage(node, nd)] + Shares(OtherIds(node, numNodes), DanglingShare(nd, numNodes));
    assert forall i :: 0 <= i < |q| ==> p[i] == q[i];
  }

  /** The list the dangling loop of `distribute_weights` has built once it
      has visited all of `range(0, num_nodes)` without failing. */
  lemma DanglingResult(node: int, nd: Node, numNodes: int, order: seq<int>, i: int, p: seq<Message>)
    requires nd.targets == Some({})
    requires 0 <= i && (i <= numNodes || i == 0) && i >= numNodes
    requires numNodes == 1 ==> node == 0 && p == [SelfMessage(node, nd)]
    requires numNodes != 1 ==> p == [SelfMessage(node, nd)] + Shares(OtherIds(node, i), DanglingShare(nd, numNodes))
    ensures Some(p) == Distribute(node, nd, numNodes, order)
  {
    if numNodes <= 0 {
      assert OtherIds(node, i) == [];
    } else {
      assert i == numNodes;
    }
    if numNodes != 1 {
      DanglingCase(node, nd, numNodes, order);
    } else {
      assert OtherIds(node, 1) == [];
    }
  }

  /** Every tuple after the self tuple carries no old weight (`0.0`) and no
      frozenset (the `[]` placeholder), so the self tuple is the only one
      that can supply `old_weight` and `targets` to the collect phase. */
  lemma DistributeShape(node: int, nd: Node, numNodes: int, order: seq<int>)
    requires Distribute(node, nd, numNodes, order).Some?
    ensures var p := Distribute(node, nd, numNodes, order).value;
      forall j :: 1 <= j < |p| ==> p[j].payload.oldContrib == 0.0 && p[j].payload.carry == None
  {
    var p := Distribute(node, nd, numNodes, order).value;
    var self := SelfMessage(node, nd);
    if nd.targets.Some? && |nd.targets.value| != 0 {
      ForwardCase(node, nd, numNodes, order);
    } else if nd.targets.Some? && numNodes != 1 {
      DanglingCase(node, nd, numNodes, order);
    } else {
      assert p == [self];
    }
  }

  /** The sum of equal shares is their number times the share. */
  lemma SharesTotal(dests: seq<int>, amount: real)
    ensures SumOf(Shares(dests, amount), MessageContrib) == (|dests| as real) * amount
  {
    var s := Shares(dests, amount);
    forall m | m in s
      ensures MessageContrib(m) == amount
    {
      var j :| 0 <= j < |s| && s[j] == m;
    }
    SumOfConstant(s, MessageContrib, amount);
  }

  lemma SplitEvenly(count: real, w: real, amount: real)
    requires count != 0.0 && amount == (0.85 / count) * w
    ensures count * amount == 0.85 * w
  {
    assert count * (0.85 / count) == 0.85;
    assert count * ((0.85 / count) * w) == (count * (0.85 / count)) * w;
  }

  /** `k` equal shares of `0.85/k` of a weight add up to `0.85` of it. */
  lemma SharesSplitWeight(dests: seq<int>, count: nat, w: real, amount: real)
    requires |dests| == count > 0 && amount == (0.85 / (count as real)) * w
    ensures SumOf(Shares(dests, amount), MessageContrib) == 0.85 * w
  {
    SharesTotal(dests, amount);
    SplitEvenly(count as real, w, amount);
  }

  /** A node with `k > 0` targets sends, after its self tuple, one tuple
      to each target in the frozenset's iteration order, so exactly one per
      target and none elsewhere; each is worth `0.85/k` of its weight and
      carries nothing else, so together they are worth `0.85*weight`. */
  lemma DistributeForward(node: int, nd: Node, numNodes: int, order: seq<int>)
    requires nd.targets.Some? && |nd.targets.value| > 0
    requires Enumerates(order, nd.targets.value)
    ensures Distribute(node, nd, numNodes, order).Some?
    ensures var p := Distribute(node, nd, numNodes, order).value;
      var k := |nd.targets.value|;
      |p| == 1 + k &&
      (forall j :: 1 <= j < |p| ==> p[j].payload == Payload(0.0, ForwardShare(nd), None)) &&
      Destinations(p[1..]) == order &&
      SumOf(p[1..], MessageContrib) == 0.85 * nd.weight
  {
    var k := |nd.targets.value|;
    var fwd := Shares(order, ForwardShare(nd));
    EnumerationLength(order, nd.targets.value);
    ForwardCase(node, nd, numNodes, order);
    DropFirst(SelfMessage(node, nd), fwd);
    var p := Distribute(node, nd, numNodes, order).value;
    assert p[1..] == fwd;
    assert Destinations(fwd) == order;
    assert |order| == k;
    SharesSplitWeight(order, k, nd.weight, ForwardShare(nd));
    assert SumOf(fwd, MessageContrib) == 0.85 * nd.weight;
  }

  /** A dangling node whose id is in `0 .. num_nodes - 1` (with
      `num_nodes >= 2`) sends, after its self tuple, one tuple to each other
      id in ascending order and none to itself, each worth
      `0.85/(num_nodes-1)` of its weight; together they are worth
      `0.85*weight`. */
  lemma DistributeDangling(node: int, nd: Node, numNodes: int, order: seq<int>)
    requires nd.targets == Some({})
    requires numNodes >= 2 && 0 <= node < numNodes
    ensures Distribute(node, nd, numNodes, order).Some?
    ensures var p := Distribute(node, nd, numNodes, order).value;
      |p| == numNodes &&
      (forall j :: 1 <= j < |p| ==> p[j].payload == Payload(0.0, DanglingShare(nd, numNodes), None)) &&
      Destinations(p[1..]) == OtherIds(node, numNodes) &&
      SumOf(p[1..], MessageContrib) == 0.85 * nd.weight
  {
    var others := OtherIds(node, numNodes);
    DanglingCase(node, nd, numNodes, order);
    AfterSelf(SelfMessage(node, nd), others, DanglingShare(nd, numNodes));
    DanglingSharesSum(node, nd, numNodes);
  }

  /** Dropping the self tuple from the list leaves the shares. */
  lemma AfterSelf(self: Message, dests: seq<int>, amount: real)
    ensures var p := [self] + Shares(dests, amount);
      |p| == 1 + |dests| &&
      p[1..] == Shares(dests, amount) &&
      (forall j :: 1 <= j < |p| ==> p[j].payload == Payload(0.0, amount, None)) &&
      Destinations(p[1..]) == dests
  {
    DropFirst(self, Shares(dests, amount));
    assert Destinations(Shares(dests, amount)) == dests;
  }

  /** The shares of a dangling node's other ids add up to `0.85*weight`. */
  lemma DanglingSharesSum(node: int, nd: Node, numNodes: int)
    requires numNodes >= 2 && 0 <= node < numNodes
    ensures SumOf(Shares(OtherIds(node, numNodes), DanglingShare(nd, numNodes)), MessageContrib) == 0.85 * nd.weight
  {
    var others := OtherIds(node, numNodes);
    assert |others| == numNodes - 1;
    SharesSplitWeight(others, numNodes - 1, nd.weight, DanglingShare(nd, numNodes));
  }

  /** A dangling node in a graph of at least two ids sends its share to
      every other id in `0 .. num_nodes - 1`. */
  lemma DanglingSendsTo(node: int, nd: Node, numNodes: int, order: seq<int>, d: int)
    requires nd.targets == Some({}) && numNodes >= 2
    requires 0 <= d < numNodes && d != node
    ensures Distribute(node, nd, numNodes, order).Some?
    ensures Message(d, Payload(0.0, DanglingShare(nd, numNodes), None)) in Distribute(node, nd, numNodes, order).value
  {
    DanglingCase(node, nd, numNodes, order);
    var others := OtherIds(node, numNodes);
    assert d in others;
    var i :| 0 <= i < |others| && others[i] == d;
    var p := Distribute(node, nd, numNodes, order).value;
    assert p[i + 1] == Shares(others, DanglingShare(nd, numNodes))[i];
  }

  /** What a node emits in one round is worth `0.9*weight + 0.1*old_weight`
      in total: `0.05*weight + 0.1*old_weight` kept by the self tuple and
      `0.85*weight` sent on. This needs targets enumerated in full and, for
      a dangling node, an id in `0 .. num_nodes - 1` with `num_nodes >= 2`. */
  lemma DistributeMass(node: int, nd: Node, numNodes: int, order: seq<int>)
    requires nd.targets.Some?
    requires Enumerates(order, nd.targets.value)
    requires nd.targets.value == {} ==> numNodes >= 2 && 0 <= node < numNodes
    ensures Distribute(node, nd, numNodes, order).Some?
    ensures SumOf(Distribute(node, nd, numNodes, order).value, MessageContrib) ==
      0.9 * nd.weight + 0.1 * nd.oldWeight
  {
    var p := Distribute(node, nd, numNodes, order).value;
    if nd.targets.value == {} {
      DistributeDangling(node, nd, numNodes, order);
    } else {
      DistributeForward(node, nd, numNodes, order);
    }
    assert p == [p[0]] + p[1..];
    SumOfAppend([p[0]], p[1..], MessageContrib);
    assert SumOf([p[0]], MessageContrib) == SumOf([], MessageContrib) + MessageContrib(p[0]);
  }

  /** One pass of the loop over the targets: appending the share for the
      next target `t` keeps the list equal to the self tuple followed by the
      shares of the targets visited so far, in visiting order. */
  lemma ForwardStep(node: int, nd: Node, ts: set<int>, rest: set<int>, order: seq<int>, p: seq<Message>, t: int, k: real)
    requires nd.targets == Some(ts) && |ts| != 0
    requires rest <= ts && t in rest
    requires Enumerates(order, ts - rest)
    requires p == [SelfMessage(node, nd)] + Shares(order, ForwardShare(nd))
    requires k == (0.85 / (|ts| as real)) * nd.weight
    ensures Enumerates(order + [t], ts - (rest - {t}))
    ensures p + [Message(t, Payload(0.0, k, None))] == [SelfMessage(node, nd)] + Shares(order + [t], ForwardShare(nd))
  {
    assert k == ForwardShare(nd);
    SharesAppend(order, t, k);
    EnumeratesAppend(order, ts - rest, t);
    assert ts - (rest - {t}) == (ts - rest) + {t};
  }

  /** One pass of the loop over `range(0, num_nodes)` of a dangling node
      with `num_nodes != 1`: id `i` gets a share unless it is the node. */
  lemma DanglingStep(node: int, nd: Node, numNodes: int, i: int, p: seq<Message>, k: real)
    requires numNodes != 1 && 0 <= i
    requires p == [SelfMessage(node, nd)] + Shares(OtherIds(node, i), DanglingShare(nd, numNodes))
    requires i != node ==> k == (0.85 / ((numNodes - 1) as real)) * nd.weight
    ensures var q := if i != node then p + [Message(i, Payload(0.0, k, None))] else p;
      q == [SelfMessage(node, nd)] + Shares(OtherIds(node, i + 1), DanglingShare(nd, numNodes))
  {
    var lower := OtherIds(node, i);
    var amount := DanglingShare(nd, numNodes);
    OtherIdsStep(node, i);
    if i != node {
      assert k == amount;
      SharesAppend(lower, i, amount);
    }
  }

  lemma OtherIdsStep(node: int, i: int)
    requires 0 <= i
    ensures OtherIds(node, i + 1) == OtherIds(node, i) + (if i != node then [i] else [])
  {
  }

  /** The loop of `distribute_weights`: the list `p` is built by appending
      the self tuple, then one tuple per target as the frozenset is iterated,
      or one per other id in `range(0, num_nodes)`. `order` records the
      iteration order of the targets. */
  method DistributeWeights(node: int, nd: Node, numNodes: int) returns (r: Option<seq<Message>>, ghost order: seq<int>)
    ensures Enumerates(order, TargetSet(nd))
    ensures r == Distribute(node, nd, numNodes, order)
    ensures r.None? <==> nd.targets == Some({}) && numNodes == 1 && node != 0
    ensures r.Some? ==> |r.value| > 0 && r.value[0] == SelfMessage(node, nd)
  {
    order := [];
    var p := [SelfMessage(node, nd)];
    if nd.targets.None? {
      DistributeOutcome(node, nd, numNodes, order);
      return Some(p), order;
    }
    var ts := nd.targets.value;
    var num := |ts|;
    if num != 0 {
      var rest := ts;
      while rest != {}
        invariant rest <= ts
        invariant Enumerates(order, ts - rest)
        invariant p == [SelfMessage(node, nd)] + Shares(order, ForwardShare(nd))
        decreases rest
      {
        NonEmptyHasElement(rest);
        var t :| t in rest;
        var k := (0.85 / (num as real)) * nd.weight;
        ForwardStep(node, nd, ts, rest, order, p, t, k);
        p := p + [Message(t, Payload(0.0, k, None))];
        order := order + [t];
        rest := rest - {t};
      }
      assert ts - rest == ts;
      ForwardCase(node, nd, numNodes, order);
    } else {
      var i := 0;
      while i < numNodes
        invariant 0 <= i && (i <= numNodes || i == 0)
        invariant numNodes != 1 ==>
          p == [SelfMessage(node, nd)] + Shares(OtherIds(node, i), DanglingShare(nd, numNodes))
        invariant numNodes == 1 ==> p == [SelfMessage(node, nd)] && (i == 0 || node == 0)
      {
        if i != node {
          if numNodes - 1 == 0 {
            DistributeOutcome(node, nd, numNodes, order);
            return None, order;
          }
          var k := (0.85 / ((numNodes - 1) as real)) * nd.weight;
          DanglingStep(node, nd, numNodes, i, p, k);
          p := p + [Message(i, Payload(0.0, k, None))];
        } else if numNodes != 1 {
          DanglingStep(node, nd, numNodes, i, p, 0.0);
        }
        i := i + 1;
      }
      DanglingResult(node, nd, numNodes, order, i, p);
    }
    r := Some(p);
    DistributeOutcome(node, nd, numNodes, order);
  }
}
