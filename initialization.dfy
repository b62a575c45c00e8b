/** `initialize_nodes`: edge lines become provisional `(node, targets)`
    records (`emit_edges`), records of one node are merged by set union
    (`reduce_edges` under `reduceByKey`), and every node is seeded with
    weights 1.0 (`initialize_weights`). */
module Initialization {
  import opened Wrappers
  import opened LineParsing
  import opened Records

  /** One provisional record `(node, frozenset_of_targets)`. */
  datatype Entry = Entry(id: int, targets: set<int>)

  /** Empty lines and comment lines are ignored. */
  predicate IsSkipped(line: string)
  {
    |line| == 0 || line[0] == '#'
  }

  /** A line that is neither ignored nor two integers: reading it raises. */
  predicate IsMalformed(line: string)
  {
    !IsSkipped(line) && ParseEdge(line).None?
  }

  /** The edge a line contributes, if any. */
  function EdgeOf(line: string): Option<(int, int)>
  {
    if IsSkipped(line) then None else ParseEdge(line)
  }

  /** The three provisional records of the edge `source -> target`. */
  function EdgeEntries(edge: (int, int)): seq<Entry>
  {
    [Entry(edge.0, {edge.1}), Entry(edge.0, {}), Entry(edge.1, {})]
  }

  /** `emit_edges`: nothing for an ignored line, the edge record plus an
      empty-target record for each endpoint for an edge line, and a failure
      (None) for any other line. */
  function EmitEdges(line: string): (r: Option<seq<Entry>>)
    ensures IsSkipped(line) ==> r == Some([])
    ensures r.None? <==> IsMalformed(line)
    ensures !IsSkipped(line) && r.Some? ==>
      |r.value| == 3 &&
      r.value[0] == Entry(r.value[1].id, {r.value[2].id}) &&
      r.value[1].targets == {} && r.value[2].targets == {} &&
      ParseEdge(line) == Some((r.value[1].id, r.value[2].id))
  {
    if IsSkipped(line) then Some([])
    else
      match ParseEdge(line)
      case None => None
      case Some(edge) => Some(EdgeEntries(edge))
  }

  /** The line `"<source> <target>"` emits exactly the edge record and the
      two endpoint records. */
  lemma EmitEdgesOfEdgeLine(source: int, target: int)
    ensures EmitEdges(ShowInt(source) + " " + ShowInt(target)) ==
      Some([Entry(source, {target}), Entry(source, {}), Entry(target, {})])
  {
    ParseEdgeLine(source, target);
    ParseShowInt(source);
    var line := ShowInt(source) + " " + ShowInt(target);
    assert line[0] == ShowInt(source)[0];
    assert !IsSkipped(line);
  }

  /** `reduce_edges`: the union of two target sets. */
  function ReduceEdges(e1: set<int>, e2: set<int>): (u: set<int>)
    ensures forall t :: t in u <==> t in e1 || t in e2
  {
    e1 + e2
  }

  /** Union is commutative, associative and idempotent, so the merged target
      set of a node does not depend on the order in which records meet. */
  lemma ReduceEdgesLaws(a: set<int>, b: set<int>, c: set<int>)
    ensures ReduceEdges(a, b) == ReduceEdges(b, a)
    ensures ReduceEdges(ReduceEdges(a, b), c) == ReduceEdges(a, ReduceEdges(b, c))
    ensures ReduceEdges(a, a) == a
  {
  }

  /** `reduceByKey(reduce_edges)`, folding the records in stream order: one
      key per node id mentioned, holding the union of that id's target sets. */
  function ReduceByKey(es: seq<Entry>): (r: map<int, set<int>>)
    ensures forall k :: k in r <==> exists e :: e in es && e.id == k
    ensures forall k, t :: k in r ==> (t in r[k] <==> exists e :: e in es && e.id == k && t in e.targets)
  {
    if es == [] then map[]
    else
      var m := ReduceByKey(es[..|es| - 1]);
      var e := es[|es| - 1];
      assert es == es[..|es| - 1] + [e];
      m[e.id := if e.id in m then ReduceEdges(m[e.id], e.targets) else e.targets]
  }

  /** The merge depends only on which records occur: reordering or repeating
      records gives the same result. */
  lemma ReduceByKeyOrderFree(a: seq<Entry>, b: seq<Entry>)
    requires forall e :: e in a <==> e in b
    ensures ReduceByKey(a) == ReduceByKey(b)
  {
    var ra, rb := ReduceByKey(a), ReduceByKey(b);
    assert ra.Keys == rb.Keys;
    forall k | k in ra ensures ra[k] == rb[k] {
      assert forall t :: t in ra[k] <==> t in rb[k];
    }
  }

  /** `initialize_weights`: every node starts at `(1.0, 1.0, targets)`. */
  function InitializeWeights(m: map<int, set<int>>): (g: Graph)
    ensures g.Keys == m.Keys
    ensures forall k :: k in g ==> g[k] == Node(1.0, 1.0, Some(m[k]))
  {
    map k | k in m :: Node(1.0, 1.0, Some(m[k]))
  }

  /** `flatMap(emit_edges)` over the lines; one failing line fails the job. */
  function FlatMapLines(lines: seq<string>): Option<seq<Entry>>
  {
    if lines == [] then Some([])
    else
      match FlatMapLines(lines[..|lines| - 1])
      case None => None
      case Some(es) =>
        match EmitEdges(lines[|lines| - 1])
        case None => None
        case Some(more) => Some(es + more)
  }

  /** `initialize_nodes`: the whole pipeline over the input lines. */
  function InitializeNodes(lines: seq<string>): Option<Graph>
  {
    match FlatMapLines(lines)
    case None => None
    case Some(es) => Some(InitializeWeights(ReduceByKey(es)))
  }

  /** The edges of the input, in line order. */
  function EdgeList(lines: seq<string>): seq<(int, int)>
  {
    if lines == [] then []
    else
      EdgeList(lines[..|lines| - 1]) +
      match EdgeOf(lines[|lines| - 1]) case None => [] case Some(edge) => [edge]
  }

  /** The provisional records of a list of edges, in order. */
  function Provisional(edges: seq<(int, int)>): seq<Entry>
  {
    if edges == [] then []
    else Provisional(edges[..|edges| - 1]) + EdgeEntries(edges[|edges| - 1])
  }

  lemma {:induction false} FlatMapLinesIsProvisional(lines: seq<string>)
    ensures FlatMapLines(lines).None? <==> exists i :: 0 <= i < |lines| && IsMalformed(lines[i])
    ensures FlatMapLines(lines).Some? ==> FlatMapLines(lines).value == Provisional(EdgeList(lines))
  {
    if lines != [] {
      var init, last := lines[..|lines| - 1], lines[|lines| - 1];
      FlatMapLinesIsProvisional(init);
      assert forall i :: 0 <= i < |init| ==> init[i] == lines[i];
      var tail := match EdgeOf(last) case None => [] case Some(edge) => [edge];
      assert EdgeList(lines) == EdgeList(init) + tail;
      if tail != [] {
        assert (EdgeList(init) + tail)[..|EdgeList(init) + tail| - 1] == EdgeList(init);
      } else {
        assert EdgeList(init) + tail == EdgeList(init);
      }
    }
  }

  lemma {:induction false} ProvisionalMembers(edges: seq<(int, int)>, e: Entry)
    ensures e in Provisional(edges) <==>
      exists j :: 0 <= j < |edges| && e in EdgeEntries(edges[j])
  {
    if edges != [] {
      var init := edges[..|edges| - 1];
      ProvisionalMembers(init, e);
      assert forall j :: 0 <= j < |init| ==> init[j] == edges[j];
    }
  }

  lemma ProvisionalKeys(edges: seq<(int, int)>, k: int)
    ensures k in ReduceByKey(Provisional(edges)) <==> exists e :: e in edges && (e.0 == k || e.1 == k)
  {
    var es := Provisional(edges);
    if k in ReduceByKey(es) {
      var x :| x in es && x.id == k;
      ProvisionalMembers(edges, x);
      var j :| 0 <= j < |edges| && x in EdgeEntries(edges[j]);
      assert edges[j] in edges;
    } else {
      forall e | e in edges ensures e.0 != k && e.1 != k {
        var j :| 0 <= j < |edges| && edges[j] == e;
        ProvisionalMembers(edges, Entry(e.0, {}));
        ProvisionalMembers(edges, Entry(e.1, {}));
      }
    }
  }

  lemma ProvisionalTargets(edges: seq<(int, int)>, k: int, t: int)
    requires k in ReduceByKey(Provisional(edges))
    ensures t in ReduceByKey(Provisional(edges))[k] <==> (k, t) in edges
  {
    var es := Provisional(edges);
    if t in ReduceByKey(es)[k] {
      var x :| x in es && x.id == k && t in x.targets;
      ProvisionalMembers(edges, x);
      var j :| 0 <= j < |edges| && x in EdgeEntries(edges[j]);
      assert edges[j] == (k, t);
    }
    if (k, t) in edges {
      var j :| 0 <= j < |edges| && edges[j] == (k, t);
      ProvisionalMembers(edges, Entry(k, {t}));
    }
  }

  /** Initialization fails exactly when some line is malformed; otherwise the
      node ids are exactly the endpoints of the input's edges, each node's
      targets are exactly the targets of its edges, and every node starts at
      weights 1.0. */
  lemma InitializeNodesMeaning(lines: seq<string>)
    ensures InitializeNodes(lines).None? <==> exists i :: 0 <= i < |lines| && IsMalformed(lines[i])
    ensures InitializeNodes(lines).Some? ==>
      var g := InitializeNodes(lines).value;
      (forall k :: k in g <==> exists e :: e in EdgeList(lines) && (e.0 == k || e.1 == k)) &&
      (forall k :: k in g ==> g[k].oldWeight == 1.0 && g[k].weight == 1.0 && g[k].targets.Some?) &&
      (forall k, t :: k in g ==> (t in g[k].targets.value <==> (k, t) in EdgeList(lines)))
  {
    FlatMapLinesIsProvisional(lines);
    if InitializeNodes(lines).Some? {
      var edges := EdgeList(lines);
      var m := ReduceByKey(Provisional(edges));
      var g := InitializeNodes(lines).value;
      assert g == InitializeWeights(m);
      forall k ensures k in g <==> exists e :: e in edges && (e.0 == k || e.1 == k) {
        ProvisionalKeys(edges, k);
      }
      forall k, t | k in g ensures t in g[k].targets.value <==> (k, t) in edges {
        ProvisionalTargets(edges, k, t);
      }
    }
  }
}
