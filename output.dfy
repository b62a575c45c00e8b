/** `format_output`: the final nodes re-keyed by weight, sorted by that key
    in descending order and turned back into `(node, weight)` pairs. */
module Output {
  import opened Sequences
  import opened Records

  /** `(weight, node)`: a record `(node, (old_weight, weight, targets))`
      re-keyed by its weight. */
  function ByWeight(r: (int, Node)): (real, int)
  {
    (r.1.weight, r.0)
  }

  /** `(node, weight)`: a re-keyed pair turned back. */
  function ByNode(p: (real, int)): (int, real)
  {
    (p.1, p.0)
  }

  /** The pair a record should appear as in the output. */
  function Ranked(r: (int, Node)): (int, real)
  {
    (r.0, r.1.weight)
  }

  /** Keys never increase from left to right. */
  predicate Descending(ps: seq<(real, int)>)
  {
    forall i, j :: 0 <= i < j < |ps| ==> ps[i].0 >= ps[j].0
  }

  /** Weights never increase from left to right. */
  predicate WeightsDescending(out: seq<(int, real)>)
  {
    forall i, j :: 0 <= i < j < |out| ==> out[i].1 >= out[j].1
  }

  /** `x` placed before the first pair whose key is not larger. */
  function Insert(x: (real, int), s: seq<(real, int)>): seq<(real, int)>
  {
    if s == [] then [x]
    else if s[0].0 <= x.0 then [x] + s
    else [s[0]] + Insert(x, s[1..])
  }

  /** `sortByKey(ascending = False)`: the pairs ordered by key, largest
      first. Pairs with equal keys may come out in any order; this
      definition fixes one. */
  function SortByKeyDescending(ps: seq<(real, int)>): seq<(real, int)>
  {
    if ps == [] then [] else Insert(ps[0], SortByKeyDescending(ps[1..]))
  }

  lemma {:induction false} InsertPermutes(x: (real, int), s: seq<(real, int)>)
    ensures multiset(Insert(x, s)) == multiset(s) + multiset{x}
  {
    if s != [] && s[0].0 > x.0 {
      var tail := s[1..];
      assert s == [s[0]] + tail;
      InsertPermutes(x, tail);
      assert Insert(x, s) == [s[0]] + Insert(x, tail);
    }
  }

  /** Inserting into a descending sequence keeps it descending. */
  lemma {:induction false} InsertKeepsOrder(x: (real, int), s: seq<(real, int)>)
    requires Descending(s)
    ensures Descending(Insert(x, s))
  {
    if s != [] && s[0].0 > x.0 {
      var tail := s[1..];
      InsertKeepsOrder(x, tail);
      InsertPermutes(x, tail);
      var r := Insert(x, tail);
      forall j | 0 <= j < |r|
        ensures s[0].0 >= r[j].0
      {
        assert r[j] in multiset(r);
        if r[j] != x {
          assert r[j] in multiset(tail);
          var k :| 0 <= k < |tail| && tail[k] == r[j];
          assert s[k + 1] == r[j];
        }
      }
      BoundedPrefix(s[0], r);
    }
  }

  /** A key no smaller than every key of a descending sequence can go in
      front of it. */
  lemma BoundedPrefix(y: (real, int), r: seq<(real, int)>)
    requires Descending(r)
    requires forall j :: 0 <= j < |r| ==> y.0 >= r[j].0
    ensures Descending([y] + r)
  {
    var t := [y] + r;
    forall i, j | 0 <= i < j < |t|
      ensures t[i].0 >= t[j].0
    {
      assert t[j] == r[j - 1];
      if i > 0 {
        assert t[i] == r[i - 1];
      }
    }
  }

  /** The sorted sequence is a permutation of its input with keys in
      non-increasing order. */
  lemma {:induction false} SortByKeyDescendingSorts(ps: seq<(real, int)>)
    ensures Descending(SortByKeyDescending(ps))
    ensures multiset(SortByKeyDescending(ps)) == multiset(ps)
  {
    if ps != [] {
      SortByKeyDescendingSorts(ps[1..]);
      InsertKeepsOrder(ps[0], SortByKeyDescending(ps[1..]));
      InsertPermutes(ps[0], SortByKeyDescending(ps[1..]));
      assert ps == [ps[0]] + ps[1..];
    }
  }

  /** `format_output` on the records in the order the collection holds
      them. */
  function FormatOutput(records: seq<(int, Node)>): seq<(int, real)>
  {
    MapSeq(SortByKeyDescending(MapSeq(records, ByWeight)), ByNode)
  }

  /** The output holds one `(node, weight)` pair per record, each record's
      pair exactly as often as the record occurs, with weights in
      non-increasing order. */
  lemma FormatOutputSorted(records: seq<(int, Node)>)
    ensures var out := FormatOutput(records);
      WeightsDescending(out) &&
      multiset(out) == multiset(MapSeq(records, Ranked))
  {
    var keyed := MapSeq(records, ByWeight);
    var sorted := SortByKeyDescending(keyed);
    SortByKeyDescendingSorts(keyed);
    TurnedBackInOrder(sorted);
    MapSeqPermutation(sorted, keyed, ByNode);
    RekeyedTwice(records);
  }

  /** Turning descending pairs back keeps the weights descending. */
  lemma TurnedBackInOrder(sorted: seq<(real, int)>)
    requires Descending(sorted)
    ensures WeightsDescending(MapSeq(sorted, ByNode))
  {
    MapSeqIndex(sorted, ByNode);
  }

  /** Re-keying by weight and turning back gives each record's pair. */
  lemma RekeyedTwice(records: seq<(int, Node)>)
    ensures MapSeq(MapSeq(records, ByWeight), ByNode) == MapSeq(records, Ranked)
  {
    var keyed := MapSeq(records, ByWeight);
    MapSeqIndex(records, ByWeight);
    MapSeqIndex(keyed, ByNode);
    MapSeqIndex(records, Ranked);
  }

  /** The records of a graph in the order `ks` of its ids. */
  function RecordsOf(g: Graph, ks: seq<int>): (rs: seq<(int, Node)>)
    requires forall j :: 0 <= j < |ks| ==> ks[j] in g
    ensures |rs| == |ks|
    ensures forall j :: 0 <= j < |ks| ==> rs[j] == (ks[j], g[ks[j]])
  {
    if ks == [] then [] else RecordsOf(g, ks[..|ks| - 1]) + [(ks[|ks| - 1], g[ks[|ks| - 1]])]
  }

  /** The ids of an enumeration of the graph's keys are in the graph. */
  lemma EnumeratedIds(g: Graph, ks: seq<int>)
    requires Enumerates(ks, g.Keys)
    ensures forall j :: 0 <= j < |ks| ==> ks[j] in g
  {
    assert forall x :: x in ks <==> x in g.Keys;
    forall j | 0 <= j < |ks|
      ensures ks[j] in g
    {
      assert ks[j] in ks;
    }
  }

  /** One `(node, weight)` pair per node of the graph, each once. */
  lemma RankedOfGraph(g: Graph, ks: seq<int>)
    requires Enumerates(ks, g.Keys)
    ensures forall j :: 0 <= j < |ks| ==> ks[j] in g
    ensures var ranked := MapSeq(RecordsOf(g, ks), Ranked);
      |ranked| == |g| &&
      Distinct(ranked) &&
      forall p :: p in ranked <==> p.0 in g && p.1 == g[p.0].weight
  {
    EnumeratedIds(g, ks);
    EnumerationLength(ks, g.Keys);
    assert forall x :: x in ks <==> x in g.Keys;
    var ranked := MapSeq(RecordsOf(g, ks), Ranked);
    MapSeqIndex(RecordsOf(g, ks), Ranked);
    assert forall j :: 0 <= j < |ks| ==> ranked[j] == (ks[j], g[ks[j]].weight);
    forall p
      ensures p in ranked <==> p.0 in g && p.1 == g[p.0].weight
    {
      if p.0 in g && p.1 == g[p.0].weight {
        assert p.0 in ks;
        var j :| 0 <= j < |ks| && ks[j] == p.0;
        assert ranked[j] == p;
      }
    }
  }

  /** Whatever order the collection holds its records in, the output lists
      every node exactly once with its weight, heaviest first. */
  lemma FormatGraph(g: Graph, ks: seq<int>)
    requires Enumerates(ks, g.Keys)
    ensures forall j :: 0 <= j < |ks| ==> ks[j] in g
    ensures var out := FormatOutput(RecordsOf(g, ks));
      WeightsDescending(out) &&
      |out| == |g| &&
      Distinct(out) &&
      forall p :: p in out <==> p.0 in g && p.1 == g[p.0].weight
  {
    RankedOfGraph(g, ks);
    var records := RecordsOf(g, ks);
    var ranked := MapSeq(records, Ranked);
    var out := FormatOutput(records);
    FormatOutputSorted(records);
    SameElements(ranked, out);
    DistinctPermutation(ranked, out);
  }
}
