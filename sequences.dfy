/** Sequence and set helpers shared by the pipeline stages: duplicate-free
    enumerations of a finite set (the unspecified iteration order of a
    frozenset or of a keyed collection) and sums of reals over such an
    enumeration. */
module Sequences {

  /** No element occurs twice. */
  predicate Distinct<T(==)>(s: seq<T>)
  {
    forall i, j :: 0 <= i < j < |s| ==> s[i] != s[j]
  }

  /** `order` lists every element of `s` exactly once, in some order. */
  ghost predicate Enumerates(order: seq<int>, s: set<int>)
  {
    Distinct(order) && (forall x :: x in order <==> x in s)
  }

  /** Dropping the last element of a duplicate-free sequence leaves a
      duplicate-free sequence without that element. */
  lemma DistinctInit<T>(s: seq<T>)
    requires Distinct(s) && s != []
    ensures Distinct(s[..|s| - 1]) && s[|s| - 1] !in s[..|s| - 1]
  {
  }

  lemma DropFirst<T>(x: T, s: seq<T>)
    ensures ([x] + s)[1..] == s
  {
    var t := [x] + s;
    assert forall i :: 0 <= i < |s| ==> t[1..][i] == s[i];
  }

  /** Appending a new element extends an enumeration by that element. */
  lemma EnumeratesAppend(order: seq<int>, s: set<int>, x: int)
    requires Enumerates(order, s) && x !in s
    ensures Enumerates(order + [x], s + {x})
  {
  }

  /** A distinct sequence is exactly as long as the set of its elements. */
  lemma {:induction false} EnumerationLength(order: seq<int>, s: set<int>)
    requires Enumerates(order, s)
    ensures |order| == |s|
  {
    if order == [] {
      assert forall x :: x !in s;
      assert s == {};
    } else {
      var last := order[|order| - 1];
      var init := order[..|order| - 1];
      assert order == init + [last];
      assert Enumerates(init, s - {last}) by {
        forall x ensures x in init <==> x in s - {last} {
          if x in init {
            var i :| 0 <= i < |init| && init[i] == x;
            assert order[i] == x && order[|order| - 1] == last;
          }
        }
      }
      EnumerationLength(init, s - {last});
      assert last in s;
      assert s == (s - {last}) + {last};
    }
  }

  lemma NonEmptyHasElement(s: set<int>)
    requires s != {}
    ensures exists x :: x in s
  {
    if forall x :: x !in s {
      assert false;
    }
  }

  /** Some enumeration of a finite set; which one is left unspecified. */
  ghost function Enumerate(s: set<int>): (order: seq<int>)
    ensures Enumerates(order, s)
    ensures |order| == |s|
    decreases |s|
  {
    if s == {} then []
    else
      assert exists x :: x in s by { NonEmptyHasElement(s); }
      var x :| x in s;
      var rest := Enumerate(s - {x});
      rest + [x]
  }

  /** The sum of `f` over the elements of `ks`, left to right. */
  function SumOf<T>(ks: seq<T>, f: T -> real): real
  {
    if ks == [] then 0.0 else SumOf(ks[..|ks| - 1], f) + f(ks[|ks| - 1])
  }

  lemma {:induction false} SumOfAppend<T>(a: seq<T>, b: seq<T>, f: T -> real)
    ensures SumOf(a + b, f) == SumOf(a, f) + SumOf(b, f)
  {
    if b == [] {
      assert a + b == a;
    } else {
      assert (a + b)[..|a + b| - 1] == a + b[..|b| - 1];
      assert (a + b)[|a + b| - 1] == b[|b| - 1];
      SumOfAppend(a, b[..|b| - 1], f);
    }
  }

  /** A summand that is `c` on every element sums to `c` times the length. */
  lemma {:induction false} SumOfConstant<T>(ks: seq<T>, f: T -> real, c: real)
    requires forall k :: k in ks ==> f(k) == c
    ensures SumOf(ks, f) == (|ks| as real) * c
  {
    if ks != [] {
      var init := ks[..|ks| - 1];
      assert forall k :: k in init ==> k in ks;
      SumOfConstant(init, f, c);
      var n := |init| as real;
      assert (n + 1.0) * c == n * c + c;
    }
  }

  /** Removing the last element of `a` and an equal element of its
      permutation `b` leaves permutations of each other. */
  lemma RemoveMatching<T>(a: seq<T>, b: seq<T>, idx: int)
    requires multiset(a) == multiset(b) && a != []
    requires 0 <= idx < |b| && b[idx] == a[|a| - 1]
    ensures b == b[..idx] + [b[idx]] + b[idx + 1..]
    ensures multiset(a[..|a| - 1]) == multiset(b[..idx] + b[idx + 1..])
  {
    var x := a[|a| - 1];
    var init := a[..|a| - 1];
    var rest := b[..idx] + b[idx + 1..];
    assert a == init + [x];
    assert b == b[..idx] + [x] + b[idx + 1..];
    calc {
      multiset(rest) + multiset{x};
      multiset(b[..idx]) + multiset(b[idx + 1..]) + multiset([x]);
      multiset(b[..idx] + [x] + b[idx + 1..]);
      multiset(a);
      multiset(init) + multiset{x};
    }
    assert multiset(rest) == multiset(rest) + multiset{x} - multiset{x};
    assert multiset(init) == multiset(init) + multiset{x} - multiset{x};
  }

  /** A sum does not depend on the order of its summands. */
  lemma {:induction false} SumOfPermutation<T>(a: seq<T>, b: seq<T>, f: T -> real)
    requires multiset(a) == multiset(b)
    ensures SumOf(a, f) == SumOf(b, f)
    decreases |a|
  {
    if a == [] {
      assert |b| == |multiset(b)| == 0;
    } else {
      var x := a[|a| - 1];
      var init := a[..|a| - 1];
      assert a == init + [x];
      assert x in multiset(b);
      var idx :| 0 <= idx < |b| && b[idx] == x;
      var rest := b[..idx] + b[idx + 1..];
      RemoveMatching(a, b, idx);
      SumOfPermutation(init, rest, f);
      SumOfAppend(b[..idx], [x], f);
      SumOfAppend(b[..idx] + [x], b[idx + 1..], f);
      SumOfAppend(b[..idx], b[idx + 1..], f);
      assert SumOf([x], f) == SumOf([], f) + f(x);
    }
  }

  /** `f` applied to every element of `s`, in order. */
  function MapSeq<A, B>(s: seq<A>, f: A -> B): (r: seq<B>)
    ensures |r| == |s|
  {
    if s == [] then [] else MapSeq(s[..|s| - 1], f) + [f(s[|s| - 1])]
  }

  /** Element `j` of the mapped sequence is `f` of element `j`. */
  lemma {:induction false} MapSeqIndex<A, B>(s: seq<A>, f: A -> B)
    ensures forall j :: 0 <= j < |s| ==> MapSeq(s, f)[j] == f(s[j])
  {
    if s != [] {
      var init := s[..|s| - 1];
      MapSeqIndex(init, f);
      assert forall j :: 0 <= j < |init| ==> s[j] == init[j];
    }
  }

  lemma MapSeqAppend<A, B>(a: seq<A>, b: seq<A>, f: A -> B)
    ensures MapSeq(a + b, f) == MapSeq(a, f) + MapSeq(b, f)
  {
    var l := MapSeq(a + b, f);
    var r := MapSeq(a, f) + MapSeq(b, f);
    MapSeqIndex(a + b, f);
    MapSeqIndex(a, f);
    MapSeqIndex(b, f);
    forall j | 0 <= j < |l|
      ensures l[j] == r[j]
    {
      if j >= |a| {
        assert (a + b)[j] == b[j - |a|];
      }
    }
  }


  /** Mapping permuted sequences gives permuted results. */
  lemma {:induction false} MapSeqPermutation<A, B>(a: seq<A>, b: seq<A>, f: A -> B)
    requires multiset(a) == multiset(b)
    ensures multiset(MapSeq(a, f)) == multiset(MapSeq(b, f))
    decreases |a|
  {
    if a == [] {
      assert |b| == |multiset(b)| == 0;
    } else {
      var x := a[|a| - 1];
      var init := a[..|a| - 1];
      assert a == init + [x];
      assert x in multiset(b);
      var idx :| 0 <= idx < |b| && b[idx] == x;
      var rest := b[..idx] + b[idx + 1..];
      RemoveMatching(a, b, idx);
      MapSeqPermutation(init, rest, f);
      MapSeqAppend(init, [x], f);
      assert MapSeq([x], f) == [f(x)];
      MapSeqRemove(b, idx, f);
    }
  }

  /** Mapping a sequence maps the element at `idx` and the rest apart. */
  lemma MapSeqRemove<A, B>(b: seq<A>, idx: int, f: A -> B)
    requires 0 <= idx < |b|
    ensures multiset(MapSeq(b, f)) == multiset(MapSeq(b[..idx] + b[idx + 1..], f)) + multiset{f(b[idx])}
  {
    var l, r := MapSeq(b[..idx], f), MapSeq(b[idx + 1..], f);
    MapSeqAt(b, idx, f);
    MapSeqAppend(b[..idx], b[idx + 1..], f);
    assert multiset(l + [f(b[idx])] + r) == multiset(l) + multiset([f(b[idx])]) + multiset(r);
    assert multiset(l + r) == multiset(l) + multiset(r);
  }

  lemma MapSeqAt<A, B>(b: seq<A>, idx: int, f: A -> B)
    requires 0 <= idx < |b|
    ensures MapSeq(b, f) == MapSeq(b[..idx], f) + [f(b[idx])] + MapSeq(b[idx + 1..], f)
  {
    var l, r := b[..idx], b[idx + 1..];
    var whole := MapSeq(b, f);
    var parts := MapSeq(l, f) + [f(b[idx])] + MapSeq(r, f);
    MapSeqIndex(b, f);
    MapSeqIndex(l, f);
    MapSeqIndex(r, f);
    forall j | 0 <= j < |whole|
      ensures whole[j] == parts[j]
    {
      if j < idx {
        assert b[j] == l[j];
      } else if j > idx {
        assert b[j] == r[j - idx - 1];
      }
    }
  }




  /** In a duplicate-free sequence every element occurs at most once. */
  lemma {:induction false} DistinctCount<T>(s: seq<T>, x: T)
    requires Distinct(s)
    ensures multiset(s)[x] <= 1
  {
    if s != [] {
      var init := s[..|s| - 1];
      assert s == init + [s[|s| - 1]];
      DistinctInit(s);
      DistinctCount(init, x);
      if x == s[|s| - 1] {
        assert x !in multiset(init);
      }
    }
  }

  /** A permutation of a duplicate-free sequence is duplicate-free. */
  lemma DistinctPermutation<T>(a: seq<T>, b: seq<T>)
    requires Distinct(a) && multiset(a) == multiset(b)
    ensures Distinct(b)
  {
    forall i, j | 0 <= i < j < |b|
      ensures b[i] != b[j]
    {
      if b[i] == b[j] {
        var x := b[i];
        assert b == b[..i] + [x] + b[i + 1..j] + [x] + b[j + 1..];
        assert multiset(b)[x] >= 2;
        DistinctCount(a, x);
        assert false;
      }
    }
  }

  /** Permutations have the same length and the same elements. */
  lemma SameElements<T>(a: seq<T>, b: seq<T>)
    requires multiset(a) == multiset(b)
    ensures |a| == |b|
    ensures forall x :: x in a <==> x in b
  {
    assert |a| == |multiset(a)|;
    forall x
      ensures x in a <==> x in b
    {
      assert x in a <==> x in multiset(a);
      assert x in b <==> x in multiset(b);
    }
  }
}
