/** Reading one line of the edge list: Python 2's `line.split()` followed by
    `int` on each token, as `emit_edges` does before it unpacks the pair. */
module LineParsing {
  import opened Wrappers

  /** The characters Python 2's `str.split()` treats as separators. */
  predicate IsSpace(c: char)
  {
    c == ' ' || c == '\t' || c == '\n' || c == '\r' || c as int == 11 || c as int == 12
  }

  /** A token of `split()`: non-empty and free of separators. */
  predicate IsToken(t: string)
  {
    |t| > 0 && forall i :: 0 <= i < |t| ==> !IsSpace(t[i])
  }

  /** The length of the run of non-separators that starts `s`. */
  function TokenLength(s: string): (n: nat)
    ensures n <= |s|
    ensures forall i :: 0 <= i < n ==> !IsSpace(s[i])
    ensures n < |s| ==> IsSpace(s[n])
  {
    if s == [] || IsSpace(s[0]) then 0 else 1 + TokenLength(s[1..])
  }

  /** `s.split()`: the maximal runs of non-separators, left to right. */
  function Split(s: string): (tokens: seq<string>)
    ensures forall k :: 0 <= k < |tokens| ==> IsToken(tokens[k])
    decreases |s|
  {
    if s == [] then []
    else if IsSpace(s[0]) then Split(s[1..])
    else
      var n := TokenLength(s);
      [s[..n]] + Split(s[n..])
  }

  /** A string made of separators only splits into nothing. */
  lemma {:induction false} SplitBlank(s: string)
    requires forall i :: 0 <= i < |s| ==> IsSpace(s[i])
    ensures Split(s) == []
  {
    if s != [] {
      SplitBlank(s[1..]);
    }
  }

  lemma {:induction false} TokenLengthOfToken(a: string, rest: string)
    requires IsToken(a)
    requires rest == [] || IsSpace(rest[0])
    ensures TokenLength(a + rest) == |a|
  {
    if |a| > 1 {
      assert (a + rest)[1..] == a[1..] + rest;
      TokenLengthOfToken(a[1..], rest);
    }
  }

  /** A token followed by nothing or by a separator is the first piece of the
      split, and splitting resumes right after it. */
  lemma SplitToken(a: string, rest: string)
    requires IsToken(a)
    requires rest == [] || IsSpace(rest[0])
    ensures Split(a + rest) == [a] + Split(rest)
  {
    TokenLengthOfToken(a, rest);
    assert (a + rest)[..|a|] == a;
    assert (a + rest)[|a|..] == rest;
  }

  /** Two tokens separated by one space split back into exactly those two. */
  lemma SplitPair(a: string, b: string)
    requires IsToken(a) && IsToken(b)
    ensures Split(a + " " + b) == [a, b]
  {
    SplitToken(a, " " + b);
    assert a + " " + b == a + (" " + b);
    assert (" " + b)[1..] == b;
    SplitToken(b, []);
    assert b + [] == b;
  }

  predicate IsDigit(c: char)
  {
    '0' <= c <= '9'
  }

  predicate AllDigits(ds: string)
  {
    forall i :: 0 <= i < |ds| ==> IsDigit(ds[i])
  }

  /** The value of a string of decimal digits, most significant first. */
  function DigitsValue(ds: string): nat
    requires AllDigits(ds)
  {
    if ds == [] then 0
    else DigitsValue(ds[..|ds| - 1]) * 10 + (ds[|ds| - 1] as int - '0' as int)
  }

  /** Python 2 `int(token)` in base 10: an optional sign, then at least one
      decimal digit; anything else raises ValueError (None here). */
  function ParseInt(t: string): Option<int>
  {
    if |t| > 0 && (t[0] == '-' || t[0] == '+') then
      if |t| > 1 && AllDigits(t[1..]) then
        var magnitude: int := DigitsValue(t[1..]);
        Some(if t[0] == '-' then -magnitude else magnitude)
      else None
    else if |t| > 0 && AllDigits(t) then Some(DigitsValue(t))
    else None
  }

  /** The decimal rendering of a natural number, without leading zeros. */
  function ShowNat(n: nat): (ds: string)
    ensures |ds| > 0 && AllDigits(ds)
  {
    if n < 10 then [('0' as int + n) as char]
    else ShowNat(n / 10) + [('0' as int + n % 10) as char]
  }

  /** The decimal rendering of an integer, with `-` for negatives. */
  function ShowInt(x: int): string
  {
    if x < 0 then "-" + ShowNat(-x) else ShowNat(x)
  }

  lemma {:induction false} DigitsValueOfShowNat(n: nat)
    ensures DigitsValue(ShowNat(n)) == n
  {
    if n >= 10 {
      var ds := ShowNat(n);
      assert ds[..|ds| - 1] == ShowNat(n / 10);
      DigitsValueOfShowNat(n / 10);
    }
  }

  lemma DigitsAreToken(ds: string)
    requires |ds| > 0 && AllDigits(ds)
    ensures IsToken(ds)
  {
    forall i | 0 <= i < |ds| ensures !IsSpace(ds[i]) {
      assert IsDigit(ds[i]);
    }
  }

  /** Every integer, written in decimal, is read back by `int` unchanged;
      the rendering is a single token. */
  lemma ParseShowInt(x: int)
    ensures IsToken(ShowInt(x))
    ensures ParseInt(ShowInt(x)) == Some(x)
  {
    var m: nat := if x < 0 then -x else x;
    var ds := ShowNat(m);
    DigitsValueOfShowNat(m);
    DigitsAreToken(ds);
    assert IsDigit(ds[0]);
    if x < 0 {
      var t := "-" + ds;
      assert t == ShowInt(x);
      assert t[1..] == ds;
      assert IsToken(t) by {
        forall i | 0 <= i < |t| ensures !IsSpace(t[i]) {
          if i > 0 { assert t[i] == ds[i - 1]; }
        }
      }
    } else {
      assert ShowInt(x) == ds;
    }
  }

  /** `source, target = tuple(map(int, line.split()))`: exactly two tokens,
      both integers; any other line raises ValueError (None here). */
  function ParseEdge(line: string): Option<(int, int)>
  {
    var tokens := Split(line);
    if |tokens| == 2 && ParseInt(tokens[0]).Some? && ParseInt(tokens[1]).Some? then
      Some((ParseInt(tokens[0]).value, ParseInt(tokens[1]).value))
    else None
  }

  /** The line `"<source> <target>"` is read back as that pair. */
  lemma ParseEdgeLine(source: int, target: int)
    ensures ParseEdge(ShowInt(source) + " " + ShowInt(target)) == Some((source, target))
  {
    ParseShowInt(source);
    ParseShowInt(target);
    SplitPair(ShowInt(source), ShowInt(target));
  }

  /** A line holding a single integer is rejected. */
  lemma ParseEdgeSingle(source: int)
    ensures ParseEdge(ShowInt(source)) == None
  {
    var a := ShowInt(source);
    ParseShowInt(source);
    SplitBlank([]);
    SplitToken(a, []);
    assert a + [] == a;
    assert Split(a) == [a];
  }

  lemma SplitSkipsSpace(s: string)
    requires |s| > 0 && IsSpace(s[0])
    ensures Split(s) == Split(s[1..])
  {
  }

  /** Three tokens separated by single spaces split into those three. */
  lemma SplitTriple(a: string, b: string, c: string)
    requires IsToken(a) && IsToken(b) && IsToken(c)
    ensures Split(a + " " + b + " " + c) == [a, b, c]
  {
    var tail := b + " " + c;
    var rest := " " + tail;
    assert a + " " + b + " " + c == a + rest;
    SplitToken(a, rest);
    assert rest[1..] == tail;
    SplitSkipsSpace(rest);
    SplitPair(b, c);
  }

  /** A line holding three integers is rejected. */
  lemma ParseEdgeTriple(source: int, target: int, third: int)
    ensures ParseEdge(ShowInt(source) + " " + ShowInt(target) + " " + ShowInt(third)) == None
  {
    ParseShowInt(source);
    ParseShowInt(target);
    ParseShowInt(third);
    SplitTriple(ShowInt(source), ShowInt(target), ShowInt(third));
  }
}
