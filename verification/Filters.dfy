/** Order-preserving filters of sequences, and the size of subsets. */
module Filters {
  lemma {:induction false} SubsetSize<T>(a: set<T>, b: set<T>)
    requires a <= b
    ensures |a| <= |b|
    decreases |a|
  {
    if a != {} {
      var x :| x in a;
      SubsetSize(a - {x}, b - {x});
    }
  }


  // The elements that satisfy p, in order.
  function Filter<T>(p: T -> bool, s: seq<T>): (out: seq<T>)
    ensures |out| <= |s|
  {
    if s == [] then []
    else
      var last := s[|s| - 1];
      Filter(p, s[..|s| - 1]) + if p(last) then [last] else []
  }

  lemma {:induction false} FilterMembers<T>(p: T -> bool, s: seq<T>)
    ensures forall x :: x in Filter(p, s) <==> x in s && p(x)
  {
    if s != [] {
      var n := |s| - 1;
      FilterMembers(p, s[..n]);
      assert s == s[..n] + [s[n]];
    }
  }

  lemma {:induction false} FilterAppend<T>(p: T -> bool, a: seq<T>, b: seq<T>)
    ensures Filter(p, a + b) == Filter(p, a) + Filter(p, b)
  {
    if b == [] {
      assert a + b == a;
    } else {
      var n := |b| - 1;
      FilterAppend(p, a, b[..n]);
      assert (a + b)[..|a + b| - 1] == a + b[..n];
    }
  }

  lemma FilterAt<T>(p: T -> bool, s: seq<T>, i: nat)
    requires i < |s|
    ensures Filter(p, s) == Filter(p, s[..i]) + (if p(s[i]) then [s[i]] else []) + Filter(p, s[i + 1..])
  {
    var first := s[..i + 1];
    assert s == first + s[i + 1..];
    FilterAppend(p, first, s[i + 1..]);
    assert first[..|first| - 1] == s[..i] && first[|first| - 1] == s[i];
    FilterLast(p, first);
  }

  lemma FilterLast<T>(p: T -> bool, s: seq<T>)
    requires s != []
    ensures Filter(p, s) == Filter(p, s[..|s| - 1]) + if p(s[|s| - 1]) then [s[|s| - 1]] else []
  {
  }

  // Replacing one element changes a filter only at that element.
  lemma FilterUpdate<T>(p: T -> bool, s: seq<T>, i: nat, x: T)
    requires i < |s|
    ensures Filter(p, s[i := x]) == Filter(p, s[..i]) + (if p(x) then [x] else []) + Filter(p, s[i + 1..])
  {
    var t := s[i := x];
    FilterAt(p, t, i);
    assert t[..i] == s[..i] && t[i + 1..] == s[i + 1..];
  }

  lemma {:induction false} FilterFilter<T>(p: T -> bool, q: T -> bool, s: seq<T>)
    requires forall x :: x in s && q(x) ==> p(x)
    ensures Filter(q, Filter(p, s)) == Filter(q, s)
  {
    if s != [] {
      var n := |s| - 1;
      FilterFilter(p, q, s[..n]);
      var last := if p(s[n]) then [s[n]] else [];
      FilterAppend(q, Filter(p, s[..n]), last);
      assert [s[n]][..0] == [];
    }
  }

  lemma {:induction false} FilterFull<T>(p: T -> bool, s: seq<T>)
    requires |Filter(p, s)| == |s|
    ensures Filter(p, s) == s
  {
    if s != [] {
      FilterFull(p, s[..|s| - 1]);
    }
  }

  lemma {:induction false} FilterKeepsAll<T>(p: T -> bool, s: seq<T>)
    requires forall x :: x in s ==> p(x)
    ensures Filter(p, s) == s
  {
    if s != [] {
      FilterKeepsAll(p, s[..|s| - 1]);
    }
  }

  function Map<T, U>(f: T -> U, s: seq<T>): (out: seq<U>)
    ensures |out| == |s| && forall i :: 0 <= i < |s| ==> out[i] == f(s[i])
  {
    seq(|s|, i requires 0 <= i < |s| => f(s[i]))
  }

  lemma MapAppend<T, U>(f: T -> U, a: seq<T>, b: seq<T>)
    ensures Map(f, a + b) == Map(f, a) + Map(f, b)
  {
  }

  lemma MapAround<T, U>(f: T -> U, a: seq<T>, x: T, c: seq<T>)
    ensures Map(f, a + [x] + c) == Map(f, a) + [f(x)] + Map(f, c)
  {
  }

  // Filtering the image of a sequence is mapping the filtered sequence.
  lemma {:induction false} FilterMap<T, U>(f: T -> U, p: T -> bool, q: U -> bool, s: seq<T>)
    requires forall x :: x in s ==> (q(f(x)) <==> p(x))
    ensures Filter(q, Map(f, s)) == Map(f, Filter(p, s))
  {
    if s != [] {
      var n := |s| - 1;
      FilterMap(f, p, q, s[..n]);
      assert Map(f, s)[..n] == Map(f, s[..n]);
      MapAppend(f, Filter(p, s[..n]), [s[n]]);
    }
  }

  // Filtering out exactly the middle element.
  lemma FilterAround<T>(p: T -> bool, a: seq<T>, x: T, c: seq<T>)
    requires forall y :: y in a || y in c ==> p(y)
    requires !p(x)
    ensures Filter(p, a + [x] + c) == a + c
  {
    FilterKeepsAll(p, a);
    FilterKeepsAll(p, c);
    FilterAppend(p, a, [x]);
    FilterAppend(p, a + [x], c);
    FilterLast(p, [x]);
    assert [x][..0] == [];
    assert a + [] == a;
  }
}
