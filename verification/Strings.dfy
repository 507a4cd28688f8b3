/** What the string operations compute, on values, and what that means. */
module Strings {
  import opened Bytes

  // The value of a C string: the bytes before its terminator.
  type Text = s: str | NulFree(s)

  // isspace in the C locale.
  predicate IsSpace(b: byte) { b == 32 || 9 <= b <= 13 }

  // ---- replacing ----

  // The source occurs in s at position i.
  predicate At(s: str, src: str, i: nat) { i + |src| <= |s| && s[i..i + |src|] == src }

  function Replaced(s: str, src: str, tgt: str): (r: str)
    requires src != []
  {
    if |s| < |src| then s
    else if s[..|src|] == src then tgt + Replaced(s[|src|..], src, tgt)
    else [s[0]] + Replaced(s[1..], src, tgt)
  }

  // How often the source is found, scanning from the left and never overlapping.
  function Count(s: str, src: str): nat
    requires src != []
  {
    if |s| < |src| then 0
    else if s[..|src|] == src then 1 + Count(s[|src|..], src)
    else Count(s[1..], src)
  }

  function Join(pieces: seq<str>, sep: str): str
    requires pieces != []
  {
    if |pieces| == 1 then pieces[0] else pieces[0] + sep + Join(pieces[1..], sep)
  }

  // The pieces between the leftmost non-overlapping occurrences of the source.
  ghost predicate Leftmost(s: str, src: str, pieces: seq<str>)
    requires src != [] && pieces != []
    decreases |pieces|
  {
    if |pieces| == 1 then s == pieces[0] && forall i: nat :: !At(s, src, i)
    else
      && pieces[0] + src <= s
      && (forall i: nat :: i < |pieces[0]| ==> !At(s, src, i))
      && Leftmost(s[|pieces[0]| + |src|..], src, pieces[1..])
  }

  lemma {:induction false} LeftmostJoins(s: str, src: str, pieces: seq<str>)
    requires src != [] && pieces != [] && Leftmost(s, src, pieces)
    ensures s == Join(pieces, src)
    decreases |pieces|
  {
    if |pieces| > 1 {
      LeftmostJoins(s[|pieces[0]| + |src|..], src, pieces[1..]);
      assert s == s[..|pieces[0]| + |src|] + s[|pieces[0]| + |src|..];
    }
  }

  lemma ShiftAt(s: str, src: str, i: nat)
    requires |s| >= |src| > 0 && s[..|src|] != src && At(s, src, i)
    ensures i > 0 && At(s[1..], src, i - 1)
  {
    if i > 0 { assert s[1..][i - 1..i - 1 + |src|] == s[i..i + |src|]; }
  }

  lemma ShiftNone(s: str, src: str, k: nat)
    requires |s| >= |src| > 0 && s[..|src|] != src
    requires forall i: nat :: i < k ==> !At(s[1..], src, i)
    ensures forall i: nat :: i < k + 1 ==> !At(s, src, i)
  {
    forall i: nat | i < k + 1 ensures !At(s, src, i) {
      if At(s, src, i) { ShiftAt(s, src, i); }
    }
  }

  lemma ShiftPrefix(s: str, p: str, src: str)
    requires s != [] && p + src <= s[1..]
    ensures [s[0]] + p + src <= s && s[1..][|p| + |src|..] == s[1 + |p| + |src|..]
  {
    assert s == [s[0]] + s[1..];
    assert [s[0]] + p + src == [s[0]] + (p + src);
  }

  lemma ShiftLeftmost(s: str, src: str, ps: seq<str>)
    requires |s| >= |src| > 0 && s[..|src|] != src && ps != []
    requires Leftmost(s[1..], src, ps)
    ensures Leftmost(s, src, [[s[0]] + ps[0]] + ps[1..])
  {
    if |ps| == 1 { ShiftLast(s, src, ps[0]); } else { ShiftFirst(s, src, ps, ps[1..]); }
  }

  lemma ShiftLast(s: str, src: str, p: str)
    requires |s| >= |src| > 0 && s[..|src|] != src && p == s[1..]
    requires forall i: nat :: !At(s[1..], src, i)
    ensures Leftmost(s, src, [[s[0]] + p])
  {
    assert s == [s[0]] + s[1..];
    ShiftNone(s, src, |s|);
  }

  lemma ShiftFirst(s: str, src: str, ps: seq<str>, more: seq<str>)
    requires |s| >= |src| > 0 && s[..|src|] != src && |ps| > 1 && more == ps[1..]
    requires Leftmost(s[1..], src, ps)
    ensures Leftmost(s, src, [[s[0]] + ps[0]] + more)
  {
    ShiftPrefix(s, ps[0], src);
    ShiftNone(s, src, |ps[0]|);
    var q := [s[0]] + ps[0];
    assert Leftmost(s[|q| + |src|..], src, more);
    assert ([q] + more)[1..] == more && ([q] + more)[0] == q;
  }

  /**
   Replace is what it is for: the text is cut at the leftmost, non-overlapping occurrences of the source
   and the same pieces are joined with the target.
   */
  lemma {:induction false} ReplacedIsLeftmost(s: str, src: str, tgt: str) returns (pieces: seq<str>)
    requires src != []
    ensures pieces != [] && Leftmost(s, src, pieces)
    ensures s == Join(pieces, src) && Replaced(s, src, tgt) == Join(pieces, tgt)
    ensures |pieces| == Count(s, src) + 1
    decreases |s|
  {
    if |s| < |src| {
      pieces := [s];
    } else if s[..|src|] == src {
      var ps := ReplacedIsLeftmost(s[|src|..], src, tgt);
      pieces := [[]] + ps;
      assert pieces[1..] == ps;
      assert [] + src == src;
      assert [] + tgt + Join(ps, tgt) == tgt + Join(ps, tgt);
    } else {
      var ps := ReplacedIsLeftmost(s[1..], src, tgt);
      ShiftLeftmost(s, src, ps);
      pieces := [[s[0]] + ps[0]] + ps[1..];
      assert pieces[1..] == ps[1..];
      PrependJoin(s[0], ps, tgt);
    }
    LeftmostJoins(s, src, pieces);
  }

  lemma PrependJoin(b: byte, ps: seq<str>, sep: str)
    requires ps != []
    ensures Join([[b] + ps[0]] + ps[1..], sep) == [b] + Join(ps, sep)
  {
    var qs := [[b] + ps[0]] + ps[1..];
    assert qs[1..] == ps[1..];
    if |ps| > 1 {
      assert ([b] + ps[0]) + sep + Join(ps[1..], sep) == [b] + (ps[0] + sep + Join(ps[1..], sep));
    }
  }

  /** The cut is unique, so the scan cannot have missed or overlapped an occurrence. */
  lemma {:induction false} LeftmostUnique(s: str, src: str, ps: seq<str>, qs: seq<str>)
    requires src != [] && ps != [] && qs != [] && Leftmost(s, src, ps) && Leftmost(s, src, qs)
    ensures ps == qs
    decreases |ps|
  {
    if |ps| > 1 { assert At(s, src, |ps[0]|); }
    if |qs| > 1 { assert At(s, src, |qs[0]|); }
    if |ps| > 1 && |qs| > 1 {
      assert |ps[0]| == |qs[0]|;
      assert ps[0] == s[..|ps[0]|] == qs[0];
      LeftmostUnique(s[|ps[0]| + |src|..], src, ps[1..], qs[1..]);
      assert ps == [ps[0]] + ps[1..] && qs == [qs[0]] + qs[1..];
    }
  }

  lemma {:induction false} ReplacedLength(s: str, src: str, tgt: str)
    requires src != []
    ensures |Replaced(s, src, tgt)| == |s| + Count(s, src) * (|tgt| - |src|)
    decreases |s|
  {
    if |s| < |src| {
    } else if s[..|src|] == src {
      ReplacedLength(s[|src|..], src, tgt);
      AddOne(Count(s[|src|..], src), |tgt| - |src|);
    } else {
      ReplacedLength(s[1..], src, tgt);
    }
  }

  lemma AddOne(c: nat, d: int)
    ensures (1 + c) * d == d + c * d
  {
  }

  lemma {:induction false} ReplacedShrinks(s: str, src: str, tgt: str)
    requires src != [] && |tgt| <= |src|
    ensures |Replaced(s, src, tgt)| <= |s|
    decreases |s|
  {
    if |s| < |src| {
    } else if s[..|src|] == src {
      ReplacedShrinks(s[|src|..], src, tgt);
    } else {
      ReplacedShrinks(s[1..], src, tgt);
    }
  }

  lemma {:induction false} ReplacedNulFree(s: str, src: str, tgt: str)
    requires src != [] && NulFree(s) && NulFree(tgt)
    ensures NulFree(Replaced(s, src, tgt))
    decreases |s|
  {
    if |s| < |src| {
    } else if s[..|src|] == src {
      ReplacedNulFree(s[|src|..], src, tgt);
    } else {
      ReplacedNulFree(s[1..], src, tgt);
    }
  }

  lemma {:induction false} NothingToReplace(s: str, src: str, tgt: str)
    requires src != [] && Count(s, src) == 0
    ensures Replaced(s, src, tgt) == s
    decreases |s|
  {
    if |s| >= |src| {
      NothingToReplace(s[1..], src, tgt);
      assert s == [s[0]] + s[1..];
    }
  }

  // A position a scan stands at; the table below is looked up at such positions only.
  predicate Tick(p: nat) { true }

  // For every position, what a scan that stands there still has to produce and still has to count.
  ghost predicate Table(s: str, src: str, tgt: str, rests: seq<str>, counts: seq<nat>)
    requires src != []
  {
    && |rests| == |counts| == |s| + 1
    && forall p: nat {:trigger Tick(p)} :: Tick(p) && p <= |s| ==>
         rests[p] == Replaced(s[p..], src, tgt) && counts[p] == Count(s[p..], src)
  }

  lemma MakeTable(s: str, src: str, tgt: str) returns (rests: seq<str>, counts: seq<nat>)
    requires src != []
    ensures Table(s, src, tgt, rests, counts)
    ensures rests[0] == Replaced(s, src, tgt) && counts[0] == Count(s, src)
  {
    rests := seq(|s| + 1, p requires 0 <= p <= |s| => Replaced(s[p..], src, tgt));
    counts := seq(|s| + 1, p requires 0 <= p <= |s| => Count(s[p..], src));
    assert s[0..] == s;
  }

  // One turn of a scan that has produced `done` and stands at position p.
  lemma ScanTurn(s: str, src: str, tgt: str, rests: seq<str>, counts: seq<nat>, p: nat, done: str)
    requires src != [] && p + |src| <= |s| && Table(s, src, tgt, rests, counts)
    ensures s[p..p + |src|] == src ==>
              (done + tgt) + rests[p + |src|] == done + rests[p] && counts[p] == 1 + counts[p + |src|]
    ensures s[p..p + |src|] != src ==>
              (done + [s[p]]) + rests[p + 1] == done + rests[p] && counts[p] == counts[p + 1]
  {
    var t := s[p..];
    assert Tick(p) && Tick(p + |src|) && Tick(p + 1);
    assert t[..|src|] == s[p..p + |src|];
    if s[p..p + |src|] == src {
      assert t[|src|..] == s[p + |src|..];
      assert (done + tgt) + rests[p + |src|] == done + (tgt + rests[p + |src|]);
    } else {
      assert t[1..] == s[p + 1..];
      assert (done + [s[p]]) + rests[p + 1] == done + ([s[p]] + rests[p + 1]);
    }
  }

  // The end of a scan.
  lemma ScanEnd(s: str, src: str, tgt: str, rests: seq<str>, counts: seq<nat>, p: nat)
    requires src != [] && p <= |s| < p + |src| && Table(s, src, tgt, rests, counts)
    ensures rests[p] == s[p..] && counts[p] == 0
  {
    assert Tick(p);
  }

  // ---- trimming ----

  function TrimmedLeft(s: str): (r: str)
  {
    if s != [] && IsSpace(s[0]) then TrimmedLeft(s[1..]) else s
  }

  function TrimmedRight(s: str): (r: str)
  {
    if s != [] && IsSpace(s[|s| - 1]) then TrimmedRight(s[..|s| - 1]) else s
  }

  function Trimmed(s: str): str { TrimmedRight(TrimmedLeft(s)) }

  predicate AllSpace(s: str) { forall i :: 0 <= i < |s| ==> IsSpace(s[i]) }

  // Starts and ends with something other than white space, or is empty.
  predicate Tight(s: str) { s == [] || (!IsSpace(s[0]) && !IsSpace(s[|s| - 1])) }

  lemma {:induction false} TrimmedLeftCuts(s: str) returns (k: nat)
    ensures k <= |s| && TrimmedLeft(s) == s[k..] && AllSpace(s[..k])
    ensures k == |s| || !IsSpace(s[k])
  {
    if s != [] && IsSpace(s[0]) {
      var j := TrimmedLeftCuts(s[1..]);
      k := j + 1;
      assert s[..k] == [s[0]] + s[1..][..j];
      assert s[k..] == s[1..][j..];
    } else {
      k := 0;
    }
  }

  lemma {:induction false} TrimmedRightCuts(s: str) returns (k: nat)
    ensures k <= |s| && TrimmedRight(s) == s[..k] && AllSpace(s[k..])
    ensures k == 0 || !IsSpace(s[k - 1])
    decreases |s|
  {
    if s != [] && IsSpace(s[|s| - 1]) {
      k := TrimmedRightCuts(s[..|s| - 1]);
      assert s[k..] == s[..|s| - 1][k..] + [s[|s| - 1]];
      assert s[..k] == s[..|s| - 1][..k];
    } else {
      k := |s|;
    }
  }

  /** Trim removes white space only, all of it, at both ends. */
  lemma TrimmedIsTight(s: str) returns (left: str, right: str)
    ensures s == left + Trimmed(s) + right && AllSpace(left) && AllSpace(right) && Tight(Trimmed(s))
  {
    var k := TrimmedLeftCuts(s);
    var r := s[k..];
    var j := TrimmedRightCuts(r);
    left, right := s[..k], r[j..];
    assert r == r[..j] + r[j..];
  }

  lemma TightIsTrimmed(s: str)
    requires Tight(s)
    ensures Trimmed(s) == s
  {
  }

  // ---- splitting ----

  function Scan(s: str, sep: byte, one: str): (r: seq<str>)
  {
    if s == [] then (if one == [] then [] else [one])
    else if s[0] == sep then [one] + Scan(s[1..], sep, [])
    else Scan(s[1..], sep, one + [s[0]])
  }

  // The tokens between separators; an empty token at the end is dropped.
  function Tokens(s: str, sep: byte): seq<str> { Scan(s, sep, []) }

  // Every token followed by the separator.
  function Ended(tokens: seq<str>, sep: byte): str
  {
    if tokens == [] then [] else tokens[0] + [sep] + Ended(tokens[1..], sep)
  }

  // The text with a separator at its end, unless it is empty or has one.
  function Closed(s: str, sep: byte): str
  {
    if s == [] || s[|s| - 1] == sep then s else s + [sep]
  }

  lemma ClosedAfter(one: str, sep: byte, rest: str)
    ensures Closed(one + [sep] + rest, sep) == one + [sep] + Closed(rest, sep)
  {
    var all := one + [sep] + rest;
    if rest == [] {
      assert all[|all| - 1] == sep;
    } else {
      assert all[|all| - 1] == rest[|rest| - 1];
    }
  }

  lemma JoinsAtSeparator(s: str, sep: byte, one: str, more: seq<str>)
    requires s != [] && s[0] == sep && Ended(more, sep) == Closed([] + s[1..], sep)
    ensures Ended([one] + more, sep) == Closed(one + s, sep)
  {
    assert [] + s[1..] == s[1..];
    EndedCons(one, more, sep);
    ClosedAfter(one, sep, s[1..]);
    assert one + s == one + [sep] + s[1..];
  }

  lemma {:induction false} ScanJoins(s: str, sep: byte, one: str)
    requires sep !in one
    ensures Ended(Scan(s, sep, one), sep) == Closed(one + s, sep)
    decreases s
  {
    if s == [] {
      assert one + s == one;
      if one != [] { EndOne(one, sep); }
    } else if s[0] == sep {
      ScanJoins(s[1..], sep, []);
      JoinsAtSeparator(s, sep, one, Scan(s[1..], sep, []));
    } else {
      ScanJoins(s[1..], sep, one + [s[0]]);
      assert one + s == (one + [s[0]]) + s[1..];
    }
  }

  lemma EndedCons(one: str, more: seq<str>, sep: byte)
    ensures Ended([one] + more, sep) == one + [sep] + Ended(more, sep)
  {
    assert ([one] + more)[1..] == more;
  }

  lemma EndOne(one: str, sep: byte)
    requires one != [] && sep !in one
    ensures Ended([one], sep) == Closed(one, sep)
  {
    assert one[|one| - 1] in one && [one][1..] == [];
    assert one + [sep] + [] == one + [sep];
  }

  lemma {:induction false} ScanSepFree(s: str, sep: byte, one: str)
    requires sep !in one
    ensures forall t :: t in Scan(s, sep, one) ==> sep !in t
    decreases s
  {
    if s == [] {
    } else if s[0] == sep {
      ScanSepFree(s[1..], sep, []);
    } else {
      ScanSepFree(s[1..], sep, one + [s[0]]);
    }
  }

  /** Split is undone by ending every token with the separator; no token holds the separator. */
  lemma TokensJoin(s: str, sep: byte)
    ensures Ended(Tokens(s, sep), sep) == Closed(s, sep)
    ensures forall t :: t in Tokens(s, sep) ==> sep !in t
  {
    ScanJoins(s, sep, []);
    ScanSepFree(s, sep, []);
    assert [] + s == s;
  }

  lemma {:induction false} ScanLine(line: str, sep: byte, rest: str, one: str)
    requires sep !in line
    ensures Scan(line + [sep] + rest, sep, one) == [one + line] + Tokens(rest, sep)
    decreases line
  {
    var all := line + [sep] + rest;
    if line == [] {
      assert all[1..] == rest && one + line == one;
    } else {
      ScanLine(line[1..], sep, rest, one + [line[0]]);
      assert all[1..] == line[1..] + [sep] + rest;
      assert one + [line[0]] + line[1..] == one + line;
    }
  }

  lemma TokensOfLine(line: str, sep: byte, rest: str)
    requires sep !in line
    ensures Tokens(line + [sep] + rest, sep) == [line] + Tokens(rest, sep)
  {
    ScanLine(line, sep, rest, []);
    assert [] + line == line;
  }
}
