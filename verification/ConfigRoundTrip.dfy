/** Saving a configuration and loading it again. */
module ConfigRoundTrip {
  import opened Bytes
  import opened Strings
  import opened Config

  // A name that survives: trimmed, on one line, not a comment.
  predicate GoodName(n: str)
  {
    n != [] && Tight(n) && n[0] != HASH && EQ !in n && NL !in n && NulFree(n) && |n| <= MAX_NAME_LEN
  }

  predicate GoodValue(v: str) { Tight(v) && NL !in v && NulFree(v) && |v| <= MAX_VALUE_LEN }

  // Whole lines, each of which the parser takes for a comment.
  ghost predicate GoodComment(c: str)
  {
    exists lines: seq<str> :: c == Ended(lines, NL) && CommentLines(lines)
  }

  predicate CommentLines(lines: seq<str>)
  {
    forall i :: 0 <= i < |lines| ==>
      NL !in lines[i] && NulFree(lines[i]) && IsComment(lines[i])
  }

  ghost predicate GoodComments(comments: map<str, str>) { forall n :: n in comments ==> GoodComment(comments[n]) }

  function Names(values: seq<Pair>): set<str>
  {
    if values == [] then {} else {values[0].0} + Names(values[1..])
  }

  // Good names, no two alike, with good values.
  predicate GoodPairs(values: seq<Pair>)
  {
    values != [] ==>
      && GoodName(values[0].0) && GoodValue(values[0].1)
      && values[0].0 !in Names(values[1..])
      && GoodPairs(values[1..])
  }

  ghost predicate Good(c: Conf) { GoodPairs(c.values) && GoodComments(c.comments) }

  // ---- one line, one comment, one parameter ----

  lemma ReadOneLine(r: Reading, line: str, rest: str)
    requires NL !in line
    ensures ReadText(r, line + [NL] + rest) == ReadText(ReadLine(r, line), rest)
  {
    TokensOfLine(line, NL, rest);
    var ts := Tokens(rest, NL);
    assert ([line] + ts)[1..] == ts;
  }

  lemma {:induction false} ReadComment(r: Reading, lines: seq<str>, rest: str)
    requires CommentLines(lines)
    ensures ReadText(r, Ended(lines, NL) + rest) == ReadText(r.(pending := r.pending + Ended(lines, NL)), rest)
    decreases |lines|
  {
    if lines == [] {
      assert [] + rest == rest && r.pending + [] == r.pending;
    } else {
      var more := Ended(lines[1..], NL);
      assert Ended(lines, NL) + rest == lines[0] + [NL] + (more + rest);
      ReadOneLine(r, lines[0], more + rest);
      var r1 := r.(pending := r.pending + lines[0] + [NL]);
      ReadComment(r1, lines[1..], rest);
      assert r1.pending + more == r.pending + Ended(lines, NL);
    }
  }

  lemma {:induction false} FirstEqOf(name: str, value: str)
    requires EQ !in name
    ensures FirstEq(name + [EQ] + value) == |name|
    decreases name
  {
    var line := name + [EQ] + value;
    if name != [] {
      FirstEqOf(name[1..], value);
      assert line[1..] == name[1..] + [EQ] + value;
    }
  }

  // What the parser makes of a printed parameter. An empty value is printed as a line that reads as a comment.
  function Again(r: Reading, comment: str, p: Pair): Reading
  {
    var above := r.pending + comment;
    if p.1 == [] then r.(pending := above + p.0 + [EQ] + [NL] + [NL])
    else AddPair(r.(pending := above), p.0, p.1).(pending := [NL])
  }

  lemma PairLine(name: str, value: str)
    requires GoodName(name) && GoodValue(value)
    ensures NL !in name + [EQ] + value
    ensures IsComment(name + [EQ] + value) <==> value == []
    ensures value != [] ==> SplitPair(name + [EQ] + value) == Some((name, value))
  {
    var line := name + [EQ] + value;
    FirstEqOf(name, value);
    assert line[..|name|] == name && line[|name| + 1..] == value;
  }

  lemma ReadPair(r: Reading, comment: str, p: Pair, rest: str)
    requires GoodName(p.0) && GoodValue(p.1) && GoodComment(comment)
    ensures ReadText(r, comment + (p.0 + [EQ] + p.1) + [NL] + [] + [NL] + rest) == ReadText(Again(r, comment, p), rest)
  {
    var lines :| comment == Ended(lines, NL) && CommentLines(lines);
    var line := p.0 + [EQ] + p.1;
    var tail := [] + [NL] + rest;
    assert comment + line + [NL] + [] + [NL] + rest == comment + (line + [NL] + tail);
    ReadComment(r, lines, line + [NL] + tail);
    var r1 := r.(pending := r.pending + comment);
    PairLine(p.0, p.1);
    ReadOneLine(r1, line, tail);
    var r2 := ReadLine(r1, line);
    ReadOneLine(r2, [], rest);
    if p.1 == [] {
      assert r1.pending + line + [NL] + [] + [NL] == r.pending + comment + p.0 + [EQ] + [NL] + [NL];
    } else {
      TightIsTrimmed(p.0);
      TightIsTrimmed(p.1);
      assert r2 == AddPair(r1, p.0, p.1);
      assert [] + [] + [NL] == [NL];
    }
  }

  function Agains(r: Reading, comments: map<str, str>, values: seq<Pair>): Reading
    decreases |values|
  {
    if values == [] then r else Agains(Again(r, CommentOf(comments, values[0].0), values[0]), comments, values[1..])
  }

  lemma EmptyIsGoodComment()
    ensures GoodComment([])
  {
    assert [] == Ended([], NL) && CommentLines([]);
  }

  lemma {:induction false} ReadPairs(r: Reading, comments: map<str, str>, values: seq<Pair>)
    requires GoodPairs(values) && GoodComments(comments)
    ensures ReadText(r, PrintPairs(comments, values)) == Agains(r, comments, values)
    decreases |values|
  {
    if values != [] {
      var p := values[0];
      var comment := CommentOf(comments, p.0);
      EmptyIsGoodComment();
      var rest := PrintPairs(comments, values[1..]);
      ReadPair(r, comment, p, rest);
      ReadPairs(Again(r, comment, p), comments, values[1..]);
    }
  }

  // ---- the round trip ----

  function NonEmpty(values: seq<Pair>): (r: seq<Pair>)
    ensures forall i :: 0 <= i < |r| ==> r[i] in values && r[i].1 != []
  {
    if values == [] then []
    else (if values[0].1 == [] then [] else [values[0]]) + NonEmpty(values[1..])
  }

  lemma {:induction false} AgainsValues(r: Reading, comments: map<str, str>, values: seq<Pair>)
    requires GoodPairs(values)
    ensures Agains(r, comments, values).conf.values == r.conf.values + NonEmpty(values)
    decreases |values|
  {
    if values == [] {
      assert r.conf.values + [] == r.conf.values;
    } else {
      var p := values[0];
      var r1 := Again(r, CommentOf(comments, p.0), p);
      AgainsValues(r1, comments, values[1..]);
      var ne := NonEmpty(values[1..]);
      if p.1 != [] {
        PairsAssoc(r.conf.values, [p], ne);
      } else {
        assert [] + ne == ne;
      }
    }
  }

  /** A saved and loaded configuration holds the parameters that have a value, in order. */
  lemma RoundTripValues(c: Conf)
    requires Good(c)
    ensures Parse(Print(c)).values == NonEmpty(c.values)
  {
    ReadPairs(NOTHING, c.comments, c.values);
    AgainsValues(NOTHING, c.comments, c.values);
    assert [] + NonEmpty(c.values) == NonEmpty(c.values);
  }

  lemma {:induction false} NonEmptyLookup(values: seq<Pair>, name: str)
    requires GoodPairs(values)
    ensures LookupOrEmpty(NonEmpty(values), name) == LookupOrEmpty(values, name)
    ensures name !in Names(values) ==> Lookup(NonEmpty(values), name).None?
    decreases |values|
  {
    if values != [] {
      var p := values[0];
      NonEmptyLookup(values[1..], name);
      var ne := NonEmpty(values[1..]);
      if p.1 == [] {
        assert [] + ne == ne;
      } else {
        assert ([p] + ne)[1..] == ne;
      }
    }
  }

  /** Every lookup that falls back to the empty string finds after the load what it found before the save. */
  lemma RoundTripLookups(c: Conf, name: str)
    requires Good(c)
    ensures LookupOrEmpty(Parse(Print(c)).values, name) == LookupOrEmpty(c.values, name)
  {
    RoundTripValues(c);
    NonEmptyLookup(c.values, name);
  }

  predicate AllSet(values: seq<Pair>)
  {
    values != [] ==> values[0].1 != [] && AllSet(values[1..])
  }

  lemma {:induction false} AllNonEmpty(values: seq<Pair>)
    requires AllSet(values)
    ensures NonEmpty(values) == values
    decreases |values|
  {
    if values != [] { AllNonEmpty(values[1..]); }
  }

  // What stands above a parameter after the load.
  function CommentAfter(c: Conf, name: str): str
    requires c.values != []
  {
    (if name == c.values[0].0 then [] else [NL]) + CommentOf(c.comments, name)
  }

  lemma {:induction false} AgainsComments(r: Reading, comments: map<str, str>, values: seq<Pair>, name: str)
    requires GoodPairs(values) && AllSet(values)
    requires forall n :: n in Names(values) ==> n !in r.conf.comments
    ensures var after := Agains(r, comments, values).conf.comments;
            CommentOf(after, name) ==
              if name !in Names(values) then CommentOf(r.conf.comments, name)
              else (if name == values[0].0 then r.pending else [NL]) + CommentOf(comments, name)
    decreases |values|
  {
    if values != [] {
      var p := values[0];
      AgainsComments(Again(r, CommentOf(comments, p.0), p), comments, values[1..], name);
    }
  }

  /**
   When every parameter has a value the load gives the same list back. The comment of the first parameter
   is unchanged; every later one has gained exactly one empty line in front.
   */
  lemma RoundTrip(c: Conf, name: str)
    requires Good(c) && AllSet(c.values) && name in Names(c.values)
    ensures Parse(Print(c)).values == c.values
    ensures CommentOf(Parse(Print(c)).comments, name) == CommentAfter(c, name)
  {
    RoundTripValues(c);
    AllNonEmpty(c.values);
    ReadPairs(NOTHING, c.comments, c.values);
    AgainsComments(NOTHING, c.comments, c.values, name);
  }

  // ---- what keeps a configuration good ----

  lemma {:induction false} EndedAppend(a: seq<str>, b: seq<str>)
    ensures Ended(a + b, NL) == Ended(a, NL) + Ended(b, NL)
    decreases |a|
  {
    if a == [] {
      assert a + b == b;
    } else {
      EndedAppend(a[1..], b);
      assert (a + b)[1..] == a[1..] + b;
      AppendAssoc(a[0] + [NL], Ended(a[1..], NL), Ended(b, NL));
    }
  }

  lemma AppendAssoc(a: str, b: str, c: str)
    ensures (a + b) + c == a + (b + c)
  {
  }

  lemma GoodCommentAppend(a: str, b: str)
    requires GoodComment(a) && GoodComment(b)
    ensures GoodComment(a + b)
  {
    var la :| a == Ended(la, NL) && CommentLines(la);
    var lb :| b == Ended(lb, NL) && CommentLines(lb);
    EndedAppend(la, lb);
    assert CommentLines(la + lb);
  }

  lemma GoodCommentLine(line: str)
    requires NL !in line && NulFree(line) && IsComment(line)
    ensures GoodComment(line + [NL])
  {
    assert [line][1..] == [] && line + [NL] + [] == line + [NL];
    assert line + [NL] == Ended([line], NL) && CommentLines([line]);
  }

  // A name printed without a value, and the empty line after it.
  lemma GoodCommentName(name: str)
    requires GoodName(name)
    ensures GoodComment(name + [EQ] + [NL] + [NL])
  {
    PairLine(name, []);
    assert name + [EQ] + [] == name + [EQ];
    GoodCommentLine(name + [EQ]);
    GoodCommentLine([]);
    assert [] + [NL] == [NL];
    GoodCommentAppend(name + [EQ] + [NL], [NL]);
  }

  lemma AgainGood(r: Reading, comment: str, p: Pair)
    requires GoodComments(r.conf.comments) && GoodComment(r.pending) && GoodComment(comment)
    requires GoodName(p.0) && GoodValue(p.1)
    ensures GoodComments(Again(r, comment, p).conf.comments) && GoodComment(Again(r, comment, p).pending)
  {
    GoodCommentAppend(r.pending, comment);
    if p.1 == [] {
      GoodCommentName(p.0);
      GoodCommentAppend(r.pending + comment, p.0 + [EQ] + [NL] + [NL]);
      assert (r.pending + comment) + (p.0 + [EQ] + [NL] + [NL]) == r.pending + comment + p.0 + [EQ] + [NL] + [NL];
    } else {
      GoodCommentLine([]);
      assert [] + [NL] == [NL];
    }
  }

  lemma {:induction false} AgainsGood(r: Reading, comments: map<str, str>, values: seq<Pair>)
    requires GoodPairs(values) && GoodComments(comments)
    requires GoodComments(r.conf.comments) && GoodComment(r.pending)
    ensures GoodComments(Agains(r, comments, values).conf.comments)
    decreases |values|
  {
    if values != [] {
      EmptyIsGoodComment();
      var p := values[0];
      var comment := CommentOf(comments, p.0);
      AgainGood(r, comment, p);
      AgainsGood(Again(r, comment, p), comments, values[1..]);
    }
  }

  lemma {:induction false} NonEmptyGood(values: seq<Pair>)
    requires GoodPairs(values)
    ensures GoodPairs(NonEmpty(values)) && Names(NonEmpty(values)) <= Names(values)
    decreases |values|
  {
    if values != [] {
      NonEmptyGood(values[1..]);
      var ne := NonEmpty(values[1..]);
      if values[0].1 == [] {
        assert [] + ne == ne;
      } else {
        assert ([values[0]] + ne)[1..] == ne;
      }
    }
  }

  /** What a load gives back can be saved and loaded again. */
  lemma ParseKeepsGood(c: Conf)
    requires Good(c)
    ensures Good(Parse(Print(c)))
  {
    RoundTripValues(c);
    NonEmptyGood(c.values);
    ReadPairs(NOTHING, c.comments, c.values);
    EmptyIsGoodComment();
    AgainsGood(NOTHING, c.comments, c.values);
  }

  lemma {:induction false} PrintNulFree(comments: map<str, str>, values: seq<Pair>)
    requires GoodPairs(values) && GoodComments(comments)
    ensures NulFree(PrintPairs(comments, values))
    decreases |values|
  {
    if values != [] {
      EmptyIsGoodComment();
      CommentNulFree(CommentOf(comments, values[0].0));
      PrintNulFree(comments, values[1..]);
    }
  }

  lemma CommentNulFree(c: str)
    requires GoodComment(c)
    ensures NulFree(c)
  {
    var lines :| c == Ended(lines, NL) && CommentLines(lines);
    EndedNulFree(lines);
  }

  lemma {:induction false} EndedNulFree(lines: seq<str>)
    requires CommentLines(lines)
    ensures NulFree(Ended(lines, NL))
    decreases |lines|
  {
    if lines != [] { EndedNulFree(lines[1..]); }
  }

  lemma {:induction false} StoredLookup(values: seq<Pair>, name: str, value: str, other: str)
    ensures Lookup(Stored(values, name, value), other) == if other == name then Some(value) else Lookup(values, other)
    decreases |values|
  {
    if values != [] && values[0].0 != name {
      StoredLookup(values[1..], name, value, other);
    }
  }

  lemma {:induction false} StoredGood(values: seq<Pair>, name: str, value: str)
    requires GoodPairs(values) && GoodName(name) && GoodValue(value)
    ensures GoodPairs(Stored(values, name, value)) && Names(Stored(values, name, value)) == Names(values) + {name}
    decreases |values|
  {
    if values != [] && values[0].0 != name { StoredGood(values[1..], name, value); }
  }

  /** Setting a parameter to anything on one line keeps the configuration fit for a save and a load. */
  lemma SetKeepsGood(c: Conf, name: str, value: str)
    requires Good(c) && GoodName(name) && NL !in value && NulFree(value) && |Trimmed(value)| <= MAX_VALUE_LEN
    ensures Good(c.(values := Stored(c.values, name, Trimmed(value))))
  {
    var left, right := TrimmedIsTight(value);
    assert forall i :: 0 <= i < |Trimmed(value)| ==> Trimmed(value)[i] == value[|left| + i];
    StoredGood(c.values, name, Trimmed(value));
  }
}
