/** What the text of a configuration file means, byte by byte: white space, '=', '#' and new lines. */
module ConfigText {
  import opened Bytes
  import opened Strings
  import opened Config

  // Tab, vertical tab, form feed, carriage return and space.
  predicate Blank(s: str) { forall i :: 0 <= i < |s| ==> s[i] in {9, 11, 12, 13, 32} }

  // Starts and ends with a visible byte.
  predicate Word(s: str)
  {
    s != [] && s[0] !in {9, 10, 11, 12, 13, 32} && s[|s| - 1] !in {9, 10, 11, 12, 13, 32}
  }

  lemma {:induction false} TrimRightOf(s: str, b: str)
    requires Blank(b) && (s == [] || Word(s))
    ensures TrimmedRight(s + b) == s
    decreases |b|
  {
    if b == [] {
      assert s + b == s;
    } else {
      assert (s + b)[..|s + b| - 1] == s + b[..|b| - 1];
      TrimRightOf(s, b[..|b| - 1]);
    }
  }

  lemma {:induction false} BlankVanishes(a: str)
    requires Blank(a)
    ensures TrimmedLeft(a) == []
    decreases |a|
  {
    if a != [] { BlankVanishes(a[1..]); }
  }

  /** White space around a word goes, and nothing else. */
  lemma TrimsToWord(a: str, s: str, b: str)
    requires Blank(a) && Blank(b) && (s == [] || Word(s))
    ensures Trimmed(a + s + b) == s
  {
    if s == [] {
      assert a + s + b == a + b;
      BlankVanishes(a + b);
    } else {
      assert a + s + b == a + (s + b);
      LeftKeeps(a, s, b);
      TrimRightOf(s, b);
    }
  }

  lemma {:induction false} LeftKeeps(a: str, s: str, b: str)
    requires Blank(a) && Word(s)
    ensures TrimmedLeft(a + (s + b)) == s + b
    decreases |a|
  {
    if a == [] {
      assert a + (s + b) == s + b;
    } else {
      assert (a + (s + b))[1..] == a[1..] + (s + b);
      LeftKeeps(a[1..], s, b);
    }
  }

  lemma {:induction false} FirstEqAt(p: str, q: str)
    requires 61 !in p
    ensures FirstEq(p + [61] + q) == |p|
    decreases |p|
  {
    if p != [] {
      assert (p + [61] + q)[1..] == p[1..] + [61] + q;
      FirstEqAt(p[1..], q);
    }
  }

  lemma ReadOne(r: Reading, line: str)
    requires 10 !in line
    ensures ReadText(r, line + [10]) == ReadLine(r, line)
  {
    TokensOfLine(line, NL, []);
    assert line + [10] == line + [NL] + [];
    assert [line][1..] == [];
    assert ReadLines(r, [line]) == ReadLines(ReadLine(r, line), []);
  }

  // The line `name = value` with white space wherever it may stand.
  lemma PairMeans(r: Reading, a: str, name: str, b: str, c: str, value: str, d: str)
    requires Blank(a) && Blank(b) && Blank(c) && Blank(d)
    requires Word(name) && 61 !in name && 10 !in name && (a == [] ==> name[0] != 35) && |name| <= 128
    requires (Word(value) || (value == [] && c + d != [])) && 10 !in value && |value| <= 1024
    ensures ReadLine(r, a + name + b + [61] + c + value + d).conf.values == r.conf.values + [(name, value)]
    ensures ReadLine(r, a + name + b + [61] + c + value + d).pending == []
    ensures r.pending == [] || name in r.conf.comments ==>
              ReadLine(r, a + name + b + [61] + c + value + d).conf.comments == r.conf.comments
  {
    var p, q := a + name + b, c + value + d;
    var line := a + name + b + [61] + c + value + d;
    assert line == p + [61] + q;
    FirstEqAt(p, q);
    assert line[..|p|] == p && line[|p| + 1..] == q;
    assert p[0] == if a == [] then name[0] else a[0];
    TrimsToWord(a, name, b);
    TrimsToWord(c, value, d);
  }

  /**
   A line with a name, '=' and a value sets that parameter: white space around name and value is not part of
   them, everything else is.
   */
  lemma PairIsRead(a: str, name: str, b: str, c: str, value: str, d: str)
    requires Blank(a) && Blank(b) && Blank(c) && Blank(d)
    requires Word(name) && 61 !in name && 10 !in name && (a == [] ==> name[0] != 35) && |name| <= 128
    requires (Word(value) || (value == [] && c + d != [])) && 10 !in value && |value| <= 1024
    ensures Parse(a + name + b + [61] + c + value + d + [10]) == Conf([(name, value)], map[])
  {
    var line := a + name + b + [61] + c + value + d;
    assert 10 !in line;
    ReadOne(NOTHING, line);
    PairMeans(NOTHING, a, name, b, c, value, d);
  }

  /** A name of more than 128 bytes or a value of more than 1024 sets nothing. */
  lemma OverlongIsDropped(name: str, value: str)
    requires Word(name) && Word(value) && 61 !in name && 10 !in name && 10 !in value && name[0] != 35
    requires |name| > 128 || |value| > 1024
    ensures Parse(name + [61] + value + [10]) == Conf([], map[])
  {
    var line := name + [61] + value;
    ReadOne(NOTHING, line);
    FirstEqAt(name, value);
    assert line[..|name|] == name && line[|name| + 1..] == value;
    TrimsToWord([], name, []);
    TrimsToWord([], value, []);
    assert [] + name + [] == name && [] + value + [] == value;
  }

  lemma {:induction false} NoEq(line: str)
    requires 61 !in line
    ensures FirstEq(line) == |line|
    decreases |line|
  {
    if line != [] { NoEq(line[1..]); }
  }

  // A line that is kept as a comment for the parameter below it.
  predicate Remark(line: str)
  {
    10 !in line && (line == [] || line[0] == 35 || 61 !in line || line[0] == 61 || FirstEq(line) == |line| - 1)
  }

  lemma RemarkIsKept(r: Reading, line: str)
    requires Remark(line)
    ensures ReadLine(r, line) == r.(pending := r.pending + line + [10])
  {
    if 61 !in line { NoEq(line); }
  }

  /** A line that starts with '#', whatever else is in it, sets nothing; neither does one without '='. */
  lemma RemarkSetsNothing(s: str)
    requires 10 !in s
    ensures Parse([35] + s + [10]).values == []
    ensures 61 !in s ==> Parse(s + [10]).values == []
  {
    ReadOne(NOTHING, [35] + s);
    RemarkIsKept(NOTHING, [35] + s);
    if 61 !in s {
      ReadOne(NOTHING, s);
      RemarkIsKept(NOTHING, s);
    }
  }

  lemma ReadNext(r: Reading, line: str, rest: str)
    requires 10 !in line
    ensures ReadText(r, line + [10] + rest) == ReadText(ReadLine(r, line), rest)
  {
    TokensOfLine(line, NL, rest);
    assert ([line] + Tokens(rest, NL))[1..] == Tokens(rest, NL);
  }

  lemma {:induction false} ValuesAddUp(r: Reading, lines: seq<str>)
    ensures ReadLines(r, lines).conf.values
            == r.conf.values + ReadLines(Reading(Conf([], r.conf.comments), r.pending), lines).conf.values
    decreases |lines|
  {
    if lines != [] {
      var q := Reading(Conf([], r.conf.comments), r.pending);
      var r1, q1 := ReadLine(r, lines[0]), ReadLine(q, lines[0]);
      ValuesAddUp(r1, lines[1..]);
      ValuesAddUp(q1, lines[1..]);
    }
  }

  /** What follows a parameter line is read as if it stood alone: the parameters come in the order of the file. */
  lemma FileIsReadInOrder(name: str, value: str, rest: str)
    requires Word(name) && 61 !in name && 10 !in name && name[0] != 35 && |name| <= 128
    requires Word(value) && 10 !in value && |value| <= 1024
    ensures Parse(name + [61] + value + [10] + rest).values == [(name, value)] + Parse(rest).values
  {
    var line := name + [61] + value;
    ReadNext(NOTHING, line, rest);
    assert [] + name + [] + [61] + [] + value + [] == line;
    PairMeans(NOTHING, [], name, [], [], value, []);
    var r := ReadLine(NOTHING, line);
    ValuesAddUp(r, Tokens(rest, NL));
    SameValues(Reading(Conf([], r.conf.comments), []), NOTHING, Tokens(rest, NL));
  }

  // Comments do not matter for the values.
  lemma {:induction false} SameValues(r: Reading, q: Reading, lines: seq<str>)
    requires r.conf.values == q.conf.values
    ensures ReadLines(r, lines).conf.values == ReadLines(q, lines).conf.values
    decreases |lines|
  {
    if lines != [] { SameValues(ReadLine(r, lines[0]), ReadLine(q, lines[0]), lines[1..]); }
  }

  /** A comment belongs to the parameter below it. */
  lemma CommentIsKept(s: str, name: str, value: str)
    requires 10 !in s && Word(name) && 61 !in name && 10 !in name && name[0] != 35 && |name| <= 128
    requires Word(value) && 10 !in value && |value| <= 1024
    ensures Parse([35] + s + [10] + name + [61] + value + [10]).comments == map[name := [35] + s + [10]]
  {
    var line := name + [61] + value;
    assert [35] + s + [10] + name + [61] + value + [10] == ([35] + s) + [10] + (line + [10]);
    ReadNext(NOTHING, [35] + s, line + [10]);
    RemarkIsKept(NOTHING, [35] + s);
    var r := Reading(Conf([], map[]), [35] + s + [10]);
    assert [] + ([35] + s) + [10] == [35] + s + [10];
    ReadOne(r, line);
    CommentedPair(r, name, value);
  }

  /** A parameter that comes again keeps its first comment. */
  lemma FirstCommentStays(s: str, name: str, value: str, t: str, more: str)
    requires 10 !in s && 10 !in t && Word(name) && 61 !in name && 10 !in name && name[0] != 35 && |name| <= 128
    requires Word(value) && 10 !in value && |value| <= 1024 && Word(more) && 10 !in more && |more| <= 1024
    ensures var first := [35] + s + [10] + name + [61] + value + [10];
            var again := [35] + t + [10] + name + [61] + more + [10];
            Parse(first + again) == Conf([(name, value), (name, more)], map[name := [35] + s + [10]])
  {
    var l1, l2 := name + [61] + value, name + [61] + more;
    var first := [35] + s + [10] + name + [61] + value + [10];
    var again := [35] + t + [10] + name + [61] + more + [10];
    assert first + again == ([35] + s) + [10] + (l1 + [10] + again);
    assert again == ([35] + t) + [10] + (l2 + [10]);
    ReadNext(NOTHING, [35] + s, l1 + [10] + again);
    RemarkIsKept(NOTHING, [35] + s);
    var r1 := Reading(Conf([], map[]), [35] + s + [10]);
    assert [] + ([35] + s) + [10] == [35] + s + [10];
    ReadNext(r1, l1, again);
    CommentedPair(r1, name, value);
    assert [] + [(name, value)] == [(name, value)] && map[][name := r1.pending] == map[name := r1.pending];
    var r2 := Reading(Conf([(name, value)], map[name := [35] + s + [10]]), []);
    ReadNext(r2, [35] + t, l2 + [10]);
    RemarkIsKept(r2, [35] + t);
    var r3 := ReadLine(r2, [35] + t);
    ReadOne(r3, l2);
    assert r3.pending != [];
    CommentedPair(r3, name, more);
    assert [(name, value)] + [(name, more)] == [(name, value), (name, more)];
  }

  lemma PlainParts(name: str, value: str)
    requires Word(name) && Word(value) && 61 !in name
    ensures var line := name + [61] + value;
            && line[0] == name[0] && FirstEq(line) == |name| && FirstEq(line) < |line|
            && Trimmed(line[..|name|]) == name && Trimmed(line[|name| + 1..]) == value
  {
    var line := name + [61] + value;
    FirstEqAt(name, value);
    assert line[..|name|] == name && line[|name| + 1..] == value;
    TrimsToWord([], name, []);
    TrimsToWord([], value, []);
    assert [] + name + [] == name && [] + value + [] == value;
  }

  lemma CommentedPair(r: Reading, name: str, value: str)
    requires Word(name) && 61 !in name && 10 !in name && name[0] != 35 && |name| <= 128
    requires Word(value) && 10 !in value && |value| <= 1024 && r.pending != []
    ensures ReadLine(r, name + [61] + value)
            == Reading(Conf(r.conf.values + [(name, value)],
                            if name in r.conf.comments then r.conf.comments
                            else r.conf.comments[name := r.pending]),
                       [])
  {
    PlainParts(name, value);
  }
}
