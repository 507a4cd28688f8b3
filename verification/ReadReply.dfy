/** The reply to a read: the server's line of fields and text, and the client's parser. */
module ReadReply {
  import opened Bytes
  import opened Strings

  const SEP: str := [93, 64, 64, 93]    // ]@@]
  const BRACKET: byte := 93

  datatype Message = Message(status: str, time: str, from: str, text: str) | InvalidLine

  // The server's line.
  function Line(status: str, time: str, from: str, text: str): str
  {
    status + SEP + (time + SEP + (from + SEP + text))
  }

  // The pieces between the separators, found from the left.
  function Pieces(s: str): (r: seq<str>)
    ensures r != []
  {
    if |s| < |SEP| then [s]
    else if s[..|SEP|] == SEP then [[]] + Pieces(s[|SEP|..])
    else
      var more := Pieces(s[1..]);
      [[s[0]] + more[0]] + more[1..]
  }

  // Java's split drops the empty pieces at the end.
  function DropEmpty(pieces: seq<str>): (r: seq<str>)
    ensures r <= pieces && (r == [] || r[|r| - 1] != [])
  {
    if pieces != [] && pieces[|pieces| - 1] == [] then DropEmpty(pieces[..|pieces| - 1]) else pieces
  }

  function Split(s: str): seq<str> { DropEmpty(Pieces(s)) }

  // Nothing but separators, any number of them.
  predicate SepRun(s: str) { s == [] || (|s| >= |SEP| && s[..|SEP|] == SEP && SepRun(s[|SEP|..])) }

  // ---- the scan ----

  lemma PrependLeftmost(s: str, ps: seq<str>)
    requires |s| >= |SEP| && s[..|SEP|] != SEP && ps != [] && Leftmost(s[1..], SEP, ps)
    ensures Leftmost(s, SEP, [[s[0]] + ps[0]] + ps[1..])
  {
    ShiftLeftmost(s, SEP, ps);
  }

  /** The pieces are the text cut at the leftmost, non-overlapping separators. */
  lemma {:induction false} PiecesAreLeftmost(s: str)
    ensures Leftmost(s, SEP, Pieces(s)) && Join(Pieces(s), SEP) == s
    decreases |s|
  {
    if |s| >= |SEP| {
      if s[..|SEP|] == SEP {
        PiecesAreLeftmost(s[|SEP|..]);
        AtSeparator(s, Pieces(s[|SEP|..]));
      } else {
        PiecesAreLeftmost(s[1..]);
        PrependLeftmost(s, Pieces(s[1..]));
      }
    }
    LeftmostJoins(s, SEP, Pieces(s));
  }

  lemma AtSeparator(s: str, ps: seq<str>)
    requires |s| >= |SEP| && s[..|SEP|] == SEP && ps != [] && Leftmost(s[|SEP|..], SEP, ps)
    ensures Leftmost(s, SEP, [[]] + ps)
  {
    var qs: seq<str> := [[]] + ps;
    assert qs[1..] == ps && qs[0] + SEP == SEP;
  }

  lemma SplitFits(line: str)
    ensures var ts := Split(line);
            |ts| > 3 ==> |ts[0]| + |ts[1]| + |ts[2]| + 3 * |SEP| <= |line|
  {
    var ps := Pieces(line);
    PiecesAreLeftmost(line);
    if |Split(line)| > 3 {
      assert ps[1..][0] == ps[1] && ps[1..][1..] == ps[2..] && ps[2..][0] == ps[2] && ps[2..][1..] == ps[3..];
      assert |Join(ps, SEP)| == |ps[0]| + 4 + |Join(ps[1..], SEP)|;
      assert |Join(ps[1..], SEP)| == |ps[1]| + 4 + |Join(ps[2..], SEP)|;
      assert |Join(ps[2..], SEP)| == |ps[2]| + 4 + |Join(ps[3..], SEP)|;
    }
  }

  function Parse(line: str): Message
  {
    var tokens := Split(line);
    if |tokens| < 3 then InvalidLine
    else
      SplitFits(line);
      Message(tokens[0], tokens[1], tokens[2],
              if |tokens| == 3 then []
              else line[|tokens[0]| + |tokens[1]| + |tokens[2]| + 3 * |SEP|..])
  }

  // A field without a bracket is a piece of its own.
  lemma {:induction false} FieldPiece(field: str, rest: str)
    requires BRACKET !in field
    ensures Pieces(field + SEP + rest) == [field] + Pieces(rest)
    decreases |field|
  {
    var s := field + SEP + rest;
    if field == [] {
      assert s[..|SEP|] == SEP && s[|SEP|..] == rest;
    } else {
      FieldPiece(field[1..], rest);
      assert s[1..] == field[1..] + SEP + rest;
      assert s[..|SEP|][0] != SEP[0];
      assert [field[0]] + field[1..] == field;
      assert ([field[1..]] + Pieces(rest))[1..] == Pieces(rest);
    }
  }

  lemma LinePieces(status: str, time: str, from: str, text: str)
    requires BRACKET !in status && BRACKET !in time && BRACKET !in from
    ensures Pieces(Line(status, time, from, text)) == [status, time, from] + Pieces(text)
  {
    FieldPiece(status, time + SEP + (from + SEP + text));
    FieldPiece(time, from + SEP + text);
    FieldPiece(from, text);
    assert [status] + ([time] + ([from] + Pieces(text))) == [status, time, from] + Pieces(text);
  }

  predicate AllEmpty(ps: seq<str>) { forall i :: 0 <= i < |ps| ==> ps[i] == [] }

  lemma {:induction false} EmptyPieces(s: str)
    ensures AllEmpty(Pieces(s)) <==> SepRun(s)
    decreases |s|
  {
    if |s| < |SEP| {
      assert Pieces(s)[0] == s;
    } else if s[..|SEP|] == SEP {
      EmptyPieces(s[|SEP|..]);
      var more := Pieces(s[|SEP|..]);
      assert forall i :: 0 <= i < |more| ==> more[i] == ([[]] + more)[i + 1];
    } else {
      assert Pieces(s)[0] != [];
    }
  }

  lemma {:induction false} DropEmptyAfter(first: seq<str>, more: seq<str>)
    requires first != [] && first[|first| - 1] != []
    ensures AllEmpty(more) ==> DropEmpty(first + more) == first
    ensures !AllEmpty(more) ==> |DropEmpty(first + more)| > |first| && first <= DropEmpty(first + more)
    decreases |more|
  {
    var all := first + more;
    if more == [] {
      assert all == first;
    } else {
      var n := |more| - 1;
      assert all[..|all| - 1] == first + more[..n];
      if more[n] == [] {
        DropEmptyAfter(first, more[..n]);
        assert AllEmpty(more) <==> AllEmpty(more[..n]);
      }
    }
  }

  // ---- the round trip ----

  /**
   The client gets the three fields back, and the text exactly, unless the text is a non-empty run of bare
   separators: then it gets the empty text. A text that merely contains the separator survives.
   */
  lemma ReadRoundTrip(status: str, time: str, from: str, text: str)
    requires BRACKET !in status && BRACKET !in time && BRACKET !in from && from != []
    ensures Parse(Line(status, time, from, text)) == Message(status, time, from, if SepRun(text) then [] else text)
    ensures Parse(Line(status, time, from, text)).text == text <==> text == [] || !SepRun(text)
  {
    SplitIs(status, time, from, text);
    LineEnd(status, time, from, text);
    SplitFits(Line(status, time, from, text));
  }

  lemma SplitIs(status: str, time: str, from: str, text: str)
    requires BRACKET !in status && BRACKET !in time && BRACKET !in from && from != []
    ensures var tokens := Split(Line(status, time, from, text));
            && |tokens| >= 3 && tokens[0] == status && tokens[1] == time && tokens[2] == from
            && (|tokens| == 3 <==> SepRun(text))
  {
    var first := [status, time, from];
    LinePieces(status, time, from, text);
    EmptyPieces(text);
    DropEmptyAfter(first, Pieces(text));
    var tokens := Split(Line(status, time, from, text));
    assert first <= tokens && tokens[0] == first[0] && tokens[1] == first[1] && tokens[2] == first[2];
  }

  lemma LineEnd(status: str, time: str, from: str, text: str)
    ensures var n := |status| + |time| + |from| + 12;
            n <= |Line(status, time, from, text)| && Line(status, time, from, text)[n..] == text
  {
  }

  /** The line as it goes over the wire: the four parts with ]@@] between them. */
  lemma LineLayout(status: str, time: str, from: str, text: str)
    ensures Line(status, time, from, text)
            == status + [93, 64, 64, 93] + time + [93, 64, 64, 93] + from + [93, 64, 64, 93] + text
  {
    var s: str := [93, 64, 64, 93];
    assert Line(status, time, from, text) == status + s + time + s + from + s + text;
  }
}
