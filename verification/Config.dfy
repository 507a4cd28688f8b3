/** The configuration file: parsing, printing and lookups, and what survives a save and a load. */
module Config {
  import opened Bytes
  import opened Strings

  const MAX_NAME_LEN := 128
  const MAX_VALUE_LEN := 1024

  const NL: byte := 10
  const HASH: byte := 35
  const EQ: byte := 61

  type Pair = (str, str)

  // The parameters in file order and the comment above each; `pending` is the comment read so far.
  datatype Conf = Conf(values: seq<Pair>, comments: map<str, str>)
  datatype Reading = Reading(conf: Conf, pending: str)

  // ---- parsing ----

  function FirstEq(line: str): (n: nat)
    ensures n <= |line| && EQ !in line[..n] && (n < |line| ==> line[n] == EQ)
  {
    if line == [] || line[0] == EQ then 0
    else
      var k := FirstEq(line[1..]);
      assert line[..k + 1] == [line[0]] + line[1..][..k];
      k + 1
  }

  // No pair without '=', or with '=' as the first or the last byte.
  function SplitPair(line: str): Option<Pair>
  {
    var n := FirstEq(line);
    if n == |line| || n + 1 == |line| || n == 0 then None else Some((line[..n], line[n + 1..]))
  }

  predicate IsComment(line: str) { line == [] || line[0] == HASH || SplitPair(line).None? }

  function AddPair(r: Reading, name: str, value: str): Reading
  {
    if |name| > MAX_NAME_LEN || |value| > MAX_VALUE_LEN then r.(pending := [])
    else
      Reading(
        Conf(r.conf.values + [(name, value)],
             if r.pending == [] || name in r.conf.comments then r.conf.comments
             else r.conf.comments[name := r.pending]),
        [])
  }

  function ReadLine(r: Reading, line: str): Reading
  {
    if IsComment(line) then r.(pending := r.pending + line + [NL])
    else
      var pair := SplitPair(line).value;
      AddPair(r, Trimmed(pair.0), Trimmed(pair.1))
  }

  function ReadLines(r: Reading, lines: seq<str>): Reading
    decreases |lines|
  {
    if lines == [] then r else ReadLines(ReadLine(r, lines[0]), lines[1..])
  }

  function ReadText(r: Reading, text: str): Reading { ReadLines(r, Tokens(text, NL)) }

  const NOTHING := Reading(Conf([], map[]), [])

  function Parse(text: str): Conf { ReadText(NOTHING, text).conf }

  // ---- printing ----

  function CommentOf(comments: map<str, str>, name: str): str
  {
    if name in comments then comments[name] else []
  }

  function PrintPair(comments: map<str, str>, p: Pair): str
  {
    CommentOf(comments, p.0) + (p.0 + [EQ] + p.1) + [NL] + [] + [NL]
  }

  function PrintPairs(comments: map<str, str>, values: seq<Pair>): str
  {
    if values == [] then [] else PrintPair(comments, values[0]) + PrintPairs(comments, values[1..])
  }

  // One turn of the printing loop.
  lemma Printed(before: str, comments: map<str, str>, values: seq<Pair>, i: nat, out: str)
    requires i < |values|
    requires var (name, value) := values[i];
             out == (if name in comments then before + comments[name] else before) + name + [EQ] + value + [NL] + [NL]
    ensures out + PrintPairs(comments, values[i + 1..]) == before + PrintPairs(comments, values[i..])
  {
    var p := PrintPair(comments, values[i]);
    assert out == before + p;
    assert values[i..][0] == values[i] && values[i..][1..] == values[i + 1..];
    var rest := PrintPairs(comments, values[i + 1..]);
    assert (before + p) + rest == before + (p + rest);
  }

  function Print(c: Conf): str { PrintPairs(c.comments, c.values) }

  // ---- lookups ----

  function Lookup(values: seq<Pair>, name: str): Option<str>
  {
    if values == [] then None
    else if values[0].0 == name then Some(values[0].1)
    else Lookup(values[1..], name)
  }

  // A caller that keeps its empty string when nothing is found.
  function LookupOrEmpty(values: seq<Pair>, name: str): str
  {
    match Lookup(values, name) case Some(v) => v case None => []
  }

  function Stored(values: seq<Pair>, name: str, value: str): (r: seq<Pair>)
  {
    if values == [] then [(name, value)]
    else if values[0].0 == name then [(name, value)] + values[1..]
    else [values[0]] + Stored(values[1..], name, value)
  }

  predicate Absent(values: seq<Pair>, name: str)
  {
    forall i :: 0 <= i < |values| ==> values[i].0 != name
  }

  /** A new name goes to the end. */
  lemma {:induction false} StoredAtEnd(values: seq<Pair>, name: str, value: str)
    requires Absent(values, name)
    ensures Stored(values, name, value) == values + [(name, value)]
    decreases |values|
  {
    if values != [] {
      StoredAtEnd(values[1..], name, value);
      assert values == [values[0]] + values[1..];
    }
  }

  /** Of several parameters of one name the first is changed, where it stands. */
  lemma {:induction false} StoredAtFirst(values: seq<Pair>, name: str, value: str, i: nat)
    requires i < |values| && values[i].0 == name && Absent(values[..i], name)
    ensures Stored(values, name, value) == values[i := (name, value)]
    decreases |values|
  {
    if i > 0 {
      assert values[..i][0] == values[0];
      assert values[1..][..i - 1] == values[..i][1..];
      StoredAtFirst(values[1..], name, value, i - 1);
      assert values == [values[0]] + values[1..];
    }
  }

  // One turn of the loop of SetValue.
  lemma StoredStep(values: seq<Pair>, name: str, value: str, i: nat)
    requires i < |values|
    ensures values[..i] + Stored(values[i..], name, value)
            == if values[i].0 == name then values[i := (name, value)]
               else values[..i + 1] + Stored(values[i + 1..], name, value)
  {
    var before, more := values[..i], values[i + 1..];
    assert values[i..] == [values[i]] + more && ([values[i]] + more)[1..] == more;
    if values[i].0 == name {
      assert before + ([(name, value)] + more) == values[i := (name, value)];
    } else {
      assert values[..i + 1] == before + [values[i]];
      PairsAssoc(before, [values[i]], Stored(more, name, value));
    }
  }

  lemma PairsAssoc(a: seq<Pair>, b: seq<Pair>, c: seq<Pair>)
    ensures (a + b) + c == a + (b + c)
  {
  }

  class CConfig {
    var values: seq<Pair>
    var comments: map<str, str>

    function Content(): Conf
      reads this
    {
      Conf(values, comments)
    }

    constructor ()
      ensures Content() == NOTHING.conf
    {
      values, comments := [], map[];
    }

    method FromString(data: Text) returns (n: nat)
      modifies this
      ensures Content() == Parse(data) && n == |values|
    {
      values, comments := [], map[];
      var tokens := Tokens(data, NL);
      if tokens == [] { return 0; }
      var pending: str := [];
      var i := 0;
      assert tokens[0..] == tokens;
      while i < |tokens|
        invariant 0 <= i <= |tokens|
        invariant ReadLines(Reading(Content(), pending), tokens[i..]) == ReadText(NOTHING, data)
      {
        var line := tokens[i];
        assert tokens[i..][0] == line && tokens[i..][1..] == tokens[i + 1..];
        ghost var before := Reading(Content(), pending);
        i := i + 1;
        if line == [] {
          pending := pending + [NL];
        } else if line[0] == HASH {
          pending := pending + line + [NL];
        } else {
          match SplitPair(line)
          case None => pending := pending + line + [NL];
          case Some(pair) =>
            var name, value := Trimmed(pair.0), Trimmed(pair.1);
            if |name| > MAX_NAME_LEN || |value| > MAX_VALUE_LEN {
              pending := [];
            } else {
              values := values + [(name, value)];
              if pending != [] && name !in comments { comments := comments[name := pending]; }
              pending := [];
            }
        }
        assert Reading(Content(), pending) == ReadLine(before, line);
      }
      n := |values|;
    }

    method ToString() returns (out: str)
      ensures out == Print(Content())
    {
      out := [];
      var i := 0;
      assert values[0..] == values && [] + PrintPairs(comments, values) == PrintPairs(comments, values);
      while i < |values|
        invariant 0 <= i <= |values|
        invariant out + PrintPairs(comments, values[i..]) == Print(Content())
      {
        var (name, value) := values[i];
        ghost var before := out;
        if name in comments { out := out + comments[name]; }
        out := out + name;
        out := out + [EQ];
        out := out + value;
        out := out + [NL];
        out := out + [NL];
        Printed(before, comments, values, i, out);
        i := i + 1;
      }
    }

    method GetValue(name: str) returns (r: Option<str>)
      ensures r == Lookup(values, name)
      ensures r.None? <==> forall i :: 0 <= i < |values| ==> values[i].0 != name
      ensures r.Some? ==> exists i :: 0 <= i < |values| && values[i] == (name, r.value)
                                      && forall j :: 0 <= j < i ==> values[j].0 != name
    {
      var i := 0;
      assert values[0..] == values;
      while i < |values|
        invariant 0 <= i <= |values|
        invariant Lookup(values[i..], name) == Lookup(values, name)
        invariant forall j :: 0 <= j < i ==> values[j].0 != name
      {
        assert values[i..][1..] == values[i + 1..];
        if values[i].0 == name { return Some(values[i].1); }
        i := i + 1;
      }
      return None;
    }

    method SetValue(name: str, value: str) returns (ok: bool)
      modifies this`values
      ensures ok == (|name| <= MAX_NAME_LEN && |Trimmed(value)| <= MAX_VALUE_LEN)
      ensures values == if ok then Stored(old(values), name, Trimmed(value)) else old(values)
    {
      var v := Trimmed(value);
      if |name| > MAX_NAME_LEN || |v| > MAX_VALUE_LEN { return false; }
      var i := 0;
      assert values[0..] == values && [] + Stored(values, name, v) == Stored(values, name, v);
      while i < |values|
        invariant 0 <= i <= |values| && values == old(values)
        invariant Stored(values, name, v) == values[..i] + Stored(values[i..], name, v)
      {
        StoredStep(values, name, v, i);
        if values[i].0 == name {
          values := values[i := (name, v)];
          return true;
        }
        i := i + 1;
      }
      assert values[..i] == values && values[i..] == [];
      values := values + [(name, v)];
      ok := true;
    }
  }
}
