/** Over every run the cached account, a freshly loaded one and the true pin and token give the same verdicts. */
module AccountRuns {
  import opened Bytes
  import opened Strings
  import opened Config
  import opened ConfigRoundTrip
  import opened Account

  datatype Op =
    | OpChange(pin: str, newPin: str, guid: str)
    | OpNewToken(guid: str)
    | OpDeleteToken
    | OpCheck(pin: str, send: bool)
    | OpEvict      // the account leaves the cache; the next use loads it again

  // The cached account and its configuration file.
  datatype State = State(acc: Acc, text: str)

  // What a user would say the pin and the token are.
  datatype Truth = Truth(pin: str, token: str)

  predicate GoodOp(op: Op)
  {
    && (op.OpChange? ==> GoodGuid(op.guid))
    && (op.OpNewToken? ==> GoodGuid(op.guid))
  }

  function Start(c: Cipher, pin: str, guid: str): State
  {
    var a := Created(c, pin, guid);
    State(a, Print(a.conf))
  }

  function Step(c: Cipher, s: State, op: Op): State
  {
    match op
    case OpChange(pin, newPin, guid) =>
      // the limits are checked before the account is touched
      if !GoodPin(pin) || !GoodPin(newPin) then s
      else
        var b := Check(c, s.acc, pin, false);
        var a := Change(c, s.acc, pin, newPin, guid).0;
        State(a, if b.1.Granted? && b.0.pin != newPin then Print(a.conf) else s.text)
    case OpNewToken(guid) => var a := SetToken(s.acc, guid); State(a, Print(a.conf))
    case OpDeleteToken => var a := SetToken(s.acc, []); State(a, Print(a.conf))
    case OpCheck(pin, send) => s.(acc := Check(c, s.acc, pin, send).0)
    case OpEvict => s.(acc := Loaded(s.text))
  }

  function TrueStep(t: Truth, op: Op): Truth
  {
    match op
    case OpChange(pin, newPin, _) => if 3 <= |newPin| <= 64 && pin == t.pin then t.(pin := newPin) else t
    case OpNewToken(guid) => t.(token := guid)
    case OpDeleteToken => t.(token := [])
    case _ => t
  }

  function Run(c: Cipher, s: State, ops: seq<Op>): State
    decreases |ops|
  {
    if ops == [] then s else Run(c, Step(c, s, ops[0]), ops[1..])
  }

  function TrueRun(t: Truth, ops: seq<Op>): Truth
    decreases |ops|
  {
    if ops == [] then t else TrueRun(TrueStep(t, ops[0]), ops[1..])
  }

  function TrueVerdict(t: Truth, pin: str, send: bool): Verdict
  {
    if pin == [] then EmptyPin
    else if pin == t.pin || (send && pin == t.token) then Granted
    else InvalidPin
  }

  // ---- what an account that tells the truth looks like ----

  // The stored id opens under this pin only.
  ghost predicate OpensOnlyWith(c: Cipher, hex: str, pin: str)
  {
    && hex != [] && |hex| % 2 == 0
    && forall q :: c.dec(q, hex) == if q == pin then CODER_OK else 0
  }

  ghost predicate Fits(c: Cipher, a: Acc, t: Truth)
  {
    && GoodPin(t.pin) && Good(a.conf)
    && OpensOnlyWith(c, LookupOrEmpty(a.conf.values, ID), t.pin)
    && LookupOrEmpty(a.conf.values, TOKEN) == a.token == t.token
    && (a.pin == [] || a.pin == t.pin)
  }

  ghost predicate Inv(c: Cipher, s: State, t: Truth)
  {
    Fits(c, s.acc, t) && Fits(c, Loaded(s.text), t) && NulFree(s.text)
  }

  lemma GoodNames()
    ensures GoodName(ID) && GoodName(NAME) && GoodName(TOKEN)
    ensures ID != NAME && ID != TOKEN && NAME != TOKEN
  {
    assert ID[0] != NAME[0] && ID[0] != TOKEN[0] && NAME[0] != TOKEN[0];
  }

  lemma EncFits(c: Cipher, pin: str, guid: str)
    requires Sound(c) && GoodPin(pin) && GoodGuid(guid)
    ensures GoodGuid(c.enc(pin, guid)) && OpensOnlyWith(c, c.enc(pin, guid), pin)
  {
    forall q ensures c.dec(q, c.enc(pin, guid)) == if q == pin then CODER_OK else 0 {
    }
    assert c.dec(pin, c.enc(pin, guid)) == CODER_OK;
  }

  // Setting a parameter to one good word.
  lemma WithValueFits(conf: Conf, name: str, value: str)
    requires Good(conf) && GoodName(name) && GoodValue(value)
    ensures Good(WithValue(conf, name, value))
    ensures forall n :: LookupOrEmpty(WithValue(conf, name, value).values, n)
                        == if n == name then value else LookupOrEmpty(conf.values, n)
  {
    TightIsTrimmed(value);
    SetKeepsGood(conf, name, value);
    forall n ensures Lookup(Stored(conf.values, name, value), n)
                     == if n == name then Some(value) else Lookup(conf.values, n) {
      StoredLookup(conf.values, name, value, n);
    }
  }

  // A check grants what it should and leaves a fitting account.
  lemma CheckFits(c: Cipher, a: Acc, t: Truth, pin: str, send: bool)
    requires Fits(c, a, t)
    ensures Check(c, a, pin, send).1 == TrueVerdict(t, pin, send)
    ensures Fits(c, Check(c, a, pin, send).0, t)
    ensures Check(c, a, pin, send).0.conf == a.conf
    ensures !send && Check(c, a, pin, send).1.Granted? ==> Check(c, a, pin, send).0.pin == t.pin == pin
  {
  }

  lemma SavedFits(c: Cipher, a: Acc, t: Truth)
    requires Fits(c, a, t)
    ensures Fits(c, Loaded(Print(a.conf)), t) && NulFree(Print(a.conf))
  {
    RoundTripLookups(a.conf, ID);
    RoundTripLookups(a.conf, TOKEN);
    ParseKeepsGood(a.conf);
    PrintNulFree(a.conf.comments, a.conf.values);
  }

  lemma NewIdFits(c: Cipher, a: Acc, t: Truth, newPin: str, guid: str)
    requires Sound(c) && Fits(c, a, t) && GoodPin(newPin) && GoodGuid(guid)
    ensures var conf := WithValue(WithValue(a.conf, ID, c.enc(newPin, guid)), NAME, []);
            Fits(c, Acc(newPin, a.token, conf), t.(pin := newPin))
  {
    GoodNames();
    EncFits(c, newPin, guid);
    var hex := c.enc(newPin, guid);
    WithValueFits(a.conf, ID, hex);
    WithValueFits(WithValue(a.conf, ID, hex), NAME, []);
  }

  lemma SetTokenFits(c: Cipher, a: Acc, t: Truth, token: str)
    requires Fits(c, a, t) && GoodValue(token)
    ensures Fits(c, SetToken(a, token), t.(token := token))
  {
    GoodNames();
    TightIsTrimmed(token);
    WithValueFits(a.conf, TOKEN, token);
  }

  lemma ChangeFits(c: Cipher, s: State, t: Truth, pin: str, newPin: str, guid: str)
    requires Sound(c) && Inv(c, s, t) && GoodGuid(guid)
    ensures Inv(c, Step(c, s, OpChange(pin, newPin, guid)), TrueStep(t, OpChange(pin, newPin, guid)))
  {
    if GoodPin(pin) && GoodPin(newPin) {
      CheckFits(c, s.acc, t, pin, false);
      var (b, v) := Check(c, s.acc, pin, false);
      if v.Granted? && b.pin != newPin {
        NewIdFits(c, b, t, newPin, guid);
        SavedFits(c, Change(c, s.acc, pin, newPin, guid).0, t.(pin := newPin));
      }
    }
  }

  lemma StepFits(c: Cipher, s: State, t: Truth, op: Op)
    requires Sound(c) && Inv(c, s, t) && GoodOp(op)
    ensures Inv(c, Step(c, s, op), TrueStep(t, op))
  {
    match op
    case OpChange(pin, newPin, guid) => ChangeFits(c, s, t, pin, newPin, guid);
    case OpNewToken(guid) =>
      SetTokenFits(c, s.acc, t, guid);
      SavedFits(c, SetToken(s.acc, guid), t.(token := guid));
    case OpDeleteToken =>
      SetTokenFits(c, s.acc, t, []);
      SavedFits(c, SetToken(s.acc, []), t.(token := []));
    case OpCheck(pin, send) => CheckFits(c, s.acc, t, pin, send);
    case OpEvict =>
  }

  lemma StartFits(c: Cipher, pin: str, guid: str)
    requires Sound(c) && GoodPin(pin) && GoodGuid(guid)
    ensures Inv(c, Start(c, pin, guid), Truth(pin, []))
  {
    GoodNames();
    EncFits(c, pin, guid);
    var hex := c.enc(pin, guid);
    assert Good(NOTHING.conf);
    var c1 := WithValue(NOTHING.conf, ID, hex);
    WithValueFits(NOTHING.conf, ID, hex);
    WithValueFits(c1, NAME, []);
    WithValueFits(WithValue(c1, NAME, []), TOKEN, []);
    SavedFits(c, Created(c, pin, guid), Truth(pin, []));
  }

  lemma {:induction false} RunFits(c: Cipher, s: State, t: Truth, ops: seq<Op>)
    requires Sound(c) && Inv(c, s, t) && forall i :: 0 <= i < |ops| ==> GoodOp(ops[i])
    ensures Inv(c, Run(c, s, ops), TrueRun(t, ops))
    decreases |ops|
  {
    if ops != [] {
      StepFits(c, s, t, ops[0]);
      RunFits(c, Step(c, s, ops[0]), TrueStep(t, ops[0]), ops[1..]);
    }
  }

  /**
   After any run of pin changes, token changes, checks and evictions, every pin and every token gets the
   verdict that the true pin and token deserve, from the cached account and from one loaded anew.
   */
  lemma VerdictsAgree(c: Cipher, pin: str, guid: str, ops: seq<Op>, attempt: str, send: bool)
    requires Sound(c) && GoodPin(pin) && GoodGuid(guid) && forall i :: 0 <= i < |ops| ==> GoodOp(ops[i])
    ensures var s, t := Run(c, Start(c, pin, guid), ops), TrueRun(Truth(pin, []), ops);
            && Check(c, s.acc, attempt, send).1 == TrueVerdict(t, attempt, send)
            && Check(c, Loaded(s.text), attempt, send).1 == TrueVerdict(t, attempt, send)
            && (TokenAccepted(s.acc, attempt) <==> attempt != [] && attempt == t.token)
            && (TokenAccepted(Loaded(s.text), attempt) <==> attempt != [] && attempt == t.token)
  {
    StartFits(c, pin, guid);
    RunFits(c, Start(c, pin, guid), Truth(pin, []), ops);
    var s, t := Run(c, Start(c, pin, guid), ops), TrueRun(Truth(pin, []), ops);
    CheckFits(c, s.acc, t, attempt, send);
    CheckFits(c, Loaded(s.text), t, attempt, send);
  }

  // ---- any account, whatever its file holds ----

  const ID_TEXT: str := [73, 100]
  const TOKEN_TEXT: str := [84, 111, 107, 101, 110]

  /**
   A fresh account grants a pin exactly if it is the token of a message, or the file has an Id that decrypts
   under it; an Id of an odd number of characters is never decrypted and grants every pin.
   */
  lemma FreshGrants(c: Cipher, text: str, pin: str, send: bool)
    ensures var a, id := Loaded(text), Lookup(Parse(text).values, ID_TEXT);
            Check(c, a, pin, send).1.Granted?
            <==> pin != [] && ((send && Lookup(Parse(text).values, TOKEN_TEXT) == Some(pin))
                               || (id.Some? && (|id.value| % 2 == 1 || c.dec(pin, id.value) != 0)))
    ensures Lookup(Parse(text).values, ID_TEXT).None? && Lookup(Parse(text).values, TOKEN_TEXT).None? ==>
              Check(c, Loaded(text), pin, send).1 == if pin == [] then EmptyPin else NoId
  {
  }

  /** An account that remembers a pin grants that one, and its token for a message; it stays as it is. */
  lemma RememberedGrants(c: Cipher, a: Acc, pin: str, send: bool)
    requires a.pin != []
    ensures Check(c, a, pin, send)
            == (a, if pin == [] then EmptyPin else if pin == a.pin || (send && pin == a.token) then Granted
                   else InvalidPin)
  {
  }

  // ---- the assumption can be met ----

  function Hex(s: str): (r: str)
    ensures |r| == 2 * |s|
    ensures forall i :: 0 <= i < |r| ==> 65 <= r[i] < 81
  {
    if s == [] then [] else [65 + s[0] / 16, 65 + s[0] % 16] + Hex(s[1..])
  }

  lemma {:induction false} HexInjective(s: str, t: str)
    requires Hex(s) == Hex(t)
    ensures s == t
    decreases |s|
  {
    if s != [] {
      assert |Hex(s)| == |Hex(t)|;
      assert Hex(s)[0] == Hex(t)[0] && Hex(s)[1] == Hex(t)[1];
      assert s[0] == 16 * (s[0] / 16) + s[0] % 16 && t[0] == 16 * (t[0] / 16) + t[0] % 16;
      assert Hex(s)[2..] == Hex(s[1..]) && Hex(t)[2..] == Hex(t[1..]);
      HexInjective(s[1..], t[1..]);
    }
  }

  function HexEnc(pin: str, guid: str): str { Hex(pin) }
  function HexDec(pin: str, hex: str): int { if hex == Hex(pin) then CODER_OK else 0 }

  /** A cipher of the assumed kind exists, so nothing above holds for want of one. */
  lemma SoundCipherExists() returns (c: Cipher)
    ensures Sound(c)
  {
    c := Cipher((p: str, g: str) => HexEnc(p, g), (q: str, hex: str) => HexDec(q, hex));
    forall p, g | GoodPin(p) && GoodGuid(g) ensures GoodGuid(c.enc(p, g)) && |c.enc(p, g)| % 2 == 0 {
      HexIsGuid(p);
    }
    forall p, q, g ensures c.dec(q, c.enc(p, g)) == if p == q then CODER_OK else 0 {
      assert c.enc(p, g) == Hex(p) && c.dec(q, Hex(p)) == HexDec(q, Hex(p));
      if Hex(p) == Hex(q) { HexInjective(p, q); }
    }
  }

  lemma HexIsGuid(p: str)
    requires GoodPin(p)
    ensures GoodGuid(Hex(p)) && |Hex(p)| % 2 == 0
  {
  }

  lemma CreatedConf(c: Cipher, pin: str, guid: str)
    requires GoodGuid(c.enc(pin, guid))
    ensures Created(c, pin, guid).conf == Conf([(ID, c.enc(pin, guid)), (NAME, []), (TOKEN, [])], map[])
  {
    var hex := c.enc(pin, guid);
    GoodNames();
    TightIsTrimmed(hex);
    TightIsTrimmed([]);
    var a := WithValue(NOTHING.conf, ID, hex);
    var p, q, r: Pair := (ID, hex), (NAME, []), (TOKEN, []);
    assert a.values == [p];
    StoredNew(p, NAME);
    var b := WithValue(a, NAME, []);
    var end: seq<Pair> := [];
    assert [p][1..] == end && b.values == [p, q];
    StoredNewer(p, q, TOKEN);
    var d := WithValue(b, TOKEN, []);
    assert d.values == [p, q, r];
  }

  lemma PrintThree(comments: map<str, str>, p: Pair, q: Pair, r: Pair)
    ensures PrintPairs(comments, [p, q, r])
            == PrintPair(comments, p) + PrintPair(comments, q) + PrintPair(comments, r)
  {
    var end: seq<Pair> := [];
    assert [p, q, r][1..] == [q, r] && [q, r][1..] == [r] && [r][1..] == end;
    assert PrintPairs(comments, [r]) == PrintPair(comments, r);
    assert PrintPairs(comments, [q, r]) == PrintPair(comments, q) + PrintPair(comments, r);
  }

  lemma PrintBare(name: str, value: str)
    ensures PrintPair(map[], (name, value)) == name + [61] + value + [10, 10]
  {
  }

  /** The file of a new account, byte by byte: Id=, Name= and Token= with an empty line after each. */
  lemma CreatedText(c: Cipher, pin: str, guid: str)
    requires GoodGuid(c.enc(pin, guid))
    ensures Print(Created(c, pin, guid).conf)
            == [73, 100, 61] + c.enc(pin, guid) + [10, 10] + [78, 97, 109, 101, 61, 10, 10]
               + [84, 111, 107, 101, 110, 61, 10, 10]
  {
    var hex := c.enc(pin, guid);
    CreatedConf(c, pin, guid);
    PrintThree(map[], (ID, hex), (NAME, []), (TOKEN, []));
    PrintBare(ID, hex);
    PrintBare(NAME, []);
    PrintBare(TOKEN, []);
    assert ID + [61] + hex + [10, 10] == [73, 100, 61] + hex + [10, 10];
    assert NAME + [61] + [] + [10, 10] == [78, 97, 109, 101, 61, 10, 10];
    assert TOKEN + [61] + [] + [10, 10] == [84, 111, 107, 101, 110, 61, 10, 10];
  }

  lemma StoredNew(p: Pair, name: str)
    requires p.0 != name
    ensures Stored([p], name, []) == [p, (name, [])]
  {
    assert [p][1..] == [];
  }

  lemma StoredNewer(p: Pair, q: Pair, name: str)
    requires p.0 != name && q.0 != name
    ensures Stored([p, q], name, []) == [p, q, (name, [])]
  {
    assert [p, q][1..] == [q];
    StoredNew(q, name);
  }
}
