/**
 Accounts: pin and token checks on the cached object and on one freshly loaded from its configuration file.
 The cipher is a parameter; all that is assumed of it is that it opens under the right pin only.
 */
module Account {
  import opened Bytes
  import opened Strings
  import opened Config
  import opened ConfigRoundTrip

  const ID: str := [73, 100]                      // Id
  const NAME: str := [78, 97, 109, 101]           // Name
  const TOKEN: str := [84, 111, 107, 101, 110]    // Token

  const MIN_DIGITS_IN_PIN := 3
  const MAX_DIGITS_IN_PIN := 64
  const CODER_OK := 1
  const CODER_ERROR := 2

  datatype Verdict = Granted | EmptyPin | InvalidPin | NoId | PinTooShort | PinTooLong

  // Encryption of an id under a pin, to hex characters, and the return code of the decryption.
  datatype Cipher = Cipher(enc: (str, str) -> str, dec: (str, str) -> int)

  predicate GoodPin(p: str) { MIN_DIGITS_IN_PIN <= |p| <= MAX_DIGITS_IN_PIN }

  // A generated id or token: one non-empty word.
  predicate GoodGuid(g: str) { GoodValue(g) && g != [] }

  // Encrypting gives whole hex pairs; decrypting works under the same pin and returns 0 under any other.
  ghost predicate Sound(c: Cipher)
  {
    forall p, q, g :: GoodPin(p) && GoodGuid(g) ==>
      && GoodGuid(c.enc(p, g)) && |c.enc(p, g)| % 2 == 0
      && c.dec(q, c.enc(p, g)) == if p == q then CODER_OK else 0
  }

  // An odd number of hex characters is an error before anything is decrypted.
  function DecryptCode(c: Cipher, pin: str, hex: str): int
  {
    if |hex| % 2 != 0 then CODER_ERROR else c.dec(pin, hex)
  }

  // ---- the operations on values ----

  // The account object: the pin and the token it remembers and its configuration.
  datatype Acc = Acc(pin: str, token: str, conf: Conf)

  function Check(c: Cipher, a: Acc, pin: str, send: bool): (Acc, Verdict)
  {
    if pin == [] then (a, EmptyPin)
    else if send && pin == a.token then (a, Granted)
    else if a.pin != [] then (a, if pin == a.pin then Granted else InvalidPin)
    else
      match Lookup(a.conf.values, ID)
      case None => (a, NoId)
      case Some(hex) =>
        // a missing token leaves the remembered one
        var t := match Lookup(a.conf.values, TOKEN) case Some(v) => v case None => a.token;
        var b := a.(token := t);
        if send && pin == t then (b, Granted)
        else if DecryptCode(c, pin, hex) == 0 then (b, InvalidPin)
        else (b.(pin := pin), Granted)
  }

  function WithValue(conf: Conf, name: str, value: str): Conf
  {
    if |Trimmed(value)| > MAX_VALUE_LEN then conf else conf.(values := Stored(conf.values, name, Trimmed(value)))
  }

  function Created(c: Cipher, pin: str, guid: str): Acc
  {
    Acc(pin, [], WithValue(WithValue(WithValue(NOTHING.conf, ID, c.enc(pin, guid)), NAME, []), TOKEN, []))
  }

  function Loaded(text: str): Acc
  {
    var conf := Parse(text);
    Acc([], LookupOrEmpty(conf.values, TOKEN), conf)
  }

  function Change(c: Cipher, a: Acc, pin: str, newPin: str, guid: str): (Acc, Verdict)
  {
    var (b, v) := Check(c, a, pin, false);
    if !v.Granted? || b.pin == newPin then (b, v)
    else (Acc(newPin, b.token, WithValue(WithValue(b.conf, ID, c.enc(newPin, guid)), NAME, [])), v)
  }

  // NewToken with a generated token, DeleteToken with an empty one.
  function SetToken(a: Acc, token: str): Acc
  {
    a.(token := Trimmed(token), conf := WithValue(a.conf, TOKEN, token))
  }

  predicate TokenAccepted(a: Acc, token: str) { token != [] && a.token == token }

  // ---- the class ----

  class ConfigFile {
    var text: str
    constructor () ensures text == [] { text := []; }
  }

  class CAccount {
    var pin: str
    var token: str
    const config: CConfig
    const file: ConfigFile

    function Value(): Acc
      reads this, config
    {
      Acc(pin, token, config.Content())
    }

    constructor Create(c: Cipher, newPin: str, guid: str, f: ConfigFile)
      requires GoodGuid(c.enc(newPin, guid))
      modifies f
      ensures file == f && fresh(config)
      ensures Value() == Created(c, newPin, guid) && f.text == Print(Value().conf)
    {
      pin, token, file := newPin, [], f;
      var empty := new CConfig();
      config := empty;
      new;
      var _ := config.SetValue(ID, c.enc(pin, guid));
      var _ := config.SetValue(NAME, []);
      var _ := config.SetValue(TOKEN, token);
      Save();
    }

    constructor Load(f: ConfigFile)
      requires NulFree(f.text)
      ensures file == f && fresh(config)
      ensures Value() == Loaded(f.text)
    {
      pin, token, file := [], [], f;
      var empty := new CConfig();
      config := empty;
      new;
      var _ := config.FromString(file.text);
      var t := config.GetValue(TOKEN);
      if t.Some? { token := t.value; }
    }

    method Save()
      modifies file
      ensures file.text == Print(Value().conf)
    {
      file.text := config.ToString();
    }

    method CheckPin(c: Cipher, strPin: str, send: bool) returns (v: Verdict)
      modifies this
      ensures (Value(), v) == Check(c, old(Value()), strPin, send)
    {
      if strPin == [] { return EmptyPin; }
      if send && strPin == token { return Granted; }
      if pin == [] {
        var id := config.GetValue(ID);
        if id.None? { return NoId; }
        var t := config.GetValue(TOKEN);
        if t.Some? { token := t.value; }
        if send && strPin == token { return Granted; }
        if DecryptCode(c, strPin, id.value) == 0 { return InvalidPin; }
        pin := strPin;
        return Granted;
      } else if strPin == pin {
        return Granted;
      }
      v := InvalidPin;
    }

    method ChangePin(c: Cipher, strPin: str, newPin: str, guid: str) returns (v: Verdict)
      requires GoodGuid(c.enc(newPin, guid))
      modifies this, config, file
      ensures (Value(), v) == Change(c, old(Value()), strPin, newPin, guid)
      ensures file.text == if v.Granted? && Check(c, old(Value()), strPin, false).0.pin != newPin
                           then Print(Value().conf) else old(file.text)
    {
      v := CheckPin(c, strPin, false);
      if !v.Granted? || pin == newPin { return; }
      pin := newPin;
      var _ := config.SetValue(ID, c.enc(pin, guid));
      var _ := config.SetValue(NAME, []);
      Save();
    }

    method StoreToken(strToken: str)
      modifies config, file
      ensures config.Content() == WithValue(old(config.Content()), TOKEN, strToken)
      ensures file.text == Print(config.Content())
    {
      var _ := config.SetValue(TOKEN, strToken);
      Save();
    }

    method NewToken(guid: str) returns (t: str)
      modifies this, config, file
      ensures Value() == SetToken(old(Value()), guid) && t == Value().token
      ensures file.text == Print(Value().conf)
    {
      StoreToken(guid);
      token := Trimmed(guid);
      t := token;
    }

    method DeleteToken()
      modifies this, config, file
      ensures Value() == SetToken(old(Value()), [])
      ensures file.text == Print(Value().conf)
    {
      token := [];
      StoreToken(token);
    }

    method CheckToken(strToken: str) returns (ok: bool)
      ensures ok == TokenAccepted(Value(), strToken)
    {
      ok := strToken != [] && token == strToken;
    }
  }
}
