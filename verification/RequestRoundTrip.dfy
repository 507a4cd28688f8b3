/** What the server decodes is what the client built, and the other way round for the reply. */
module RequestRoundTrip {
  import opened Bytes
  import opened Strings
  import opened Request

  lemma LE2RoundTrip(n: uint16)
    ensures FromLE(LE(n, 2)) == n
  {
    assert Pow256(2) == 256 * (256 * 1);
    LERoundTrip(n, 2);
  }

  lemma Middle(a: str, x: str, rest: str)
    ensures (a + x + rest)[|a|..|a| + |x|] == x && (a + x + rest)[|a| + |x|..] == rest
  {
  }

  lemma FieldsDecode(before: str, cmd: uint16, seqNum: uint32, status: byte, client: str, len: uint32, more: str)
    requires |client| == ID_LEN
    ensures var mem, at := Fields(before, cmd, seqNum, status, client, len) + more, |before|;
            && FieldsFit(mem, at)
            && CmdAt(mem, at) == cmd && SeqAt(mem, at) == seqNum && mem[at + 6] == status
            && ClientAt(mem, at) == client && LenAt(mem, at) == len
            && mem[at + 43..] == more && mem[..at] == before
  {
    var mem, at := Fields(before, cmd, seqNum, status, client, len) + more, |before|;
    assert mem[at..at + 2] == LE(cmd, 2);
    assert mem[at + 2..at + 6] == LE(seqNum, 4);
    assert mem[at + 7..at + 39] == client;
    assert mem[at + 39..at + 43] == LE(len, 4);
    LE2RoundTrip(cmd);
    LE4RoundTrip(seqNum);
    LE4RoundTrip(len);
  }

  // The text survives whatever follows it in memory exactly when it has a byte and no NUL.
  lemma TextSurvives(text: str)
    ensures (forall stale: str :: TextAt(text + stale, |text|) == text) <==> text != [] && NulFree(text)
  {
    if text != [] && NulFree(text) {
      forall stale: str ensures TextAt(text + stale, |text|) == text { TextKept(text, stale); }
    } else if text == [] {
      var one: str := [1];
      assert [] + one == one && CString(one) == one by { CStringUnique(one, one); }
      assert TextAt(text + one, |text|) != text;
    } else {
      var none: str := [];
      assert text + none == text;
      assert CString(text) != text;
      assert TextAt(text + none, |text|) != text;
    }
  }

  lemma TextKept(text: str, stale: str)
    requires text != [] && NulFree(text)
    ensures TextAt(text + stale, |text|) == text
  {
    var c := CString(text + stale);
    assert forall i :: 0 <= i < |text| ==> (text + stale)[i] == text[i];
    assert c[..|text|] == (text + stale)[..|text|] == text;
  }

  function Shifted(s: str, key: byte): str { seq<byte>(|s|, i requires 0 <= i < |s| => (s[i] + key) % 256) }
  function Unkey(key: byte): byte { (256 - key) % 256 }
  function ShiftCoder(key: byte): Coder { Coder(s => Shifted(s, key), s => Shifted(s, Unkey(key))) }

  lemma ShiftedBack(s: str, key: byte)
    ensures Shifted(Shifted(s, key), Unkey(key)) == s
  {
    forall i | 0 <= i < |s| ensures Shifted(Shifted(s, key), Unkey(key))[i] == s[i] { Undone(s[i], key); }
  }

  /** There are ciphers that meet the assumptions: this one adds a key to every byte. */
  lemma SoundCoderExists(key: byte)
    ensures Sound(ShiftCoder(key)) && BlockWise(ShiftCoder(key)) && ShiftCoder(key).enc([0]) == [key]
  {
    var c := ShiftCoder(key);
    forall s: str ensures c.dec(c.enc(s)) == s { ShiftedBack(s, key); }
    forall s: str, k | 0 <= k <= |s| ensures c.dec(s[..k]) == c.dec(s)[..k] {
      assert |c.dec(s[..k])| == k && forall i :: 0 <= i < k ==> c.dec(s[..k])[i] == c.dec(s)[i];
    }
  }

  lemma Undone(b: byte, key: byte)
    ensures ((b + key) % 256 + (256 - key) % 256) % 256 == b
  {
  }

  // ---- requests ----

  lemma PlainLayout(c: Coder, key: byte, cmd: uint16, seqNum: uint32, client: str, text: str, after: str, stale: str)
    requires |client| == ID_LEN && HEADER + |text| < UINT32
    ensures var mem := PlainPacket(key, cmd, seqNum, client, text) + after;
            && Mapped(c, mem, stale) && |mem| == HEADER + |text| + |after|
            && Decoded(c, mem, stale) == Msg(0, key, cmd, seqNum, 1, client,
                                             if text == [] then [] else TextAt(text + after, |text|))
  {
    FieldsDecode([0, key], cmd, seqNum, 1, client, |text|, text + after);
    var f := Fields([0, key], cmd, seqNum, 1, client, |text|);
    var mem := PlainPacket(key, cmd, seqNum, client, text) + after;
    assert mem == f + (text + after);
    assert mem[..2] == [0, key];
    assert mem[0] == mem[..2][0] && mem[1] == mem[..2][1];
  }

  lemma SealedLayout(key: byte, data: str, after: str)
    requires |data| < UINT32
    ensures var mem := Sealed(key, data) + after;
            && |mem| == 6 + |data| + |after| && mem[0] == 1 && mem[1] == key
            && DataLen(mem) == |data| && mem[6..6 + |data|] == data
  {
    LE4RoundTrip(|data|);
    var mem := Sealed(key, data) + after;
    assert mem == [1, key] + LE(|data|, 4) + (data + after);
    Middle([1, key], LE(|data|, 4), data + after);
    assert mem[6..6 + |data|] == mem[6..][..|data|] == data;
    assert mem[..2] == [1, key] && mem[0] == mem[..2][0] && mem[1] == mem[..2][1];
  }

  // What is kept of the data starts with the fields, and whatever follows them is the text.
  lemma SealedDecodes(c: Coder, key: byte, data: str, after: str, stale: str,
                      cmd: uint16, seqNum: uint32, client: str, len: uint32, u: str)
    requires |data| < UINT32 && |client| == ID_LEN && Kept(c, data) == Fields([], cmd, seqNum, 1, client, len) + u
    ensures var mem := Sealed(key, data) + after;
            && Mapped(c, mem, stale)
            && Decoded(c, mem, stale) == Msg(1, key, cmd, seqNum, 1, client, TextAt(u + stale, len))
  {
    SealedLayout(key, data, after);
    FieldsDecode([], cmd, seqNum, 1, client, len, u + stale);
    var f := Fields([], cmd, seqNum, 1, client, len);
    assert f + u + stale == f + (u + stale);
  }

  lemma KeptSecret(c: Coder, plain: str)
    requires Sound(c)
    ensures Kept(c, Encrypt(c, plain)) == plain && |plain| < |Encrypt(c, plain)|
    ensures |plain| >= 43 ==> |Encrypt(c, plain)| >= 48
  {
    DecryptEncrypt(c, plain);
    WholeBlocks(|Encrypt(c, plain)|);
  }

  lemma WholeBlocks(n: nat)
    ensures n % 16 == 0 && n > 43 ==> n >= 48
  {
  }

  lemma SecretLayout(c: Coder, key: byte, cmd: uint16, seqNum: uint32, client: str, text: str, after: str, stale: str)
    requires Sound(c) && |client| == ID_LEN && HEADER + |text| < UINT32
    requires |Encrypt(c, Secret(cmd, seqNum, client, text))| + 6 < UINT32
    ensures var p := SecretPacket(c, key, cmd, seqNum, client, text);
            && |p| >= 54 && Mapped(c, p + after, stale)
            && Decoded(c, p + after, stale) == Msg(1, key, cmd, seqNum, 1, client, TextAt(text + stale, |text|))
  {
    var data := Encrypt(c, Secret(cmd, seqNum, client, text));
    KeptSecret(c, Secret(cmd, seqNum, client, text));
    SealedLayout(key, data, after);
    SealedDecodes(c, key, data, after, stale, cmd, seqNum, client, |text|, text);
  }

  /** Plain requests: no packet is dropped, and the server sees what was sent. */
  lemma PlainRoundTrip(c: Coder, key: byte, cmd: uint16, seqNum: uint32, client: str, text: str,
                       after: str, stale: str)
    requires |client| == ID_LEN && HEADER + |text| < UINT32 && NulFree(text)
    ensures var p := PlainPacket(key, cmd, seqNum, client, text);
            && !Dropped(|p|) && Mapped(c, p + after, stale)
            && Decoded(c, p + after, stale) == Msg(0, key, cmd, seqNum, 1, client, text)
  {
    PlainLayout(c, key, cmd, seqNum, client, text, [], stale);
    PlainLayout(c, key, cmd, seqNum, client, text, after, stale);
    if text != [] { TextKept(text, after); }
  }

  /**
   Encrypted requests: no packet is dropped, the header always arrives, and the text arrives whatever the
   server's memory held before exactly when it is not empty and has no NUL.
   */
  lemma SecretRoundTrip(c: Coder, key: byte, cmd: uint16, seqNum: uint32, client: str, text: str, after: str)
    requires Sound(c) && |client| == ID_LEN && HEADER + |text| < UINT32
    requires |Encrypt(c, Secret(cmd, seqNum, client, text))| + 6 < UINT32
    ensures var p := SecretPacket(c, key, cmd, seqNum, client, text);
            && !Dropped(|p|) && (forall stale: str :: Mapped(c, p + after, stale))
            && (forall stale: str ::
                  Decoded(c, p + after, stale).(text := []) == Msg(1, key, cmd, seqNum, 1, client, []))
            && ((forall stale: str :: Decoded(c, p + after, stale).text == text) <==> text != [] && NulFree(text))
  {
    SecretLayout(c, key, cmd, seqNum, client, text, after, []);
    var mem := SecretPacket(c, key, cmd, seqNum, client, text) + after;
    forall stale: str
      ensures Mapped(c, mem, stale)
      ensures Decoded(c, mem, stale) == Msg(1, key, cmd, seqNum, 1, client, TextAt(text + stale, |text|))
    {
      SecretLayout(c, key, cmd, seqNum, client, text, after, stale);
    }
    TextSurvives(text);
    if forall stale: str :: Decoded(c, mem, stale).text == text {
      forall stale: str ensures TextAt(text + stale, |text|) == text {
        assert Decoded(c, mem, stale).text == text;
      }
    }
  }

  // ---- sending a message ----

  /** The payload comes apart into number, pin, target and message, even an empty one or one with new lines. */
  lemma SendSplits(num: str, pin: str, to: str, msg: str)
    requires NL !in num && NL !in pin && NL !in to
    ensures SendParams(SendPayload(num, pin, to, msg)) == Params(num, pin, to, msg)
  {
    var text := SendPayload(num, pin, to, msg);
    TokensOfLine(num, NL, pin + [NL] + (to + [NL] + msg));
    TokensOfLine(pin, NL, to + [NL] + msg);
    TokensOfLine(to, NL, msg);
    var v := Tokens(text, NL);
    assert v == [num] + ([pin] + ([to] + Tokens(msg, NL)));
    assert v[0] == num && v[1] == pin && v[2] == to;
    assert text[|num| + |pin| + |to| + 3..] == msg;
  }

  lemma PayloadNulFree(num: str, pin: str, to: str, msg: str)
    requires NulFree(num) && NulFree(pin) && NulFree(to) && NulFree(msg)
    ensures SendPayload(num, pin, to, msg) != [] && NulFree(SendPayload(num, pin, to, msg))
  {
  }

  /** From the client's arguments to the server's: over the wire, encrypted, and split again. */
  lemma SendArrives(c: Coder, key: byte, cmd: uint16, seqNum: uint32, client: str, num: str, pin: str, to: str,
                    msg: str, after: str, stale: str)
    requires Sound(c) && |client| == ID_LEN && NL !in num && NL !in pin && NL !in to
    requires NulFree(num) && NulFree(pin) && NulFree(to) && NulFree(msg)
    requires var text := SendPayload(num, pin, to, msg);
             HEADER + |text| < UINT32 && |Encrypt(c, Secret(cmd, seqNum, client, text))| + 6 < UINT32
    ensures var p := SecretPacket(c, key, cmd, seqNum, client, SendPayload(num, pin, to, msg));
            && !Dropped(|p|) && Mapped(c, p + after, stale)
            && SendParams(Decoded(c, p + after, stale).text) == Params(num, pin, to, msg)
  {
    var text := SendPayload(num, pin, to, msg);
    PayloadNulFree(num, pin, to, msg);
    SecretRoundTrip(c, key, cmd, seqNum, client, text, after);
    assert Decoded(c, SecretPacket(c, key, cmd, seqNum, client, text) + after, stale).text == text;
    SendSplits(num, pin, to, msg);
  }

  // ---- replies ----

  lemma ReplyLayout(c: Coder, m: Msg, error: byte, text: str)
    requires |m.client| == ID_LEN && |ReplyData(c, m.encr, text)| < UINT32
    ensures var p, data := ReplyPacket(c, m, error, text), ReplyData(c, m.encr, text);
            && |p| == HEADER + 1 + |data|
            && p[0] == m.encr && p[1] == m.key && FromLE(p[2..4]) == m.cmd && FromLE(p[4..8]) == m.seqNum
            && p[8] == m.status && p[9..41] == m.client && FromLE(p[41..45]) == |data|
            && p[45] == error && p[46..46 + |data|] == data
  {
    var data := ReplyData(c, m.encr, text);
    var p := ReplyPacket(c, m, error, text);
    FieldsDecode([m.encr, m.key], m.cmd, m.seqNum, m.status, m.client, |data|, [error] + data);
    assert p[..2] == [m.encr, m.key];
    assert p[0] == p[..2][0] && p[1] == p[..2][1];
    assert p[45..] == [error] + data;
    assert p[45] == p[45..][0];
    assert p[46..46 + |data|] == p[45..][1..];
  }

  lemma ReplyInBuffer(c: Coder, m: Msg, error: byte, text: str, rest: str)
    requires |m.client| == ID_LEN && |ReplyData(c, m.encr, text)| < UINT32
    ensures var buf, data := ReplyPacket(c, m, error, text) + rest, ReplyData(c, m.encr, text);
            && |buf| == HEADER + 1 + |data| + |rest|
            && buf[0] == m.encr && buf[1] == m.key && FromLE(buf[2..4]) == m.cmd && FromLE(buf[4..8]) == m.seqNum
            && buf[8] == m.status && buf[9..41] == m.client && FromLE(buf[41..45]) == |data|
            && buf[45] == error && buf[46..46 + |data|] == data
  {
    ReplyLayout(c, m, error, text);
    var p, n := ReplyPacket(c, m, error, text), |ReplyData(c, m.encr, text)|;
    var buf := p + rest;
    assert buf[2..4] == p[2..4] && buf[4..8] == p[4..8] && buf[9..41] == p[9..41];
    assert buf[41..45] == p[41..45] && buf[46..46 + n] == p[46..46 + n];
  }

  /**
   The client's parser takes the server's reply apart for every text, empty or not, encrypted or not, and
   whatever earlier replies left behind it in the receive buffer.
   */
  method ReceiveReply(b: ComRequestBuilder, c: Coder, m: Msg, error: byte, text: str, rest: str) returns (r: Parsed)
    requires Sound(c) && |m.client| == ID_LEN
    requires HEADER + 1 + |ReplyData(c, m.encr, text)| + |rest| == 65536
    requires m.encr == 1 ==> b.coder == Some(c)
    modifies b
    ensures r.Parsed? && b.ReplyString() == text && b.replyError == error
    ensures b.replySeqNum == m.seqNum && b.replyStatus == m.status && b.replyClientId == m.client
    ensures b.cmdId == m.cmd && b.replyKeyId == m.key
  {
    ReplyInBuffer(c, m, error, text, rest);
    if m.encr == 1 { DecryptEncrypt(c, text); }
    r := b.Parse(ReplyPacket(c, m, error, text) + rest);
  }
}
