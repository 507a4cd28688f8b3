/** Requests and replies on the wire: the client's builder, the server's decoder, and the way back. */
module Request {
  import opened Bytes
  import opened Strings

  const HEADER := 45
  const ID_LEN := 32
  const NL: byte := 10
  const CMD_HANDSHAKE := 1
  const CMD_CONNECT := 2

  type uint16 = n: int | 0 <= n < 0x1_0000

  // ---- the cipher: a keyed, length-preserving transform of whole blocks, with padding ----

  datatype Coder = Coder(enc: str -> str, dec: str -> str)

  ghost predicate Sound(c: Coder)
  {
    forall s :: |s| % 16 == 0 ==> |c.enc(s)| == |s| && c.dec(c.enc(s)) == s
  }

  // It turns one block after the other: the first blocks of the text need only the first blocks of the data.
  ghost predicate BlockWise(c: Coder)
  {
    forall s, k {:trigger c.dec(s[..k])} :: |s| % 16 == 0 && 0 <= k <= |s| && k % 16 == 0 ==>
      |c.dec(s)| == |s| && c.dec(s[..k]) == c.dec(s)[..k]
  }

  // Section 6.3 of RFC 5652: 1 to 16 bytes, each holding their number.
  function PadLen(n: nat): (k: byte)
    ensures 1 <= k <= 16 && (n + k) % 16 == 0
  {
    16 - n % 16
  }

  function Pad(s: str): (r: str)
    ensures |r| == |s| + PadLen(|s|) && |r| % 16 == 0 && s <= r
  {
    s + seq(PadLen(|s|), _ => PadLen(|s|))
  }

  function Unpad(s: str): Option<str>
  {
    if s == [] then None
    else
      var k := s[|s| - 1];
      if 1 <= k <= 16 && k <= |s| && (forall i :: |s| - k <= i < |s| ==> s[i] == k) then Some(s[..|s| - k]) else None
  }

  function Encrypt(c: Coder, s: str): str { c.enc(Pad(s)) }
  function Decrypt(c: Coder, s: str): Option<str> { if |s| % 16 == 0 then Unpad(c.dec(s)) else None }

  lemma DecryptEncrypt(c: Coder, s: str)
    requires Sound(c)
    ensures Decrypt(c, Encrypt(c, s)) == Some(s)
    ensures |Encrypt(c, s)| % 16 == 0 && |Encrypt(c, s)| > |s|
  {
    var p := Pad(s);
    assert c.dec(c.enc(p)) == p;
    assert p[|p| - 1] == PadLen(|s|) && p[..|p| - PadLen(|s|)] == s;
  }

  /** Padding is taken off exactly when it was put on so. */
  lemma UnpadUndoesPad(s: str, p: str)
    requires |s| % 16 == 0
    ensures Unpad(s) == Some(p) <==> s == Pad(p)
  {
    if Unpad(s) == Some(p) {
      var k := s[|s| - 1];
      assert s == p + s[|p|..] && |p| + k == |s|;
      PadLenIs(|p|, k);
      assert s[|p|..] == seq(k, _ => k);
    }
    if s == Pad(p) {
      assert s[|s| - 1] == PadLen(|p|) && s[..|s| - PadLen(|p|)] == p;
    }
  }

  lemma PadLenIs(n: nat, k: nat)
    requires 1 <= k <= 16 && (n + k) % 16 == 0
    ensures PadLen(n) == k
  {
  }

  // ---- the layout ----

  datatype Msg = Msg(encr: byte, key: byte, cmd: uint16, seqNum: uint32, status: byte, client: str, text: str)

  // Command, sequence number, status, client id and length after what is already there.
  function Fields(before: str, cmd: uint16, seqNum: uint32, status: byte, client: str, len: uint32): (r: str)
    ensures |r| == |before| + 11 + |client|
  {
    before + LE(cmd, 2) + LE(seqNum, 4) + [status] + client + LE(len, 4)
  }

  function PlainPacket(key: byte, cmd: uint16, seqNum: uint32, client: str, text: str): str
    requires |text| < UINT32
  {
    Fields([0, key], cmd, seqNum, 1, client, |text|) + text
  }

  function Secret(cmd: uint16, seqNum: uint32, client: str, text: str): str
    requires |text| < UINT32
  {
    Fields([], cmd, seqNum, 1, client, |text|) + text
  }

  function Sealed(key: byte, data: str): str
    requires |data| < UINT32
  {
    [1, key] + LE(|data|, 4) + data
  }

  function SecretPacket(c: Coder, key: byte, cmd: uint16, seqNum: uint32, client: str, text: str): str
    requires |text| < UINT32 && |Encrypt(c, Secret(cmd, seqNum, client, text))| < UINT32
  {
    Sealed(key, Encrypt(c, Secret(cmd, seqNum, client, text)))
  }

  // ---- the client's builder ----

  class ByteBuffer {
    const data: array<byte>
    var pos: nat

    ghost predicate Valid()
      reads this
    {
      pos <= data.Length
    }

    ghost function Written(): str
      reads this, data
      requires Valid()
    {
      data[..pos]
    }

    constructor Allocate(n: nat)
      ensures Valid() && Written() == [] && data.Length == n && fresh(data)
    {
      data := new byte[n];
      pos := 0;
    }

    method PutBytes(s: str)
      requires Valid() && pos + |s| <= data.Length
      modifies this`pos, data
      ensures Valid() && Written() == old(Written()) + s
    {
      forall i | 0 <= i < |s| { data[pos + i] := s[i]; }
      pos := pos + |s|;
    }

    method Put(b: byte)
      requires Valid() && pos < data.Length
      modifies this`pos, data
      ensures Valid() && Written() == old(Written()) + [b]
    {
      data[pos] := b;
      pos := pos + 1;
    }

    method PutShort(n: uint16)
      requires Valid() && pos + 2 <= data.Length
      modifies this`pos, data
      ensures Valid() && Written() == old(Written()) + LE(n, 2)
    {
      PutBytes(LE(n, 2));
    }

    method PutInt(n: uint32)
      requires Valid() && pos + 4 <= data.Length
      modifies this`pos, data
      ensures Valid() && Written() == old(Written()) + LE(n, 4)
    {
      PutBytes(LE(n, 4));
    }

    method PutFields(cmd: uint16, seqNum: uint32, client: str, len: uint32)
      requires Valid() && pos + 11 + |client| <= data.Length
      modifies this`pos, data
      ensures Valid() && Written() == Fields(old(Written()), cmd, seqNum, 1, client, len)
    {
      PutShort(cmd);
      PutInt(seqNum);
      Put(1);
      PutBytes(client);
      PutInt(len);
    }

    method Array() returns (s: str)
      requires Valid() && pos == data.Length
      ensures s == Written()
    {
      s := data[..];
    }
  }

  datatype Built = Built(packet: str) | NotConnected

  // The parser's exceptions: the buffer ends too early, the length is negative for the language, or the
  // text cannot be decrypted.
  datatype Parsed = Parsed | Underflow | NegativeLength | Undecipherable
  const INT_MAX := 0x7FFF_FFFF

  class ComRequestBuilder {
    const clientId: str
    const emptyClientId: str
    var coder: Option<Coder>
    var replyKeyId: byte
    var cmdId: uint16
    var replySeqNum: uint32
    var replyStatus: byte
    var replyClientId: str
    var replyError: byte
    var reply: Option<str>

    constructor (id: str, bogus: str)
      requires |id| == |bogus| == ID_LEN
      ensures clientId == id && emptyClientId == bogus && coder.None? && reply.None?
    {
      clientId, emptyClientId, coder, reply := id, bogus, None, None;
      replyKeyId, cmdId, replySeqNum, replyStatus, replyClientId, replyError := 0, 0, 0, 0, Zeros(ID_LEN), 0;
    }

    method CreateNotEncrypted(seqNum: uint32, key: byte, cmd: uint16, text: str) returns (packet: str)
      requires |emptyClientId| == ID_LEN && HEADER + |text| < UINT32
      ensures packet == PlainPacket(key, cmd, seqNum, emptyClientId, text)
    {
      var bb := new ByteBuffer.Allocate(HEADER + |text|);
      bb.Put(0);
      bb.Put(key);
      assert bb.Written() == [0, key];
      bb.PutFields(cmd, seqNum, emptyClientId, |text|);
      bb.PutBytes(text);
      packet := bb.Array();
    }

    method Create(seqNum: uint32, key: byte, cmd: uint16, text: str) returns (r: Built)
      requires |clientId| == |emptyClientId| == ID_LEN && HEADER + |text| < UINT32
      requires coder.Some? ==> |Encrypt(coder.value, Secret(cmd, seqNum, clientId, text))| + 6 < UINT32
      modifies this`replyError, this`reply
      ensures replyError == 0 && reply.None?
      ensures r ==
              if cmd == 1 || cmd == 2 then
                Built(PlainPacket(key, cmd, seqNum, emptyClientId, text))
              else if coder.None? then NotConnected
              else Built(SecretPacket(coder.value, key, cmd, seqNum, clientId, text))
    {
      replyError := 0;
      reply := None;
      var noEncr := cmd == CMD_HANDSHAKE || cmd == CMD_CONNECT;
      if coder.None? && !noEncr { return NotConnected; }
      if noEncr {
        var plain := CreateNotEncrypted(seqNum, key, cmd, text);
        return Built(plain);
      }
      var buf := new ByteBuffer.Allocate(2 + 4 + 1 + 32 + 4 + |text|);
      buf.PutFields(cmd, seqNum, clientId, |text|);
      buf.PutBytes(text);
      var toEncr := buf.Array();
      var data := Encrypt(coder.value, toEncr);
      var bb := new ByteBuffer.Allocate(1 + 1 + 4 + |data|);
      bb.Put(1);
      bb.Put(key);
      assert bb.Written() == [1, key];
      bb.PutInt(|data|);
      bb.PutBytes(data);
      var packet := bb.Array();
      r := Built(packet);
    }

    // Reads a reply field by field; the length is taken from the header.
    method Parse(packet: str) returns (r: Parsed)
      modifies this
      ensures coder == old(coder)
      ensures r.Underflow? <==>
                |packet| <= HEADER
                || (FromLE(packet[41..45]) <= INT_MAX && |packet| <= HEADER + FromLE(packet[41..45]))
      ensures r.NegativeLength? <==> |packet| > HEADER && FromLE(packet[41..45]) > INT_MAX
      ensures |packet| > HEADER ==>
                && replyKeyId == packet[1] && cmdId == FromLE(packet[2..4]) && replySeqNum == FromLE(packet[4..8])
                && replyStatus == packet[8] && replyClientId == packet[9..41] && replyError == packet[45]
      ensures !r.Underflow? && !r.NegativeLength? ==>
                var data := packet[46..46 + FromLE(packet[41..45])];
                if data == [] then r.Parsed? && reply.None?
                else if packet[0] != 1 then r.Parsed? && reply == Some(data)
                else if coder.None? then r.Undecipherable?
                else r.Parsed? == Decrypt(coder.value, data).Some?
                     && (r.Parsed? ==> reply == Decrypt(coder.value, data))
      ensures |packet| <= HEADER || (!r.Parsed? && packet[0] == 1) || r.NegativeLength? ==> reply == old(reply)
      ensures |packet| > HEADER && r.Underflow? && packet[0] != 1 ==> reply == Some(Zeros(FromLE(packet[41..45])))
    {
      if |packet| <= HEADER {
        ReadFields(packet);
        return Underflow;
      }
      var encr := packet[0];
      ReadFields(packet);
      var len := FromLE(packet[41..45]);
      replyError := packet[45];
      if len == 0 {
        reply := None;
        return Parsed;
      }
      if len > INT_MAX { return NegativeLength; }
      if encr == 1 {
        if 46 + len > |packet| { return Underflow; }
        if coder.None? { return Undecipherable; }
        var plain := Decrypt(coder.value, packet[46..46 + len]);
        if plain.None? { return Undecipherable; }
        reply := plain;
      } else {
        reply := Some(Zeros(len));
        if 46 + len > |packet| { return Underflow; }
        reply := Some(packet[46..46 + len]);
      }
      r := Parsed;
    }

    // The fields before the length, as far as the buffer goes.
    method ReadFields(packet: str)
      modifies this`replyKeyId, this`cmdId, this`replySeqNum, this`replyStatus, this`replyClientId
      ensures |packet| > HEADER ==>
                && replyKeyId == packet[1] && cmdId == FromLE(packet[2..4]) && replySeqNum == FromLE(packet[4..8])
                && replyStatus == packet[8] && replyClientId == packet[9..41]
    {
      if |packet| < 2 { return; }
      replyKeyId := packet[1];
      if |packet| < 4 { return; }
      ShortBound(packet[2..4]);
      cmdId := FromLE(packet[2..4]);
      if |packet| < 8 { return; }
      IntBound(packet[4..8]);
      replySeqNum := FromLE(packet[4..8]);
      if |packet| < 9 { return; }
      replyStatus := packet[8];
      if |packet| < 41 { return; }
      replyClientId := packet[9..41];
    }

    function ReplyString(): str
      reads this
    {
      match reply case Some(s) => s case None => []
    }
  }

  // ---- the server's decoder ----

  // SetData on memory that goes on with other bytes; a length of 0 means all of it.
  function TextAt(mem: str, len: nat): str
  {
    var c := CString(mem);
    if 0 < len < |c| then c[..len] else c
  }

  predicate FieldsFit(mem: str, at: nat) { at + 43 <= |mem| }

  function CmdAt(mem: str, at: nat): nat requires FieldsFit(mem, at) { FromLE(mem[at..at + 2]) }
  function SeqAt(mem: str, at: nat): nat requires FieldsFit(mem, at) { FromLE(mem[at + 2..at + 6]) }
  function ClientAt(mem: str, at: nat): str requires FieldsFit(mem, at) { mem[at + 7..at + 39] }
  function LenAt(mem: str, at: nat): nat requires FieldsFit(mem, at) { FromLE(mem[at + 39..at + 43]) }

  lemma {:induction false} FromLEBound(s: str)
    ensures FromLE(s) < Pow256(|s|)
  {
    if s != [] { FromLEBound(s[1..]); }
  }

  lemma ShortBound(s: str)
    requires |s| == 2
    ensures FromLE(s) < 0x1_0000
  {
    FromLEBound(s);
    assert Pow256(2) == 256 * (256 * 1);
  }

  lemma IntBound(s: str)
    requires |s| == 4
    ensures FromLE(s) < UINT32
  {
    FromLEBound(s);
    assert Pow256(4) == 256 * (256 * (256 * (256 * 1)));
  }

  lemma FieldBounds(mem: str, at: nat)
    requires FieldsFit(mem, at)
    ensures CmdAt(mem, at) < 0x1_0000 && SeqAt(mem, at) < UINT32
  {
    ShortBound(mem[at..at + 2]);
    IntBound(mem[at + 2..at + 6]);
  }

  // What a decryption leaves at the start of its buffer. The last block is held back until its padding was
  // checked; the server does not ask whether it was good.
  function Kept(c: Coder, data: str): str
  {
    match Decrypt(c, data)
    case Some(plain) => plain
    case None => c.dec(data[..if data == [] then 0 else (|data| - 1) / 16 * 16])
  }

  function DataLen(mem: str): nat requires |mem| >= 6 { FromLE(mem[2..6]) }

  // mem is the packet and what memory holds behind it, stale what the buffer holds behind the decrypted
  // bytes, both up to a zero byte. Every byte that the header and its lengths ask for is there.
  predicate Mapped(c: Coder, mem: str, stale: str)
  {
    && mem != []
    && if mem[0] == 0 then HEADER <= |mem|
       else 6 <= |mem| && 6 + DataLen(mem) <= |mem| && FieldsFit(Kept(c, mem[6..6 + DataLen(mem)]) + stale, 0)
  }

  // Where the fields are: in the packet itself, or in the decrypted part.
  function Body(c: Coder, mem: str, stale: str): (r: (str, nat))
    requires Mapped(c, mem, stale)
    ensures FieldsFit(r.0, r.1)
  {
    if mem[0] == 0 then (mem, 2) else (Kept(c, mem[6..6 + DataLen(mem)]) + stale, 0)
  }

  function Decoded(c: Coder, mem: str, stale: str): Msg
    requires Mapped(c, mem, stale)
  {
    var (body, at) := Body(c, mem, stale);
    FieldBounds(body, at);
    var len := LenAt(body, at);
    Msg(if mem[0] == 0 then 0 else 1, mem[1], CmdAt(body, at), SeqAt(body, at), body[at + 6], ClientAt(body, at),
        if mem[0] == 0 && len == 0 then [] else TextAt(body[at + 43..], len))
  }

  // A message and its tokens, or a read where nothing is mapped.
  datatype Fetched = Fetched(m: Msg, tokens: seq<str>) | Unmapped

  function Outcome(c: Coder, mem: str, stale: str): Fetched
  {
    if !Mapped(c, mem, stale) then Unmapped
    else
      var m := Decoded(c, mem, stale);
      Fetched(m, if m.encr == 0 then [] else Tokens(m.text, NL))
  }

  method GetData(c: Coder, packet: str, after: str, stale: str) returns (r: Fetched)
    ensures r == Outcome(c, packet + after, stale)
  {
    var mem := packet + after;
    if |mem| == 0 { return Unmapped; }
    if mem[0] == 0 {
      if |mem| < HEADER { return Unmapped; }
      FieldBounds(mem, 2);
      var len := LenAt(mem, 2);
      var text := if len == 0 then [] else TextAt(mem[HEADER..], len);
      return Fetched(Msg(mem[0], mem[1], CmdAt(mem, 2), SeqAt(mem, 2), mem[8], ClientAt(mem, 2), text), []);
    }
    if |mem| < 6 { return Unmapped; }
    var n := FromLE(mem[2..6]);
    if 6 + n > |mem| { return Unmapped; }
    var buf := Kept(c, mem[6..6 + n]) + stale;
    if |buf| < 43 { return Unmapped; }
    assert Body(c, mem, stale) == (buf, 0);
    var m := WalkFields(mem[1], buf);
    r := Fetched(m, Tokens(m.text, NL));
  }

  // The pointer moves over the fields; the rest is the text.
  method WalkFields(key: byte, buf: str) returns (m: Msg)
    requires FieldsFit(buf, 0)
    ensures CmdAt(buf, 0) < 0x1_0000 && SeqAt(buf, 0) < UINT32
    ensures m == Msg(1, key, CmdAt(buf, 0), SeqAt(buf, 0), buf[6], ClientAt(buf, 0), TextAt(buf[43..], LenAt(buf, 0)))
  {
    FieldBounds(buf, 0);
    var at := 0;
    var cmd := FromLE(buf[at..at + 2]);
    at := at + 2;
    var seqNum := FromLE(buf[at..at + 4]);
    at := at + 4;
    var status := buf[at];
    at := at + 1;
    var client := buf[at..at + ID_LEN];
    at := at + ID_LEN;
    var len := FromLE(buf[at..at + 4]);
    at := at + 4;
    m := Msg(1, key, cmd, seqNum, status, client, TextAt(buf[at..], len));
  }

  // Packets of an unexpected size are dropped before they are queued.
  predicate Dropped(size: nat) { size < HEADER && size != 13 }

  // ---- the server's reply ----

  function ReplyData(c: Coder, encr: byte, text: str): str { if encr == 1 then Encrypt(c, text) else text }

  // The request's header again with a new status and length, the error byte, the text.
  function ReplyPacket(c: Coder, m: Msg, error: byte, text: str): str
    requires |ReplyData(c, m.encr, text)| < UINT32
  {
    var data := ReplyData(c, m.encr, text);
    Fields([m.encr, m.key], m.cmd, m.seqNum, m.status, m.client, |data|) + ([error] + data)
  }

  // ---- the payload of a message ----

  datatype Send = TooFew | PastTheEnd | Params(num: str, pin: str, to: str, msg: str)

  function SendPayload(num: str, pin: str, to: str, msg: str): str
  {
    num + [NL] + (pin + [NL] + (to + [NL] + msg))
  }

  // The first three tokens; the message is whatever follows them, new lines included.
  function SendParams(text: str): Send
  {
    var v := Tokens(text, NL);
    if |v| < 3 then TooFew
    else
      var pos := |v[0]| + |v[1]| + |v[2]| + 3;
      if pos > |text| then PastTheEnd else Params(v[0], v[1], v[2], text[pos..])
  }
}
