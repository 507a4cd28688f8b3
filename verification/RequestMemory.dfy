/**
 What the server makes of a packet that is not quite a request: it reads on in memory where the packet or the
 decrypted text ends, and it decodes what a failed decryption left in its buffer.
 */
module RequestMemory {
  import opened Bytes
  import opened Strings
  import opened Request
  import opened RequestRoundTrip

  // The text ends inside these bytes, at a zero byte or by its length.
  predicate Settled(u: str, len: nat) { !NulFree(u) || 0 < len <= |u| }

  lemma TextSettles(u: str, len: nat, more: str)
    requires Settled(u, len)
    ensures TextAt(u + more, len) == TextAt(u, len)
  {
    var c, d := CString(u), CString(u + more);
    assert forall i :: 0 <= i < |u| ==> (u + more)[i] == u[i];
    if NulFree(u) {
      CStringUnique(u, u);
      assert u == (u + more)[..|u|] && |d| >= |u| && d[..len] == (u + more)[..len];
      assert u[..len] == (u + more)[..len];
    } else {
      CStringUnique(u + more, c);
    }
  }

  lemma TextUnsettled(u: str, len: nat)
    requires !Settled(u, len)
    ensures TextAt(u + [1], len) != TextAt(u + [], len)
  {
    CStringUnique(u + [1], u + [1]);
    CStringUnique(u + [], u);
  }

  // The lengths, and the end of the text, stay inside the packet and the decrypted bytes.
  predicate SelfContained(c: Coder, packet: str)
  {
    && packet != []
    && if packet[0] == 0 then
         HEADER <= |packet| && (LenAt(packet, 2) == 0 || Settled(packet[HEADER..], LenAt(packet, 2)))
       else
         && 6 <= |packet| && 6 + DataLen(packet) <= |packet|
         && var kept := Kept(c, packet[6..6 + DataLen(packet)]);
            FieldsFit(kept, 0) && Settled(kept[43..], LenAt(kept, 0))
  }

  lemma FieldsStay(mem: str, at: nat, more: str)
    requires FieldsFit(mem, at)
    ensures FieldsFit(mem + more, at) && (mem + more)[at + 43..] == mem[at + 43..] + more
    ensures CmdAt(mem + more, at) == CmdAt(mem, at) && SeqAt(mem + more, at) == SeqAt(mem, at)
    ensures ClientAt(mem + more, at) == ClientAt(mem, at) && LenAt(mem + more, at) == LenAt(mem, at)
  {
    var m := mem + more;
    assert m[at..at + 2] == mem[at..at + 2] && m[at + 2..at + 6] == mem[at + 2..at + 6];
    assert m[at + 7..at + 39] == mem[at + 7..at + 39] && m[at + 39..at + 43] == mem[at + 39..at + 43];
  }

  lemma PlainStays(c: Coder, packet: str, after: str, stale: str)
    requires SelfContained(c, packet) && packet[0] == 0
    ensures Mapped(c, packet, []) && Outcome(c, packet + after, stale) == Outcome(c, packet, [])
  {
    FieldsStay(packet, 2, after);
    var len := LenAt(packet, 2);
    if len != 0 { TextSettles(packet[HEADER..], len, after); }
  }

  lemma DataStays(packet: str, after: str)
    requires packet != [] && packet[0] != 0 && 6 <= |packet| && 6 + DataLen(packet) <= |packet|
    ensures var mem := packet + after;
            && mem[0] == packet[0] && mem[1] == packet[1] && DataLen(mem) == DataLen(packet)
            && mem[6..6 + DataLen(mem)] == packet[6..6 + DataLen(packet)]
  {
    var mem := packet + after;
    assert mem[2..6] == packet[2..6];
    assert mem[6..6 + DataLen(packet)] == packet[6..6 + DataLen(packet)];
  }

  // What becomes of a packet whose data lies inside.
  lemma SecretOutcome(c: Coder, packet: str, after: str, stale: str, kept: str)
    requires packet != [] && packet[0] != 0 && 6 <= |packet| && 6 + DataLen(packet) <= |packet|
    requires kept == Kept(c, packet[6..6 + DataLen(packet)]) && FieldsFit(kept, 0)
    ensures CmdAt(kept, 0) < 0x1_0000 && SeqAt(kept, 0) < UINT32
    ensures Outcome(c, packet + after, stale) == FromKept(packet[1], kept, stale)
  {
    FieldBounds(kept, 0);
    DataStays(packet, after);
    KeptOutcome(c, packet + after, stale, kept);
  }

  function FromKept(key: byte, kept: str, stale: str): Fetched
    requires FieldsFit(kept, 0) && CmdAt(kept, 0) < 0x1_0000 && SeqAt(kept, 0) < UINT32
  {
    var text := TextAt(kept[43..] + stale, LenAt(kept, 0));
    Fetched(Msg(1, key, CmdAt(kept, 0), SeqAt(kept, 0), kept[6], ClientAt(kept, 0), text), Tokens(text, NL))
  }

  lemma DecodedSecret(c: Coder, mem: str, stale: str, body: str)
    requires Mapped(c, mem, stale) && mem[0] != 0 && Body(c, mem, stale) == (body, 0)
    requires CmdAt(body, 0) < 0x1_0000 && SeqAt(body, 0) < UINT32
    ensures Decoded(c, mem, stale)
            == Msg(1, mem[1], CmdAt(body, 0), SeqAt(body, 0), body[6], ClientAt(body, 0),
                   TextAt(body[43..], LenAt(body, 0)))
  {
  }

  lemma KeptDecoded(c: Coder, mem: str, stale: str, kept: str)
    requires mem != [] && mem[0] != 0 && 6 <= |mem| && 6 + DataLen(mem) <= |mem|
    requires kept == Kept(c, mem[6..6 + DataLen(mem)])
    requires FieldsFit(kept, 0) && CmdAt(kept, 0) < 0x1_0000 && SeqAt(kept, 0) < UINT32
    ensures Mapped(c, mem, stale) && Decoded(c, mem, stale) == FromKept(mem[1], kept, stale).m
  {
    var body := kept + stale;
    FieldsStay(kept, 0, stale);
    assert Mapped(c, mem, stale) && Body(c, mem, stale) == (body, 0);
    DecodedSecret(c, mem, stale, body);
    assert body[6] == kept[6] && body[43..] == kept[43..] + stale;
  }

  lemma KeptOutcome(c: Coder, mem: str, stale: str, kept: str)
    requires mem != [] && mem[0] != 0 && 6 <= |mem| && 6 + DataLen(mem) <= |mem|
    requires kept == Kept(c, mem[6..6 + DataLen(mem)])
    requires FieldsFit(kept, 0) && CmdAt(kept, 0) < 0x1_0000 && SeqAt(kept, 0) < UINT32
    ensures Outcome(c, mem, stale) == FromKept(mem[1], kept, stale)
  {
    KeptDecoded(c, mem, stale, kept);
  }

  lemma SecretStays(c: Coder, packet: str, after: str, stale: str)
    requires SelfContained(c, packet) && packet[0] != 0
    ensures Mapped(c, packet, []) && Outcome(c, packet + after, stale) == Outcome(c, packet, [])
  {
    var kept := Kept(c, packet[6..6 + DataLen(packet)]);
    SecretOutcome(c, packet, after, stale, kept);
    SecretOutcome(c, packet, [], [], kept);
    assert packet + [] == packet;
    TextSettles(kept[43..], LenAt(kept, 0), stale);
    TextSettles(kept[43..], LenAt(kept, 0), []);
  }

  lemma Leaks(c: Coder, packet: str)
    requires Mapped(c, packet, []) && !SelfContained(c, packet)
    ensures Outcome(c, packet + [1], [1]) != Outcome(c, packet + [], [])
  {
    if packet[0] == 0 {
      FieldsStay(packet, 2, [1]);
      FieldsStay(packet, 2, []);
      TextUnsettled(packet[HEADER..], LenAt(packet, 2));
    } else {
      var kept := Kept(c, packet[6..6 + DataLen(packet)]);
      assert packet + [] == packet && kept + [] == kept;
      SecretOutcome(c, packet, [1], [1], kept);
      SecretOutcome(c, packet, [], [], kept);
      TextUnsettled(kept[43..], LenAt(kept, 0));
    }
  }

  /**
   What the decoder makes of a packet depends on nothing but the packet exactly when its lengths stay inside
   and the text ends there, at a zero byte or by its length.
   */
  lemma OnlyThePacket(c: Coder, packet: str)
    ensures (Mapped(c, packet, [])
             && forall after: str, stale: str :: Outcome(c, packet + after, stale) == Outcome(c, packet, []))
            <==> SelfContained(c, packet)
  {
    if SelfContained(c, packet) {
      forall after: str, stale: str
        ensures Mapped(c, packet, []) && Outcome(c, packet + after, stale) == Outcome(c, packet, [])
      {
        if packet[0] == 0 { PlainStays(c, packet, after, stale); } else { SecretStays(c, packet, after, stale); }
      }
      assert Outcome(c, packet + [], []) == Outcome(c, packet, []);
      if packet[0] == 0 { PlainStays(c, packet, [], []); } else { SecretStays(c, packet, [], []); }
    } else if Mapped(c, packet, []) {
      Leaks(c, packet);
      assert packet + [] == packet;
    }
  }

  predicate IsMsg(f: Fetched, m: Msg) { f.Fetched? && f.m == m }

  /** So a message is decoded, whatever memory holds, exactly from the self-contained packets that decode to it. */
  lemma ArrivesIntact(c: Coder, packet: str, m: Msg)
    ensures (forall after: str, stale: str :: IsMsg(Outcome(c, packet + after, stale), m))
            <==> SelfContained(c, packet) && IsMsg(Outcome(c, packet, []), m)
  {
    OnlyThePacket(c, packet);
    if forall after: str, stale: str :: IsMsg(Outcome(c, packet + after, stale), m) {
      assert packet + [] == packet && IsMsg(Outcome(c, packet + [], []), m);
      forall after: str, stale: str ensures Outcome(c, packet + after, stale) == Outcome(c, packet, []) {
        assert IsMsg(Outcome(c, packet + after, stale), m);
      }
    } else if SelfContained(c, packet) {
      var after: str, stale: str :| !IsMsg(Outcome(c, packet + after, stale), m);
      assert Outcome(c, packet + after, stale) == Outcome(c, packet, []);
    }
  }

  /** A plain packet is not cut into tokens; an encrypted one is, at its new lines. */
  lemma TokensOf(c: Coder, mem: str, stale: str)
    requires Mapped(c, mem, stale)
    ensures var f := Outcome(c, mem, stale);
            f.Fetched? && f.tokens == if mem[0] == 0 then [] else Tokens(f.m.text, 10)
  {
  }

  // ---- a failed decryption ----

  // The same data with another last block.
  function Altered(data: str, last: str): str
    requires |data| >= 16
  {
    data[..|data| - 16] + last
  }

  // A last block that decrypts to bad padding leaves the blocks before it.
  lemma KeptBeforeBadPadding(c: Coder, plain: str, last: str)
    requires Sound(c) && BlockWise(c) && |last| == 16 && |Encrypt(c, plain)| >= 16
    requires Decrypt(c, Altered(Encrypt(c, plain), last)).None?
    ensures Kept(c, Altered(Encrypt(c, plain), last)) == plain[..|plain| - |plain| % 16]
  {
    var data := Encrypt(c, plain);
    assert |data| == |Pad(plain)| && c.dec(data) == Pad(plain);
    BlocksBelow(|data|);
    var k := |data| - 16;
    assert c.dec(data[..k]) == c.dec(data)[..k];
    KeptCut(c, data, Pad(plain), last);
    PadCut(plain);
  }

  lemma KeptCut(c: Coder, data: str, p: str, last: str)
    requires |last| == 16 && |data| == |p| >= 16 && |data| % 16 == 0 && Decrypt(c, Altered(data, last)).None?
    requires c.dec(data[..|data| - 16]) == p[..|p| - 16]
    ensures Kept(c, Altered(data, last)) == p[..|p| - 16]
  {
    BlocksBelow(|data|);
    assert Altered(data, last)[..|data| - 16] == data[..|data| - 16];
  }

  lemma PadCut(plain: str)
    ensures var k := |plain| - |plain| % 16; |Pad(plain)| - 16 == k && Pad(plain)[..k] == plain[..k]
  {
    assert Pad(plain)[..|plain|] == plain;
  }

  lemma BlocksBelow(n: nat)
    requires n % 16 == 0 && n > 0
    ensures (n - 1) / 16 * 16 == n - 16 && (n - 16) % 16 == 0
  {
  }

  lemma TextCut(text: str, k: nat)
    requires k <= |text| && text != []
    ensures (forall stale: str :: TextAt(text[..k] + stale, |text|) == text) <==> k == |text| && NulFree(text)
  {
    TextSurvives(text);
    if k == |text| {
      assert text[..k] == text;
    } else {
      var none: str := [];
      assert |CString(text[..k] + none)| <= k;
      assert TextAt(text[..k] + none, |text|) != text;
    }
  }

  // Whatever the buffer held: all but the text is as sent; the text is as sent.
  ghost predicate HeaderArrives(c: Coder, mem: str, m: Msg)
  {
    forall stale: str :: Mapped(c, mem, stale) && Decoded(c, mem, stale).(text := []) == m.(text := [])
  }

  ghost predicate TextArrives(c: Coder, mem: str, text: str)
  {
    forall stale: str :: Mapped(c, mem, stale) && Decoded(c, mem, stale).text == text
  }

  /**
   A request of four blocks or more whose last block was altered, so that its padding is bad, is taken for
   the request that was sent: command, number, status and client always arrive, and the text whatever the
   buffer held before exactly when the altered block was padding only and the text has no NUL.
   */
  lemma AlteredLastBlock(c: Coder, m: Msg, data: str, last: str, after: str)
    requires Sound(c) && BlockWise(c) && |m.client| == ID_LEN && m.status == m.encr == 1
    requires |last| == 16 && 5 <= |m.text| < UINT32 && 16 <= |data| < UINT32
    requires data == Encrypt(c, Secret(m.cmd, m.seqNum, m.client, m.text)) && Decrypt(c, Altered(data, last)).None?
    ensures var p := Sealed(m.key, Altered(data, last));
            && !Dropped(|p|) && HeaderArrives(c, p + after, m)
            && (TextArrives(c, p + after, m.text) <==> |m.text| % 16 == 5 && NulFree(m.text))
  {
    KeptBeforeBadPadding(c, Secret(m.cmd, m.seqNum, m.client, m.text), last);
    AlteredDecodes(c, m, Altered(data, last), after);
  }

  lemma AlteredDecodes(c: Coder, m: Msg, received: str, after: str)
    requires |m.client| == ID_LEN && m.status == m.encr == 1 && 5 <= |m.text| < UINT32
    requires |received| < UINT32 && |received| > 43
    requires var plain := Secret(m.cmd, m.seqNum, m.client, m.text);
             Kept(c, received) == plain[..|plain| - |plain| % 16]
    ensures var p := Sealed(m.key, received);
            && !Dropped(|p|) && HeaderArrives(c, p + after, m)
            && (TextArrives(c, p + after, m.text) <==> |m.text| % 16 == 5 && NulFree(m.text))
  {
    SecretCut(m.cmd, m.seqNum, m.client, m.text);
    SealedLayout(m.key, received, []);
    ReceivedText(c, m, received, after, |m.text| - (|m.text| - 5) % 16);
  }

  lemma SecretCut(cmd: uint16, seqNum: uint32, client: str, text: str)
    requires |client| == ID_LEN && 5 <= |text| < UINT32
    ensures var plain, k := Secret(cmd, seqNum, client, text), |text| - (|text| - 5) % 16;
            && |plain| == 43 + |text| && (k == |text| <==> |text| % 16 == 5)
            && plain[..|plain| - |plain| % 16] == Fields([], cmd, seqNum, 1, client, |text|) + text[..k]
  {
    CutAt(|text|);
    PrefixOf(Fields([], cmd, seqNum, 1, client, |text|), text, |text| - (|text| - 5) % 16);
  }

  lemma CutAt(n: nat)
    requires n >= 5
    ensures (43 + n) % 16 == (n - 5) % 16 && ((n - 5) % 16 == 0 <==> n % 16 == 5)
  {
  }

  lemma PrefixOf(a: str, b: str, k: nat)
    requires k <= |b|
    ensures (a + b)[..|a| + k] == a + b[..k]
  {
  }

  lemma ReceivedText(c: Coder, m: Msg, received: str, after: str, k: nat)
    requires |m.client| == ID_LEN && m.status == m.encr == 1 && 0 < |m.text| < UINT32
    requires |received| < UINT32 && k <= |m.text|
    requires Kept(c, received) == Fields([], m.cmd, m.seqNum, 1, m.client, |m.text|) + m.text[..k]
    ensures HeaderArrives(c, Sealed(m.key, received) + after, m)
    ensures TextArrives(c, Sealed(m.key, received) + after, m.text) <==> k == |m.text| && NulFree(m.text)
  {
    var mem, u, len := Sealed(m.key, received) + after, m.text[..k], |m.text|;
    forall stale: str
      ensures Mapped(c, mem, stale) && Decoded(c, mem, stale) == m.(text := TextAt(u + stale, len))
    {
      SealedDecodes(c, m.key, received, after, stale, m.cmd, m.seqNum, m.client, len, u);
    }
    TextCut(m.text, k);
    if TextArrives(c, mem, m.text) {
      forall stale: str ensures TextAt(u + stale, len) == m.text {
        assert Decoded(c, mem, stale).text == m.text;
      }
    }
  }

  /** Such a block exists: with the cipher that adds a key, the one that decrypts to zeros. */
  lemma AlteredBlockExists(key: byte, data: str)
    requires |data| % 16 == 0 && |data| >= 16
    ensures Decrypt(ShiftCoder(key), Altered(data, Shifted(Zeros(16), key))).None?
  {
    var s := Altered(data, Shifted(Zeros(16), key));
    ShiftedBack(Zeros(16), key);
    assert s[|s| - 1] == Shifted(Zeros(16), key)[15];
    assert Shifted(s, Unkey(key))[|s| - 1] == Shifted(Shifted(Zeros(16), key), Unkey(key))[15] == 0;
  }
}
