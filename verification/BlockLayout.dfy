/** The bytes of a block file: version, counters and records where other programs would look for them. */
module BlockLayout {
  import opened Bytes
  import opened MsgBlock
  import opened BlockFile

  /** Numbers are stored with the low byte first. */
  lemma LowByteFirst(n: uint32)
    ensures LE(n, 4) == [n % 256, n / 256 % 256, n / 65536 % 256, n / 16777216 % 256]
  {
    assert n / 256 / 256 == n / 65536 && n / 65536 / 256 == n / 16777216;
    var a, b, c := n / 256, n / 256 / 256, n / 256 / 256 / 256;
    assert LE(c, 1) == [c % 256] && LE(b, 2) == [b % 256] + LE(c, 1) && LE(a, 3) == [a % 256] + LE(b, 2);
  }

  lemma HeaderBytes(h: Header)
    ensures var s := EncHeader(h);
            |s| == 13 && s[0] == 1 && s[1..5] == LE(h.total, 4) && s[5..9] == LE(h.unread, 4)
            && s[9..13] == LE(h.deleted, 4)
  {
  }

  /** A mirrored file: a version byte of 1, the three counters, then the records, 59 bytes each. */
  lemma FileBytes(b: Block)
    requires Mirror(b) && b.file != []
    ensures 13 + 59 * |b.recs| <= |b.file|
    ensures b.file[0] == 1 && FromLE(b.file[1..5]) % 0x1_0000_0000 == b.h.total
    ensures FromLE(b.file[5..9]) % 0x1_0000_0000 == b.h.unread && FromLE(b.file[9..13]) % 0x1_0000_0000 == b.h.deleted
    ensures forall i :: 0 <= i < |b.recs| ==> 13 + 59 * i + 59 <= |b.file|
                                              && b.file[13 + 59 * i..13 + 59 * i + 59] == b.recs[i]
  {
    assert b.file[..13][1..5] == b.file[1..5] && b.file[..13][5..9] == b.file[5..9];
    assert b.file[..13][9..13] == b.file[9..13];
    forall i | 0 <= i < |b.recs|
      ensures 13 + 59 * i + 59 <= |b.file| && b.file[13 + 59 * i..13 + 59 * i + 59] == b.recs[i]
    {
      MirrorRecord(b, i);
    }
  }

  // Field of a record: the text, then zeros.
  predicate Padded(r: Rec, from: nat, to: nat, s: str)
    requires from <= to <= 59
  {
    |s| <= to - from && r[from..from + |s|] == s && forall i :: from + |s| <= i < to ==> r[i] == 0
  }

  /** A new record: status 1, the time in 8 bytes, the sender in 17, the message id in 33. */
  lemma RecordBytes(now: nat, from: str, id: str)
    requires 3 <= |from| <= 16 && 1 <= |id| <= 32
    ensures var r := NewRecord(now, from, id);
            r[0] == 1 && r[1..9] == LE(now, 8) && Padded(r, 9, 26, from) && Padded(r, 26, 59, id)
  {
    var t, f, d := LE(now, 8), PadTo(from, 17), PadTo(id, 33);
    var r := NewRecord(now, from, id);
    assert r == [1] + t + f + d && r[9..26] == f && r[26..59] == d;
    assert r[9..9 + |from|] == f[..|from|] && r[26..26 + |id|] == d[..|id|];
  }

  /** Reading makes the status 2 and deleting makes it 3, with nothing else of the record changed. */
  lemma StatusBytes(b: Block, i: nat)
    requires i < |b.recs|
    ensures b.recs[i][0] == 1 ==> MarkRead(b, i).recs == b.recs[i := [2] + b.recs[i][1..]]
    ensures MarkDeleted(b, i).recs == b.recs[i := [3] + b.recs[i][1..]]
  {
    assert b.recs[i][0 := 2] == [2] + b.recs[i][1..] && b.recs[i][0 := 3] == [3] + b.recs[i][1..];
  }

  /** The listing shows 'N' for a message not yet read and 'R' for the others. */
  lemma LineLetters(r: Rec)
    ensures LineOf(r).status == if r[0] == 1 then 'N' else 'R'
  {
  }
}
