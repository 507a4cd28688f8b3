/**
 The message block of one account: a header with three counters, an array of fixed-size records
 (the in-memory buffer) and the block file behind them.

 Every operation is given here as a function on the value of a block. Class BlockInPlace.CMsgBlock works
 in place, loop by loop, and is proved to compute exactly these functions.
 */
module MsgBlock {
  import opened Bytes
  import opened Filters

  const HEADER_LEN := 13     // version byte and three 4-byte counters, packed
  const RECORD_LEN := 59     // status, 8-byte time, 17-byte sender, 33-byte file name, packed
  const MAX_MSG_IN_BLOCK: uint32 := 1024

  // Bytes taken by n records.
  function Size(n: nat): nat { 59 * n }
  const RECORDS_STEP := 10

  const STATUS_ERROR: byte := 0
  const STATUS_NEW: byte := 1
  const STATUS_READ: byte := 2
  const STATUS_DELETED: byte := 3

  // A record is the 59 bytes that memory and file share.
  type Rec = r: str | |r| == RECORD_LEN witness Zeros(RECORD_LEN)

  function Status(r: Rec): byte { r[0] }
  function Time(r: Rec): nat { FromLE(r[1..9]) }
  function FromNum(r: Rec): str { CString(r[9..26]) }
  function Id(r: Rec): str { CString(r[26..]) }
  function WithStatus(r: Rec, status: byte): (r': Rec)
    ensures Status(r') == status && Id(r') == Id(r) && Time(r') == Time(r) && FromNum(r') == FromNum(r)
  {
    var r' := r[0 := status];
    assert r'[1..9] == r[1..9] && r'[9..26] == r[9..26] && r'[26..] == r[26..];
    r'
  }

  // The arguments Add accepts: the sender has 3 to 16 digits and the id 1 to 32 letters.
  predicate ValidArgs(from: str, id: str) { 3 <= |from| <= 16 && 1 <= |id| <= 32 }

  function NewRecord(now: nat, from: str, id: str): (r: Rec)
    requires ValidArgs(from, id)
    ensures Status(r) == STATUS_NEW
    ensures NulFree(from) ==> FromNum(r) == from
    ensures NulFree(id) ==> Id(r) == id
    ensures now < Pow256(8) ==> Time(r) == now
  {
    var t, f, d := LE(now, 8), PadTo(from, 17), PadTo(id, 33);
    var r := [STATUS_NEW] + t + f + d;
    assert r[1..9] == t && r[9..26] == f && r[26..] == d;
    assert NulFree(from) ==> CString(f) == from by { if NulFree(from) { CStringOfPadded(from, 17); } }
    assert NulFree(id) ==> CString(d) == id by { if NulFree(id) { CStringOfPadded(id, 33); } }
    assert now < Pow256(8) ==> FromLE(t) == now by { if now < Pow256(8) { LERoundTrip(now, 8); } }
    r
  }

  datatype Header = Header(total: uint32, unread: uint32, deleted: uint32)

  const EMPTY_HEADER := Header(0, 0, 0)

  function EncHeader(h: Header): (s: str)
    ensures |s| == HEADER_LEN
  {
    [1] + LE(h.total, 4) + LE(h.unread, 4) + LE(h.deleted, 4)
  }

  // The value of a block whose records are in memory: the header's total is the number of records.
  datatype RawBlock = Block(h: Header, recs: seq<Rec>, file: str)
  type Block = b: RawBlock | |b.recs| == b.h.total witness Block(EMPTY_HEADER, [], [])

  predicate IsLive(r: Rec) { Status(r) != STATUS_DELETED }
  predicate IsNew(r: Rec) { Status(r) == STATUS_NEW }

  function Live(rs: seq<Rec>): seq<Rec> { Filter<Rec>(IsLive, rs) }
  function Unread(rs: seq<Rec>): seq<Rec> { Filter<Rec>(IsNew, rs) }

  // Index of the first record with this id, or |rs|.
  function FirstIndex(rs: seq<Rec>, id: str): (i: nat)
    ensures i <= |rs|
    ensures forall j :: 0 <= j < i ==> Id(rs[j]) != id
    ensures i < |rs| ==> Id(rs[i]) == id
  {
    if rs == [] then 0 else if Id(rs[0]) == id then 0 else 1 + FirstIndex(rs[1..], id)
  }

  lemma FirstIndexUnique(rs: seq<Rec>, id: str, i: nat)
    requires i <= |rs| && (forall j :: 0 <= j < i ==> Id(rs[j]) != id)
    requires i < |rs| ==> Id(rs[i]) == id
    ensures FirstIndex(rs, id) == i
  {
    assert FirstIndex(rs, id) >= i;
  }

  function Flat(rs: seq<Rec>): (s: str)
    ensures |s| == Size(|rs|)
  {
    if rs == [] then [] else Flat(rs[..|rs| - 1]) + rs[|rs| - 1]
  }

  // The block has to be at least half full and more than 80 percent of it deleted.
  // The program computes the percentage; IsCompressIsIntegral below takes it to integers.
  predicate IsCompress(deleted: uint32, total: uint32)
  {
    total >= MAX_MSG_IN_BLOCK / 2 && (deleted as real) * 100.0 / (total as real) > 80.0
  }

  predicate MostlyDeleted(deleted: uint32, total: uint32)
  {
    total >= 512 && 5 * deleted > 4 * total
  }

  lemma QuotientBound(x: real, t: real, c: real)
    requires t > 0.0
    ensures x / t <= c <==> x <= c * t
    ensures c <= x / t <==> c * t <= x
  {
    var q := x / t;
    assert q * t == x;
    if q <= c { assert (c - q) * t >= 0.0; } else { assert (q - c) * t > 0.0; }
    if c <= q { assert (q - c) * t >= 0.0; } else { assert (c - q) * t > 0.0; }
  }

  lemma IsCompressIsIntegral(deleted: uint32, total: uint32)
    ensures IsCompress(deleted, total) <==> MostlyDeleted(deleted, total)
  {
    if total >= 512 {
      QuotientBound((deleted as real) * 100.0, total as real, 80.0);
    }
  }

  datatype Reply =
    | Added
    | BadNumberTooLong | BadNumberTooShort | BadFileTooLong | BadFileTooShort
    | NoSpace
    | Text(rec: Rec, text: str)
    | NoMessages | NotFound | MessageDeleted | LoadFailed
    | Deleted | AlreadyDeleted
    | HeaderError | Overrun    // a header that cannot be read; a write past the buffer

  function Compress(b: Block): Block
  {
    var live := Live(b.recs);
    if b.h.deleted == 0 || |live| == |b.recs| then b
    else
      var h := b.h.(total := b.h.total - (|b.recs| - |live|), deleted := 0);
      Block(h, live, WriteAt(b.file, 0, EncHeader(h) + Flat(live)))
  }

  function Append(b: Block, r: Rec): Block
    requires b.h.total < MAX_MSG_IN_BLOCK
  {
    var h := b.h.(total := b.h.total + 1, unread := Inc32(b.h.unread));
    Block(h, b.recs + [r], WriteAt(b.file, 0, EncHeader(h)) + r)
  }

  function Add(b: Block, now: nat, from: str, id: str): (Block, Reply)
  {
    if |from| > 16 then (b, BadNumberTooLong)
    else if |from| < 3 then (b, BadNumberTooShort)
    else if |id| > 32 then (b, BadFileTooLong)
    else if |id| < 1 then (b, BadFileTooShort)
    else AddRecord(b, NewRecord(now, from, id))
  }

  // A full block is compacted first if that can help.
  function AddRecord(b: Block, r: Rec): (Block, Reply)
  {
    if b.h.total >= MAX_MSG_IN_BLOCK then
      if b.h.deleted != 0 then
        var c := Compress(b);
        if c.h.total >= MAX_MSG_IN_BLOCK then (c, NoSpace) else (Append(c, r), Added)
      else (b, NoSpace)
    else (Append(b, r), Added)
  }

  // The status byte of record i goes to the file at the place where record i + 1 starts.
  function MarkRead(b: Block, i: nat): Block
    requires i < |b.recs| && Status(b.recs[i]) == STATUS_NEW
  {
    var h := b.h.(unread := Dec32(b.h.unread));
    Block(h, b.recs[i := WithStatus(b.recs[i], STATUS_READ)],
          WriteAt(WriteAt(b.file, 0, EncHeader(h)), Size(i + 1) + HEADER_LEN, [STATUS_READ]))
  }

  // text is the decrypted message file, or None when it cannot be loaded.
  function Read(b: Block, id: str, text: Option<str>): (Block, Reply)
  {
    if b.recs == [] then (b, NoMessages)
    else
      var i := FirstIndex(b.recs, id);
      if i == |b.recs| then (b, NotFound)
      else if Status(b.recs[i]) == STATUS_DELETED then (b, MessageDeleted)
      else if text.None? then (b, LoadFailed)
      else
        (if Status(b.recs[i]) == STATUS_NEW then MarkRead(b, i) else b, Text(b.recs[i], text.value))
  }

  function MarkDeleted(b: Block, i: nat): Block
    requires i < |b.recs|
  {
    var n := if Status(b.recs[i]) == STATUS_NEW then Dec32(b.h.unread) else b.h.unread;
    var h := b.h.(unread := n, deleted := Inc32(b.h.deleted));
    Block(h, b.recs[i := WithStatus(b.recs[i], STATUS_DELETED)],
          WriteAt(WriteAt(b.file, 0, EncHeader(h)), Size(i) + HEADER_LEN, [STATUS_DELETED]))
  }

  function Compacted(b: Block): Block
  {
    if b.h.deleted > 0 && MostlyDeleted(b.h.deleted, b.h.total) then Compress(b) else b
  }

  function Delete(b: Block, id: str): (Block, Reply)
  {
    var i := FirstIndex(b.recs, id);
    if i == |b.recs| then (b, NotFound)
    else if Status(b.recs[i]) == STATUS_DELETED then (b, AlreadyDeleted)
    else
      (Compacted(MarkDeleted(b, i)), Deleted)
  }

  // One output line of GetIds.
  datatype IdLine = IdLine(status: char, time: nat, from: str, id: str)

  function LineOf(r: Rec): IdLine
  {
    IdLine(if Status(r) == STATUS_NEW then 'N' else 'R', Time(r), FromNum(r), Id(r))
  }

  function Lines(rs: seq<Rec>): (out: seq<IdLine>)
    ensures |out| == |rs| && forall i :: 0 <= i < |rs| ==> out[i] == LineOf(rs[i])
  {
    seq(|rs|, i requires 0 <= i < |rs| => LineOf(rs[i]))
  }

  datatype Query = All | New | Other

  // Records with a status the block never writes are skipped.
  function Wanted(q: Query): Rec -> bool
  {
    (r: Rec) => (Status(r) == STATUS_NEW && !q.Other?) || (Status(r) == STATUS_READ && q.All?)
  }

  function Listed(rs: seq<Rec>, q: Query): seq<Rec> { Filter<Rec>(Wanted(q), rs) }

  lemma {:induction false} NothingListed(rs: seq<Rec>, q: Query)
    requires forall r :: r in rs ==> !Wanted(q)(r)
    ensures Listed(rs, q) == []
  {
    if rs != [] {
      assert rs[|rs| - 1] in rs;
      NothingListed(rs[..|rs| - 1], q);
    }
  }

  lemma ListedLast(rs: seq<Rec>, r: Rec, q: Query)
    requires Wanted(q)(r)
    ensures Lines(Listed(rs + [r], q)) == Lines(Listed(rs, q)) + [LineOf(r)]
  {
    assert (rs + [r])[..|rs + [r]| - 1] == rs;
    assert Listed(rs + [r], q) == Listed(rs, q) + [r];
  }

  // The early exit on the new counter comes before any record is looked at.
  function GetIds(b: Block, q: Query): seq<IdLine>
  {
    if b.h.total == 0 || (q.New? && b.h.unread == 0) then [] else Lines(Listed(b.recs, q))
  }

  // ---- loading a block back from its file ----

  // raw overlays the packed header; a short read overwrites only its first bytes.
  function DecHeader(raw: str): Header
    requires |raw| == HEADER_LEN
  {
    Header(FromLE(raw[1..5]) % UINT32, FromLE(raw[5..9]) % UINT32, FromLE(raw[9..13]) % UINT32)
  }

  lemma DecEncHeader(h: Header)
    ensures DecHeader(EncHeader(h)) == h
  {
    var s := EncHeader(h);
    assert s[1..5] == LE(h.total, 4) && s[5..9] == LE(h.unread, 4) && s[9..13] == LE(h.deleted, 4);
    LE4RoundTrip(h.total);
    LE4RoundTrip(h.unread);
    LE4RoundTrip(h.deleted);
  }

  // An empty file stands for an empty block; any other file needs a full header of version 1.
  predicate HeaderReadable(file: str) { file == [] || (|file| >= HEADER_LEN && file[0] == 1) }

  function FileHeader(file: str): Header
    requires HeaderReadable(file)
  {
    if file == [] then EMPTY_HEADER else DecHeader(file[..HEADER_LEN])
  }

  // What one read() call returns when it asks for size bytes and rest bytes are left: the operating
  // system may return fewer than it could. `short` lists how much the first calls return.
  function ReadLen(short: seq<nat>, size: nat, rest: nat): (n: nat)
    ensures n <= size && n <= rest && (n == 0 <==> size == 0 || rest == 0)
  {
    var full := if size <= rest then size else rest;
    if short == [] || short[0] >= full then full else if short[0] == 0 && full > 0 then 1 else short[0]
  }

  // Any number of bytes, but for none before the end, can be what one call returns.
  lemma AnyReadLen(size: nat, rest: nat, n: nat)
    requires 1 <= n <= size && n <= rest
    ensures ReadLen([n], size, rest) == n
  {
  }

  // How many bytes the load loop stores. Every call asks for the whole buffer size again.
  function LoadEnd(short: seq<nat>, size: nat, body: nat, done: nat): nat
    requires 0 < size && done <= body
    decreases body - done
  {
    var n := ReadLen(short, size, body - done);
    if n == 0 || done + n == size then done + n
    else LoadEnd(if short == [] then [] else short[1..], size, body, done + n)
  }

  // The records the header promises are in the file, and the loop stores nothing past the buffer.
  predicate Loadable(file: str, short: seq<nat>)
  {
    && HeaderReadable(file)
    && var size := Size(FileHeader(file).total);
       size > 0 ==> |file| >= HEADER_LEN + size && LoadEnd(short, size, |file| - HEADER_LEN, 0) <= size
  }

  function RecordAt(file: str, i: nat): Rec
    requires HEADER_LEN + Size(i + 1) <= |file|
  {
    file[HEADER_LEN + Size(i)..HEADER_LEN + Size(i + 1)]
  }

  function FileRecords(file: str, total: nat): (rs: seq<Rec>)
    requires total > 0 ==> HEADER_LEN + Size(total) <= |file|
    ensures |rs| == total
  {
    seq(total, i requires 0 <= i < total => RecordAt(file, i))
  }

  // The value a fresh block object takes from its file.
  function FileBlock(file: str): Block
    requires HeaderReadable(file)
    requires FileHeader(file).total > 0 ==> HEADER_LEN + Size(FileHeader(file).total) <= |file|
  {
    Block(FileHeader(file), FileRecords(file, FileHeader(file).total), file)
  }

  // ---- memory that was never written ----

  // What a new allocation holds, byte by byte.
  type Junk = nat -> byte

  function JunkRecord(junk: Junk, i: nat): (r: Rec)
    ensures forall k :: 0 <= k < RECORD_LEN ==> r[k] == junk(Size(i) + k)
  {
    var r := seq<byte>(RECORD_LEN, k requires 0 <= k < RECORD_LEN => junk(Size(i) + k));
    r
  }

  function JunkRecords(junk: Junk, n: nat): (rs: seq<Rec>)
    ensures |rs| == n
  {
    seq(n, i requires 0 <= i < n => JunkRecord(junk, i))
  }

  // What the load leaves at byte k of its buffer: the file ends before the buffer if it is too short.
  function LoadedByte(file: str, junk: Junk, k: nat): byte
  {
    if HEADER_LEN + k < |file| then file[HEADER_LEN + k] else junk(k)
  }

  function LoadedRecord(file: str, junk: Junk, i: nat): (r: Rec)
    ensures forall k :: 0 <= k < RECORD_LEN ==> r[k] == LoadedByte(file, junk, Size(i) + k)
  {
    var r := seq<byte>(RECORD_LEN, k requires 0 <= k < RECORD_LEN => LoadedByte(file, junk, Size(i) + k));
    r
  }

  function LoadedRecords(file: str, junk: Junk, n: nat): (rs: seq<Rec>)
    ensures |rs| == n
  {
    seq(n, i requires 0 <= i < n => LoadedRecord(file, junk, i))
  }

  // What a buffer of records holds, byte by byte.
  function OldBytes(recs: seq<Rec>): Junk
  {
    (k: nat) => if k < Size(|recs|) then recs[k / RECORD_LEN][k % RECORD_LEN] else 0
  }

  // How many records the buffer has room for after a load.
  function BufferFor(n: nat, total: nat): nat { if total == 0 then 0 else if n < total then total else n }

  lemma LoadedFromFile(file: str, junk: Junk, n: nat)
    requires n > 0 ==> HEADER_LEN + Size(n) <= |file|
    ensures LoadedRecords(file, junk, n) == FileRecords(file, n)
  {
    forall i | 0 <= i < n ensures LoadedRecord(file, junk, i) == RecordAt(file, i) {
      var a, b := LoadedRecord(file, junk, i), RecordAt(file, i);
      assert |a| == |b| && forall k :: 0 <= k < |a| ==> a[k] == b[k];
    }
  }

  // ---- adding to a block whose header alone was loaded ----

  function ColdReply(h: Header, from: str, id: str): Reply
  {
    if |from| > 16 then BadNumberTooLong
    else if |from| < 3 then BadNumberTooShort
    else if |id| > 32 then BadFileTooLong
    else if |id| < 1 then BadFileTooShort
    else ColdRecordReply(h)
  }

  function ColdRecordReply(h: Header): Reply
  {
    if h.total >= MAX_MSG_IN_BLOCK then NoSpace        // nothing is in memory to compact
    else if h.total >= RECORDS_STEP then Overrun
    else Added
  }

  // The buffer grows by ten records; those before the new one were never loaded.
  function ColdAdded(h: Header, file: str, junk: Junk, r: Rec): Block
    requires h.total < RECORDS_STEP
  {
    var h' := h.(total := h.total + 1, unread := Inc32(h.unread));
    Block(h', JunkRecords(junk, h.total) + [r], WriteAt(file, 0, EncHeader(h')) + r)
  }
}
