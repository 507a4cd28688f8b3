/**
 The block file as a mirror of memory: which operations keep what a reload would read equal to what memory
 holds, and when the reload loop stays inside its buffer.
 */
module BlockFile {
  import opened Bytes
  import opened MsgBlock
  import opened BlockRuns
  import BlockInPlace

  // A fresh block object would read from the file exactly what is in memory.
  ghost predicate Mirror(b: Block)
  {
    && HeaderReadable(b.file)
    && (FileHeader(b.file).total > 0 ==> HEADER_LEN + Size(FileHeader(b.file).total) <= |b.file|)
    && FileBlock(b.file) == b
  }

  // Where the next record belongs in the file.
  function NextPos(b: Block): nat { HEADER_LEN + Size(b.h.total) }

  // The file ends with the last record; it does not after a compaction, which never truncates.
  predicate EndsAtRecords(b: Block) { |b.file| <= NextPos(b) }

  // ---- writes and records ----

  lemma HeaderWritten(file: str, h: Header, data: str)
    ensures var f := WriteAt(file, 0, EncHeader(h) + data);
            && |f| >= HEADER_LEN && f[0] == 1 && f[..HEADER_LEN] == EncHeader(h)
            && HeaderReadable(f) && FileHeader(f) == h
  {
    var f := WriteAt(file, 0, EncHeader(h) + data);
    assert f[..HEADER_LEN] == EncHeader(h);
    DecEncHeader(h);
  }

  lemma HeaderStored(file: str, h: Header)
    ensures var f := WriteAt(file, 0, EncHeader(h));
            && |f| >= HEADER_LEN && |f| >= |file| && f[0] == 1 && f[..HEADER_LEN] == EncHeader(h)
            && HeaderReadable(f) && FileHeader(f) == h
            && (|file| >= HEADER_LEN ==> |f| == |file|)
            && forall i {:trigger f[i]} :: HEADER_LEN <= i < |f| ==> f[i] == file[i]
  {
    assert EncHeader(h) + [] == EncHeader(h);
    HeaderWritten(file, h, []);
  }

  // Two files that agree on the bytes of record i agree on the record.
  lemma SameRecord(f: str, g: str, i: nat)
    requires HEADER_LEN + Size(i + 1) <= |f| && HEADER_LEN + Size(i + 1) <= |g|
    requires forall k :: HEADER_LEN + Size(i) <= k < HEADER_LEN + Size(i + 1) ==> f[k] == g[k]
    ensures RecordAt(f, i) == RecordAt(g, i)
  {
  }

  lemma MirrorRecord(b: Block, i: nat)
    requires Mirror(b) && i < b.h.total
    ensures HEADER_LEN + Size(i + 1) <= |b.file| && b.recs[i] == RecordAt(b.file, i)
  {
    assert b.recs == FileRecords(b.file, b.h.total);
    assert b.recs[i] == FileRecords(b.file, b.h.total)[i];
  }

  lemma MirrorIf(b: Block)
    requires |b.file| >= HEADER_LEN && b.file[0] == 1 && FileHeader(b.file) == b.h
    requires HEADER_LEN + Size(b.h.total) <= |b.file|
    requires forall i :: 0 <= i < b.h.total ==> RecordAt(b.file, i) == b.recs[i]
    ensures Mirror(b)
  {
    assert FileRecords(b.file, b.h.total) == b.recs;
  }

  // ---- adding ----

  lemma AppendLayout(b: Block, r: Rec)
    requires Mirror(b) && b.h.total < MAX_MSG_IN_BLOCK
    ensures var f := Append(b, r).file;
            && |f| == (if |b.file| < HEADER_LEN then HEADER_LEN else |b.file|) + RECORD_LEN
            && |f| >= HEADER_LEN + Size(b.h.total + 1)
            && f[0] == 1 && FileHeader(f) == Append(b, r).h
            && (forall i :: 0 <= i < b.h.total ==> RecordAt(f, i) == b.recs[i])
            && RecordAt(f, b.h.total) == if EndsAtRecords(b) then r else RecordAt(b.file + r, b.h.total)
  {
    var h := b.h.(total := b.h.total + 1, unread := Inc32(b.h.unread));
    HeaderStored(b.file, h);
    var g := WriteAt(b.file, 0, EncHeader(h));
    var f := g + r;
    assert f[..HEADER_LEN] == g[..HEADER_LEN];
    AppendedRecords(b, g, r);
  }

  lemma AppendedRecords(b: Block, g: str, r: Rec)
    requires Mirror(b) && |g| == (if |b.file| < HEADER_LEN then HEADER_LEN else |b.file|)
    requires forall i {:trigger g[i]} :: HEADER_LEN <= i < |g| ==> g[i] == b.file[i]
    ensures HEADER_LEN + Size(b.h.total + 1) <= |g + r|
    ensures forall i :: 0 <= i < b.h.total ==> RecordAt(g + r, i) == b.recs[i]
    ensures RecordAt(g + r, b.h.total) == if EndsAtRecords(b) then r else RecordAt(b.file + r, b.h.total)
  {
    var f := g + r;
    forall i | 0 <= i < b.h.total ensures RecordAt(f, i) == b.recs[i] {
      MirrorRecord(b, i);
      SameRecord(f, b.file, i);
    }
    if EndsAtRecords(b) {
      assert RecordAt(f, b.h.total) == r;
    } else {
      SameRecord(f, b.file + r, b.h.total);
    }
  }

  /**
   A new record is appended at the end of the file. The mirror survives exactly when that is where the
   record belongs, or when the stale bytes at that place happen to spell the same record.
   */
  lemma AppendMirror(b: Block, r: Rec)
    requires Mirror(b) && b.h.total < MAX_MSG_IN_BLOCK
    ensures Mirror(Append(b, r)) <==> EndsAtRecords(b) || RecordAt(b.file + r, b.h.total) == r
    ensures EndsAtRecords(b) ==> EndsAtRecords(Append(b, r))
  {
    AppendLayout(b, r);
    var a := Append(b, r);
    if RecordAt(a.file, b.h.total) == r {
      MirrorIf(a);
    } else if Mirror(a) {
      MirrorRecord(a, b.h.total);
    }
  }

  // ---- reading ----

  // The file after a first read: the header is stored, then one byte at the start of record i + 1.
  lemma FirstReadBytes(b: Block, i: nat)
    requires Mirror(b) && i < b.h.total && IsNew(b.recs[i])
    ensures var f := MarkRead(b, i).file;
            && |f| >= |b.file| && f[0] == 1 && FileHeader(f) == MarkRead(b, i).h
            && forall k {:trigger f[k]} :: HEADER_LEN <= k < |b.file| ==>
                 f[k] == if k == HEADER_LEN + Size(i + 1) then STATUS_READ else b.file[k]
  {
    var h := b.h.(unread := Dec32(b.h.unread));
    HeaderStored(b.file, h);
    var g := WriteAt(b.file, 0, EncHeader(h));
    var f := WriteAt(g, Size(i + 1) + HEADER_LEN, [STATUS_READ]);
    assert f[..HEADER_LEN] == g[..HEADER_LEN];
  }

  // What a reload reads after a message was read for the first time.
  lemma FirstReadLayout(b: Block, i: nat, k: nat)
    requires Mirror(b) && i < b.h.total && IsNew(b.recs[i]) && k < b.h.total
    ensures HEADER_LEN + Size(b.h.total) <= |MarkRead(b, i).file|
    ensures RecordAt(MarkRead(b, i).file, k)
            == if k == i + 1 then WithStatus(b.recs[k], STATUS_READ) else b.recs[k]
  {
    FirstReadBytes(b, i);
    MirrorRecord(b, b.h.total - 1);
    MirrorRecord(b, k);
    if k != i + 1 {
      SameRecord(MarkRead(b, i).file, b.file, k);
    } else {
      assert RecordAt(MarkRead(b, i).file, k) == RecordAt(b.file, k)[0 := STATUS_READ];
    }
  }

  lemma FirstReadBreaks(b: Block, i: nat)
    requires Mirror(b) && i < b.h.total && IsNew(b.recs[i])
    ensures !Mirror(MarkRead(b, i))
  {
    var a := MarkRead(b, i);
    FirstReadLayout(b, i, i);
    if Mirror(a) { MirrorRecord(a, i); }
  }

  /**
   A first read always breaks the mirror: the file keeps the message new, counts one new message less
   than it holds, and the next record, if there is one, is marked read instead.
   */
  lemma FirstReadBreaksMirror(b: Block, i: nat)
    requires Mirror(b) && i < b.h.total && IsNew(b.recs[i])
    ensures !Mirror(MarkRead(b, i))
    ensures var f := MarkRead(b, i).file;
            && HeaderReadable(f) && FileHeader(f) == MarkRead(b, i).h
            && HEADER_LEN + Size(b.h.total) <= |f|
            && FileBlock(f).recs ==
               if i + 1 < b.h.total then b.recs[i + 1 := WithStatus(b.recs[i + 1], STATUS_READ)] else b.recs
  {
    FirstReadBytes(b, i);
    FirstReadBreaks(b, i);
    FirstReadLayout(b, i, i);
    var a := MarkRead(b, i);
    var rs := if i + 1 < b.h.total then b.recs[i + 1 := WithStatus(b.recs[i + 1], STATUS_READ)] else b.recs;
    forall k | 0 <= k < b.h.total ensures FileRecords(a.file, b.h.total)[k] == rs[k] {
      FirstReadLayout(b, i, k);
    }
  }

  /** After the only new message was read and the block reloaded, reading it again wraps the new counter. */
  lemma RereadAfterReloadWraps(b: Block, i: nat, id: str, text: Option<str>)
    requires Mirror(b) && Exact(b) && b.h.unread == 1 && text.Some?
    requires i == FirstIndex(b.recs, id) < b.h.total && IsNew(b.recs[i])
    ensures var f := MarkRead(b, i).file;
            && HeaderReadable(f) && HEADER_LEN + Size(FileHeader(f).total) <= |f|
            && var reloaded := FileBlock(f);
               GetIds(reloaded, New) == [] && Read(reloaded, id, text).0.h.unread == UINT32 - 1
  {
    FirstReadBreaksMirror(b, i);
    FirstIndexUnique(FileBlock(MarkRead(b, i).file).recs, id, i);
  }

  // ---- deleting and compacting ----

  // A new header and a status byte at its own record keep the mirror.
  lemma StatusStored(b: Block, a: Block, i: nat, status: byte)
    requires Mirror(b) && i < b.h.total && a.h.total == b.h.total
    requires a.recs == b.recs[i := WithStatus(b.recs[i], status)]
    requires a.file == WriteAt(WriteAt(b.file, 0, EncHeader(a.h)), Size(i) + HEADER_LEN, [status])
    ensures Mirror(a) && |a.file| == |b.file|
    ensures forall k {:trigger a.file[k]} :: HEADER_LEN <= k < |b.file| ==>
              a.file[k] == if k == HEADER_LEN + Size(i) then status else b.file[k]
  {
    HeaderStored(b.file, a.h);
    var g := WriteAt(b.file, 0, EncHeader(a.h));
    MirrorRecord(b, b.h.total - 1);
    MirrorRecord(b, i);
    assert a.file[..HEADER_LEN] == g[..HEADER_LEN];
    forall k | 0 <= k < b.h.total ensures RecordAt(a.file, k) == a.recs[k] {
      MirrorRecord(b, k);
      if k != i { SameRecord(a.file, b.file, k); }
    }
    MirrorIf(a);
  }

  lemma MarkDeletedMirror(b: Block, i: nat)
    requires Mirror(b) && i < b.h.total
    ensures Mirror(MarkDeleted(b, i)) && |MarkDeleted(b, i).file| == |b.file|
  {
    StatusStored(b, MarkDeleted(b, i), i, STATUS_DELETED);
  }

  lemma {:induction false} FlatAt(rs: seq<Rec>, i: nat)
    requires i < |rs|
    ensures Size(i + 1) <= |Flat(rs)| && Flat(rs)[Size(i)..Size(i + 1)] == rs[i]
  {
    var n := |rs| - 1;
    if i < n {
      FlatAt(rs[..n], i);
      assert Flat(rs)[Size(i)..Size(i + 1)] == Flat(rs[..n])[Size(i)..Size(i + 1)];
    }
  }

  lemma FlatWritten(file: str, h: Header, recs: seq<Rec>)
    ensures var f := WriteAt(file, 0, EncHeader(h) + Flat(recs));
            && HEADER_LEN + Size(|recs|) <= |f|
            && forall k :: 0 <= k < |recs| ==> RecordAt(f, k) == recs[k]
  {
    var flat := Flat(recs);
    var f := WriteAt(file, 0, EncHeader(h) + flat);
    if recs != [] { FlatAt(recs, |recs| - 1); }
    forall k | 0 <= k < |recs| ensures RecordAt(f, k) == recs[k] {
      FlatAt(recs, k);
      assert RecordAt(f, k) == flat[Size(k)..Size(k + 1)];
    }
  }

  /** Compaction rewrites header and records, so it restores the mirror whatever the file held before. */
  lemma CompressMirror(b: Block)
    requires Exact(b) && b.h.deleted != 0
    ensures Mirror(Compress(b))
    ensures |Compress(b).file| >= |b.file| && NextPos(Compress(b)) < NextPos(b)
  {
    CompressExact(b);
    var a := Compress(b);
    var flat := Flat(a.recs);
    HeaderWritten(b.file, a.h, flat);
    assert a.file == WriteAt(b.file, 0, EncHeader(a.h) + flat);
    FlatWritten(b.file, a.h, a.recs);
    MirrorIf(a);
  }

  // ---- one operation, exactly ----

  // The block the record of an Add is appended to.
  function BeforeAppend(b: Block): Block
  {
    if b.h.total >= MAX_MSG_IN_BLOCK && b.h.deleted != 0 then Compress(b) else b
  }

  // What has to hold before the call for the mirror to survive it.
  predicate KeepsMirror(b: Block, op: Op)
  {
    match op
    case OpAdd(now, from, id) =>
      ValidArgs(from, id) && BeforeAppend(b).h.total < MAX_MSG_IN_BLOCK ==>
        var c, r := BeforeAppend(b), NewRecord(now, from, id);
        EndsAtRecords(c) || RecordAt(c.file + r, c.h.total) == r
    case OpRead(id, text) =>
      var i := FirstIndex(b.recs, id);
      i < |b.recs| && IsNew(b.recs[i]) ==> text.None?
    case OpDelete(_) => true
  }

  lemma AddMirror(b: Block, now: nat, from: str, id: str)
    requires Mirror(b) && Exact(b)
    ensures Mirror(Add(b, now, from, id).0) <==> KeepsMirror(b, OpAdd(now, from, id))
  {
    if ValidArgs(from, id) {
      var c, r := BeforeAppend(b), NewRecord(now, from, id);
      assert Mirror(c) by { if c != b { CompressMirror(b); } }
      if c.h.total < MAX_MSG_IN_BLOCK {
        assert Add(b, now, from, id).0 == Append(c, r);
        AppendMirror(c, r);
      } else {
        assert Add(b, now, from, id).0 == c;
      }
    } else {
      assert Add(b, now, from, id).0 == b;
    }
  }

  lemma ReadMirror(b: Block, id: str, text: Option<str>)
    requires Mirror(b)
    ensures Mirror(Read(b, id, text).0) <==> KeepsMirror(b, OpRead(id, text))
  {
    var i := FirstIndex(b.recs, id);
    if i < |b.recs| && IsNew(b.recs[i]) && text.Some? {
      assert Read(b, id, text).0 == MarkRead(b, i);
      FirstReadBreaks(b, i);
    } else {
      assert Read(b, id, text).0 == b;
    }
  }

  lemma DeleteMirror(b: Block, id: str)
    requires Mirror(b) && Exact(b)
    ensures Mirror(Delete(b, id).0)
  {
    var i := FirstIndex(b.recs, id);
    if i < |b.recs| && IsLive(b.recs[i]) {
      var m := MarkDeleted(b, i);
      MarkDeletedMirror(b, i);
      MarkDeletedExact(b, i);
      if MostlyDeleted(m.h.deleted, m.h.total) { CompressMirror(m); }
    }
  }

  /** From a mirrored block, an operation leaves a mirrored block exactly when its guard holds. */
  lemma StepMirror(b: Block, op: Op)
    requires Mirror(b) && Exact(b)
    ensures Mirror(Step(b, op).0) <==> KeepsMirror(b, op)
  {
    match op
    case OpAdd(now, from, id) => AddMirror(b, now, from, id);
    case OpRead(id, text) => ReadMirror(b, id, text);
    case OpDelete(id) => DeleteMirror(b, id);
  }

  predicate AllKeepMirror(b: Block, ops: seq<Op>)
    decreases |ops|
  {
    ops == [] || (KeepsMirror(b, ops[0]) && AllKeepMirror(Step(b, ops[0]).0, ops[1..]))
  }

  // After the first k operations, for every k.
  ghost predicate AlwaysMirror(b: Block, ops: seq<Op>)
  {
    forall k: nat :: k <= |ops| ==> Mirror(Run(b, ops[..k]).0)
  }

  lemma RunFirst(b: Block, ops: seq<Op>, k: nat)
    requires 0 < k <= |ops|
    ensures Run(b, ops[..k]).0 == Run(Step(b, ops[0]).0, ops[1..][..k - 1]).0
  {
    assert ops[..k][1..] == ops[1..][..k - 1];
  }

  lemma AlwaysMirrorUnfolds(b: Block, ops: seq<Op>)
    requires ops != []
    ensures AlwaysMirror(b, ops) <==> Mirror(b) && AlwaysMirror(Step(b, ops[0]).0, ops[1..])
  {
    var b1, more := Step(b, ops[0]).0, ops[1..];
    assert Run(b, ops[..0]).0 == b;
    if AlwaysMirror(b, ops) {
      forall k: nat | k <= |more| ensures Mirror(Run(b1, more[..k]).0) {
        RunFirst(b, ops, k + 1);
        assert Mirror(Run(b, ops[..k + 1]).0);
      }
    }
    if Mirror(b) && AlwaysMirror(b1, more) {
      forall k: nat | k <= |ops| ensures Mirror(Run(b, ops[..k]).0) {
        if k > 0 {
          RunFirst(b, ops, k);
          assert Mirror(Run(b1, more[..k - 1]).0);
        }
      }
    }
  }

  /** A run keeps the file a mirror of memory all the time exactly when each operation meets its guard. */
  lemma {:induction false} RunMirror(b: Block, ops: seq<Op>)
    requires Mirror(b) && Exact(b)
    ensures AlwaysMirror(b, ops) <==> AllKeepMirror(b, ops)
    decreases |ops|
  {
    if ops == [] {
      assert forall k: nat :: k <= |ops| ==> Run(b, ops[..k]).0 == b;
    } else {
      var b1 := Step(b, ops[0]).0;
      AlwaysMirrorUnfolds(b, ops);
      StepMirror(b, ops[0]);
      StepExact(b, ops[0]);
      assert AlwaysMirror(b1, ops[1..]) ==> Mirror(b1) by { assert Run(b1, ops[1..][..0]).0 == b1; }
      if Mirror(b1) { RunMirror(b1, ops[1..]); }
    }
  }

  lemma EmptyMirror()
    ensures Mirror(EMPTY_BLOCK) && Exact(EMPTY_BLOCK) && EndsAtRecords(EMPTY_BLOCK)
  {
    assert FileRecords([], 0) == [];
  }

  // ---- the load loop ----

  lemma {:induction false} LoadEndWithin(short: seq<nat>, size: nat, body: nat, done: nat)
    requires 0 < size && done <= body
    ensures done <= LoadEnd(short, size, body, done) <= body
    decreases body - done
  {
    var n := ReadLen(short, size, body - done);
    if n != 0 && done + n != size {
      LoadEndWithin(if short == [] then [] else short[1..], size, body, done + n);
    }
  }

  /**
   The load loop asks for the whole buffer again after a short read. It stays inside the buffer for every
   pattern of short reads exactly when the file holds nothing beyond the records.
   */
  lemma LoadSafeForAllReads(size: nat, body: nat)
    requires 1 < size <= body
    ensures (forall short :: LoadEnd(short, size, body, 0) <= size) <==> body == size
  {
    if body == size {
      forall short ensures LoadEnd(short, size, body, 0) <= size { LoadEndWithin(short, size, body, 0); }
    } else {
      LoadEndWithin([], size, body, 1 + size);
      assert [1][1..] == [];
      assert LoadEnd([], size, body, 1) >= 1 + size;
      assert LoadEnd([1], size, body, 0) == LoadEnd([], size, body, 1);
    }
  }

  lemma LoadableIs(b: Block, short: seq<nat>)
    requires Mirror(b) && b.h.total > 0
    ensures Size(b.h.total) <= |b.file| - HEADER_LEN
    ensures Loadable(b.file, short)
            <==> LoadEnd(short, Size(b.h.total), |b.file| - HEADER_LEN, 0) <= Size(b.h.total)
  {
  }

  /** A mirrored file loads without short reads always, and with any short reads exactly when it ends at the records. */
  lemma MirrorLoads(b: Block)
    requires Mirror(b)
    ensures Loadable(b.file, [])
    ensures b.h.total > 0 ==> ((forall short :: Loadable(b.file, short)) <==> EndsAtRecords(b))
    ensures b.h.total == 0 ==> forall short :: Loadable(b.file, short)
  {
    if b.h.total > 0 {
      var size, body := Size(b.h.total), |b.file| - HEADER_LEN;
      LoadableIs(b, []);
      LoadSafeForAllReads(size, body);
      assert LoadEnd([], size, body, 0) == size;
      if body == size {
        forall short ensures Loadable(b.file, short) { LoadableIs(b, short); }
      } else {
        var short :| LoadEnd(short, size, body, 0) > size;
        LoadableIs(b, short);
      }
    }
  }

  /** Dropping a mirrored block and loading it again gives the same block. */
  method Reload(b: BlockInPlace.CMsgBlock, short: seq<nat>) returns (again: BlockInPlace.CMsgBlock)
    requires b.Resident() && Mirror(b.Value([])) && (short == [] || EndsAtRecords(b.Value([])))
    modifies b, b.counters
    ensures fresh(again) && again.Resident() && again.Value([]) == old(b.Value([]))
  {
    MirrorLoads(b.Value([]));
    assert Loadable(b.file, short);
    b.CloseHandler();
    again := new BlockInPlace.CMsgBlock(b.counters, b.file, b.junk);
    again.UsableLoads(short);
    var loaded := again.LoadAllRecords(short);
  }
}
