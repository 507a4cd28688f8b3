/**
 The mirror under fresh message ids: an appended record is never taken for the stale bytes at its place, so
 one look at the length of the file tells whether an Add keeps file and memory together.
 */
module BlockFresh {
  import opened Bytes
  import opened Filters
  import opened MsgBlock
  import opened BlockRuns
  import opened BlockFile

  // A file of whole records, as long as no status byte was written behind the last one.
  ghost predicate Whole(file: str) { file == [] || exists n: nat :: |file| == HEADER_LEN + Size(n) }

  // The ids of all records in the file, stale ones included.
  ghost predicate IdsIn(file: str, used: set<str>)
  {
    forall k: nat :: HEADER_LEN + Size(k + 1) <= |file| ==> Id(RecordAt(file, k)) in used
  }

  // ---- one record ----

  /** A record with a new id keeps the mirror exactly when the file ends where the records end. */
  lemma AppendMirrorFresh(b: Block, r: Rec, used: set<str>)
    requires Mirror(b) && b.h.total < MAX_MSG_IN_BLOCK && Whole(b.file) && IdsIn(b.file, used) && Id(r) !in used
    ensures Mirror(Append(b, r)) <==> EndsAtRecords(b)
  {
    AppendMirror(b, r);
    if !EndsAtRecords(b) {
      var n: nat :| |b.file| == HEADER_LEN + Size(n);
      assert n >= b.h.total + 1;
      SameRecord(b.file + r, b.file, b.h.total);
      assert Id(RecordAt(b.file, b.h.total)) in used;
    }
  }

  // After a compaction the first stale record is one the block had before.
  lemma StaleRecord(b: Block)
    requires Mirror(b) && Exact(b) && b.h.deleted != 0
    ensures var n := |Live(b.recs)|;
            && n < b.h.total && Compress(b).h.total == n && !EndsAtRecords(Compress(b))
            && HEADER_LEN + Size(n + 1) <= |Compress(b).file| && RecordAt(Compress(b).file, n) == b.recs[n]
  {
    CompressExact(b);
    CompressMirror(b);
    var n, c := |Live(b.recs)|, Compress(b);
    MirrorRecord(b, b.h.total - 1);
    MirrorRecord(b, n);
    SameRecord(c.file, b.file, n);
  }

  /** An Add that has to compact first succeeds and always breaks the mirror. */
  lemma AddAfterCompactionBreaksMirror(b: Block, now: nat, from: str, id: str)
    requires Mirror(b) && Exact(b) && b.h.total >= MAX_MSG_IN_BLOCK && b.h.deleted != 0
    requires ValidArgs(from, id) && NulFree(id) && forall r :: r in b.recs ==> Id(r) != id
    ensures Add(b, now, from, id).1 == Added && !Mirror(Add(b, now, from, id).0)
  {
    var r, c, n := NewRecord(now, from, id), Compress(b), |Live(b.recs)|;
    AddFailsExactlyWhenFull(b, now, from, id);
    StaleRecord(b);
    CompressMirror(b);
    AppendMirror(c, r);
    SameRecord(c.file + r, c.file, n);
    assert b.recs[n] in b.recs;
    assert Add(b, now, from, id).0 == Append(c, r);
  }

  // ---- runs with fresh ids ----

  // What a caller can see before the call: the length of the file, or that a message is still unread.
  predicate InPlace(b: Block, op: Op)
  {
    match op
    case OpAdd(now, from, id) =>
      ValidArgs(from, id) && BeforeAppend(b).h.total < MAX_MSG_IN_BLOCK ==> EndsAtRecords(BeforeAppend(b))
    case OpRead(id, text) =>
      var i := FirstIndex(b.recs, id);
      i < |b.recs| && IsNew(b.recs[i]) ==> text.None?
    case OpDelete(_) => true
  }

  predicate FreshOp(used: set<str>, op: Op) { op.OpAdd? ==> NulFree(op.id) && op.id !in used }
  function Used(used: set<str>, op: Op): set<str> { if op.OpAdd? then used + {op.id} else used }

  predicate FreshRun(used: set<str>, ops: seq<Op>)
    decreases |ops|
  {
    ops == [] || (FreshOp(used, ops[0]) && FreshRun(Used(used, ops[0]), ops[1..]))
  }

  ghost predicate Tidy(b: Block, used: set<str>)
  {
    Mirror(b) && Exact(b) && Whole(b.file) && IdsIn(b.file, used)
  }

  // The file grew by one record.
  lemma AppendTidy(b: Block, r: Rec, used: set<str>)
    requires Mirror(b) && b.h.total < MAX_MSG_IN_BLOCK && Whole(b.file) && IdsIn(b.file, used) && EndsAtRecords(b)
    ensures var a := Append(b, r); Mirror(a) && Whole(a.file) && IdsIn(a.file, used + {Id(r)})
  {
    var a := Append(b, r);
    AppendMirror(b, r);
    assert |a.file| == HEADER_LEN + Size(b.h.total + 1) by { AppendLayout(b, r); }
    forall k: nat | HEADER_LEN + Size(k + 1) <= |a.file| ensures Id(RecordAt(a.file, k)) in used + {Id(r)} {
      assert k <= b.h.total;
      MirrorRecord(a, k);
      assert a.recs[k] == (b.recs + [r])[k];
      if k < b.h.total { MirrorRecord(b, k); }
    }
  }

  lemma SameId(f: str, g: str, k: nat)
    requires HEADER_LEN + Size(k + 1) <= |f| && HEADER_LEN + Size(k + 1) <= |g|
    requires forall i :: HEADER_LEN + Size(k) < i < HEADER_LEN + Size(k + 1) ==> f[i] == g[i]
    ensures Id(RecordAt(f, k)) == Id(RecordAt(g, k))
  {
    var p, q := RecordAt(f, k), RecordAt(g, k);
    assert forall i :: 26 <= i < RECORD_LEN ==> p[i] == q[i];
    assert p[26..] == q[26..];
  }

  lemma MarkDeletedTidy(b: Block, i: nat, used: set<str>)
    requires Mirror(b) && i < b.h.total && Whole(b.file) && IdsIn(b.file, used)
    ensures Whole(MarkDeleted(b, i).file) && IdsIn(MarkDeleted(b, i).file, used)
  {
    var f := MarkDeleted(b, i).file;
    assert |f| == |b.file| && forall k {:trigger f[k]} :: HEADER_LEN <= k < |b.file| ==>
      f[k] == if k == HEADER_LEN + Size(i) then STATUS_DELETED else b.file[k] by {
      StatusStored(b, MarkDeleted(b, i), i, STATUS_DELETED);
    }
    assert b.file != [] by { MirrorRecord(b, i); }
    SameIds(f, b.file, i, used);
  }

  lemma SameIds(f: str, g: str, i: nat, used: set<str>)
    requires |f| == |g| && IdsIn(g, used)
    requires forall k {:trigger f[k]} :: HEADER_LEN <= k < |g| && k != HEADER_LEN + Size(i) ==> f[k] == g[k]
    ensures IdsIn(f, used)
  {
    forall k: nat | HEADER_LEN + Size(k + 1) <= |f| ensures Id(RecordAt(f, k)) in used { SameId(f, g, k); }
  }

  lemma RecIdUsed(b: Block, r: Rec, used: set<str>)
    requires Mirror(b) && IdsIn(b.file, used) && r in b.recs
    ensures Id(r) in used
  {
    var j :| 0 <= j < |b.recs| && b.recs[j] == r;
    MirrorRecord(b, j);
  }

  lemma CompressIds(b: Block, used: set<str>, k: nat)
    requires Mirror(b) && Exact(b) && b.h.deleted != 0 && IdsIn(b.file, used)
    requires HEADER_LEN + Size(k + 1) <= |Compress(b).file| == |b.file|
    ensures Id(RecordAt(Compress(b).file, k)) in used
  {
    var c := Compress(b);
    CompressExact(b);
    if k < c.h.total {
      CompressMirror(b);
      MirrorRecord(c, k);
      FilterMembers<Rec>(IsLive, b.recs);
      assert c.recs[k] in Live(b.recs);
      RecIdUsed(b, c.recs[k], used);
    } else {
      SameRecord(c.file, b.file, k);
    }
  }

  lemma CompressTidy(b: Block, used: set<str>)
    requires Mirror(b) && Exact(b) && b.h.deleted != 0 && Whole(b.file) && IdsIn(b.file, used)
    ensures Tidy(Compress(b), used)
  {
    assert Exact(Compress(b)) && Mirror(Compress(b)) by {
      CompressExact(b);
      CompressMirror(b);
    }
    assert |Compress(b).file| == |b.file| by { CompressLength(b); }
    forall k: nat | HEADER_LEN + Size(k + 1) <= |Compress(b).file|
      ensures Id(RecordAt(Compress(b).file, k)) in used
    {
      CompressIds(b, used, k);
    }
  }

  lemma CompressLength(b: Block)
    requires Mirror(b) && Exact(b) && b.h.deleted != 0
    ensures |Compress(b).file| == |b.file| > 0
  {
    CompressExact(b);
    MirrorRecord(b, b.h.total - 1);
  }

  lemma AddTidy(b: Block, used: set<str>, now: nat, from: str, id: str)
    requires Tidy(b, used) && FreshOp(used, OpAdd(now, from, id))
    ensures var a := Add(b, now, from, id).0;
            && (Mirror(a) <==> InPlace(b, OpAdd(now, from, id)))
            && (Mirror(a) ==> Tidy(a, used + {id}))
  {
    AddExact(b, now, from, id);
    if ValidArgs(from, id) {
      var c, r := BeforeAppend(b), NewRecord(now, from, id);
      assert Tidy(c, used) by { if c != b { CompressTidy(b, used); } }
      if c.h.total < MAX_MSG_IN_BLOCK {
        assert Add(b, now, from, id).0 == Append(c, r);
        AppendMirrorFresh(c, r, used);
        if EndsAtRecords(c) { AppendTidy(c, r, used); }
      } else {
        assert Add(b, now, from, id).0 == c;
      }
    } else {
      assert Add(b, now, from, id).0 == b;
    }
  }

  lemma DeleteTidy(b: Block, used: set<str>, id: str)
    requires Tidy(b, used)
    ensures Tidy(Delete(b, id).0, used)
  {
    var i := FirstIndex(b.recs, id);
    if i < |b.recs| && IsLive(b.recs[i]) {
      var m := MarkDeleted(b, i);
      assert Mirror(m) by { MarkDeletedMirror(b, i); }
      assert Exact(m) by { MarkDeletedExact(b, i); }
      MarkDeletedTidy(b, i, used);
      if m.h.deleted > 0 && MostlyDeleted(m.h.deleted, m.h.total) { CompressTidy(m, used); }
      assert Delete(b, id).0 == Compacted(m);
    } else {
      assert Delete(b, id).0 == b;
    }
  }

  lemma StepTidy(b: Block, used: set<str>, op: Op)
    requires Tidy(b, used) && FreshOp(used, op)
    ensures Mirror(Step(b, op).0) <==> InPlace(b, op)
    ensures Mirror(Step(b, op).0) ==> Tidy(Step(b, op).0, Used(used, op))
  {
    match op
    case OpAdd(now, from, id) => AddTidy(b, used, now, from, id);
    case OpRead(id, text) =>
      ReadMirror(b, id, text);
      if InPlace(b, op) { assert Step(b, op).0 == b; }
    case OpDelete(id) => DeleteTidy(b, used, id);
  }

  predicate AllInPlace(b: Block, ops: seq<Op>)
    decreases |ops|
  {
    ops == [] || (InPlace(b, ops[0]) && AllInPlace(Step(b, ops[0]).0, ops[1..]))
  }

  lemma {:induction false} RunInPlaceFrom(b: Block, used: set<str>, ops: seq<Op>)
    requires Tidy(b, used) && FreshRun(used, ops)
    ensures AlwaysMirror(b, ops) <==> AllInPlace(b, ops)
    decreases |ops|
  {
    if ops == [] {
      assert forall k: nat :: k <= |ops| ==> Run(b, ops[..k]).0 == b;
    } else {
      var b1 := Step(b, ops[0]).0;
      AlwaysMirrorUnfolds(b, ops);
      StepTidy(b, used, ops[0]);
      assert AlwaysMirror(b1, ops[1..]) ==> Mirror(b1) by { assert Run(b1, ops[1..][..0]).0 == b1; }
      if Mirror(b1) { RunInPlaceFrom(b1, Used(used, ops[0]), ops[1..]); }
    }
  }

  /**
   From an empty file and with fresh ids: file and memory agree after every operation of a run exactly when
   no unread message was read and every record was added while the file ended where the records end.
   */
  lemma RunInPlace(ops: seq<Op>)
    requires FreshRun({}, ops)
    ensures AlwaysMirror(EMPTY_BLOCK, ops) <==> AllInPlace(EMPTY_BLOCK, ops)
  {
    EmptyMirror();
    RunInPlaceFrom(EMPTY_BLOCK, {}, ops);
  }
}
