/**
 The block as it was meant: the status of a message read goes to the file at its own record, compaction
 cuts the file, and every operation loads the records first. Memory and replies are the same as those of the
 code on a block that stays in memory; the file then mirrors memory after every operation of every run, and
 evictions in between cannot be observed.
 */
module BlockMeant {
  import opened Bytes
  import opened MsgBlock
  import opened BlockRuns
  import opened BlockFile

  function MarkReadMeant(b: Block, i: nat): Block
    requires i < |b.recs| && Status(b.recs[i]) == STATUS_NEW
  {
    var h := b.h.(unread := Dec32(b.h.unread));
    Block(h, b.recs[i := WithStatus(b.recs[i], STATUS_READ)],
          WriteAt(WriteAt(b.file, 0, EncHeader(h)), Size(i) + HEADER_LEN, [STATUS_READ]))
  }

  function CompressMeant(b: Block): Block
  {
    var c := Compress(b);
    if c == b then b else c.(file := EncHeader(c.h) + Flat(c.recs))
  }

  function AddMeant(b: Block, now: nat, from: str, id: str): (Block, Reply)
  {
    if !ValidArgs(from, id) then Add(b, now, from, id)
    else
      var c := if b.h.total >= MAX_MSG_IN_BLOCK && b.h.deleted != 0 then CompressMeant(b) else b;
      if c.h.total >= MAX_MSG_IN_BLOCK then (c, NoSpace) else (Append(c, NewRecord(now, from, id)), Added)
  }

  function ReadMeant(b: Block, id: str, text: Option<str>): (Block, Reply)
  {
    var i := FirstIndex(b.recs, id);
    (if i < |b.recs| && Status(b.recs[i]) == STATUS_NEW && text.Some? then MarkReadMeant(b, i) else b,
     Read(b, id, text).1)
  }

  function DeleteMeant(b: Block, id: str): (Block, Reply)
  {
    var i := FirstIndex(b.recs, id);
    if i == |b.recs| || Status(b.recs[i]) == STATUS_DELETED then Delete(b, id)
    else
      var m := MarkDeleted(b, i);
      (if m.h.deleted > 0 && MostlyDeleted(m.h.deleted, m.h.total) then CompressMeant(m) else m, Deleted)
  }

  function StepMeant(b: Block, op: Op): (Block, Reply)
  {
    match op
    case OpAdd(now, from, id) => AddMeant(b, now, from, id)
    case OpRead(id, text) => ReadMeant(b, id, text)
    case OpDelete(id) => DeleteMeant(b, id)
  }

  function RunMeant(b: Block, ops: seq<Op>): (r: (Block, seq<Reply>))
    ensures |r.1| == |ops|
    decreases |ops|
  {
    if ops == [] then (b, [])
    else
      var (b1, reply) := StepMeant(b, ops[0]);
      var (b2, replies) := RunMeant(b1, ops[1..]);
      (b2, [reply] + replies)
  }

  // ---- the difference is in the file only ----

  predicate SameMemory(a: Block, b: Block) { a.h == b.h && a.recs == b.recs }

  lemma CompressSame(a: Block, b: Block)
    requires SameMemory(a, b)
    ensures SameMemory(Compress(a), CompressMeant(b))
  {
  }

  lemma AddSame(a: Block, b: Block, now: nat, from: str, id: str)
    requires SameMemory(a, b)
    ensures SameMemory(Add(a, now, from, id).0, AddMeant(b, now, from, id).0)
    ensures Add(a, now, from, id).1 == AddMeant(b, now, from, id).1
  {
    if ValidArgs(from, id) {
      var r := NewRecord(now, from, id);
      CompressSame(a, b);
      assert Add(a, now, from, id) == AddRecord(a, r);
    }
  }

  lemma DeleteSame(a: Block, b: Block, id: str)
    requires SameMemory(a, b)
    ensures SameMemory(Delete(a, id).0, DeleteMeant(b, id).0)
    ensures Delete(a, id).1 == DeleteMeant(b, id).1
  {
    var i := FirstIndex(a.recs, id);
    if i < |a.recs| && IsLive(a.recs[i]) {
      var m, n := MarkDeleted(a, i), MarkDeleted(b, i);
      assert SameMemory(m, n);
      CompressSame(m, n);
    }
  }

  lemma StepSame(a: Block, b: Block, op: Op)
    requires SameMemory(a, b)
    ensures SameMemory(Step(a, op).0, StepMeant(b, op).0) && Step(a, op).1 == StepMeant(b, op).1
  {
    match op
    case OpAdd(now, from, id) => AddSame(a, b, now, from, id);
    case OpRead(id, text) =>
    case OpDelete(id) => DeleteSame(a, b, id);
  }

  // ---- the file is a mirror ----

  lemma MarkReadMeantMirror(b: Block, i: nat)
    requires Mirror(b) && i < b.h.total && IsNew(b.recs[i])
    ensures Mirror(MarkReadMeant(b, i)) && |MarkReadMeant(b, i).file| == |b.file|
  {
    StatusStored(b, MarkReadMeant(b, i), i, STATUS_READ);
  }

  lemma CompressMeantMirror(b: Block)
    requires Exact(b) && b.h.deleted != 0
    ensures Mirror(CompressMeant(b)) && EndsAtRecords(CompressMeant(b))
  {
    CompressExact(b);
    var c := Compress(b);
    var f := EncHeader(c.h) + Flat(c.recs);
    HeaderWritten([], c.h, Flat(c.recs));
    FlatWritten([], c.h, c.recs);
    assert WriteAt([], 0, f) == f;
    MirrorIf(c.(file := f));
  }

  // In step with memory: what every operation keeps.
  ghost predicate InStep(b: Block) { Mirror(b) && EndsAtRecords(b) && Exact(b) }

  lemma AddMeantMirror(b: Block, now: nat, from: str, id: str)
    requires InStep(b)
    ensures Mirror(AddMeant(b, now, from, id).0) && EndsAtRecords(AddMeant(b, now, from, id).0)
  {
    if ValidArgs(from, id) {
      var c := if b.h.total >= MAX_MSG_IN_BLOCK && b.h.deleted != 0 then CompressMeant(b) else b;
      assert Mirror(c) && EndsAtRecords(c) by { if c != b { CompressMeantMirror(b); } }
      if c.h.total < MAX_MSG_IN_BLOCK { AppendMirror(c, NewRecord(now, from, id)); }
    } else {
      assert AddMeant(b, now, from, id).0 == b;
    }
  }

  lemma ReadMeantMirror(b: Block, id: str, text: Option<str>)
    requires InStep(b)
    ensures Mirror(ReadMeant(b, id, text).0) && EndsAtRecords(ReadMeant(b, id, text).0)
  {
    var i := FirstIndex(b.recs, id);
    if i < |b.recs| && IsNew(b.recs[i]) && text.Some? { MarkReadMeantMirror(b, i); }
  }

  lemma DeleteMeantMirror(b: Block, id: str)
    requires InStep(b)
    ensures Mirror(DeleteMeant(b, id).0) && EndsAtRecords(DeleteMeant(b, id).0)
  {
    var i := FirstIndex(b.recs, id);
    if i < |b.recs| && IsLive(b.recs[i]) {
      var m := MarkDeleted(b, i);
      MarkDeletedMirror(b, i);
      if m.h.deleted > 0 && MostlyDeleted(m.h.deleted, m.h.total) {
        assert Exact(m) by { MarkDeletedExact(b, i); }
        CompressMeantMirror(m);
        assert DeleteMeant(b, id).0 == CompressMeant(m);
      } else {
        assert DeleteMeant(b, id).0 == m;
      }
    } else {
      assert DeleteMeant(b, id).0 == b;
    }
  }

  lemma StepMeantExact(b: Block, op: Op)
    requires Exact(b)
    ensures Exact(StepMeant(b, op).0)
  {
    StepExact(b, op);
    StepSame(b, b, op);
  }

  lemma StepMeantInStep(b: Block, op: Op)
    requires InStep(b)
    ensures InStep(StepMeant(b, op).0)
  {
    assert Exact(StepMeant(b, op).0) by { StepMeantExact(b, op); }
    match op
    case OpAdd(now, from, id) => AddMeantMirror(b, now, from, id);
    case OpRead(id, text) => ReadMeantMirror(b, id, text);
    case OpDelete(id) => DeleteMeantMirror(b, id);
  }

  lemma {:induction false} RunMeantFrom(a: Block, b: Block, ops: seq<Op>)
    requires SameMemory(a, b) && InStep(b)
    ensures InStep(RunMeant(b, ops).0)
    ensures SameMemory(Run(a, ops).0, RunMeant(b, ops).0) && Run(a, ops).1 == RunMeant(b, ops).1
    decreases |ops|
  {
    if ops != [] {
      StepSame(a, b, ops[0]);
      StepMeantInStep(b, ops[0]);
      RunMeantFrom(Step(a, ops[0]).0, StepMeant(b, ops[0]).0, ops[1..]);
    }
  }

  /**
   Every run from an empty file, whatever the operations: the meant block replies and remembers as the code
   does, its file holds exactly what is in memory, and it can be dropped and loaded again with any pattern
   of short reads.
   */
  lemma RunMeantMirrors(ops: seq<Op>)
    ensures var b := RunMeant(EMPTY_BLOCK, ops).0;
            && Run(EMPTY_BLOCK, ops).1 == RunMeant(EMPTY_BLOCK, ops).1
            && b.h == Run(EMPTY_BLOCK, ops).0.h && b.recs == Run(EMPTY_BLOCK, ops).0.recs
            && Mirror(b) && (forall short :: Loadable(b.file, short)) && FileBlock(b.file) == b
  {
    EmptyMirror();
    RunMeantFrom(EMPTY_BLOCK, EMPTY_BLOCK, ops);
    MirrorLoads(RunMeant(EMPTY_BLOCK, ops).0);
  }

  // ---- evictions ----

  // In the cache with its records, or in its file only.
  datatype Held = InMemory(b: Block) | OnDisk(file: str)

  // An operation, and the short reads a load before it would meet; or the cache drops the block.
  datatype HeldOp = Does(op: Op, short: seq<nat>) | Evict

  function LoadHeld(s: Held, short: seq<nat>): Option<Block>
  {
    match s
    case InMemory(b) => Some(b)
    case OnDisk(file) => if Loadable(file, short) then Some(FileBlock(file)) else None
  }

  function StepHeld(s: Held, op: HeldOp): (Held, seq<Reply>)
  {
    match op
    case Evict => (OnDisk(match s case InMemory(b) => b.file case OnDisk(file) => file), [])
    case Does(op, short) =>
      match LoadHeld(s, short)
      case None => (s, [HeaderError])
      case Some(b) => var (c, r) := StepMeant(b, op); (InMemory(c), [r])
  }

  function RunHeld(s: Held, ops: seq<HeldOp>): (Held, seq<Reply>)
    decreases |ops|
  {
    if ops == [] then (s, [])
    else
      var (s1, r) := StepHeld(s, ops[0]);
      var (s2, rs) := RunHeld(s1, ops[1..]);
      (s2, r + rs)
  }

  // The operations without the evictions.
  function Kept(ops: seq<HeldOp>): seq<Op>
  {
    if ops == [] then [] else (match ops[0] case Evict => [] case Does(op, _) => [op]) + Kept(ops[1..])
  }

  ghost predicate Holds(s: Held, b: Block)
  {
    InStep(b) && match s case InMemory(c) => c == b case OnDisk(file) => file == b.file
  }

  lemma HeldLoads(s: Held, b: Block, short: seq<nat>)
    requires Holds(s, b)
    ensures LoadHeld(s, short) == Some(b)
  {
    MirrorLoads(b);
  }

  lemma {:induction false} RunHeldFrom(s: Held, b: Block, ops: seq<HeldOp>)
    requires Holds(s, b)
    ensures RunHeld(s, ops).1 == RunMeant(b, Kept(ops)).1 && Holds(RunHeld(s, ops).0, RunMeant(b, Kept(ops)).0)
    decreases |ops|
  {
    if ops != [] {
      match ops[0] {
        case Evict =>
          RunHeldFrom(StepHeld(s, Evict).0, b, ops[1..]);
          assert Kept(ops) == Kept(ops[1..]);
        case Does(op, short) =>
          HeldLoads(s, b, short);
          StepMeantInStep(b, op);
          RunHeldFrom(InMemory(StepMeant(b, op).0), StepMeant(b, op).0, ops[1..]);
          assert Kept(ops)[0] == op && Kept(ops)[1..] == Kept(ops[1..]);
      }
    }
  }

  /**
   Every run from an empty file with evictions anywhere, and any pattern of short reads whenever the block is
   loaded again: the replies are those of the code on a block that never leaves memory, and so is the block
   that is in memory or loaded in the end.
   */
  lemma EvictionInvisible(ops: seq<HeldOp>, short: seq<nat>)
    ensures var meant, code := RunHeld(OnDisk([]), ops), Run(EMPTY_BLOCK, Kept(ops));
            && meant.1 == code.1
            && var b := LoadHeld(meant.0, short);
               b.Some? && b.value.h == code.0.h && b.value.recs == code.0.recs
  {
    EmptyMirror();
    RunHeldFrom(OnDisk([]), EMPTY_BLOCK, ops);
    RunMeantFrom(EMPTY_BLOCK, EMPTY_BLOCK, Kept(ops));
    HeldLoads(RunHeld(OnDisk([]), ops).0, RunMeant(EMPTY_BLOCK, Kept(ops)).0, short);
  }
}
