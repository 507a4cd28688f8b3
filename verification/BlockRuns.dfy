/**
 Whole runs of one cached message block: its counters are exact, messages are conserved, space runs out
 exactly at the capacity, and compaction is cheap.
 */
module BlockRuns {
  import opened Bytes
  import opened Filters
  import opened MsgBlock

  datatype Op =
    | OpAdd(now: nat, from: str, id: str)
    | OpRead(id: str, text: Option<str>)
    | OpDelete(id: str)

  function Step(b: Block, op: Op): (Block, Reply)
  {
    match op
    case OpAdd(now, from, id) => Add(b, now, from, id)
    case OpRead(id, text) => Read(b, id, text)
    case OpDelete(id) => Delete(b, id)
  }

  function Run(b: Block, ops: seq<Op>): (r: (Block, seq<Reply>))
    ensures |r.1| == |ops|
    decreases |ops|
  {
    if ops == [] then (b, [])
    else
      var (b1, reply) := Step(b, ops[0]);
      var (b2, replies) := Run(b1, ops[1..]);
      (b2, [reply] + replies)
  }

  const EMPTY_BLOCK: Block := Block(EMPTY_HEADER, [], [])

  // ---- the counters ----

  predicate Written(r: Rec) { Status(r) in {STATUS_NEW, STATUS_READ, STATUS_DELETED} }

  // The header counts exactly what is in the records.
  ghost predicate Exact(b: Block)
  {
    && b.h.total <= MAX_MSG_IN_BLOCK
    && b.h.unread == |Unread(b.recs)|
    && b.h.deleted == |b.recs| - |Live(b.recs)|
    && forall r :: r in b.recs ==> Written(r)
  }

  lemma CompressExact(b: Block)
    requires Exact(b)
    ensures Exact(Compress(b)) && Compress(b).h.deleted == 0
    ensures Compress(b).recs == Live(b.recs) && Live(Compress(b).recs) == Live(b.recs)
  {
    FilterFilter<Rec>(IsLive, IsLive, b.recs);
    FilterFilter<Rec>(IsLive, IsNew, b.recs);
    FilterMembers<Rec>(IsLive, b.recs);
    if |Live(b.recs)| == |b.recs| { FilterFull<Rec>(IsLive, b.recs); }
  }

  lemma AppendExact(b: Block, r: Rec)
    requires Exact(b) && b.h.total < MAX_MSG_IN_BLOCK && Status(r) == STATUS_NEW
    ensures Exact(Append(b, r)) && Live(Append(b, r).recs) == Live(b.recs) + [r]
  {
    assert (b.recs + [r])[..|b.recs|] == b.recs;
  }

  lemma MarkReadExact(b: Block, i: nat)
    requires Exact(b) && i < |b.recs| && Status(b.recs[i]) == STATUS_NEW
    ensures Exact(MarkRead(b, i)) && b.h.unread >= 1
    ensures MarkRead(b, i).h == b.h.(unread := b.h.unread - 1)
    ensures |Live(MarkRead(b, i).recs)| == |Live(b.recs)|
  {
    var r := WithStatus(b.recs[i], STATUS_READ);
    FilterAt<Rec>(IsLive, b.recs, i);
    FilterAt<Rec>(IsNew, b.recs, i);
    FilterUpdate<Rec>(IsLive, b.recs, i, r);
    FilterUpdate<Rec>(IsNew, b.recs, i, r);
  }

  lemma MarkDeletedExact(b: Block, i: nat)
    requires Exact(b) && i < |b.recs| && Status(b.recs[i]) != STATUS_DELETED
    ensures Exact(MarkDeleted(b, i)) && b.h.unread >= (if IsNew(b.recs[i]) then 1 else 0)
    ensures MarkDeleted(b, i).h.deleted == b.h.deleted + 1 && MarkDeleted(b, i).h.total == b.h.total
    ensures |Live(MarkDeleted(b, i).recs)| == |Live(b.recs)| - 1
  {
    var r := WithStatus(b.recs[i], STATUS_DELETED);
    FilterAt<Rec>(IsLive, b.recs, i);
    FilterAt<Rec>(IsNew, b.recs, i);
    FilterUpdate<Rec>(IsLive, b.recs, i, r);
    FilterUpdate<Rec>(IsNew, b.recs, i, r);
  }

  function Gain(r: Reply): int { if r.Added? then 1 else if r.Deleted? then -1 else 0 }

  lemma AddExact(b: Block, now: nat, from: str, id: str)
    requires Exact(b)
    ensures Exact(Add(b, now, from, id).0)
    ensures |Live(Add(b, now, from, id).0.recs)| == |Live(b.recs)| + Gain(Add(b, now, from, id).1)
  {
    if ValidArgs(from, id) {
      CompressExact(b);
      var c := if b.h.total >= MAX_MSG_IN_BLOCK && b.h.deleted != 0 then Compress(b) else b;
      if c.h.total < MAX_MSG_IN_BLOCK { AppendExact(c, NewRecord(now, from, id)); }
    }
  }

  lemma DeleteExact(b: Block, id: str)
    requires Exact(b)
    ensures Exact(Delete(b, id).0)
    ensures |Live(Delete(b, id).0.recs)| == |Live(b.recs)| + Gain(Delete(b, id).1)
  {
    var i := FirstIndex(b.recs, id);
    if i < |b.recs| && IsLive(b.recs[i]) {
      MarkDeletedExact(b, i);
      CompressExact(MarkDeleted(b, i));
    }
  }

  // One operation keeps the counters exact and changes the number of live messages as its reply says.
  lemma StepExact(b: Block, op: Op)
    requires Exact(b)
    ensures Exact(Step(b, op).0)
    ensures |Live(Step(b, op).0.recs)| == |Live(b.recs)| + Gain(Step(b, op).1)
  {
    match op
    case OpAdd(now, from, id) => AddExact(b, now, from, id);
    case OpRead(id, text) =>
      var i := FirstIndex(b.recs, id);
      if i < |b.recs| && IsNew(b.recs[i]) && text.Some? { MarkReadExact(b, i); }
    case OpDelete(id) => DeleteExact(b, id);
  }

  function Count(replies: seq<Reply>, p: Reply -> bool): nat
  {
    if replies == [] then 0 else (if p(replies[0]) then 1 else 0) + Count(replies[1..], p)
  }

  predicate IsAdded(r: Reply) { r.Added? }
  predicate IsDeleted(r: Reply) { r.Deleted? }

  /** Over any run, messages accepted = messages still live + messages whose deletion succeeded. */
  lemma {:induction false} Conservation(b: Block, ops: seq<Op>)
    requires Exact(b)
    ensures Exact(Run(b, ops).0)
    ensures |Live(b.recs)| + Count(Run(b, ops).1, IsAdded)
            == |Live(Run(b, ops).0.recs)| + Count(Run(b, ops).1, IsDeleted)
    decreases |ops|
  {
    if ops != [] {
      StepExact(b, ops[0]);
      var (b1, reply) := Step(b, ops[0]);
      Conservation(b1, ops[1..]);
      assert ([reply] + Run(b1, ops[1..]).1)[1..] == Run(b1, ops[1..]).1;
    }
  }

  /** Add runs out of space exactly when the block holds 1024 live messages. */
  lemma AddFailsExactlyWhenFull(b: Block, now: nat, from: str, id: str)
    requires Exact(b) && ValidArgs(from, id)
    ensures Add(b, now, from, id).1 == (if |Live(b.recs)| == 1024 then NoSpace else Added)
  {
    CompressExact(b);
  }

  // ---- the cost of compaction ----

  // A rounding of percentages: monotone, exact at 80, and off by less than 1/64.
  ghost predicate RoundsPercent(round: real -> real)
  {
    && (forall x, y :: 0.0 <= x <= y <= 100.0 ==> round(x) <= round(y))
    && round(80.0) == 80.0
    && (forall x :: 0.0 <= x <= 100.0 ==> -0.015625 < round(x) - x < 0.015625)
  }

  /** Every such rounding decides as the integers do, so the test is right although it is made on floats. */
  lemma IsCompressRounded(deleted: uint32, total: uint32, round: real -> real)
    requires 512 <= total <= MAX_MSG_IN_BLOCK && deleted <= total && RoundsPercent(round)
    ensures round((deleted as real) * 100.0 / (total as real)) > 80.0 <==> MostlyDeleted(deleted, total)
  {
    var d, t := deleted as real, total as real;
    var pr := d * 100.0 / t;
    QuotientBound(d * 100.0, t, 0.0);
    QuotientBound(d * 100.0, t, 100.0);
    if MostlyDeleted(deleted, total) {
      QuotientBound(d * 100.0, t, 80.015625);
      assert 5.0 * d >= 4.0 * t + 1.0;
      assert pr >= 80.015625;
    } else {
      QuotientBound(d * 100.0, t, 80.0);
      assert round(pr) <= round(80.0);
    }
  }

  // To the nearest multiple of 2^-17, the distance of single-precision numbers from 64 to 128.
  function ToSingle(x: real): real { (x * 131072.0 + 0.5).Floor as real / 131072.0 }

  lemma ToSingleBounds(x: real)
    ensures -0.015625 < ToSingle(x) - x < 0.015625
  {
    var n := (x * 131072.0 + 0.5).Floor as real;
    assert n <= x * 131072.0 + 0.5 < n + 1.0;
    assert ToSingle(x) * 131072.0 == n;
  }

  lemma ToSingleMonotone(x: real, y: real)
    requires x <= y
    ensures ToSingle(x) <= ToSingle(y)
  {
    var m, n := (x * 131072.0 + 0.5).Floor, (y * 131072.0 + 0.5).Floor;
    assert m as real <= x * 131072.0 + 0.5 <= y * 131072.0 + 0.5 < n as real + 1.0;
    assert m <= n;
  }

  /** Rounding to single precision is such a rounding. */
  lemma SinglePrecisionRounds()
    ensures RoundsPercent(ToSingle)
  {
    forall x, y | 0.0 <= x <= y <= 100.0 ensures ToSingle(x) <= ToSingle(y) { ToSingleMonotone(x, y); }
    forall x | 0.0 <= x <= 100.0 ensures -0.015625 < ToSingle(x) - x < 0.015625 { ToSingleBounds(x); }
    assert (80.0 * 131072.0 + 0.5).Floor == 10485760;
  }

  // Records copied by a compaction that a deletion triggers.
  function CopiedBy(b: Block, op: Op): nat
  {
    if !op.OpDelete? then 0
    else
      var i := FirstIndex(b.recs, op.id);
      if i == |b.recs| || !IsLive(b.recs[i]) then 0
      else
        var m := MarkDeleted(b, i);
        if m.h.deleted > 0 && MostlyDeleted(m.h.deleted, m.h.total) then |Live(m.recs)| else 0
  }

  function Copied(b: Block, ops: seq<Op>): nat
    decreases |ops|
  {
    if ops == [] then 0 else CopiedBy(b, ops[0]) + Copied(Step(b, ops[0]).0, ops[1..])
  }

  lemma StepCost(b: Block, op: Op)
    requires Exact(b)
    ensures 4 * CopiedBy(b, op) + Step(b, op).0.h.deleted
            <= b.h.deleted + if Step(b, op).1.Deleted? then 1 else 0
  {
    match op
    case OpAdd(_, _, _) => CompressExact(b);
    case OpRead(_, _) =>
    case OpDelete(id) => DeleteCost(b, id);
  }

  lemma DeleteCost(b: Block, id: str)
    requires Exact(b)
    ensures 4 * CopiedBy(b, OpDelete(id)) + Delete(b, id).0.h.deleted
            <= b.h.deleted + if Delete(b, id).1.Deleted? then 1 else 0
  {
    var i := FirstIndex(b.recs, id);
    if i < |b.recs| && IsLive(b.recs[i]) {
      var m := MarkDeleted(b, i);
      assert Exact(m) && m.h.deleted == b.h.deleted + 1 by { MarkDeletedExact(b, i); }
      CompactedCost(m);
      assert Delete(b, id) == (Compacted(m), Deleted);
    }
  }

  lemma CompactedCost(m: Block)
    requires Exact(m)
    ensures var copied := if m.h.deleted > 0 && MostlyDeleted(m.h.deleted, m.h.total) then |Live(m.recs)| else 0;
            4 * copied + Compacted(m).h.deleted <= m.h.deleted
  {
    CompressExact(m);
  }

  /** Delete-triggered compaction copies at most one record for every four successful deletions. */
  lemma {:induction false} AmortisedCost(b: Block, ops: seq<Op>)
    requires Exact(b)
    ensures 4 * Copied(b, ops) + Run(b, ops).0.h.deleted <= b.h.deleted + Count(Run(b, ops).1, IsDeleted)
    decreases |ops|
  {
    if ops != [] {
      StepExact(b, ops[0]);
      StepCost(b, ops[0]);
      var (b1, reply) := Step(b, ops[0]);
      AmortisedCost(b1, ops[1..]);
      assert ([reply] + Run(b1, ops[1..]).1)[1..] == Run(b1, ops[1..]).1;
    }
  }

  /**
   A message that is deleted leaves a tombstone, and deleting it again or reading it says so, unless the block
   holds at least 512 records and more than 80 percent of them are deleted: then all tombstones go.
   */
  lemma TombstoneStays(b: Block, id: str, text: Option<str>)
    requires Exact(b) && Delete(b, id).1.Deleted?
    ensures var d, i := Delete(b, id).0, FirstIndex(b.recs, id);
            if b.h.total >= 512 && 5 * (b.h.deleted + 1) > 4 * b.h.total then
              d.h.deleted == 0 && d.h.total == |Live(d.recs)| && forall r :: r in d.recs ==> IsLive(r)
            else
              d.recs == b.recs[i := WithStatus(b.recs[i], STATUS_DELETED)]
              && Delete(d, id) == (d, AlreadyDeleted) && Read(d, id, text) == (d, MessageDeleted)
  {
    var i := FirstIndex(b.recs, id);
    var m := MarkDeleted(b, i);
    MarkDeletedExact(b, i);
    if b.h.total >= 512 && 5 * (b.h.deleted + 1) > 4 * b.h.total {
      CompressExact(m);
      FilterMembers<Rec>(IsLive, m.recs);
    } else {
      assert FirstIndex(m.recs, id) == i by { FirstIndexUnique(m.recs, id, i); }
    }
  }
}
