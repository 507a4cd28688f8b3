/**
 A cached message block refines a plain mailbox: the live messages in arrival order and the ids that are
 gone. Tombstones, compaction and the counters cannot be observed, except that an id that is gone may be
 reported as unknown once its tombstone was compacted away.
 */
module BlockMailbox {
  import opened Bytes
  import opened Filters
  import opened MsgBlock
  import opened BlockRuns

  datatype Msg = Msg(time: nat, from: str, id: str, unread: bool)
  datatype Mailbox = Mailbox(msgs: seq<Msg>, gone: set<str>)

  const EMPTY_MAILBOX := Mailbox([], {})

  // What a caller sees of a reply.
  datatype Obs =
    | Accepted | Rejected(why: Reply) | Full
    | Seen(msg: Msg, text: str) | Unloadable
    | Removed | WasDeleted | Missing

  predicate Holds(ms: seq<Msg>, id: str) { exists m :: m in ms && m.id == id }

  function HasOtherId(id: str): Msg -> bool { (m: Msg) => m.id != id }
  function SetRead(id: str): Msg -> Msg { (m: Msg) => if m.id == id then m.(unread := false) else m }
  predicate IsUnread(m: Msg) { m.unread }

  function Lookup(ms: seq<Msg>, id: str): (m: Msg)
    requires Holds(ms, id)
    ensures m in ms && m.id == id
  {
    if ms[0].id == id then ms[0] else assert ms == [ms[0]] + ms[1..]; Lookup(ms[1..], id)
  }

  // The reference mailbox.
  function MailboxStep(mb: Mailbox, op: Op): (Mailbox, Obs)
  {
    match op
    case OpAdd(now, from, id) =>
      if |from| > 16 then (mb, Rejected(BadNumberTooLong))
      else if |from| < 3 then (mb, Rejected(BadNumberTooShort))
      else if |id| > 32 then (mb, Rejected(BadFileTooLong))
      else if |id| < 1 then (mb, Rejected(BadFileTooShort))
      else if |mb.msgs| >= MAX_MSG_IN_BLOCK then (mb, Full)
      else (mb.(msgs := mb.msgs + [Msg(now, from, id, true)]), Accepted)
    case OpRead(id, text) =>
      if !Holds(mb.msgs, id) then (mb, if id in mb.gone then WasDeleted else Missing)
      else if text.None? then (mb, Unloadable)
      else (mb.(msgs := Map(SetRead(id), mb.msgs)), Seen(Lookup(mb.msgs, id), text.value))
    case OpDelete(id) =>
      if !Holds(mb.msgs, id) then (mb, if id in mb.gone then WasDeleted else Missing)
      else (Mailbox(Filter(HasOtherId(id), mb.msgs), mb.gone + {id}), Removed)
  }

  function MsgOf(r: Rec): Msg { Msg(Time(r), FromNum(r), Id(r), IsNew(r)) }

  function Observe(r: Reply): Obs
  {
    match r
    case Added => Accepted
    case NoSpace => Full
    case Text(rec, text) => Seen(MsgOf(rec), text)
    case LoadFailed => Unloadable
    case Deleted => Removed
    case MessageDeleted => WasDeleted
    case AlreadyDeleted => WasDeleted
    case NoMessages => Missing
    case NotFound => Missing
    case _ => Rejected(r)
  }

  predicate Agree(o: Obs, reference: Obs)
  {
    o == reference || (o.Missing? && reference.WasDeleted?)
  }

  predicate DistinctIds(rs: seq<Rec>)
  {
    forall i, j :: 0 <= i < j < |rs| ==> Id(rs[i]) != Id(rs[j])
  }

  function Messages(rs: seq<Rec>): seq<Msg> { Map<Rec, Msg>(MsgOf, Live(rs)) }

  // A tombstone for this id is still in the block.
  predicate Tomb(b: Block, id: str) { exists r :: r in b.recs && Id(r) == id && !IsLive(r) }

  ghost predicate Refines(b: Block, mb: Mailbox)
  {
    && Exact(b)
    && DistinctIds(b.recs)
    && mb.msgs == Messages(b.recs)
    && (forall r :: r in b.recs && !IsLive(r) ==> Id(r) in mb.gone)
    && (forall m :: m in mb.msgs ==> m.id !in mb.gone)
  }

  // Ids are fresh, free of NULs, and times fit the record.
  predicate GoodOp(mb: Mailbox, op: Op)
  {
    op.OpAdd? ==>
      NulFree(op.from) && NulFree(op.id) && op.now < Pow256(8)
      && !Holds(mb.msgs, op.id) && op.id !in mb.gone
  }

  // ---- live records and messages ----

  lemma LiveMessage(rs: seq<Rec>, i: nat)
    requires i < |rs| && IsLive(rs[i])
    ensures MsgOf(rs[i]) in Messages(rs)
  {
    FilterMembers<Rec>(IsLive, rs);
    var k :| 0 <= k < |Live(rs)| && Live(rs)[k] == rs[i];
    assert Messages(rs)[k] == MsgOf(rs[i]);
  }

  lemma MessageIsLive(rs: seq<Rec>, m: Msg) returns (i: nat)
    requires m in Messages(rs)
    ensures i < |rs| && IsLive(rs[i]) && MsgOf(rs[i]) == m
  {
    FilterMembers<Rec>(IsLive, rs);
    var k :| 0 <= k < |Live(rs)| && Messages(rs)[k] == m;
    assert Live(rs)[k] in rs;
    i :| 0 <= i < |rs| && rs[i] == Live(rs)[k];
  }

  function Part(rs: seq<Rec>): seq<Msg> { Map<Rec, Msg>(MsgOf, Live(rs)) }

  lemma PartIds(rs: seq<Rec>, id: str)
    requires forall r :: r in rs ==> Id(r) != id
    ensures forall m :: m in Part(rs) ==> m.id != id
  {
    FilterMembers<Rec>(IsLive, rs);
    forall m | m in Part(rs) ensures m.id != id {
      var k :| 0 <= k < |Live(rs)| && Part(rs)[k] == m;
      assert Live(rs)[k] in rs;
    }
  }

  // A live record is the only source of messages with its id.
  lemma SplitAt(rs: seq<Rec>, i: nat)
    requires DistinctIds(rs) && i < |rs| && IsLive(rs[i])
    ensures Messages(rs) == Part(rs[..i]) + [MsgOf(rs[i])] + Part(rs[i + 1..])
    ensures forall m :: m in Part(rs[..i]) || m in Part(rs[i + 1..]) ==> m.id != Id(rs[i])
  {
    FilterAt<Rec>(IsLive, rs, i);
    MapAround<Rec, Msg>(MsgOf, Live(rs[..i]), rs[i], Live(rs[i + 1..]));
    PartIds(rs[..i], Id(rs[i]));
    PartIds(rs[i + 1..], Id(rs[i]));
  }

  lemma MessagesUpdateLive(rs: seq<Rec>, i: nat, r: Rec)
    requires i < |rs| && IsLive(r)
    ensures Messages(rs[i := r]) == Part(rs[..i]) + [MsgOf(r)] + Part(rs[i + 1..])
  {
    FilterUpdate<Rec>(IsLive, rs, i, r);
    MapAround<Rec, Msg>(MsgOf, Live(rs[..i]), r, Live(rs[i + 1..]));
  }

  lemma MessagesUpdateDead(rs: seq<Rec>, i: nat, r: Rec)
    requires i < |rs| && !IsLive(r)
    ensures Messages(rs[i := r]) == Part(rs[..i]) + Part(rs[i + 1..])
  {
    FilterUpdate<Rec>(IsLive, rs, i, r);
    MapAppend<Rec, Msg>(MsgOf, Live(rs[..i]), Live(rs[i + 1..]));
  }

  lemma DistinctAfter(rs: seq<Rec>, i: nat, status: byte)
    requires DistinctIds(rs) && i < |rs|
    ensures DistinctIds(rs[i := WithStatus(rs[i], status)])
  {
  }

  lemma {:induction false} DistinctLive(rs: seq<Rec>)
    requires DistinctIds(rs)
    ensures DistinctIds(Live(rs))
  {
    if rs != [] {
      var n := |rs| - 1;
      DistinctLive(rs[..n]);
      FilterMembers<Rec>(IsLive, rs[..n]);
      forall i, j | 0 <= i < j < |Live(rs)| ensures Id(Live(rs)[i]) != Id(Live(rs)[j]) {
        if j == |Live(rs[..n])| {
          assert Live(rs)[i] == Live(rs[..n])[i];
          assert Live(rs[..n])[i] in rs[..n];
        }
      }
    }
  }

  // Where an id is, seen from the mailbox.
  ghost predicate Located(b: Block, mb: Mailbox, id: str)
  {
    var i := FirstIndex(b.recs, id);
    && (Holds(mb.msgs, id) <==> i < |b.recs| && IsLive(b.recs[i]))
    && (Holds(mb.msgs, id) ==> Lookup(mb.msgs, id) == MsgOf(b.recs[i]))
    && (Tomb(b, id) <==> i < |b.recs| && !IsLive(b.recs[i]))
    && (Tomb(b, id) ==> id in mb.gone)
  }

  lemma FindsMessage(b: Block, mb: Mailbox, id: str)
    requires Refines(b, mb)
    ensures Located(b, mb, id)
  {
    var i := FirstIndex(b.recs, id);
    if Holds(mb.msgs, id) {
      var m := Lookup(mb.msgs, id);
      var k := MessageIsLive(b.recs, m);
      FirstIndexUnique(b.recs, id, k);
    }
    if i < |b.recs| && IsLive(b.recs[i]) { LiveMessage(b.recs, i); }
    if Tomb(b, id) {
      var r :| r in b.recs && Id(r) == id && !IsLive(r);
      var k :| 0 <= k < |b.recs| && b.recs[k] == r;
      FirstIndexUnique(b.recs, id, k);
    }
  }

  // ---- one operation ----

  lemma CompressRefines(b: Block, mb: Mailbox)
    requires Refines(b, mb)
    ensures Refines(Compress(b), mb)
  {
    CompressExact(b);
    DistinctLive(b.recs);
    FilterMembers<Rec>(IsLive, b.recs);
  }

  lemma CompactedRefines(b: Block, mb: Mailbox)
    requires Refines(b, mb)
    ensures Refines(Compacted(b), mb)
  {
    if b.h.deleted > 0 && MostlyDeleted(b.h.deleted, b.h.total) { CompressRefines(b, mb); }
  }

  lemma AppendRefines(b: Block, mb: Mailbox, r: Rec)
    requires Refines(b, mb) && b.h.total < MAX_MSG_IN_BLOCK && IsNew(r)
    requires !Holds(mb.msgs, Id(r)) && Id(r) !in mb.gone
    ensures Refines(Append(b, r), mb.(msgs := mb.msgs + [MsgOf(r)]))
  {
    AppendExact(b, r);
    MapAppend<Rec, Msg>(MsgOf, Live(b.recs), [r]);
    forall i | 0 <= i < |b.recs| ensures Id(b.recs[i]) != Id(r) {
      if IsLive(b.recs[i]) { LiveMessage(b.recs, i); }
    }
  }

  lemma AddRefines(b: Block, mb: Mailbox, now: nat, from: str, id: str)
    requires Refines(b, mb) && GoodOp(mb, OpAdd(now, from, id))
    ensures Refines(Add(b, now, from, id).0, MailboxStep(mb, OpAdd(now, from, id)).0)
  {
    if ValidArgs(from, id) {
      CompressExact(b);
      var c := if b.h.total >= MAX_MSG_IN_BLOCK && b.h.deleted != 0 then Compress(b) else b;
      assert Refines(c, mb) by { if c != b { CompressRefines(b, mb); } }
      if c.h.total < MAX_MSG_IN_BLOCK {
        assert Add(b, now, from, id).0 == Append(c, NewRecord(now, from, id));
        AppendNewRefines(c, mb, now, from, id);
      } else {
        assert Add(b, now, from, id).0 == c;
      }
    } else {
      assert Add(b, now, from, id).0 == b;
    }
  }

  lemma AppendNewRefines(b: Block, mb: Mailbox, now: nat, from: str, id: str)
    requires Refines(b, mb) && GoodOp(mb, OpAdd(now, from, id)) && ValidArgs(from, id)
    requires b.h.total < MAX_MSG_IN_BLOCK
    ensures Refines(Append(b, NewRecord(now, from, id)), MailboxStep(mb, OpAdd(now, from, id)).0)
  {
    var r := NewRecord(now, from, id);
    AppendRefines(b, mb, r);
  }

  lemma AddReply(b: Block, mb: Mailbox, now: nat, from: str, id: str)
    requires Exact(b) && |mb.msgs| == |Live(b.recs)|
    ensures Observe(Add(b, now, from, id).1) == MailboxStep(mb, OpAdd(now, from, id)).1
  {
    if ValidArgs(from, id) { AddFailsExactlyWhenFull(b, now, from, id); }
  }

  lemma SetReadAround(id: str, a: seq<Msg>, m: Msg, c: seq<Msg>)
    requires m.id == id && forall x :: x in a || x in c ==> x.id != id
    ensures Map(SetRead(id), a + [m] + c) == a + [m.(unread := false)] + c
  {
    MapAround(SetRead(id), a, m, c);
    assert Map(SetRead(id), a) == a && Map(SetRead(id), c) == c;
  }

  lemma MarkReadRefines(b: Block, mb: Mailbox, i: nat)
    requires Refines(b, mb) && i < |b.recs| && IsNew(b.recs[i])
    ensures Refines(MarkRead(b, i), mb.(msgs := Map(SetRead(Id(b.recs[i])), mb.msgs)))
  {
    var r := WithStatus(b.recs[i], STATUS_READ);
    SplitAt(b.recs, i);
    MessagesUpdateLive(b.recs, i, r);
    SetReadAround(Id(r), Part(b.recs[..i]), MsgOf(b.recs[i]), Part(b.recs[i + 1..]));
    DistinctAfter(b.recs, i, STATUS_READ);
    MarkReadExact(b, i);
  }

  lemma AlreadyReadUnchanged(b: Block, mb: Mailbox, i: nat)
    requires Refines(b, mb) && i < |b.recs| && IsLive(b.recs[i]) && !IsNew(b.recs[i])
    ensures Map(SetRead(Id(b.recs[i])), mb.msgs) == mb.msgs
  {
    SplitAt(b.recs, i);
    SetReadAround(Id(b.recs[i]), Part(b.recs[..i]), MsgOf(b.recs[i]), Part(b.recs[i + 1..]));
  }

  lemma ReadRefines(b: Block, mb: Mailbox, id: str, text: Option<str>)
    requires Refines(b, mb)
    ensures Refines(Read(b, id, text).0, MailboxStep(mb, OpRead(id, text)).0)
  {
    FindsMessage(b, mb, id);
    var i := FirstIndex(b.recs, id);
    if i < |b.recs| && IsLive(b.recs[i]) && text.Some? {
      if IsNew(b.recs[i]) { MarkReadRefines(b, mb, i); } else { AlreadyReadUnchanged(b, mb, i); }
    }
  }

  lemma ReadReply(b: Block, mb: Mailbox, id: str, text: Option<str>)
    requires Located(b, mb, id)
    ensures Agree(Observe(Read(b, id, text).1), MailboxStep(mb, OpRead(id, text)).1)
    ensures Observe(Read(b, id, text).1).WasDeleted? <==> Tomb(b, id)
  {
  }

  lemma MarkDeletedRefines(b: Block, mb: Mailbox, i: nat)
    requires Refines(b, mb) && i < |b.recs| && IsLive(b.recs[i])
    ensures var id := Id(b.recs[i]);
            Refines(MarkDeleted(b, i), Mailbox(Filter(HasOtherId(id), mb.msgs), mb.gone + {id}))
  {
    var r := WithStatus(b.recs[i], STATUS_DELETED);
    assert Messages(b.recs[i := r]) == Filter(HasOtherId(Id(r)), mb.msgs) by { MessagesWithout(b.recs, i, r); }
    assert Exact(MarkDeleted(b, i)) by { MarkDeletedExact(b, i); }
    DistinctAfter(b.recs, i, STATUS_DELETED);
    GoneAfter(b, mb, i, r);
  }

  lemma GoneAfter(b: Block, mb: Mailbox, i: nat, r: Rec)
    requires Refines(b, mb) && i < |b.recs| && Id(r) == Id(b.recs[i])
    ensures forall q :: q in b.recs[i := r] && !IsLive(q) ==> Id(q) in mb.gone + {Id(r)}
    ensures forall m :: m in Filter(HasOtherId(Id(r)), mb.msgs) ==> m.id !in mb.gone + {Id(r)}
  {
    FilterMembers<Msg>(HasOtherId(Id(r)), mb.msgs);
    assert forall q :: q in b.recs[i := r] ==> q == r || q in b.recs;
  }

  lemma MessagesWithout(rs: seq<Rec>, i: nat, r: Rec)
    requires DistinctIds(rs) && i < |rs| && IsLive(rs[i]) && !IsLive(r) && Id(r) == Id(rs[i])
    ensures Messages(rs[i := r]) == Filter(HasOtherId(Id(r)), Messages(rs))
  {
    SplitAt(rs, i);
    MessagesUpdateDead(rs, i, r);
    FilterAround(HasOtherId(Id(r)), Part(rs[..i]), MsgOf(rs[i]), Part(rs[i + 1..]));
  }

  lemma DeleteRefines(b: Block, mb: Mailbox, id: str)
    requires Refines(b, mb)
    ensures Refines(Delete(b, id).0, MailboxStep(mb, OpDelete(id)).0)
  {
    var i := FirstIndex(b.recs, id);
    if i < |b.recs| && IsLive(b.recs[i]) {
      var mb' := Mailbox(Filter(HasOtherId(id), mb.msgs), mb.gone + {id});
      assert MailboxStep(mb, OpDelete(id)).0 == mb' by { FindsMessage(b, mb, id); }
      assert Delete(b, id).0 == Compacted(MarkDeleted(b, i));
      assert Refines(MarkDeleted(b, i), mb') by { MarkDeletedRefines(b, mb, i); }
      CompactedRefines(MarkDeleted(b, i), mb');
    } else {
      assert Delete(b, id).0 == b;
      assert MailboxStep(mb, OpDelete(id)).0 == mb by { FindsMessage(b, mb, id); }
    }
  }

  lemma DeleteReply(b: Block, mb: Mailbox, id: str)
    requires Located(b, mb, id)
    ensures Agree(Observe(Delete(b, id).1), MailboxStep(mb, OpDelete(id)).1)
    ensures Observe(Delete(b, id).1).WasDeleted? <==> Tomb(b, id)
  {
  }

  /** One operation keeps the refinement; its reply is the mailbox's, up to a compacted tombstone. */
  lemma StepRefines(b: Block, mb: Mailbox, op: Op)
    requires Refines(b, mb) && GoodOp(mb, op)
    ensures Refines(Step(b, op).0, MailboxStep(mb, op).0)
    ensures Agree(Observe(Step(b, op).1), MailboxStep(mb, op).1)
    ensures !op.OpAdd? ==> (Observe(Step(b, op).1).WasDeleted? <==> Tomb(b, op.id))
  {
    match op
    case OpAdd(now, from, id) =>
      AddRefines(b, mb, now, from, id);
      AddReply(b, mb, now, from, id);
    case OpRead(id, text) =>
      ReadRefines(b, mb, id, text);
      FindsMessage(b, mb, id);
      ReadReply(b, mb, id, text);
    case OpDelete(id) =>
      DeleteRefines(b, mb, id);
      FindsMessage(b, mb, id);
      DeleteReply(b, mb, id);
  }

  // ---- listings ----

  function MsgLine(m: Msg): IdLine { IdLine(if m.unread then 'N' else 'R', m.time, m.from, m.id) }

  lemma LiveLines(b: Block, mb: Mailbox)
    requires Refines(b, mb)
    ensures Lines(Live(b.recs)) == Map(MsgLine, mb.msgs)
  {
    FilterMembers<Rec>(IsLive, b.recs);
    forall i | 0 <= i < |Live(b.recs)| ensures LineOf(Live(b.recs)[i]) == MsgLine(mb.msgs[i]) {
      assert Live(b.recs)[i] in b.recs;
    }
  }

  lemma UnreadLines(b: Block, mb: Mailbox)
    requires Refines(b, mb)
    ensures Lines(Unread(b.recs)) == Map(MsgLine, Filter(IsUnread, mb.msgs))
  {
    FilterFilter<Rec>(IsLive, IsNew, b.recs);
    FilterMap<Rec, Msg>(MsgOf, IsNew, IsUnread, Live(b.recs));
    FilterMembers<Rec>(IsNew, b.recs);
    forall i | 0 <= i < |Unread(b.recs)|
      ensures LineOf(Unread(b.recs)[i]) == MsgLine(MsgOf(Unread(b.recs)[i]))
    {
      assert Unread(b.recs)[i] in b.recs;
    }
  }

  /** GetIds lists exactly the live messages, or exactly the unread ones, in arrival order. */
  lemma GetIdsRefines(b: Block, mb: Mailbox)
    requires Refines(b, mb)
    ensures GetIds(b, All) == Map(MsgLine, mb.msgs)
    ensures GetIds(b, New) == Map(MsgLine, Filter(IsUnread, mb.msgs))
    ensures GetIds(b, Other) == []
  {
    FilterAgree(Wanted(All), IsLive, b.recs);
    FilterAgree(Wanted(New), IsNew, b.recs);
    NothingListed(b.recs, Other);
    LiveLines(b, mb);
    UnreadLines(b, mb);
  }

  lemma {:induction false} FilterAgree(p: Rec -> bool, q: Rec -> bool, rs: seq<Rec>)
    requires forall r :: r in rs ==> (p(r) <==> q(r))
    ensures Filter<Rec>(p, rs) == Filter<Rec>(q, rs)
  {
    if rs != [] {
      assert rs[|rs| - 1] in rs;
      FilterAgree(p, q, rs[..|rs| - 1]);
    }
  }

  // ---- runs ----

  function MailboxRun(mb: Mailbox, ops: seq<Op>): (r: (Mailbox, seq<Obs>))
    ensures |r.1| == |ops|
    decreases |ops|
  {
    if ops == [] then (mb, [])
    else
      var (mb1, o) := MailboxStep(mb, ops[0]);
      var (mb2, os) := MailboxRun(mb1, ops[1..]);
      (mb2, [o] + os)
  }

  predicate GoodRun(mb: Mailbox, ops: seq<Op>)
    decreases |ops|
  {
    ops == [] || (GoodOp(mb, ops[0]) && GoodRun(MailboxStep(mb, ops[0]).0, ops[1..]))
  }

  lemma {:induction false} RunRefinesFrom(b: Block, mb: Mailbox, ops: seq<Op>)
    requires Refines(b, mb) && GoodRun(mb, ops)
    ensures Refines(Run(b, ops).0, MailboxRun(mb, ops).0)
    ensures forall i :: 0 <= i < |ops| ==> Agree(Observe(Run(b, ops).1[i]), MailboxRun(mb, ops).1[i])
    decreases |ops|
  {
    if ops != [] {
      StepRefines(b, mb, ops[0]);
      RunRefinesFrom(Step(b, ops[0]).0, MailboxStep(mb, ops[0]).0, ops[1..]);
    }
  }

  /** Every run from an empty block file behaves as the mailbox, and so do the listings after it. */
  lemma RunRefinesMailbox(ops: seq<Op>)
    requires GoodRun(EMPTY_MAILBOX, ops)
    ensures var (b, replies) := Run(EMPTY_BLOCK, ops);
            var (mb, obs) := MailboxRun(EMPTY_MAILBOX, ops);
            && (forall i :: 0 <= i < |ops| ==> Agree(Observe(replies[i]), obs[i]))
            && GetIds(b, All) == Map(MsgLine, mb.msgs)
            && GetIds(b, New) == Map(MsgLine, Filter(IsUnread, mb.msgs))
  {
    assert Refines(EMPTY_BLOCK, EMPTY_MAILBOX);
    RunRefinesFrom(EMPTY_BLOCK, EMPTY_MAILBOX, ops);
    GetIdsRefines(Run(EMPTY_BLOCK, ops).0, MailboxRun(EMPTY_MAILBOX, ops).0);
  }
}
