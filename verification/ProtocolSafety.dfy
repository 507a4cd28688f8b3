/**
 Safety of the request/reply protocol: what every step of every interleaving keeps, and what follows for
 the replies a client accepts and for the reply cache.
 */
module ProtocolSafety {
  import opened Bytes
  import opened SeqNum
  import opened Protocol

  // ---- where numbers come from ----

  // n is the number of some call of the client, and body is what that call asked for.
  ghost predicate SentAs(cl: Client, n: uint32, body: int)
  {
    exists k :: 1 <= k <= |cl.sent| && n == Wire(cl.start, cl.step, k) && body == cl.sent[k - 1]
  }

  // n is the number of a call for which the client may already have asked for the reply.
  ghost predicate AskedAs(cl: Client, n: uint32)
  {
    exists k :: 1 <= k <= |cl.sent| && n == Wire(cl.start, cl.step, k) && (k < |cl.sent| || !cl.phase.Waiting?)
  }

  ghost predicate Ran(hist: seq<Exec>, c: ClientId, n: uint32, error: bool, text: Text)
  {
    exists e :: e in hist && e.cid == c && e.seqNum == n && e.error == error && e.text == text
  }

  ghost predicate PacketOk(s: State, p: Packet)
  {
    p.cid in s.clients &&
    var cl := s.clients[p.cid];
    match p
    case Request(_, n, Cmd(body)) => SentAs(cl, n, body)
    case Request(_, n, Ask) => AskedAs(cl, n)
    case Reply(c, n, status, error, text, direct) =>
      && (direct ==> status.InProcess?)
      && (!direct ==> AskedAs(cl, n))
      && (direct || status.IsDone? ==> Ran(s.hist, c, n, error, text))
  }

  ghost predicate TaskOk(s: State, t: Task)
  {
    match t
    case Got(req) => req.Request? && PacketOk(s, req)
    case Running(c, n, body) => c in s.clients && SentAs(s.clients[c], n, body)
    case Executed(e) => e in s.hist
    case Sending(r) => r.Reply? && PacketOk(s, r)
  }

  // Some worker has told the cache about this request and not yet its result.
  predicate Processing(t: Task, c: ClientId, n: uint32)
  {
    || (t.Running? && t.cid == c && t.seqNum == n)
    || (t.Executed? && t.e.cid == c && t.e.seqNum == n)
  }

  ghost predicate EntryOk(s: State, c: ClientId, e: Entry)
  {
    && e.seqNum != 0
    && (e.done ==> Ran(s.hist, c, e.seqNum, e.error, e.text))
    && (!e.done ==> exists w :: w in s.workers && Processing(s.workers[w], c, e.seqNum))
  }

  ghost predicate ClientOk(cfg: Config, cl: Client)
  {
    && ValidStep(cl.step)
    && |cl.sent| <= WINDOW
    && (!cl.phase.Idle? ==> 1 <= cl.attempts <= cfg.maxResend && cl.attempts <= |cl.sent|)
  }

  ghost predicate AcceptedOk(cfg: Config, s: State, a: Accepted)
  {
    && a.cid in s.clients
    && var cl := s.clients[a.cid];
       && 1 <= a.attempts <= a.k <= |cl.sent| && a.attempts <= cfg.maxResend
       && Ran(s.hist, a.cid, Wire(cl.start, cl.step, a.k), a.error, a.text)
  }

  ghost predicate ExecOk(s: State, e: Exec)
  {
    e.cid in s.clients && SentAs(s.clients[e.cid], e.seqNum, e.body)
  }

  ghost predicate Inv(cfg: Config, s: State)
  {
    && (forall c :: c in s.clients ==> ClientOk(cfg, s.clients[c]))
    && (forall p :: p in s.net ==> PacketOk(s, p))
    && (forall w :: w in s.workers ==> TaskOk(s, s.workers[w]))
    && (forall c :: c in s.cache ==> EntryOk(s, c, s.cache[c]))
    && (forall e :: e in s.hist ==> ExecOk(s, e))
    && (forall a :: a in s.accepted ==> AcceptedOk(cfg, s, a))
  }

  ghost predicate Init(s: State)
  {
    && s.net == {} && s.workers == map[] && s.cache == map[] && s.hist == [] && s.accepted == []
    && forall c :: c in s.clients ==>
         ValidStep(s.clients[c].step) && s.clients[c].sent == [] && s.clients[c].phase.Idle?
  }

  // ---- what only grows ----

  ghost predicate ClientGrows(a: Client, b: Client)
  {
    && a.start == b.start && a.step == b.step && a.sent <= b.sent
    && (a.sent == b.sent && b.phase.Waiting? ==> a.phase.Waiting?)
  }

  ghost predicate Grows(s: State, s': State)
  {
    && s.clients.Keys == s'.clients.Keys
    && (forall c :: c in s.clients ==> ClientGrows(s.clients[c], s'.clients[c]))
    && s.hist <= s'.hist
  }

  lemma SentStable(a: Client, b: Client, n: uint32, body: int)
    requires ClientGrows(a, b) && SentAs(a, n, body)
    ensures SentAs(b, n, body)
  {
    var k :| 1 <= k <= |a.sent| && n == Wire(a.start, a.step, k) && body == a.sent[k - 1];
    assert body == b.sent[k - 1];
  }

  lemma AskedStable(a: Client, b: Client, n: uint32)
    requires ClientGrows(a, b) && AskedAs(a, n)
    ensures AskedAs(b, n)
  {
    var k :| 1 <= k <= |a.sent| && n == Wire(a.start, a.step, k) && (k < |a.sent| || !a.phase.Waiting?);
    assert |a.sent| == |b.sent| ==> a.sent == b.sent;
    assert 1 <= k <= |b.sent| && n == Wire(b.start, b.step, k) && (k < |b.sent| || !b.phase.Waiting?);
  }

  lemma RanStable(h: seq<Exec>, h': seq<Exec>, c: ClientId, n: uint32, error: bool, text: Text)
    requires h <= h' && Ran(h, c, n, error, text)
    ensures Ran(h', c, n, error, text)
  {
    var e :| e in h && e.cid == c && e.seqNum == n && e.error == error && e.text == text;
    assert e in h';
  }

  lemma PacketStable(s: State, s': State, p: Packet)
    requires Grows(s, s') && PacketOk(s, p)
    ensures PacketOk(s', p)
  {
    var a, b := s.clients[p.cid], s'.clients[p.cid];
    match p
    case Request(_, n, Cmd(body)) => SentStable(a, b, n, body);
    case Request(_, n, Ask) => AskedStable(a, b, n);
    case Reply(c, n, status, error, text, direct) =>
      if !direct { AskedStable(a, b, n); }
      if direct || status.IsDone? { RanStable(s.hist, s'.hist, c, n, error, text); }
  }

  lemma TaskStable(s: State, s': State, t: Task)
    requires Grows(s, s') && TaskOk(s, t)
    ensures TaskOk(s', t)
  {
    match t
    case Got(req) => PacketStable(s, s', req);
    case Running(c, n, body) => SentStable(s.clients[c], s'.clients[c], n, body);
    case Executed(e) =>
    case Sending(r) => PacketStable(s, s', r);
  }

  lemma ExecStable(s: State, s': State, e: Exec)
    requires Grows(s, s') && ExecOk(s, e)
    ensures ExecOk(s', e)
  {
    SentStable(s.clients[e.cid], s'.clients[e.cid], e.seqNum, e.body);
  }

  lemma AcceptedStable(cfg: Config, s: State, s': State, a: Accepted)
    requires Grows(s, s') && AcceptedOk(cfg, s, a)
    ensures AcceptedOk(cfg, s', a)
  {
    var cl := s.clients[a.cid];
    RanStable(s.hist, s'.hist, a.cid, Wire(cl.start, cl.step, a.k), a.error, a.text);
  }

  // Everything except cache and clients survives a step that only grows the state and adds good things.
  lemma Carry(cfg: Config, s: State, s': State)
    requires Inv(cfg, s) && Grows(s, s')
    requires forall p :: p in s'.net && p !in s.net ==> PacketOk(s', p)
    requires forall w :: w in s'.workers && !(w in s.workers && s.workers[w] == s'.workers[w]) ==>
               TaskOk(s', s'.workers[w])
    requires forall e :: e in s'.hist && e !in s.hist ==> ExecOk(s', e)
    requires forall a :: a in s'.accepted && a !in s.accepted ==> AcceptedOk(cfg, s', a)
    ensures forall p :: p in s'.net ==> PacketOk(s', p)
    ensures forall w :: w in s'.workers ==> TaskOk(s', s'.workers[w])
    ensures forall e :: e in s'.hist ==> ExecOk(s', e)
    ensures forall a :: a in s'.accepted ==> AcceptedOk(cfg, s', a)
  {
    forall p | p in s'.net ensures PacketOk(s', p) {
      if p in s.net { PacketStable(s, s', p); }
    }
    forall w | w in s'.workers ensures TaskOk(s', s'.workers[w]) {
      if w in s.workers && s.workers[w] == s'.workers[w] { TaskStable(s, s', s.workers[w]); }
    }
    forall e | e in s'.hist ensures ExecOk(s', e) {
      if e in s.hist { ExecStable(s, s', e); }
    }
    forall a | a in s'.accepted ensures AcceptedOk(cfg, s', a) {
      if a in s.accepted { AcceptedStable(cfg, s, s', a); }
    }
  }

  // An entry survives when its worker goes on processing.
  lemma EntryStable(s: State, s': State, c: ClientId, e: Entry)
    requires EntryOk(s, c, e) && s.hist <= s'.hist
    requires forall w :: w in s.workers && Processing(s.workers[w], c, e.seqNum) ==>
               w in s'.workers && Processing(s'.workers[w], c, e.seqNum)
    ensures EntryOk(s', c, e)
  {
    if e.done {
      RanStable(s.hist, s'.hist, c, e.seqNum, e.error, e.text);
    } else {
      var w :| w in s.workers && Processing(s.workers[w], c, e.seqNum);
      assert w in s'.workers && Processing(s'.workers[w], c, e.seqNum);
    }
  }

  lemma CacheCarry(s: State, s': State)
    requires forall c :: c in s.cache ==> EntryOk(s, c, s.cache[c])
    requires s.hist <= s'.hist
    requires forall w, c, n :: w in s.workers && Processing(s.workers[w], c, n) ==>
               w in s'.workers && Processing(s'.workers[w], c, n)
    requires forall c :: c in s'.cache ==> c in s.cache && s.cache[c] == s'.cache[c]
    ensures forall c :: c in s'.cache ==> EntryOk(s', c, s'.cache[c])
  {
    forall c | c in s'.cache ensures EntryOk(s', c, s'.cache[c]) {
      EntryStable(s, s', c, s.cache[c]);
    }
  }

  // ---- client steps ----

  lemma InvSendCmd(cfg: Config, s: State, c: ClientId, body: int, first: bool)
    requires Inv(cfg, s) && c in s.clients && |s.clients[c].sent| < WINDOW
    requires if first then cfg.maxResend > 0 else s.clients[c].phase.Polling? && s.clients[c].attempts < cfg.maxResend
    ensures Inv(cfg, SendCmd(s, c, body, first))
  {
    var s' := SendCmd(s, c, body, first);
    assert ClientOk(cfg, s.clients[c]);
    var cl := s'.clients[c];
    assert Grows(s, s');
    assert cl.sent[|cl.sent| - 1] == body;
    assert SentAs(cl, cl.Current(), body);
    Carry(cfg, s, s');
    CacheCarry(s, s');
  }

  lemma InvPoll(cfg: Config, s: State, c: ClientId)
    requires Inv(cfg, s) && Enabled(cfg, s, Poll(c))
    ensures Inv(cfg, Apply(cfg, s, Poll(c)))
  {
    var s' := Apply(cfg, s, Poll(c));
    var cl := s'.clients[c];
    assert Grows(s, s');
    assert cl.Current() == Wire(cl.start, cl.step, |cl.sent|);
    assert AskedAs(cl, cl.Current());
    Carry(cfg, s, s');
    CacheCarry(s, s');
  }

  // What a client accepts was computed for its current call.
  lemma MineRan(cfg: Config, s: State, c: ClientId, p: Packet)
    requires Inv(cfg, s) && c in s.clients && Mine(s, c, p)
    requires s.clients[c].phase.Waiting? || (s.clients[c].phase.Polling? && p.status.IsDone?)
    ensures Ran(s.hist, c, s.clients[c].Current(), p.error, p.text)
  {
    var cl := s.clients[c];
    assert PacketOk(s, p);
    if cl.phase.Waiting? && !p.direct {
      var k :| 1 <= k <= |cl.sent| && p.seqNum == Wire(cl.start, cl.step, k) && (k < |cl.sent| || !cl.phase.Waiting?);
      WireDistinct(cl.start, cl.step, k, |cl.sent|);
      assert false;
    }
  }

  lemma InvAccept(cfg: Config, s: State, c: ClientId, p: Packet)
    requires Inv(cfg, s) && c in s.clients && Mine(s, c, p)
    requires s.clients[c].phase.Waiting? || (s.clients[c].phase.Polling? && p.status.IsDone?)
    ensures Inv(cfg, Accept(s, c, p))
  {
    MineRan(cfg, s, c, p);
    var s' := Accept(s, c, p);
    assert Grows(s, s');
    Carry(cfg, s, s');
    CacheCarry(s, s');
  }

  lemma InvGiveUp(cfg: Config, s: State, c: ClientId)
    requires Inv(cfg, s) && c in s.clients
    ensures Inv(cfg, SetPhase(s, c, Idle))
  {
    var s' := SetPhase(s, c, Idle);
    assert Grows(s, s');
    Carry(cfg, s, s');
    CacheCarry(s, s');
  }

  // ---- server and network steps ----

  lemma InvTake(cfg: Config, s: State, w: WorkerId, p: Packet, keep: bool)
    requires Inv(cfg, s) && Enabled(cfg, s, Take(w, p, keep))
    ensures Inv(cfg, Apply(cfg, s, Take(w, p, keep)))
  {
    var s' := Apply(cfg, s, Take(w, p, keep));
    assert Grows(s, s');
    PacketStable(s, s', p);
    Carry(cfg, s, s');
    CacheCarry(s, s');
  }

  lemma InvAdd(cfg: Config, s: State, w: WorkerId)
    requires Inv(cfg, s) && Enabled(cfg, s, CacheAdd(w))
    ensures Inv(cfg, Apply(cfg, s, CacheAdd(w)))
  {
    var s' := Apply(cfg, s, CacheAdd(w));
    var r := s.workers[w].req;
    assert TaskOk(s, s.workers[w]);
    assert Grows(s, s');
    Carry(cfg, s, s');
    forall c | c in s'.cache ensures EntryOk(s', c, s'.cache[c]) {
      if c == r.cid && r.seqNum != 0 {
        assert w in s'.workers && Processing(s'.workers[w], c, r.seqNum);
      } else {
        EntryStable(s, s', c, s.cache[c]);
      }
    }
  }

  lemma InvExecute(cfg: Config, s: State, w: WorkerId, error: bool, text: Text)
    requires Inv(cfg, s) && Enabled(cfg, s, Execute(w, error, text))
    ensures Inv(cfg, Apply(cfg, s, Execute(w, error, text)))
  {
    var s' := Apply(cfg, s, Execute(w, error, text));
    assert TaskOk(s, s.workers[w]);
    assert Grows(s, s');
    Carry(cfg, s, s');
    CacheCarry(s, s');
  }

  lemma InvUpdate(cfg: Config, s: State, w: WorkerId)
    requires Inv(cfg, s) && Enabled(cfg, s, CacheUpdate(w))
    ensures Inv(cfg, Apply(cfg, s, CacheUpdate(w)))
  {
    var s' := Apply(cfg, s, CacheUpdate(w));
    var e := s.workers[w].e;
    assert TaskOk(s, s.workers[w]);
    assert ExecOk(s, e);
    assert Ran(s'.hist, e.cid, e.seqNum, e.error, e.text);
    assert Grows(s, s');
    Carry(cfg, s, s');
    forall c | c in s'.cache ensures EntryOk(s', c, s'.cache[c]) {
      if !(c == e.cid && e.seqNum != 0) { EntryStable(s, s', c, s.cache[c]); }
    }
  }

  lemma InvAnswer(cfg: Config, s: State, w: WorkerId)
    requires Inv(cfg, s) && Enabled(cfg, s, Answer(w))
    ensures Inv(cfg, Apply(cfg, s, Answer(w)))
  {
    var s' := Apply(cfg, s, Answer(w));
    var req := s.workers[w].req;
    assert TaskOk(s, s.workers[w]);
    assert Grows(s, s');
    if req.cid in s.cache { assert EntryOk(s, req.cid, s.cache[req.cid]); }
    assert PacketOk(s', Find(s.cache, req));
    Carry(cfg, s, s');
    CacheCarry(s, s');
  }

  lemma InvSendReply(cfg: Config, s: State, w: WorkerId)
    requires Inv(cfg, s) && Enabled(cfg, s, SendReply(w))
    ensures Inv(cfg, Apply(cfg, s, SendReply(w)))
  {
    var s' := Apply(cfg, s, SendReply(w));
    assert TaskOk(s, s.workers[w]);
    assert Grows(s, s');
    PacketStable(s, s', s.workers[w].reply);
    Carry(cfg, s, s');
    CacheCarry(s, s');
  }

  lemma InvLoss(cfg: Config, s: State, s': State)
    requires Inv(cfg, s)
    requires (exists c :: s' == s.(cache := s.cache - {c})) || (exists p :: s' == s.(net := s.net - {p}))
    ensures Inv(cfg, s')
  {
    assert Grows(s, s');
    Carry(cfg, s, s');
    CacheCarry(s, s');
  }

  lemma InvClientStep(cfg: Config, s: State, t: Step)
    requires Inv(cfg, s) && Enabled(cfg, s, t)
    requires t.StartSend? || t.AcceptDirect? || t.Poll? || t.AcceptPolled? || t.Resend? || t.GiveUp?
    ensures Inv(cfg, Apply(cfg, s, t))
  {
    match t
    case StartSend(c, body) => InvSendCmd(cfg, s, c, body, true);
    case AcceptDirect(c, p) => InvAccept(cfg, s, c, p);
    case Poll(c) => InvPoll(cfg, s, c);
    case AcceptPolled(c, p) => InvAccept(cfg, s, c, p);
    case Resend(c, p, body) => InvSendCmd(cfg, s, c, body, false);
    case GiveUp(c) => InvGiveUp(cfg, s, c);
  }

  /** Every step of every interleaving keeps the invariant. */
  lemma InvStep(cfg: Config, s: State, t: Step)
    requires Inv(cfg, s) && Enabled(cfg, s, t)
    ensures Inv(cfg, Apply(cfg, s, t))
  {
    match t
    case Take(w, p, keep) => InvTake(cfg, s, w, p, keep);
    case CacheAdd(w) => InvAdd(cfg, s, w);
    case Execute(w, error, text) => InvExecute(cfg, s, w, error, text);
    case CacheUpdate(w) => InvUpdate(cfg, s, w);
    case Answer(w) => InvAnswer(cfg, s, w);
    case SendReply(w) => InvSendReply(cfg, s, w);
    case Expire(c) => InvLoss(cfg, s, Apply(cfg, s, t));
    case Drop(p) => InvLoss(cfg, s, Apply(cfg, s, t));
    case _ => InvClientStep(cfg, s, t);
  }

  // ---- runs ----

  // states[i + 1] follows from states[i] by steps[i].
  ghost predicate IsRun(cfg: Config, states: seq<State>, steps: seq<Step>)
  {
    && |states| == |steps| + 1
    && Init(states[0])
    && forall i :: 0 <= i < |steps| ==>
         Enabled(cfg, states[i], steps[i]) && states[i + 1] == Apply(cfg, states[i], steps[i])
  }

  lemma {:induction false} RunInv(cfg: Config, states: seq<State>, steps: seq<Step>, i: nat)
    requires IsRun(cfg, states, steps) && i <= |steps|
    ensures Inv(cfg, states[i])
  {
    if i == 0 {
    } else {
      RunInv(cfg, states, steps, i - 1);
      InvStep(cfg, states[i - 1], steps[i - 1]);
    }
  }

  /**
   In every state of every run, whatever was lost, delayed, reordered or duplicated: a reply that a call
   of Send returned, text or error, was computed by an execution of exactly the call it is returned for,
   with the command that call carried.
   */
  lemma AcceptedWasComputed(cfg: Config, states: seq<State>, steps: seq<Step>, i: nat, a: Accepted)
    requires IsRun(cfg, states, steps) && i <= |steps| && a in states[i].accepted
    ensures a.cid in states[i].clients
    ensures var cl := states[i].clients[a.cid];
            && 1 <= a.k <= |cl.sent|
            && exists e :: e in states[i].hist && e.cid == a.cid && e.seqNum == Wire(cl.start, cl.step, a.k)
                           && e.body == cl.sent[a.k - 1] && e.error == a.error && e.text == a.text
  {
    RunInv(cfg, states, steps, i);
    var s := states[i];
    assert AcceptedOk(cfg, s, a);
    var cl := s.clients[a.cid];
    var n := Wire(cl.start, cl.step, a.k);
    var e :| e in s.hist && e.cid == a.cid && e.seqNum == n && e.error == a.error && e.text == a.text;
    assert ExecOk(s, e);
    var k :| 1 <= k <= |cl.sent| && n == Wire(cl.start, cl.step, k) && e.body == cl.sent[k - 1];
    assert ClientOk(cfg, cl);
    if k < a.k { WireDistinct(cl.start, cl.step, k, a.k); }
    if a.k < k { WireDistinct(cl.start, cl.step, a.k, k); }
  }

  /**
   Every entry of the reply cache is justified under any worker interleaving: a finished entry holds the
   reply and error flag of a finished execution of that request, and for an unfinished one some worker
   has called Add and not yet Update, so no client polls a dead entry.
   */
  lemma CacheJustified(cfg: Config, states: seq<State>, steps: seq<Step>, i: nat, c: ClientId)
    requires IsRun(cfg, states, steps) && i <= |steps| && c in states[i].cache
    ensures var s, e := states[i], states[i].cache[c];
            && (e.done ==> Ran(s.hist, c, e.seqNum, e.error, e.text))
            && (!e.done ==> exists w :: w in s.workers && Processing(s.workers[w], c, e.seqNum))
  {
    RunInv(cfg, states, steps, i);
    assert EntryOk(states[i], c, states[i].cache[c]);
  }
}
