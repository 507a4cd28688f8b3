/**
 Without duplicated datagrams every call is executed at most once, so one Send causes at most maxResend
 executions, and at least one when it returns a reply.
 */
module ProtocolOnce {
  import opened Bytes
  import opened SeqNum
  import opened Protocol
  import opened ProtocolSafety

  // The worker holds the request and has not executed it.
  predicate Carries(t: Task, c: ClientId, n: uint32)
  {
    || (t.Got? && t.req.Request? && t.req.kind.Cmd? && t.req.cid == c && t.req.seqNum == n)
    || (t.Running? && t.cid == c && t.seqNum == n)
  }

  predicate IsCmd(p: Packet) { p.Request? && p.kind.Cmd? }

  predicate Same(e: Exec, c: ClientId, n: uint32) { e.cid == c && e.seqNum == n }

  ghost predicate HasRun(s: State, c: ClientId, n: uint32) { exists e :: e in s.hist && Same(e, c, n) }

  // A command is in one place only: on the wire, with one worker, or executed.
  ghost predicate Once(s: State)
  {
    && (forall p, w :: p in s.net && IsCmd(p) && w in s.workers ==> !Carries(s.workers[w], p.cid, p.seqNum))
    && (forall p :: p in s.net && IsCmd(p) ==> !HasRun(s, p.cid, p.seqNum))
    && (forall v, w, c, n :: v in s.workers && w in s.workers && v != w && Carries(s.workers[v], c, n) ==>
          !Carries(s.workers[w], c, n))
    && (forall w, c, n :: w in s.workers && Carries(s.workers[w], c, n) ==> !HasRun(s, c, n))
    && (forall i, j :: 0 <= i < j < |s.hist| ==> !Same(s.hist[j], s.hist[i].cid, s.hist[i].seqNum))
  }

  // ---- fresh numbers and unique packets ----

  lemma NotSentBefore(cl: Client, n: uint32, body: int)
    requires ValidStep(cl.step) && |cl.sent| < WINDOW && n == Wire(cl.start, cl.step, |cl.sent| + 1)
    ensures !SentAs(cl, n, body)
  {
    if SentAs(cl, n, body) {
      var k :| 1 <= k <= |cl.sent| && n == Wire(cl.start, cl.step, k) && body == cl.sent[k - 1];
      WireDistinct(cl.start, cl.step, k, |cl.sent| + 1);
      assert false;
    }
  }

  lemma SameNumberSameBody(cl: Client, n: uint32, b1: int, b2: int)
    requires ValidStep(cl.step) && |cl.sent| <= WINDOW && SentAs(cl, n, b1) && SentAs(cl, n, b2)
    ensures b1 == b2
  {
    var k1 :| 1 <= k1 <= |cl.sent| && n == Wire(cl.start, cl.step, k1) && b1 == cl.sent[k1 - 1];
    var k2 :| 1 <= k2 <= |cl.sent| && n == Wire(cl.start, cl.step, k2) && b2 == cl.sent[k2 - 1];
    if k1 < k2 { WireDistinct(cl.start, cl.step, k1, k2); }
    if k2 < k1 { WireDistinct(cl.start, cl.step, k2, k1); }
  }

  lemma UniqueCmd(cfg: Config, s: State, p: Packet, q: Packet)
    requires Inv(cfg, s) && p in s.net && q in s.net && IsCmd(p) && IsCmd(q)
    requires p.cid == q.cid && p.seqNum == q.seqNum
    ensures p == q
  {
    assert PacketOk(s, p) && PacketOk(s, q);
    assert ClientOk(cfg, s.clients[p.cid]);
    SameNumberSameBody(s.clients[p.cid], p.seqNum, p.kind.body, q.kind.body);
  }

  lemma FreshNumber(cfg: Config, s: State, c: ClientId, n: uint32)
    requires Inv(cfg, s) && c in s.clients && |s.clients[c].sent| < WINDOW
    requires n == Wire(s.clients[c].start, s.clients[c].step, |s.clients[c].sent| + 1)
    ensures !HasRun(s, c, n)
    ensures forall w :: w in s.workers ==> !Carries(s.workers[w], c, n)
  {
    var cl := s.clients[c];
    assert ClientOk(cfg, cl);
    if HasRun(s, c, n) {
      var e :| e in s.hist && Same(e, c, n);
      assert ExecOk(s, e);
      NotSentBefore(cl, n, e.body);
      assert false;
    }
    forall w | w in s.workers && Carries(s.workers[w], c, n) ensures false {
      assert TaskOk(s, s.workers[w]);
      NotSentBefore(cl, n, if s.workers[w].Got? then s.workers[w].req.kind.body else s.workers[w].body);
    }
  }

  // ---- steps ----

  lemma OnceSendCmd(cfg: Config, s: State, c: ClientId, body: int, first: bool)
    requires Inv(cfg, s) && Once(s) && c in s.clients && |s.clients[c].sent| < WINDOW
    ensures Once(SendCmd(s, c, body, first))
  {
    var s' := SendCmd(s, c, body, first);
    FreshNumber(cfg, s, c, s'.clients[c].Current());
    assert s'.hist == s.hist && s'.workers == s.workers;
    assert forall d, n :: HasRun(s', d, n) <==> HasRun(s, d, n);
  }

  lemma OnceTake(cfg: Config, s: State, w: WorkerId, p: Packet)
    requires Inv(cfg, s) && Once(s) && Enabled(cfg, s, Take(w, p, false))
    ensures Once(Apply(cfg, s, Take(w, p, false)))
  {
    var s' := Apply(cfg, s, Take(w, p, false));
    assert forall d, n :: HasRun(s', d, n) <==> HasRun(s, d, n);
    forall q | q in s'.net && IsCmd(q) ensures !Carries(Got(p), q.cid, q.seqNum) {
      if Carries(Got(p), q.cid, q.seqNum) { UniqueCmd(cfg, s, p, q); }
    }
  }

  lemma OnceExecute(s: State, w: WorkerId, e: Exec)
    requires Once(s) && w in s.workers && s.workers[w] == Running(e.cid, e.seqNum, e.body)
    ensures Once(s.(workers := s.workers[w := Executed(e)], hist := s.hist + [e]))
  {
    var s' := s.(workers := s.workers[w := Executed(e)], hist := s.hist + [e]);
    assert Carries(s.workers[w], e.cid, e.seqNum);
    assert forall d, n :: HasRun(s', d, n) ==> HasRun(s, d, n) || Same(e, d, n);
    forall i, j | 0 <= i < j < |s'.hist| ensures !Same(s'.hist[j], s'.hist[i].cid, s'.hist[i].seqNum) {
      if j == |s.hist| {
        assert s.hist[i] in s.hist;
        assert !HasRun(s, e.cid, e.seqNum);
        assert !Same(s.hist[i], e.cid, e.seqNum);
      }
    }
  }

  // Steps that move no command.
  lemma OnceOther(s: State, s': State)
    requires Once(s) && s'.hist == s.hist
    requires forall p :: p in s'.net && IsCmd(p) ==> p in s.net
    requires forall w, c, n :: w in s'.workers && Carries(s'.workers[w], c, n) ==>
               w in s.workers && Carries(s.workers[w], c, n)
    ensures Once(s')
  {
    assert forall d, n :: HasRun(s', d, n) <==> HasRun(s, d, n);
  }

  lemma OnceSendReply(cfg: Config, s: State, w: WorkerId)
    requires Inv(cfg, s) && Once(s) && Enabled(cfg, s, SendReply(w))
    ensures Once(Apply(cfg, s, SendReply(w)))
  {
    assert TaskOk(s, s.workers[w]);
    OnceOther(s, Apply(cfg, s, SendReply(w)));
  }

  lemma OnceQuiet(cfg: Config, s: State, t: Step)
    requires Once(s) && Enabled(cfg, s, t)
    requires !t.StartSend? && !t.Resend? && !t.Take? && !t.Execute? && !t.SendReply?
    ensures Once(Apply(cfg, s, t))
  {
    OnceOther(s, Apply(cfg, s, t));
  }

  lemma OnceStep(cfg: Config, s: State, t: Step)
    requires !cfg.dup && Inv(cfg, s) && Once(s) && Enabled(cfg, s, t)
    ensures Once(Apply(cfg, s, t))
  {
    match t
    case StartSend(c, body) => OnceSendCmd(cfg, s, c, body, true);
    case Resend(c, p, body) => OnceSendCmd(cfg, s, c, body, false);
    case Take(w, p, keep) =>
      if IsCmd(p) { OnceTake(cfg, s, w, p); } else { OnceOther(s, Apply(cfg, s, t)); }
    case Execute(w, error, text) =>
      var r := s.workers[w];
      OnceExecute(s, w, Exec(r.cid, r.seqNum, r.body, error, text));
    case SendReply(w) => OnceSendReply(cfg, s, w);
    case _ => OnceQuiet(cfg, s, t);
  }

  lemma {:induction false} RunOnce(cfg: Config, states: seq<State>, steps: seq<Step>, i: nat)
    requires !cfg.dup && IsRun(cfg, states, steps) && i <= |steps|
    ensures Once(states[i])
  {
    if i > 0 {
      RunOnce(cfg, states, steps, i - 1);
      RunInv(cfg, states, steps, i - 1);
      OnceStep(cfg, states[i - 1], steps[i - 1]);
    }
  }

  // ---- counting ----

  function TimesRun(hist: seq<Exec>, c: ClientId, n: uint32): nat
  {
    if hist == [] then 0
    else TimesRun(hist[..|hist| - 1], c, n) + if Same(hist[|hist| - 1], c, n) then 1 else 0
  }

  // Executions of the calls with numbers lo + 1 to hi of one client.
  function Executions(hist: seq<Exec>, c: ClientId, cl: Client, lo: nat, hi: nat): nat
    requires lo <= hi
  {
    if lo == hi then 0 else Executions(hist, c, cl, lo, hi - 1) + TimesRun(hist, c, Wire(cl.start, cl.step, hi))
  }

  lemma {:induction false} TimesRunBounds(hist: seq<Exec>, c: ClientId, n: uint32)
    requires forall i, j :: 0 <= i < j < |hist| ==> !Same(hist[j], hist[i].cid, hist[i].seqNum)
    ensures TimesRun(hist, c, n) == if exists e :: e in hist && Same(e, c, n) then 1 else 0
  {
    if hist != [] {
      var m := |hist| - 1;
      TimesRunBounds(hist[..m], c, n);
      assert hist == hist[..m] + [hist[m]];
      if Same(hist[m], c, n) {
        forall e | e in hist[..m] ensures !Same(e, c, n) {
          var i :| 0 <= i < m && hist[i] == e;
        }
      }
    }
  }

  lemma {:induction false} ExecutionsBound(s: State, c: ClientId, cl: Client, lo: nat, hi: nat)
    requires Once(s) && lo <= hi
    ensures Executions(s.hist, c, cl, lo, hi) <= hi - lo
  {
    if lo < hi {
      ExecutionsBound(s, c, cl, lo, hi - 1);
      TimesRunBounds(s.hist, c, Wire(cl.start, cl.step, hi));
    }
  }

  /** No call is ever executed twice. */
  lemma AtMostOnce(cfg: Config, states: seq<State>, steps: seq<Step>, i: nat, c: ClientId, n: uint32)
    requires !cfg.dup && IsRun(cfg, states, steps) && i <= |steps|
    ensures TimesRun(states[i].hist, c, n) <= 1
  {
    RunOnce(cfg, states, steps, i);
    TimesRunBounds(states[i].hist, c, n);
  }

  /** A Send that returned a reply caused between one and maxResend executions. */
  lemma AcceptedExecutions(cfg: Config, states: seq<State>, steps: seq<Step>, i: nat, a: Accepted)
    requires !cfg.dup && IsRun(cfg, states, steps) && i <= |steps| && a in states[i].accepted
    ensures a.cid in states[i].clients && 1 <= a.attempts <= a.k && a.attempts <= cfg.maxResend
    ensures 1 <= Executions(states[i].hist, a.cid, states[i].clients[a.cid], a.k - a.attempts, a.k) <= cfg.maxResend
  {
    var s := states[i];
    RunOnce(cfg, states, steps, i);
    RunInv(cfg, states, steps, i);
    assert AcceptedOk(cfg, s, a);
    var cl := s.clients[a.cid];
    ExecutionsBound(s, a.cid, cl, a.k - a.attempts, a.k);
    var n := Wire(cl.start, cl.step, a.k);
    var e :| e in s.hist && e.cid == a.cid && e.seqNum == n && e.error == a.error && e.text == a.text;
    assert Same(e, a.cid, n);
    TimesRunBounds(s.hist, a.cid, n);
  }

  /**
   A Send caused at most maxResend executions, at any time: i may lie long after state j of the Send, when
   it gave up, the client sent other commands and late workers still execute what it once asked for.
   */
  lemma PendingExecutions(cfg: Config, states: seq<State>, steps: seq<Step>, j: nat, i: nat, c: ClientId)
    requires !cfg.dup && IsRun(cfg, states, steps) && j <= i <= |steps|
    requires c in states[j].clients && !states[j].clients[c].phase.Idle?
    ensures var cl := states[j].clients[c];
            cl.attempts <= |cl.sent|
            && Executions(states[i].hist, c, cl, |cl.sent| - cl.attempts, |cl.sent|) <= cl.attempts <= cfg.maxResend
  {
    RunOnce(cfg, states, steps, i);
    RunInv(cfg, states, steps, j);
    var cl := states[j].clients[c];
    assert ClientOk(cfg, cl);
    ExecutionsBound(states[i], c, cl, |cl.sent| - cl.attempts, |cl.sent|);
  }
}
