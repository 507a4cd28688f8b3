/**
 What Send does besides being safe: it sends a command again only after the server has said that it does not
 know it, and a Send can always come to its end, at once, by polling, or by sending again.
 */
module ProtocolLive {
  import opened Bytes
  import opened SeqNum
  import opened Protocol
  import opened ProtocolSafety

  // ---- why a command is sent again ----

  // At step j a worker answered the client's question about this number, and the cache did not have it.
  ghost predicate AskedInVain(states: seq<State>, steps: seq<Step>, j: nat, c: ClientId, n: uint32)
  {
    && j < |steps| && j < |states| && steps[j].Answer?
    && steps[j].w in states[j].workers && states[j].workers[steps[j].w] == Got(Request(c, n, Ask))
    && !(c in states[j].cache && states[j].cache[c].seqNum == n)
  }

  ghost predicate Explained(states: seq<State>, steps: seq<Step>, i: nat, p: Packet)
  {
    p.Reply? && p.status.IsNotFound? && !p.direct ==>
      exists j :: 0 <= j < i && AskedInVain(states, steps, j, p.cid, p.seqNum)
  }

  // Every "not found" on its way comes from such an answer.
  ghost predicate AllExplained(states: seq<State>, steps: seq<Step>, i: nat)
    requires i < |states|
  {
    && (forall p :: p in states[i].net ==> Explained(states, steps, i, p))
    && (forall w :: w in states[i].workers && states[i].workers[w].Sending? ==>
          Explained(states, steps, i, states[i].workers[w].reply))
  }

  lemma ExplainedLater(states: seq<State>, steps: seq<Step>, i: nat, p: Packet)
    requires Explained(states, steps, i, p)
    ensures Explained(states, steps, i + 1, p)
  {
  }

  // A packet or reply is old, or it is the answer just built.
  lemma NewReplies(cfg: Config, s: State, t: Step)
    requires Enabled(cfg, s, t)
    ensures var r := Apply(cfg, s, t);
            && (forall p :: p in r.net && p.Reply? && p !in s.net ==>
                  t.SendReply? && s.workers[t.w] == Sending(p))
            && (forall w :: w in r.workers && r.workers[w].Sending? && !(w in s.workers && s.workers[w] == r.workers[w])
                  ==> (r.workers[w].reply.Reply? && r.workers[w].reply.direct)
                      || (t.Answer? && t.w == w && s.workers[w].Got? && s.workers[w].req.Request?
                          && s.workers[w].req.kind.Ask? && r.workers[w].reply == Find(s.cache, s.workers[w].req)))
  {
  }

  lemma FindsNothing(s: State, req: Packet)
    requires req.Request? && req.kind.Ask? && Find(s.cache, req).status.IsNotFound?
    ensures !(req.cid in s.cache && s.cache[req.cid].seqNum == req.seqNum)
    ensures Find(s.cache, req).cid == req.cid && Find(s.cache, req).seqNum == req.seqNum
  {
  }

  lemma {:induction false} RunExplained(cfg: Config, states: seq<State>, steps: seq<Step>, i: nat)
    requires IsRun(cfg, states, steps) && i <= |steps|
    ensures AllExplained(states, steps, i)
  {
    if i > 0 {
      RunExplained(cfg, states, steps, i - 1);
      var s, t := states[i - 1], steps[i - 1];
      NewReplies(cfg, s, t);
      forall p | p in states[i].net ensures Explained(states, steps, i, p) {
        if p in s.net { ExplainedLater(states, steps, i - 1, p); }
        else if p.Reply? { ExplainedLater(states, steps, i - 1, s.workers[t.w].reply); }
      }
      forall w | w in states[i].workers && states[i].workers[w].Sending?
        ensures Explained(states, steps, i, states[i].workers[w].reply)
      {
        var p := states[i].workers[w].reply;
        if w in s.workers && s.workers[w] == states[i].workers[w] {
          ExplainedLater(states, steps, i - 1, p);
        } else if t.Answer? && t.w == w && p.Reply? && p.status.IsNotFound? && !p.direct {
          FindsNothing(s, s.workers[w].req);
          assert AskedInVain(states, steps, i - 1, p.cid, p.seqNum);
        }
      }
    }
  }

  /**
   A command is sent again only after some worker answered a poll for its current number while the cache had
   no entry of the client with it; "in process" never makes a client send again.
   */
  lemma ResendIsJustified(cfg: Config, states: seq<State>, steps: seq<Step>, i: nat)
    requires IsRun(cfg, states, steps) && i < |steps| && steps[i].Resend?
    ensures var c := steps[i].c;
            c in states[i].clients
            && exists j :: 0 <= j < i && AskedInVain(states, steps, j, c, states[i].clients[c].Current())
  {
    RunExplained(cfg, states, steps, i);
    RunInv(cfg, states, steps, i);
    var p := steps[i].p;
    assert PacketOk(states[i], p) && Explained(states, steps, i, p);
  }

  // ---- how a Send comes to its end ----

  predicate Runs(cfg: Config, s: State, xs: seq<Step>)
    decreases |xs|
  {
    xs == [] || (Enabled(cfg, s, xs[0]) && Runs(cfg, Apply(cfg, s, xs[0]), xs[1..]))
  }

  function After(cfg: Config, s: State, xs: seq<Step>): State
    requires Runs(cfg, s, xs)
    decreases |xs|
  {
    if xs == [] then s else After(cfg, Apply(cfg, s, xs[0]), xs[1..])
  }

  predicate LeadsTo(cfg: Config, s: State, xs: seq<Step>, r: State) { Runs(cfg, s, xs) && After(cfg, s, xs) == r }

  lemma {:induction false} Then(cfg: Config, s: State, xs: seq<Step>, r: State, x: Step)
    requires LeadsTo(cfg, s, xs, r) && Enabled(cfg, r, x)
    ensures LeadsTo(cfg, s, xs + [x], Apply(cfg, r, x))
    decreases |xs|
  {
    if xs != [] {
      Then(cfg, Apply(cfg, s, xs[0]), xs[1..], r, x);
      assert (xs + [x])[0] == xs[0] && (xs + [x])[1..] == xs[1..] + [x];
    } else {
      assert [x][1..] == [] && Runs(cfg, Apply(cfg, s, x), []);
    }
  }

  lemma {:induction false} Chain(cfg: Config, s: State, xs: seq<Step>, r: State, ys: seq<Step>, q: State)
    requires LeadsTo(cfg, s, xs, r) && LeadsTo(cfg, r, ys, q)
    ensures LeadsTo(cfg, s, xs + ys, q)
    decreases |ys|
  {
    if ys == [] {
      assert xs + ys == xs;
    } else {
      Then(cfg, s, xs, r, ys[0]);
      Chain(cfg, s, xs + [ys[0]], Apply(cfg, r, ys[0]), ys[1..], q);
      assert xs + [ys[0]] + ys[1..] == xs + ys;
    }
  }

  // A free worker takes the command, runs it, and sends the reply.
  lemma Executes(cfg: Config, s: State, w: WorkerId, c: ClientId, n: uint32, body: int, error: bool, text: Text)
    returns (xs: seq<Step>)
    requires w !in s.workers && Request(c, n, Cmd(body)) in s.net
    ensures LeadsTo(cfg, s, xs,
                    s.(net := s.net - {Request(c, n, Cmd(body))} + {Reply(c, n, InProcess, error, text, true)},
                       cache := if n == 0 then s.cache else s.cache[c := Entry(n, true, error, text)],
                       hist := s.hist + [Exec(c, n, body, error, text)]))
  {
    var p, e := Request(c, n, Cmd(body)), Exec(c, n, body, error, text);
    var net := s.net - {p};
    var cache1 := if n == 0 then s.cache else s.cache[c := Entry(n, false, false, [])];
    var cache2 := if n == 0 then s.cache else s.cache[c := Entry(n, true, error, text)];
    var reply := Reply(c, n, InProcess, error, text, true);
    var s1 := s.(net := net, workers := s.workers[w := Got(p)]);
    var s2 := s1.(workers := s.workers[w := Running(c, n, body)], cache := cache1);
    var s3 := s2.(workers := s.workers[w := Executed(e)], hist := s.hist + [e]);
    var s4 := s3.(workers := s.workers[w := Sending(reply)], cache := cache2);
    var s5 := s4.(workers := s.workers, net := net + {reply});
    FirstHalf(cfg, s, w, p, s1, s2);
    SecondHalf(cfg, s, w, e, s2, s3, s4, s5);
    assert Runs(cfg, s, []);
    Then(cfg, s, [], s, Take(w, p, false));
    Then(cfg, s, [Take(w, p, false)], s1, CacheAdd(w));
    xs := [Take(w, p, false)] + [CacheAdd(w)];
    Then(cfg, s, xs, s2, Execute(w, error, text));
    xs := xs + [Execute(w, error, text)];
    Then(cfg, s, xs, s3, CacheUpdate(w));
    xs := xs + [CacheUpdate(w)];
    Then(cfg, s, xs, s4, SendReply(w));
    xs := xs + [SendReply(w)];
  }

  lemma FirstHalf(cfg: Config, s: State, w: WorkerId, p: Packet, s1: State, s2: State)
    requires w !in s.workers && p in s.net && p.Request? && p.kind.Cmd?
    requires s1 == s.(net := s.net - {p}, workers := s.workers[w := Got(p)])
    requires s2 == s1.(workers := s.workers[w := Running(p.cid, p.seqNum, p.kind.body)],
                       cache := if p.seqNum == 0 then s.cache else s.cache[p.cid := Entry(p.seqNum, false, false, [])])
    ensures Enabled(cfg, s, Take(w, p, false)) && Apply(cfg, s, Take(w, p, false)) == s1
    ensures Enabled(cfg, s1, CacheAdd(w)) && Apply(cfg, s1, CacheAdd(w)) == s2
  {
    assert s1.workers[w := Running(p.cid, p.seqNum, p.kind.body)] == s2.workers;
  }

  lemma SecondHalf(cfg: Config, s: State, w: WorkerId, e: Exec, s2: State, s3: State, s4: State, s5: State)
    requires w !in s.workers && s2.workers == s.workers[w := Running(e.cid, e.seqNum, e.body)]
    requires s2.cache == if e.seqNum == 0 then s.cache else s.cache[e.cid := Entry(e.seqNum, false, false, [])]
    requires s3 == s2.(workers := s.workers[w := Executed(e)], hist := s2.hist + [e])
    requires var reply := Reply(e.cid, e.seqNum, InProcess, e.error, e.text, true);
             var done := Entry(e.seqNum, true, e.error, e.text);
             && s4 == s3.(workers := s.workers[w := Sending(reply)],
                          cache := if e.seqNum == 0 then s.cache else s.cache[e.cid := done])
             && s5 == s4.(workers := s.workers, net := s2.net + {reply})
    ensures Enabled(cfg, s2, Execute(w, e.error, e.text)) && Apply(cfg, s2, Execute(w, e.error, e.text)) == s3
    ensures Enabled(cfg, s3, CacheUpdate(w)) && Apply(cfg, s3, CacheUpdate(w)) == s4
    ensures Enabled(cfg, s4, SendReply(w)) && Apply(cfg, s4, SendReply(w)) == s5
  {
    var reply := Reply(e.cid, e.seqNum, InProcess, e.error, e.text, true);
    assert s2.workers[w := Executed(e)] == s3.workers;
    assert s3.workers[w := Sending(reply)] == s4.workers;
    assert s4.workers - {w} == s.workers;
  }

  // A free worker takes the question and sends the answer.
  lemma Answers(cfg: Config, s: State, w: WorkerId, c: ClientId, n: uint32, reply: Packet) returns (xs: seq<Step>)
    requires w !in s.workers && Request(c, n, Ask) in s.net
    requires reply == if c in s.cache && s.cache[c] == Entry(n, true, s.cache[c].error, s.cache[c].text)
                      then Reply(c, n, IsDone, s.cache[c].error, s.cache[c].text, false)
                      else Reply(c, n, IsNotFound, false, [], false)
    requires c in s.cache && s.cache[c].seqNum == n ==> s.cache[c].done
    ensures LeadsTo(cfg, s, xs, s.(net := s.net - {Request(c, n, Ask)} + {reply}))
  {
    var p := Request(c, n, Ask);
    var s1 := s.(net := s.net - {p}, workers := s.workers[w := Got(p)]);
    var s2 := s1.(workers := s.workers[w := Sending(reply)]);
    assert Runs(cfg, s, []);
    Then(cfg, s, [], s, Take(w, p, false));
    assert s1.workers[w := Sending(reply)] == s2.workers && s2.workers - {w} == s.workers;
    xs := [] + [Take(w, p, false)];
    Then(cfg, s, xs, s1, Answer(w));
    xs := xs + [Answer(w)];
    Then(cfg, s, xs, s2, SendReply(w));
    xs := xs + [SendReply(w)];
  }

  // The client has sent a command and it was executed; the reply is on its way.
  function Served(s: State, c: ClientId, cl: Client, body: int, error: bool, text: Text, net: set<Packet>): State
  {
    var n := cl.Current();
    s.(clients := s.clients[c := cl], net := net,
       cache := if n == 0 then s.cache else s.cache[c := Entry(n, true, error, text)],
       hist := s.hist + [Exec(c, n, body, error, text)])
  }

  predicate CanSend(cfg: Config, s: State, c: ClientId, w: WorkerId)
  {
    c in s.clients && s.clients[c].phase.Idle? && |s.clients[c].sent| < WINDOW && cfg.maxResend > 0 && w !in s.workers
  }

  // The client after its first command.
  function Sent(was: Client, body: int): Client { Client(was.start, was.step, was.sent + [body], Waiting, 1) }

  lemma SendsAndRuns(cfg: Config, s: State, c: ClientId, w: WorkerId, body: int, error: bool, text: Text)
    returns (xs: seq<Step>, net: set<Packet>)
    requires CanSend(cfg, s, c, w)
    ensures var cl := Sent(s.clients[c], body);
            && LeadsTo(cfg, s, xs, Served(s, c, cl, body, error, text, net))
            && Reply(c, cl.Current(), InProcess, error, text, true) in net
  {
    var cl := Sent(s.clients[c], body);
    var n := cl.Current();
    var p := Request(c, n, Cmd(body));
    var s1 := s.(clients := s.clients[c := cl], net := s.net + {p});
    assert Runs(cfg, s, []);
    Then(cfg, s, [], s, StartSend(c, body));
    var ys := Executes(cfg, s1, w, c, n, body, error, text);
    net := s1.net - {p} + {Reply(c, n, InProcess, error, text, true)};
    xs := [] + [StartSend(c, body)];
    Chain(cfg, s, xs, s1, ys, Served(s, c, cl, body, error, text, net));
    xs := xs + ys;
  }

  /** The reply of the command itself ends the Send. */
  lemma DirectReplyArrives(cfg: Config, s: State, c: ClientId, w: WorkerId, body: int, error: bool, text: Text)
    returns (xs: seq<Step>)
    requires CanSend(cfg, s, c, w)
    ensures Runs(cfg, s, xs)
    ensures var r := After(cfg, s, xs);
            && r.accepted == s.accepted + [Accepted(c, |s.clients[c].sent| + 1, 1, error, text)]
            && c in r.clients && r.clients[c].phase.Idle? && |r.hist| == |s.hist| + 1 && r.workers == s.workers
  {
    var net;
    xs, net := SendsAndRuns(cfg, s, c, w, body, error, text);
    var cl := Sent(s.clients[c], body);
    var p := Reply(c, cl.Current(), InProcess, error, text, true);
    Then(cfg, s, xs, Served(s, c, cl, body, error, text, net), AcceptDirect(c, p));
    xs := xs + [AcceptDirect(c, p)];
  }

  // The client asks and is answered.
  lemma PollsOnce(cfg: Config, s: State, c: ClientId, w: WorkerId, reply: Packet) returns (xs: seq<Step>, r: State)
    requires c in s.clients && !s.clients[c].phase.Idle? && w !in s.workers
    requires var n := s.clients[c].Current();
             && reply == (if c in s.cache && s.cache[c] == Entry(n, true, s.cache[c].error, s.cache[c].text)
                          then Reply(c, n, IsDone, s.cache[c].error, s.cache[c].text, false)
                          else Reply(c, n, IsNotFound, false, [], false))
             && (c in s.cache && s.cache[c].seqNum == n ==> s.cache[c].done)
    ensures LeadsTo(cfg, s, xs, r) && reply in r.net
    ensures r == s.(clients := s.clients[c := s.clients[c].(phase := Polling)], net := r.net)
  {
    var n := s.clients[c].Current();
    var s1 := s.(clients := s.clients[c := s.clients[c].(phase := Polling)], net := s.net + {Request(c, n, Ask)});
    assert Runs(cfg, s, []);
    Then(cfg, s, [], s, Poll(c));
    var ys := Answers(cfg, s1, w, c, n, reply);
    r := s1.(net := s1.net - {Request(c, n, Ask)} + {reply});
    xs := [] + [Poll(c)];
    Chain(cfg, s, xs, s1, ys, r);
    xs := xs + ys;
  }

  /** When that reply is lost, asking for it ends the Send; the command has still run once. */
  lemma PolledReplyArrives(cfg: Config, s: State, c: ClientId, w: WorkerId, body: int, error: bool, text: Text)
    returns (xs: seq<Step>)
    requires CanSend(cfg, s, c, w) && Sent(s.clients[c], body).Current() != 0
    ensures Runs(cfg, s, xs)
    ensures exists p: Packet :: p.Reply? && p.direct && Drop(p) in xs
    ensures var r := After(cfg, s, xs);
            && r.accepted == s.accepted + [Accepted(c, |s.clients[c].sent| + 1, 1, error, text)]
            && c in r.clients && r.clients[c].phase.Idle? && |r.hist| == |s.hist| + 1 && r.workers == s.workers
  {
    var net;
    xs, net := SendsAndRuns(cfg, s, c, w, body, error, text);
    var cl := Sent(s.clients[c], body);
    var n := cl.Current();
    var direct := Reply(c, n, InProcess, error, text, true);
    Then(cfg, s, xs, Served(s, c, cl, body, error, text, net), Drop(direct));
    xs := xs + [Drop(direct)];
    var s1 := Served(s, c, cl, body, error, text, net - {direct});
    var reply := Reply(c, n, IsDone, error, text, false);
    var ys, r := PollsOnce(cfg, s1, c, w, reply);
    Chain(cfg, s, xs, s1, ys, r);
    Then(cfg, s, xs + ys, r, AcceptPolled(c, reply));
    assert Drop(direct) in xs + ys + [AcceptPolled(c, reply)];
    xs := xs + ys + [AcceptPolled(c, reply)];
  }

  // The client sends its command a second time, and it is executed again.
  lemma ResendsAndRuns(cfg: Config, s: State, c: ClientId, w: WorkerId, p: Packet, body: int, error: bool, text: Text)
    returns (xs: seq<Step>, r: State)
    requires c in s.clients && s.clients[c].phase.Polling? && w !in s.workers && cfg.maxResend > 1
    requires s.clients[c].attempts == 1 && 0 < |s.clients[c].sent| < WINDOW
    requires s.clients[c].sent[|s.clients[c].sent| - 1] == body
    requires p == Reply(c, s.clients[c].Current(), IsNotFound, false, [], false) && p in s.net
    ensures LeadsTo(cfg, s, xs, r) && Resend(c, p, body) in xs
    ensures var was := s.clients[c];
            var cl := Client(was.start, was.step, was.sent + [body], Waiting, 2);
            && r == Served(s, c, cl, body, error, text, r.net)
            && Reply(c, cl.Current(), InProcess, error, text, true) in r.net
  {
    var was := s.clients[c];
    var cl := Client(was.start, was.step, was.sent + [body], Waiting, 2);
    var n := cl.Current();
    var req := Request(c, n, Cmd(body));
    var s1 := s.(clients := s.clients[c := cl], net := s.net + {req});
    assert Runs(cfg, s, []);
    Then(cfg, s, [], s, Resend(c, p, body));
    var ys := Executes(cfg, s1, w, c, n, body, error, text);
    r := Served(s, c, cl, body, error, text, s1.net - {req} + {Reply(c, n, InProcess, error, text, true)});
    xs := [] + [Resend(c, p, body)];
    Chain(cfg, s, xs, s1, ys, r);
    xs := xs + ys;
  }

  /** When the cache has lost it too, the client sends the command again, and that reply ends the Send. */
  lemma ResentReplyArrives(cfg: Config, s: State, c: ClientId, w: WorkerId, body: int, error: bool, text: Text)
    returns (xs: seq<Step>)
    requires CanSend(cfg, s, c, w) && cfg.maxResend > 1 && |s.clients[c].sent| + 1 < WINDOW
    ensures Runs(cfg, s, xs)
    ensures Expire(c) in xs && exists p: Packet :: Resend(c, p, body) in xs
    ensures var r := After(cfg, s, xs);
            && r.accepted == s.accepted + [Accepted(c, |s.clients[c].sent| + 2, 2, error, text)]
            && c in r.clients && r.clients[c].phase.Idle? && |r.hist| == |s.hist| + 2 && r.workers == s.workers
  {
    var net;
    xs, net := SendsAndRuns(cfg, s, c, w, body, error, text);
    var cl := Sent(s.clients[c], body);
    var s0 := Served(s, c, cl, body, error, text, net);
    Then(cfg, s, xs, s0, Expire(c));
    xs := xs + [Expire(c)];
    var s1 := s0.(cache := s0.cache - {c});
    var lost := Reply(c, cl.Current(), IsNotFound, false, [], false);
    var ys, s2 := PollsOnce(cfg, s1, c, w, lost);
    Chain(cfg, s, xs, s1, ys, s2);
    xs := xs + ys;
    var zs, s3 := ResendsAndRuns(cfg, s2, c, w, lost, body, error, text);
    Chain(cfg, s, xs, s2, zs, s3);
    assert Expire(c) in xs && Resend(c, lost, body) in zs;
    xs := xs + zs;
    var again := s3.clients[c];
    Then(cfg, s, xs, s3, AcceptDirect(c, Reply(c, again.Current(), InProcess, error, text, true)));
    xs := xs + [AcceptDirect(c, Reply(c, again.Current(), InProcess, error, text, true))];
  }
}
