/**
 The request/reply protocol between polling clients and a server with any number of workers, over a
 network that loses, delays and reorders datagrams (and may duplicate them, if `dup` says so).

 One step of the system is one atomic action of a client, a worker, the reply cache or the network.
 */
module Protocol {
  import opened Bytes
  import opened SeqNum

  type ClientId = str
  type WorkerId = nat
  type Text = str

  datatype Kind = Cmd(body: int) | Ask
  datatype ReplyStatus = InProcess | IsDone | IsNotFound

  // `direct` records which branch built the reply; it is not on the wire and no step tests it.
  datatype Packet =
    | Request(cid: ClientId, seqNum: uint32, kind: Kind)
    | Reply(cid: ClientId, seqNum: uint32, status: ReplyStatus, error: bool, text: Text, direct: bool)

  // One execution of a command by the storage behind the server.
  datatype Exec = Exec(cid: ClientId, seqNum: uint32, body: int, error: bool, text: Text)

  // What a busy worker is doing.
  datatype Task =
    | Got(req: Packet)                    // decoded, cache not told yet
    | Running(cid: ClientId, seqNum: uint32, body: int)   // after Add
    | Executed(e: Exec)                   // before Update
    | Sending(reply: Packet)

  datatype Entry = Entry(seqNum: uint32, done: bool, error: bool, text: Text)

  datatype Phase = Idle | Waiting | Polling

  // sent[k - 1] is the command of the k-th call; attempts counts the calls of the current Send.
  datatype Client = Client(start: uint32, step: uint32, sent: seq<int>, phase: Phase, attempts: nat)
  {
    function Current(): uint32 { Wire(start, step, |sent|) }
  }

  // An accepted reply: the k-th call of the client returned it to the caller of Send.
  datatype Accepted = Accepted(cid: ClientId, k: nat, attempts: nat, error: bool, text: Text)

  datatype State = State(
    clients: map<ClientId, Client>,
    net: set<Packet>,
    workers: map<WorkerId, Task>,
    cache: map<ClientId, Entry>,
    hist: seq<Exec>,
    accepted: seq<Accepted>)

  datatype Config = Config(maxResend: nat, dup: bool)

  datatype Step =
    | StartSend(c: ClientId, body: int)
    | AcceptDirect(c: ClientId, p: Packet)
    | Poll(c: ClientId)
    | AcceptPolled(c: ClientId, p: Packet)
    | Resend(c: ClientId, p: Packet, body: int)
    | GiveUp(c: ClientId)
    | Take(w: WorkerId, p: Packet, keep: bool)
    | CacheAdd(w: WorkerId)
    | Execute(w: WorkerId, error: bool, text: Text)
    | CacheUpdate(w: WorkerId)
    | Answer(w: WorkerId)
    | SendReply(w: WorkerId)
    | Expire(c: ClientId)
    | Drop(p: Packet)

  // A reply the client takes for its own: it compares the sequence number and the client id.
  predicate Mine(s: State, c: ClientId, p: Packet)
    requires c in s.clients
  {
    p in s.net && p.Reply? && p.cid == c && p.seqNum == s.clients[c].Current()
  }

  predicate Enabled(cfg: Config, s: State, t: Step)
  {
    match t
    case StartSend(c, _) =>
      c in s.clients && s.clients[c].phase.Idle? && cfg.maxResend > 0 && |s.clients[c].sent| < WINDOW
    case AcceptDirect(c, p) => c in s.clients && s.clients[c].phase.Waiting? && Mine(s, c, p)
    case Poll(c) => c in s.clients && !s.clients[c].phase.Idle?
    case AcceptPolled(c, p) =>
      c in s.clients && s.clients[c].phase.Polling? && Mine(s, c, p) && p.status.IsDone?
    case Resend(c, p, body) =>
      c in s.clients && s.clients[c].phase.Polling? && Mine(s, c, p) && p.status.IsNotFound?
      && s.clients[c].attempts < cfg.maxResend && 0 < |s.clients[c].sent| < WINDOW
      && body == s.clients[c].sent[|s.clients[c].sent| - 1]
    case GiveUp(c) => c in s.clients && !s.clients[c].phase.Idle?
    case Take(w, p, keep) =>
      w !in s.workers && p in s.net && p.Request? && (keep && p.kind.Cmd? ==> cfg.dup)
    case CacheAdd(w) => w in s.workers && s.workers[w].Got? && s.workers[w].req.Request? && s.workers[w].req.kind.Cmd?
    case Execute(w, _, _) => w in s.workers && s.workers[w].Running?
    case CacheUpdate(w) => w in s.workers && s.workers[w].Executed?
    case Answer(w) => w in s.workers && s.workers[w].Got? && s.workers[w].req.Request? && s.workers[w].req.kind.Ask?
    case SendReply(w) => w in s.workers && s.workers[w].Sending?
    case Expire(c) => true
    case Drop(p) => true
  }

  // SendCmd: the next sequence number, one command datagram, then wait for any reply with that number.
  function SendCmd(s: State, c: ClientId, body: int, first: bool): State
    requires c in s.clients
  {
    var was := s.clients[c];
    var cl := Client(was.start, was.step, was.sent + [body], Waiting, if first then 1 else was.attempts + 1);
    s.(clients := s.clients[c := cl], net := s.net + {Request(c, cl.Current(), Cmd(body))})
  }

  function SetPhase(s: State, c: ClientId, phase: Phase): State
    requires c in s.clients
  {
    s.(clients := s.clients[c := s.clients[c].(phase := phase)])
  }

  function Accept(s: State, c: ClientId, p: Packet): State
    requires c in s.clients && p.Reply?
  {
    SetPhase(s, c, Idle).(accepted :=
      s.accepted + [Accepted(c, |s.clients[c].sent|, s.clients[c].attempts, p.error, p.text)])
  }

  // Sequence number zero is never cached.
  function Store(cache: map<ClientId, Entry>, c: ClientId, e: Entry): map<ClientId, Entry>
  {
    if e.seqNum == 0 then cache else cache[c := e]
  }

  function Find(cache: map<ClientId, Entry>, req: Packet): Packet
    requires req.Request?
  {
    var c, n := req.cid, req.seqNum;
    if c in cache && cache[c].seqNum == n then
      if cache[c].done then Reply(c, n, IsDone, cache[c].error, cache[c].text, false)
      else Reply(c, n, InProcess, false, [], false)
    else Reply(c, n, IsNotFound, false, [], false)
  }

  function Apply(cfg: Config, s: State, t: Step): State
    requires Enabled(cfg, s, t)
  {
    match t
    case StartSend(c, body) => SendCmd(s, c, body, true)
    case AcceptDirect(c, p) => Accept(s, c, p)
    case Poll(c) =>
      SetPhase(s, c, Polling).(net := s.net + {Request(c, s.clients[c].Current(), Ask)})
    case AcceptPolled(c, p) => Accept(s, c, p)
    case Resend(c, p, body) => SendCmd(s, c, body, false)
    case GiveUp(c) => SetPhase(s, c, Idle)
    case Take(w, p, keep) =>
      s.(workers := s.workers[w := Got(p)], net := if keep then s.net else s.net - {p})
    case CacheAdd(w) =>
      var r := s.workers[w].req;
      s.(workers := s.workers[w := Running(r.cid, r.seqNum, r.kind.body)],
         cache := Store(s.cache, r.cid, Entry(r.seqNum, false, false, [])))
    case Execute(w, error, text) =>
      var r := s.workers[w];
      var e := Exec(r.cid, r.seqNum, r.body, error, text);
      s.(workers := s.workers[w := Executed(e)], hist := s.hist + [e])
    case CacheUpdate(w) =>
      var e := s.workers[w].e;
      s.(workers := s.workers[w := Sending(Reply(e.cid, e.seqNum, InProcess, e.error, e.text, true))],
         cache := Store(s.cache, e.cid, Entry(e.seqNum, true, e.error, e.text)))
    case Answer(w) => s.(workers := s.workers[w := Sending(Find(s.cache, s.workers[w].req))])
    case SendReply(w) => s.(workers := s.workers - {w}, net := s.net + {s.workers[w].reply})
    case Expire(c) => s.(cache := s.cache - {c})
    case Drop(p) => s.(net := s.net - {p})
  }
}
