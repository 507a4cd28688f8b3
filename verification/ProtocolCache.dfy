/**
 The protocol with the reply cache as it really is: its calls read a clock, entries age and pruning runs now
 and then. Seen through the entries that have not expired, every run is a run of the protocol model, whose
 cache may lose any entry at any moment; so what holds of the model in every run holds here.
 */
module ProtocolCache {
  import opened Bytes
  import opened SeqNum
  import opened OpenConsCache
  import opened Protocol
  import opened ProtocolSafety
  import opened ProtocolOnce

  function EntryOf(i: Item): Entry { Entry(i.seqNum, i.status.Done?, i.error, i.reply) }

  // The entries that are not expired at time t.
  function View(m: Items, ttl: nat, t: nat): map<Protocol.ClientId, Entry>
  {
    map id | id in m && t - m[id].lastAccess < ttl :: EntryOf(m[id])
  }

  // What the server answers a poll.
  function ReplyOf(c: Protocol.ClientId, n: uint32, a: OpenConsCache.Answer): Packet
  {
    match a.status
    case InProcessing => Reply(c, n, InProcess, a.error, a.reply, false)
    case Done => Reply(c, n, IsDone, a.error, a.reply, false)
    case NotFound => Reply(c, n, IsNotFound, a.error, a.reply, false)
  }

  // What Add and Update leave behind: no entry for a refused id, none that was not found, and nothing
  // of a reply before it is there.
  predicate Clean(m: Items)
  {
    forall id :: id in m ==>
      && |id| > 0 && id[0] != 0 && m[id].seqNum != 0 && !m[id].status.NotFound?
      && (m[id].status.InProcessing? ==> !m[id].error && m[id].reply == [])
  }

  lemma CleanKept(m: Items, ttl: nat, c: Call, prune: bool)
    requires Clean(m) && OpenConsCache.ClientId(c.id)
    ensures Clean(Pruned(m, ttl, c, prune).0)
  {
  }

  /** Find answers what the protocol model answers from the unexpired entries. */
  lemma FindMatches(m: Items, ttl: nat, id: str, seqNum: uint32, now: nat)
    requires Clean(m)
    ensures ReplyOf(id, seqNum, Lookup(m, id, seqNum, ttl, now)) == Find(View(m, ttl, now), Request(id, seqNum, Ask))
  {
  }

  // Some entries may be gone.
  ghost predicate Shrinks(p: map<Protocol.ClientId, Entry>, q: map<Protocol.ClientId, Entry>)
  {
    q.Keys <= p.Keys && forall id :: id in q ==> q[id] == p[id]
  }

  // What the protocol model does to its cache in the place of a call.
  function ModelCache(p: map<Protocol.ClientId, Entry>, c: Call): map<Protocol.ClientId, Entry>
  {
    match c
    case CallAdd(id, n, _, _) => Store(p, id, Entry(n, false, false, []))
    case CallUpdate(id, n, error, reply, _, _) => Store(p, id, Entry(n, true, error, reply))
    case CallFind(_, _, _, _) => p
  }

  lemma TimeExpires(m: Items, ttl: nat, t: nat, now: nat)
    requires t <= now
    ensures Shrinks(View(m, ttl, t), View(m, ttl, now))
  {
  }

  lemma PruneUnseen(m: Items, ttl: nat, now: nat)
    ensures View(Prune(m, ttl, now), ttl, now) == View(m, ttl, now)
  {
  }

  lemma UnprunedMatches(m: Items, ttl: nat, c: Call, id: Protocol.ClientId)
    requires Clean(m) && OpenConsCache.ClientId(c.id) && c.now <= c.later
    requires id in View(Forever(m, ttl, c).0, ttl, c.later)
    ensures var p := ModelCache(View(m, ttl, c.now), c);
            id in p && p[id] == View(Forever(m, ttl, c).0, ttl, c.later)[id]
  {
  }

  /** Beside what the model does to its cache a call only lets entries go. */
  lemma StoreMatches(m: Items, ttl: nat, c: Call, prune: bool)
    requires Clean(m) && OpenConsCache.ClientId(c.id) && c.now <= c.later
    ensures Shrinks(ModelCache(View(m, ttl, c.now), c), View(Pruned(m, ttl, c, prune).0, ttl, c.later))
  {
    PruneUnseen(Forever(m, ttl, c).0, ttl, c.later);
    var p, q := ModelCache(View(m, ttl, c.now), c), View(Pruned(m, ttl, c, prune).0, ttl, c.later);
    forall id | id in q ensures id in p && p[id] == q[id] { UnprunedMatches(m, ttl, c, id); }
  }

  // ---- the protocol over the real cache ----

  // The cache component of sys is not used; its place is taken by items.
  datatype World = World(sys: State, items: Items, clock: nat)

  datatype Event =
    | Elsewhere(x: Step)                                            // nothing to do with the cache
    | Calls(w: WorkerId, now: nat, later: nat, prune: bool)         // worker w calls the cache

  predicate NoCache(x: Step) { !x.CacheAdd? && !x.CacheUpdate? && !x.Answer? && !x.Expire? }

  predicate IsCaller(task: Task) { (task.Got? && task.req.Request?) || task.Executed? }

  // Add for a command just received, Update after its execution, Find for a poll.
  function CallOf(task: Task, now: nat, later: nat): Call
    requires IsCaller(task)
  {
    match task
    case Got(req) =>
      if req.kind.Cmd? then CallAdd(req.cid, req.seqNum, now, later) else CallFind(req.cid, req.seqNum, now, later)
    case Executed(e) => CallUpdate(e.cid, e.seqNum, e.error, e.text, now, later)
  }

  function TaskAfter(task: Task, a: OpenConsCache.Answer): Task
    requires IsCaller(task)
  {
    match task
    case Got(req) =>
      if req.kind.Cmd? then Running(req.cid, req.seqNum, req.kind.body) else Sending(ReplyOf(req.cid, req.seqNum, a))
    case Executed(e) => Sending(Reply(e.cid, e.seqNum, InProcess, e.error, e.text, true))
  }

  // The model's step of the same worker.
  function ModelStep(task: Task, w: WorkerId): Step
    requires IsCaller(task)
  {
    match task
    case Got(req) => if req.kind.Cmd? then CacheAdd(w) else Step.Answer(w)
    case Executed(_) => CacheUpdate(w)
  }

  predicate Possible(cfg: Config, v: World, e: Event)
  {
    match e
    case Elsewhere(x) => NoCache(x) && Enabled(cfg, v.sys, x)
    case Calls(w, now, later, _) =>
      && w in v.sys.workers && IsCaller(v.sys.workers[w]) && v.clock <= now <= later
      && OpenConsCache.ClientId(CallOf(v.sys.workers[w], now, later).id)
  }

  function Happens(cfg: Config, ttl: nat, v: World, e: Event): World
    requires Possible(cfg, v, e)
  {
    match e
    case Elsewhere(x) => v.(sys := Apply(cfg, v.sys, x))
    case Calls(w, now, later, prune) =>
      var task := v.sys.workers[w];
      var (items, a) := Pruned(v.items, ttl, CallOf(task, now, later), prune);
      World(v.sys.(workers := v.sys.workers[w := TaskAfter(task, a)]), items, later)
  }

  ghost predicate WorldRun(cfg: Config, ttl: nat, worlds: seq<World>, events: seq<Event>)
  {
    && |worlds| == |events| + 1
    && Init(worlds[0].sys) && worlds[0].items == map[]
    && forall i :: 0 <= i < |events| ==>
         Possible(cfg, worlds[i], events[i]) && worlds[i + 1] == Happens(cfg, ttl, worlds[i], events[i])
  }

  // What a worker does with the cache object is such an event.
  method Serve(cache: COpenConsCache, task: Task, now: nat, later: nat, ghost cfg: Config, ghost v: World,
               ghost w: WorkerId) returns (after: Task, ghost e: Event)
    requires cache.Valid() && cache.items == v.items && v.clock <= now <= later
    requires w in v.sys.workers && v.sys.workers[w] == task && IsCaller(task)
    requires OpenConsCache.ClientId(CallOf(task, now, later).id)
    modifies cache
    ensures cache.Valid() && Possible(cfg, v, e) && e.Calls? && e.w == w
    ensures var to := Happens(cfg, cache.maxLiveSec, v, e);
            cache.items == to.items && w in to.sys.workers && to.sys.workers[w] == after
  {
    ghost var call := CallOf(task, now, later);
    e := Calls(w, now, later, PrunesNow(cache.items, cache.maxLiveSec, cache.expiredCalled, call));
    match task {
      case Got(req) =>
        if req.kind.Cmd? {
          cache.Add(req.cid, req.seqNum, now, later);
          after := Running(req.cid, req.seqNum, req.kind.body);
        } else {
          var a := cache.Find(req.cid, req.seqNum, now, later);
          after := Sending(ReplyOf(req.cid, req.seqNum, a));
        }
      case Executed(x) =>
        cache.Update(x.cid, x.seqNum, x.error, x.text, now, later);
        after := Sending(Reply(x.cid, x.seqNum, InProcess, x.error, x.text, true));
    }
  }

  // The state of the protocol model that a world amounts to.
  function Seen(ttl: nat, v: World): State { v.sys.(cache := View(v.items, ttl, v.clock)) }

  // ---- every run is a run of the model ----

  // Some run of the model comes to s and was at past before, or is there now.
  ghost predicate Reached(cfg: Config, past: State, s: State)
  {
    exists states: seq<State>, steps: seq<Step>, j: nat ::
      IsRun(cfg, states, steps) && j <= |steps| && states[j] == past && states[|steps|] == s
  }

  lemma ReachedNow(cfg: Config, past: State, s: State)
    requires Reached(cfg, past, s)
    ensures Reached(cfg, s, s)
  {
    var states: seq<State>, steps: seq<Step>, j: nat :|
      IsRun(cfg, states, steps) && j <= |steps| && states[j] == past && states[|steps|] == s;
    assert states[|steps|] == s;
  }

  lemma ReachedStep(cfg: Config, past: State, s: State, x: Step)
    requires Reached(cfg, past, s) && Enabled(cfg, s, x)
    ensures Reached(cfg, past, Apply(cfg, s, x))
  {
    var states: seq<State>, steps: seq<Step>, j: nat :|
      IsRun(cfg, states, steps) && j <= |steps| && states[j] == past && states[|steps|] == s;
    var more, taken := states + [Apply(cfg, s, x)], steps + [x];
    forall i | 0 <= i < |taken| ensures Enabled(cfg, more[i], taken[i]) && more[i + 1] == Apply(cfg, more[i], taken[i])
    {
      if i < |steps| { assert taken[i] == steps[i] && more[i] == states[i] && more[i + 1] == states[i + 1]; }
    }
    assert IsRun(cfg, more, taken) && j <= |taken| && more[j] == past && more[|taken|] == Apply(cfg, s, x);
  }

  // One Expire step for every entry that is gone.
  lemma {:induction false} ReachedShrunk(cfg: Config, past: State, s: State, cache: map<Protocol.ClientId, Entry>)
    requires Reached(cfg, past, s) && Shrinks(s.cache, cache)
    ensures Reached(cfg, past, s.(cache := cache))
    decreases |s.cache|
  {
    if s.cache.Keys <= cache.Keys {
      assert s.cache == cache;
    } else {
      var c :| c in s.cache && c !in cache;
      ReachedStep(cfg, past, s, Expire(c));
      ReachedShrunk(cfg, past, s.(cache := s.cache - {c}), cache);
    }
  }

  lemma ElsewhereMatches(cfg: Config, s: State, x: Step, cache: map<Protocol.ClientId, Entry>)
    requires NoCache(x) && Enabled(cfg, s, x)
    ensures Enabled(cfg, s.(cache := cache), x)
    ensures Apply(cfg, s.(cache := cache), x) == Apply(cfg, s, x).(cache := cache)
  {
  }

  lemma CallMatches(cfg: Config, ttl: nat, v: World, e: Event)
    requires Possible(cfg, v, e) && e.Calls? && Clean(v.items)
    ensures var s := v.sys.(cache := View(v.items, ttl, e.now));
            var task := v.sys.workers[e.w];
            var x := ModelStep(task, e.w);
            && Enabled(cfg, s, x)
            && Apply(cfg, s, x)
               == Happens(cfg, ttl, v, e).sys.(cache := ModelCache(s.cache, CallOf(task, e.now, e.later)))
  {
    var task := v.sys.workers[e.w];
    if task.Got? { FindMatches(v.items, ttl, task.req.cid, task.req.seqNum, e.now); }
  }

  lemma EventMatches(cfg: Config, ttl: nat, past: State, v: World, e: Event)
    requires Possible(cfg, v, e) && Clean(v.items) && Reached(cfg, past, Seen(ttl, v))
    ensures Clean(Happens(cfg, ttl, v, e).items) && Reached(cfg, past, Seen(ttl, Happens(cfg, ttl, v, e)))
  {
    match e {
      case Elsewhere(x) =>
        ElsewhereMatches(cfg, v.sys, x, View(v.items, ttl, v.clock));
        ReachedStep(cfg, past, Seen(ttl, v), x);
      case Calls(w, now, later, prune) =>
        var task := v.sys.workers[w];
        var c := CallOf(task, now, later);
        TimeExpires(v.items, ttl, v.clock, now);
        ReachedShrunk(cfg, past, Seen(ttl, v), View(v.items, ttl, now));
        var s := v.sys.(cache := View(v.items, ttl, now));
        CallMatches(cfg, ttl, v, e);
        ReachedStep(cfg, past, s, ModelStep(task, w));
        CleanKept(v.items, ttl, c, prune);
        StoreMatches(v.items, ttl, c, prune);
        ReachedShrunk(cfg, past, Apply(cfg, s, ModelStep(task, w)), View(Happens(cfg, ttl, v, e).items, ttl, later));
    }
  }

  /**
   Whatever the clock and the pruning do, the states of every run are states of one run of the protocol model,
   in the same order.
   */
  lemma {:induction false} RunIsProtocolRun(cfg: Config, ttl: nat, worlds: seq<World>, events: seq<Event>,
                                            j: nat, i: nat)
    requires WorldRun(cfg, ttl, worlds, events) && j <= i <= |events|
    ensures Clean(worlds[i].items) && Reached(cfg, Seen(ttl, worlds[j]), Seen(ttl, worlds[i]))
    decreases i
  {
    var s := Seen(ttl, worlds[i]);
    if i == 0 {
      assert s.cache == map[];
      var steps: seq<Step> := [];
      assert IsRun(cfg, [s], steps) && [s][0] == s && [s][|steps|] == s;
    } else {
      var k := if j < i then j else i - 1;
      RunIsProtocolRun(cfg, ttl, worlds, events, k, i - 1);
      EventMatches(cfg, ttl, Seen(ttl, worlds[k]), worlds[i - 1], events[i - 1]);
      if j == i { ReachedNow(cfg, Seen(ttl, worlds[k]), s); }
    }
  }

  // A run of the model that is at worlds[j] after some steps and at worlds[i] in the end.
  lemma ModelRun(cfg: Config, ttl: nat, worlds: seq<World>, events: seq<Event>, j: nat, i: nat)
    returns (states: seq<State>, steps: seq<Step>, k: nat)
    requires WorldRun(cfg, ttl, worlds, events) && j <= i <= |events|
    ensures IsRun(cfg, states, steps) && k <= |steps|
    ensures states[k] == Seen(ttl, worlds[j]) && states[|steps|] == Seen(ttl, worlds[i])
  {
    RunIsProtocolRun(cfg, ttl, worlds, events, j, i);
    var past, s := Seen(ttl, worlds[j]), Seen(ttl, worlds[i]);
    states, steps, k :| IsRun(cfg, states, steps) && k <= |steps| && states[k] == past && states[|steps|] == s;
  }

  /** A reply that Send returned was computed by an execution of exactly that call, with the real cache too. */
  lemma AcceptedWasComputedHere(cfg: Config, ttl: nat, worlds: seq<World>, events: seq<Event>, i: nat, a: Accepted)
    requires WorldRun(cfg, ttl, worlds, events) && i <= |events| && a in worlds[i].sys.accepted
    ensures a.cid in worlds[i].sys.clients
    ensures var cl := worlds[i].sys.clients[a.cid];
            && 1 <= a.k <= |cl.sent|
            && exists e :: e in worlds[i].sys.hist && e.cid == a.cid && e.seqNum == Wire(cl.start, cl.step, a.k)
                           && e.body == cl.sent[a.k - 1] && e.error == a.error && e.text == a.text
  {
    var states, steps, k := ModelRun(cfg, ttl, worlds, events, i, i);
    AcceptedWasComputed(cfg, states, steps, |steps|, a);
  }

  /** An entry that has not expired is justified: by an execution, or by a worker between Add and Update. */
  lemma CacheJustifiedHere(cfg: Config, ttl: nat, worlds: seq<World>, events: seq<Event>, i: nat,
                           c: Protocol.ClientId)
    requires WorldRun(cfg, ttl, worlds, events) && i <= |events|
    requires c in worlds[i].items && worlds[i].clock - worlds[i].items[c].lastAccess < ttl
    ensures var s, e := worlds[i].sys, worlds[i].items[c];
            && !e.status.NotFound?
            && (e.status.Done? ==> Ran(s.hist, c, e.seqNum, e.error, e.reply))
            && (e.status.InProcessing? ==> exists w :: w in s.workers && Processing(s.workers[w], c, e.seqNum))
  {
    RunIsProtocolRun(cfg, ttl, worlds, events, i, i);
    var states, steps, k := ModelRun(cfg, ttl, worlds, events, i, i);
    CacheJustified(cfg, states, steps, |steps|, c);
  }

  /** Without duplication no call is executed twice, with the real cache too. */
  lemma AtMostOnceHere(cfg: Config, ttl: nat, worlds: seq<World>, events: seq<Event>, i: nat,
                       c: Protocol.ClientId, n: uint32)
    requires !cfg.dup && WorldRun(cfg, ttl, worlds, events) && i <= |events|
    ensures TimesRun(worlds[i].sys.hist, c, n) <= 1
  {
    var states, steps, k := ModelRun(cfg, ttl, worlds, events, i, i);
    AtMostOnce(cfg, states, steps, |steps|, c, n);
  }

  /** A Send that returned a reply caused between one and maxResend executions, with the real cache too. */
  lemma AcceptedExecutionsHere(cfg: Config, ttl: nat, worlds: seq<World>, events: seq<Event>, i: nat, a: Accepted)
    requires !cfg.dup && WorldRun(cfg, ttl, worlds, events) && i <= |events| && a in worlds[i].sys.accepted
    ensures a.cid in worlds[i].sys.clients && 1 <= a.attempts <= a.k && a.attempts <= cfg.maxResend
    ensures var cl := worlds[i].sys.clients[a.cid];
            1 <= Executions(worlds[i].sys.hist, a.cid, cl, a.k - a.attempts, a.k) <= cfg.maxResend
  {
    var states, steps, k := ModelRun(cfg, ttl, worlds, events, i, i);
    AcceptedExecutions(cfg, states, steps, |steps|, a);
  }

  /** A Send caused at most maxResend executions, at any later time, with the real cache too. */
  lemma PendingExecutionsHere(cfg: Config, ttl: nat, worlds: seq<World>, events: seq<Event>, j: nat, i: nat,
                              c: Protocol.ClientId)
    requires !cfg.dup && WorldRun(cfg, ttl, worlds, events) && j <= i <= |events|
    requires c in worlds[j].sys.clients && !worlds[j].sys.clients[c].phase.Idle?
    ensures var cl := worlds[j].sys.clients[c];
            cl.attempts <= |cl.sent|
            && Executions(worlds[i].sys.hist, c, cl, |cl.sent| - cl.attempts, |cl.sent|)
               <= cl.attempts <= cfg.maxResend
  {
    var states, steps, k := ModelRun(cfg, ttl, worlds, events, j, i);
    PendingExecutions(cfg, states, steps, k, |steps|, c);
  }
}
