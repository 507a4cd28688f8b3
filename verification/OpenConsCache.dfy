/**
 The reply cache of the server: one entry per client, refreshed on every hit, pruned now and then.
 The cache as it runs is compared with a map that never removes anything and only looks at ages.
 */
module OpenConsCache {
  import opened Bytes

  datatype Status = InProcessing | Done | NotFound
  datatype Item = Item(seqNum: uint32, lastAccess: nat, reply: str, error: bool, status: Status)
  datatype Answer = Answer(status: Status, error: bool, reply: str)

  type Items = map<str, Item>

  const NOTHING := Answer(NotFound, false, [])

  // A client id is 32 bytes; ids that start with a zero byte are refused, the others hold no zero.
  predicate ClientId(id: str) { |id| == 32 && (id[0] == 0 || NulFree(id)) }
  predicate Refused(id: str, seqNum: uint32)
    requires ClientId(id)
  {
    id[0] == 0 || seqNum == 0
  }

  // ---- the map that never forgets ----

  function Put(m: Items, id: str, item: Item): Items
    requires ClientId(id)
  {
    if Refused(id, item.seqNum) then m else m[id := item]
  }

  function Started(seqNum: uint32, now: nat): Item { Item(seqNum, now, [], false, InProcessing) }
  function Finished(seqNum: uint32, error: bool, reply: str, now: nat): Item
  {
    Item(seqNum, now, reply, error, Done)
  }

  // The entry a call of Find may use.
  predicate Fresh(m: Items, id: str, seqNum: uint32, ttl: nat, now: nat)
  {
    id in m && m[id].seqNum == seqNum && now - m[id].lastAccess < ttl
  }

  function Touch(m: Items, id: str, seqNum: uint32, ttl: nat, now: nat): Items
  {
    if Fresh(m, id, seqNum, ttl, now) then m[id := m[id].(lastAccess := now)] else m
  }

  function Lookup(m: Items, id: str, seqNum: uint32, ttl: nat, now: nat): Answer
  {
    if Fresh(m, id, seqNum, ttl, now) then Answer(m[id].status, m[id].error, m[id].reply) else NOTHING
  }

  function Prune(m: Items, ttl: nat, now: nat): Items
  {
    map id | id in m && now - m[id].lastAccess < ttl :: m[id]
  }

  // One call; `later` is the clock when the call may come to prune.
  datatype Call =
    | CallAdd(id: str, seqNum: uint32, now: nat, later: nat)
    | CallUpdate(id: str, seqNum: uint32, error: bool, reply: str, now: nat, later: nat)
    | CallFind(id: str, seqNum: uint32, now: nat, later: nat)

  function Forever(m: Items, ttl: nat, c: Call): (Items, Answer)
    requires ClientId(c.id)
  {
    match c
    case CallAdd(id, s, now, _) => (Put(m, id, Started(s, now)), NOTHING)
    case CallUpdate(id, s, error, reply, now, _) => (Put(m, id, Finished(s, error, reply, now)), NOTHING)
    case CallFind(id, s, now, _) => (Touch(m, id, s, ttl, now), Lookup(m, id, s, ttl, now))
  }

  // The same call with a pruning that runs or declines.
  function Pruned(m: Items, ttl: nat, c: Call, prune: bool): (Items, Answer)
    requires ClientId(c.id)
  {
    var (m', a) := Forever(m, ttl, c);
    (if prune then Prune(m', ttl, c.later) else m', a)
  }

  // When the program lets the pruning run.
  predicate PrunesNow(m: Items, ttl: nat, expiredCalled: nat, c: Call)
    requires ClientId(c.id)
  {
    match c
    case CallFind(id, s, now, later) =>
      id in m && m[id].seqNum == s && !Fresh(m, id, s, ttl, now) && later - expiredCalled >= ttl
    case _ => !Refused(c.id, c.seqNum) && c.now - expiredCalled >= ttl
  }

  // ---- the cache in place ----

  class COpenConsCache {
    const maxLiveSec: nat
    var items: Items
    var expiredCalled: nat
    var oldest: Option<str>    // only printed; which entry it is does not matter

    ghost predicate Valid()
      reads this
    {
      oldest.Some? ==> oldest.value in items
    }

    constructor (ttl: nat)
      ensures Valid() && items == map[] && maxLiveSec == ttl && expiredCalled == 0
    {
      maxLiveSec := ttl;
      items, expiredCalled, oldest := map[], 0, None;
    }

    // Nothing in the cache has reached its life time.
    ghost predicate AllLive(now: nat)
      reads this
    {
      forall id :: id in items ==> now - items[id].lastAccess < maxLiveSec
    }

    // The whole effect of a call: what the map that never forgets does, then perhaps a pruning.
    twostate predicate Did(c: Call)
      requires ClientId(c.id)
      reads this
    {
      var prune := PrunesNow(old(items), maxLiveSec, old(expiredCalled), c);
      && items == Pruned(old(items), maxLiveSec, c, prune).0
      && expiredCalled == if prune then c.later else old(expiredCalled)
    }

    method Add(id: str, seqNum: uint32, now: nat, later: nat)
      requires Valid() && ClientId(id) && now <= later
      modifies this
      ensures Valid() && Did(CallAdd(id, seqNum, now, later))
      ensures id[0] != 0 && seqNum != 0 && now - old(expiredCalled) >= maxLiveSec ==> AllLive(later)
    {
      if id[0] == 0 || seqNum == 0 { return; }
      if id !in items {
        if oldest.None? { oldest := Some(id); }
        items := items[id := Started(seqNum, now)];
      } else {
        var item := items[id].(status := InProcessing, seqNum := seqNum);
        var origTime := item.lastAccess;
        items := items[id := item.(lastAccess := now, reply := [], error := false)];
        if oldest == Some(id) && origTime - now > maxLiveSec / 2 { FindOldestItem(); }
      }
      if now - expiredCalled >= maxLiveSec {
        var ran := RemoveExpired(later);
      }
    }

    method Update(id: str, seqNum: uint32, error: bool, reply: str, now: nat, later: nat)
      requires Valid() && ClientId(id) && now <= later
      modifies this
      ensures Valid() && Did(CallUpdate(id, seqNum, error, reply, now, later))
      ensures id[0] != 0 && seqNum != 0 && now - old(expiredCalled) >= maxLiveSec ==> AllLive(later)
    {
      if id[0] == 0 || seqNum == 0 { return; }
      if id !in items {
        if oldest.None? { oldest := Some(id); }
        items := items[id := Finished(seqNum, error, reply, now)];
      } else {
        var item := items[id].(status := Done, seqNum := seqNum);
        var origTime := item.lastAccess;
        items := items[id := item.(lastAccess := now, reply := reply, error := error)];
        if oldest == Some(id) && origTime - now > maxLiveSec / 2 { FindOldestItem(); }
      }
      if now - expiredCalled >= maxLiveSec {
        var ran := RemoveExpired(later);
      }
    }

    method Find(id: str, seqNum: uint32, now: nat, later: nat) returns (a: Answer)
      requires Valid() && ClientId(id) && now <= later
      modifies this
      ensures Valid() && Did(CallFind(id, seqNum, now, later))
      ensures a == Lookup(old(items), id, seqNum, maxLiveSec, now)
      ensures var was := old(items);
              id in was && was[id].seqNum == seqNum && now - was[id].lastAccess >= maxLiveSec ==>
                later - old(expiredCalled) >= maxLiveSec ==> AllLive(later)
    {
      a := NOTHING;
      if id !in items || items[id].seqNum != seqNum { return; }
      var item := items[id];
      if now - item.lastAccess >= maxLiveSec {
        var ran := RemoveExpired(later);
      } else {
        items := items[id := item.(lastAccess := now)];
        a := Answer(item.status, item.error, item.reply);
      }
    }

    // Declines when it ran less than a life time ago; otherwise erases every expired entry.
    method RemoveExpired(now: nat) returns (ran: bool)
      requires oldest.Some? ==> oldest.value in items
      modifies this
      ensures Valid() && ran == (now - old(expiredCalled) >= maxLiveSec)
      ensures items == if ran then Prune(old(items), maxLiveSec, now) else old(items)
      ensures expiredCalled == if ran then now else old(expiredCalled)
      ensures ran ==> forall id :: id in items ==> now - items[id].lastAccess < maxLiveSec
    {
      ran := false;
      if now - expiredCalled < maxLiveSec { return; }
      ran := true;
      expiredCalled := now;
      if |items| == 0 {
        assert items == map[];
        return;
      }
      var left := items.Keys;
      while left != {}
        modifies this`items
        invariant left <= items.Keys <= old(items).Keys
        invariant forall id :: id in items ==> items[id] == old(items)[id]
        invariant forall id :: id in old(items) && id !in left ==>
                    (id in items <==> now - old(items)[id].lastAccess < maxLiveSec)
        decreases left
      {
        var id :| id in left;
        if now - items[id].lastAccess >= maxLiveSec {
          items := map k | k in items && k != id :: items[k];
        }
        left := left - {id};
      }
      assert items == Prune(old(items), maxLiveSec, now);
      FindOldestItem();
    }

    // Picks some entry that was accessed after time zero, not the oldest one.
    method FindOldestItem()
      modifies this`oldest
      ensures Valid()
    {
      oldest := None;
      var left := items.Keys;
      while left != {}
        modifies this`oldest
        invariant left <= items.Keys && Valid()
        decreases left
      {
        var id :| id in left;
        if items[id].lastAccess > 0 { oldest := Some(id); }
        left := left - {id};
      }
    }
  }

  // ---- pruning is invisible ----

  // The clock never goes back between or within calls.
  predicate Clock(t: nat, calls: seq<Call>)
    decreases |calls|
  {
    calls == [] || (t <= calls[0].now <= calls[0].later && ClientId(calls[0].id) && Clock(calls[0].later, calls[1..]))
  }

  function RunForever(m: Items, ttl: nat, t: nat, calls: seq<Call>): (r: (Items, seq<Answer>))
    requires Clock(t, calls)
    ensures |r.1| == |calls|
    decreases |calls|
  {
    if calls == [] then (m, [])
    else
      var (m1, a) := Forever(m, ttl, calls[0]);
      var (m2, rest) := RunForever(m1, ttl, calls[0].later, calls[1..]);
      (m2, [a] + rest)
  }

  function RunPruned(m: Items, ttl: nat, t: nat, calls: seq<Call>, prunes: seq<bool>): (r: (Items, seq<Answer>))
    requires Clock(t, calls) && |prunes| == |calls|
    ensures |r.1| == |calls|
    decreases |calls|
  {
    if calls == [] then (m, [])
    else
      var (m1, a) := Pruned(m, ttl, calls[0], prunes[0]);
      var (m2, rest) := RunPruned(m1, ttl, calls[0].later, calls[1..], prunes[1..]);
      (m2, [a] + rest)
  }

  // What was pruned is too old to be found, now and later.
  ghost predicate Similar(c: Items, r: Items, ttl: nat, t: nat)
  {
    && c.Keys <= r.Keys
    && (forall id :: id in c ==> c[id] == r[id])
    && (forall id :: id in r && id !in c ==> t - r[id].lastAccess >= ttl)
  }

  lemma StepSimilar(c: Items, r: Items, ttl: nat, t: nat, call: Call, prune: bool)
    requires Similar(c, r, ttl, t) && ClientId(call.id) && t <= call.now <= call.later
    ensures Pruned(c, ttl, call, prune).1 == Forever(r, ttl, call).1
    ensures Similar(Pruned(c, ttl, call, prune).0, Forever(r, ttl, call).0, ttl, call.later)
  {
  }

  lemma {:induction false} RunSimilar(c: Items, r: Items, ttl: nat, t: nat, calls: seq<Call>, prunes: seq<bool>)
    requires Similar(c, r, ttl, t) && Clock(t, calls) && |prunes| == |calls|
    ensures RunPruned(c, ttl, t, calls, prunes).1 == RunForever(r, ttl, t, calls).1
    decreases |calls|
  {
    if calls != [] {
      StepSimilar(c, r, ttl, t, calls[0], prunes[0]);
      RunSimilar(Pruned(c, ttl, calls[0], prunes[0]).0, Forever(r, ttl, calls[0]).0, ttl, calls[0].later,
                 calls[1..], prunes[1..]);
    }
  }

  /** Whenever pruning runs or declines, every Find answers as if nothing were ever removed. */
  lemma PruningInvisible(ttl: nat, calls: seq<Call>, prunes: seq<bool>)
    requires Clock(0, calls) && |prunes| == |calls|
    ensures RunPruned(map[], ttl, 0, calls, prunes).1 == RunForever(map[], ttl, 0, calls).1
  {
    RunSimilar(map[], map[], ttl, 0, calls, prunes);
  }
}
