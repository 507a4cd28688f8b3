/**
 The account AddNumber goes on using after it has released it: when the deletion of another number evicts it,
 and a run of the storage in which that happens.
 */
module AccountLoss {
  import opened Bytes
  import opened CacheItems
  import opened AccountLocks
  import opened AccountCache
  import opened StorageSteps

  lemma UsedIsFree(s: State, t: Thread, u: Thread)
    requires Stands(s, t) && Stands(s, u) && s.pcs[t].Deleting? && s.pcs[u].Creating?
    ensures s.pcs[t].n != s.pcs[u].n
    ensures s.pcs[u].n in s.acc ==> s.acc[s.pcs[u].n].None?
  {
    var states: seq<State>, steps: seq<AccountLocks.Step> :| IsRun(states, steps) && states[|steps|] == s;
    RunInv(states, steps, |steps|);
    var n := s.pcs[u].n;
    MutualExclusion(states, steps, |steps|, t, u, n);
    LockedItemsAreCovered(states, steps, |steps|, n);
    assert Good(s, u, n);
  }

  lemma BothCached<A>(items: map<Num, Item<A>>, s: State, t: Thread, u: Thread)
    requires Stands(s, t) && s.pcs[t].Deleting? && u in s.pcs && s.pcs[u].Creating? && s.pcs[u].n in s.acc
    requires s.acc == LocksOf(items)
    ensures var m, n := s.pcs[t].n, s.pcs[u].n;
            m in items && n in items - {m} && n in Unlocked(items - {m})
  {
    UsedIsFree(s, t, u);
    Deletable(items, s, t);
    assert s.pcs[u].n in items;
  }

  /**
   Thread t deletes number m while u still uses the account n it released: the account is evicted if the
   deletion trims the cache and fewer than a third of it were used no later, and only if it trims the cache
   and fewer than a third of it are older.
   */
  method DeleteWhileCreating<A(==)>(cache: CAccountCache<A>, ghost s: State, m: Num, t: Thread, n: Num, u: Thread)
    returns (ghost xs: seq<AccountLocks.Step>)
    requires Stands(s, t) && s.pcs[t].Deleting? && s.pcs[t].n == m && cache.Locks() == s.acc
    requires u in s.pcs && s.pcs[u].Creating? && s.pcs[u].n == n && n in s.acc
    modifies cache
    ensures Enabled(s, DeleteAcc(t)) && Runs(Apply(s, DeleteAcc(t)), xs)
    ensures var r := After(Apply(s, DeleteAcc(t)), xs); cache.Locks() == r.acc && u in r.pcs && UsesAcc(r.pcs[u], n)
    ensures n in old(cache.items) - {m}
    ensures var left := old(cache.items) - {m};
            && (cache.Trims(old(cache.deleted), left) && |NotYounger(left, n)| < |left| / 3 ==> n !in cache.items)
            && (n !in cache.items ==> cache.Trims(old(cache.deleted), left) && |Older(left, n)| < |left| / 3)
  {
    ghost var left := cache.items - {m};
    ghost var trims := cache.Trims(cache.deleted, left);
    BothCached(cache.items, s, t, u);
    Deletable(cache.items, s, t);
    var r, evicted := cache.Delete(m, t);
    if trims { EvictedByAge(left, |left| / 3, evicted, n); }
    xs := EvictAccs(Apply(s, DeleteAcc(t)), evicted);
  }

  // ---- a run ----

  const START := State(map[], map[], map[], map[0 := Idle, 1 := Idle])

  // The steps lead from the start to s.
  predicate LeadsTo(xs: seq<AccountLocks.Step>, s: State) { Runs(START, xs) && After(START, xs) == s }

  lemma Move(xs: seq<AccountLocks.Step>, s: State, x: AccountLocks.Step)
    requires LeadsTo(xs, s) && Enabled(s, x)
    ensures LeadsTo(xs + [x], Apply(s, x))
  {
    RunsThen(START, xs, x);
  }

  lemma {:induction false} Moves(xs: seq<AccountLocks.Step>, s: State, ys: seq<AccountLocks.Step>)
    requires LeadsTo(xs, s) && Runs(s, ys)
    ensures LeadsTo(xs + ys, After(s, ys))
    decreases |ys|
  {
    if ys == [] {
      assert xs + ys == xs;
    } else {
      Move(xs, s, ys[0]);
      Moves(xs + [ys[0]], Apply(s, ys[0]), ys[1..]);
      assert xs + [ys[0]] + ys[1..] == xs + ys;
    }
  }

  // Thread 0 is in AddNumber past its release of account 0; thread 1 is at pc, with the locker entry of k or not.
  function Past(acc: Items, pc: Pc): State
  {
    State(map[0 := 0], acc, map[], map[0 := Creating(0, AddJob), 1 := pc])
  }

  function Holding(acc: Items, k: Num, pc: Pc): State
  {
    State(map[0 := 0, k := 1], acc, map[], map[0 := Creating(0, AddJob), 1 := pc])
  }

  lemma LockMoves(acc: Items, k: Num, job: Job)
    requires k != 0
    ensures Enabled(Past(acc, Idle), Begin(1, k, job))
            && Apply(Past(acc, Idle), Begin(1, k, job)) == Past(acc, Want(k, job))
    ensures Enabled(Past(acc, Want(k, job)), Lock(1))
            && Apply(Past(acc, Want(k, job)), Lock(1)) == Holding(acc, k, Locked(k, job))
  {
  }

  lemma LoadMoves(acc: Items, k: Num)
    requires k != 0 && k !in acc
    ensures var s := Holding(acc, k, Locked(k, PlainJob));
            Enabled(s, MissAcc(1)) && Apply(s, MissAcc(1)) == Holding(acc, k, Missed(k, PlainJob))
    ensures var s := Holding(acc, k, Missed(k, PlainJob));
            Enabled(s, AddAcc(1)) && Apply(s, AddAcc(1)) == Holding(acc[k := Some(1)], k, HasAcc(k, PlainJob))
    ensures var s := Holding(acc[k := Some(1)], k, HasAcc(k, PlainJob));
            Enabled(s, ReleaseAcc(1, true))
            && Apply(s, ReleaseAcc(1, true)) == Holding(acc[k := None], k, Free(k, PlainJob, true))
  {
    assert acc[k := Some(1)][k := None] == acc[k := None];
  }

  lemma DeleteMoves(acc: Items, k: Num)
    requires k != 0 && k in acc && acc[k].None?
    ensures var s := Holding(acc, k, Locked(k, DeleteJob));
            Enabled(s, FindAcc(1)) && Apply(s, FindAcc(1)) == Holding(acc[k := Some(1)], k, HasAcc(k, DeleteJob))
    ensures var s := Holding(acc[k := Some(1)], k, HasAcc(k, DeleteJob));
            Enabled(s, DeleteBlk(1)) && Apply(s, DeleteBlk(1)) == Holding(acc[k := Some(1)], k, Deleting(k, DeleteJob))
    ensures var s := Holding(acc[k := Some(1)], k, Deleting(k, DeleteJob));
            Enabled(s, DeleteAcc(1)) && Apply(s, DeleteAcc(1)) == Holding(acc - {k}, k, Free(k, DeleteJob, true))
  {
    var none: Items := map[];
    assert none - {k} == none;
    UpdateGone(acc, k, Some(1));
  }

  lemma UnlockMove(acc: Items, k: Num, job: Job)
    requires k != 0 && !job.SendJob?
    ensures var s := Holding(acc, k, Free(k, job, true));
            Enabled(s, AccountLocks.Unlock(1)) && Apply(s, AccountLocks.Unlock(1)) == Past(acc, Idle)
  {
  }

  lemma LockTrace(xs: seq<AccountLocks.Step>, acc: Items, k: Num, job: Job) returns (ys: seq<AccountLocks.Step>)
    requires LeadsTo(xs, Past(acc, Idle)) && k != 0
    ensures LeadsTo(ys, Holding(acc, k, Locked(k, job)))
  {
    LockMoves(acc, k, job);
    Move(xs, Past(acc, Idle), Begin(1, k, job));
    ys := xs + [Begin(1, k, job)];
    Move(ys, Past(acc, Want(k, job)), Lock(1));
    ys := ys + [Lock(1)];
  }

  // Thread 1 loads account k and releases it.
  lemma LoadTrace(xs: seq<AccountLocks.Step>, acc: Items, k: Num) returns (ys: seq<AccountLocks.Step>)
    requires LeadsTo(xs, Past(acc, Idle)) && k != 0 && k !in acc
    ensures LeadsTo(ys, Past(acc[k := None], Idle))
  {
    ys := LockTrace(xs, acc, k, PlainJob);
    LoadMoves(acc, k);
    Move(ys, Holding(acc, k, Locked(k, PlainJob)), MissAcc(1));
    ys := ys + [MissAcc(1)];
    Move(ys, Holding(acc, k, Missed(k, PlainJob)), AddAcc(1));
    ys := ys + [AddAcc(1)];
    Move(ys, Holding(acc[k := Some(1)], k, HasAcc(k, PlainJob)), ReleaseAcc(1, true));
    ys := ys + [ReleaseAcc(1, true)];
    UnlockMove(acc[k := None], k, PlainJob);
    Move(ys, Holding(acc[k := None], k, Free(k, PlainJob, true)), AccountLocks.Unlock(1));
    ys := ys + [AccountLocks.Unlock(1)];
  }

  // Thread 1 deletes number k, and trims these accounts.
  lemma DeleteTrace(xs: seq<AccountLocks.Step>, acc: Items, k: Num, gone: set<Num>)
    returns (ys: seq<AccountLocks.Step>)
    requires LeadsTo(xs, Past(acc, Idle)) && k != 0 && k in acc && acc[k].None? && AllFree(acc - {k}, gone)
    ensures LeadsTo(ys, Past(acc - {k} - gone, Idle))
  {
    ys := LockTrace(xs, acc, k, DeleteJob);
    DeleteMoves(acc, k);
    Move(ys, Holding(acc, k, Locked(k, DeleteJob)), FindAcc(1));
    ys := ys + [FindAcc(1)];
    Move(ys, Holding(acc[k := Some(1)], k, HasAcc(k, DeleteJob)), DeleteBlk(1));
    ys := ys + [DeleteBlk(1)];
    Move(ys, Holding(acc[k := Some(1)], k, Deleting(k, DeleteJob)), DeleteAcc(1));
    ys := ys + [DeleteAcc(1)];
    var s := Holding(acc - {k}, k, Free(k, DeleteJob, true));
    var zs := EvictAccs(s, gone);
    Moves(ys, s, zs);
    ys := ys + zs;
    UnlockMove(acc - {k} - gone, k, DeleteJob);
    Move(ys, Holding(acc - {k} - gone, k, Free(k, DeleteJob, true)), AccountLocks.Unlock(1));
    ys := ys + [AccountLocks.Unlock(1)];
  }

  lemma AddMoves()
    ensures var s := START.(pcs := map[0 := Want(0, AddJob), 1 := Idle]);
            Enabled(START, Begin(0, 0, AddJob)) && Apply(START, Begin(0, 0, AddJob)) == s && Enabled(s, Lock(0))
    ensures var s := START.(pcs := map[0 := Want(0, AddJob), 1 := Idle]);
            var r := State(map[0 := 0], map[], map[], map[0 := Locked(0, AddJob), 1 := Idle]);
            Enabled(s, Lock(0)) && Apply(s, Lock(0)) == r && Enabled(r, MissAcc(0))
            && Apply(r, MissAcc(0)) == r.(pcs := map[0 := Missed(0, AddJob), 1 := Idle])
  {
  }

  lemma ReleaseMoves()
    ensures var s := State(map[0 := 0], map[], map[], map[0 := Missed(0, AddJob), 1 := Idle]);
            var r := State(map[0 := 0], map[0 := Some(0)], map[], map[0 := HasAcc(0, AddJob), 1 := Idle]);
            Enabled(s, AddAcc(0)) && Apply(s, AddAcc(0)) == r
            && Enabled(r, ReleaseAcc(0, true)) && Apply(r, ReleaseAcc(0, true)) == Past(map[0 := None], Idle)
  {
  }

  // Thread 0 adds number 0, as far as the release of its account.
  lemma AddTrace() returns (xs: seq<AccountLocks.Step>)
    ensures LeadsTo(xs, Past(map[0 := None], Idle))
  {
    AddMoves();
    ReleaseMoves();
    xs := [];
    Move(xs, START, Begin(0, 0, AddJob));
    xs := xs + [Begin(0, 0, AddJob)];
    Move(xs, START.(pcs := map[0 := Want(0, AddJob), 1 := Idle]), Lock(0));
    xs := xs + [Lock(0)];
    Move(xs, State(map[0 := 0], map[], map[], map[0 := Locked(0, AddJob), 1 := Idle]), MissAcc(0));
    xs := xs + [MissAcc(0)];
    Move(xs, State(map[0 := 0], map[], map[], map[0 := Missed(0, AddJob), 1 := Idle]), AddAcc(0));
    xs := xs + [AddAcc(0)];
    var held: Items := map[0 := Some(0)];
    Move(xs, State(map[0 := 0], held, map[], map[0 := HasAcc(0, AddJob), 1 := Idle]), ReleaseAcc(0, true));
    xs := xs + [ReleaseAcc(0, true)];
  }

  // Accounts 0 to k - 1, all unlocked, each used at the time of its number.
  ghost predicate Filled(items: map<Num, Item<nat>>, k: nat)
  {
    && |items| == k
    && (forall j: Num :: j in items <==> j < k)
    && (forall j :: j in items ==> items[j].lockedBy.None? && items[j].lastAccess == j)
  }

  lemma FilledLess(items: map<Num, Item<nat>>, k: nat)
    requires Filled(items, k + 1)
    ensures Filled(items - {k}, k)
  {
    assert (items - {k}).Keys == items.Keys - {k};
  }

  lemma FilledMore(items: map<Num, Item<nat>>, k: nat)
    requires Filled(items, k)
    ensures Filled(items[k := Item(k, None, k)], k + 1)
  {
  }

  lemma OldestGoes(items: map<Num, Item<nat>>, k: nat, evicted: set<Num>)
    requires Filled(items, k) && k >= 3 && Evicts(items, k / 3, evicted)
    ensures 0 in evicted
  {
    assert NotYounger(items, 0) == {};
    EvictedByAge(items, k / 3, evicted, 0);
  }

  lemma LocksOfFilled(items: map<Num, Item<nat>>, k: Num, now: nat, gone: set<Num>)
    ensures LocksOf(items[k := Item(k, None, now)]) == LocksOf(items)[k := None]
    ensures LocksOf(items - {k} - gone) == LocksOf(items) - {k} - gone
  {
  }

  // What the calls of thread 1 do to the cache.
  method LoadOne(cache: CAccountCache<nat>, k: Num, now: nat)
    requires k !in cache.items
    modifies cache
    ensures cache.items == old(cache.items)[k := Item(k, None, now)] && cache.deleted == old(cache.deleted)
  {
    cache.AddAndLock(k, k, 1, now);
    cache.Unlock(k);
  }

  method DeleteOne(cache: CAccountCache<nat>, k: Num, now: nat) returns (evicted: set<Num>)
    requires k in cache.items && cache.items[k].lockedBy.None?
    modifies cache
    ensures cache.items == old(cache.items) - {k} - evicted && evicted <= Unlocked(old(cache.items) - {k})
    ensures if cache.Trims(old(cache.deleted), old(cache.items) - {k})
            then Evicts(old(cache.items) - {k}, |old(cache.items) - {k}| / 3, evicted) else evicted == {}
    ensures cache.deleted
            == if cache.maxItems > 0 && old(cache.deleted) + 1 >= cache.maxItems / 2 then 0 else old(cache.deleted) + 1
  {
    UpdateGone(cache.items, k, Item(cache.items[k].account, Some(1), now));
    var found := cache.Find(k, 1, now);
    found, evicted := cache.Delete(k, 1);
  }

  // Thread 0 in AddNumber, as far as its release.
  method StartAddNumber(cache: CAccountCache<nat>) returns (ghost xs: seq<AccountLocks.Step>)
    requires cache.items == map[]
    modifies cache
    ensures LeadsTo(xs, Past(LocksOf(cache.items), Idle))
    ensures Filled(cache.items, 1) && cache.deleted == old(cache.deleted)
  {
    cache.AddAndLock(0, 0, 0, 0);
    cache.Unlock(0);
    xs := AddTrace();
    assert LocksOf(cache.items) == map[0 := None];
  }

  method Fill(cache: CAccountCache<nat>, n: nat) returns (ghost xs: seq<AccountLocks.Step>)
    requires cache.items == map[]
    modifies cache
    ensures LeadsTo(xs, Past(LocksOf(cache.items), Idle))
    ensures Filled(cache.items, n + 1) && cache.deleted == old(cache.deleted)
  {
    xs := StartAddNumber(cache);
    for k := 1 to n + 1
      invariant LeadsTo(xs, Past(LocksOf(cache.items), Idle))
      invariant Filled(cache.items, k) && cache.deleted == old(cache.deleted)
    {
      xs := LoadTrace(xs, LocksOf(cache.items), k);
      LocksOfFilled(cache.items, k, k, {});
      FilledMore(cache.items, k);
      LoadOne(cache, k, k);
    }
  }

  // Deletes from the top as long as that does not trim the cache.
  method DeleteSome(cache: CAccountCache<nat>, size: nat, n: nat, ghost before: seq<AccountLocks.Step>)
    returns (ghost xs: seq<AccountLocks.Step>)
    requires LeadsTo(before, Past(LocksOf(cache.items), Idle)) && Filled(cache.items, size)
    requires n < size && cache.deleted == 0 && n < cache.maxItems / 2
    modifies cache
    ensures LeadsTo(xs, Past(LocksOf(cache.items), Idle)) && Filled(cache.items, size - n) && cache.deleted == n
  {
    xs := before;
    for d := 0 to n
      invariant LeadsTo(xs, Past(LocksOf(cache.items), Idle)) && Filled(cache.items, size - d) && cache.deleted == d
    {
      var top := size - d - 1;
      FilledLess(cache.items, top);
      MinusNone(cache.items - {top});
      xs := DeleteTrace(xs, LocksOf(cache.items), top, {});
      LocksOfFilled(cache.items, top, 0, {});
      var evicted := DeleteOne(cache, top, size + d);
    }
  }

  // The deletion that trims the cache.
  method DeleteLast(cache: CAccountCache<nat>, size: nat, ghost before: seq<AccountLocks.Step>)
    returns (ghost xs: seq<AccountLocks.Step>)
    requires LeadsTo(before, Past(LocksOf(cache.items), Idle)) && Filled(cache.items, size) && size > 3
    requires cache.Trims(cache.deleted, cache.items - {size - 1})
    modifies cache
    ensures LeadsTo(xs, Past(LocksOf(cache.items), Idle)) && 0 !in cache.items
  {
    var top := size - 1;
    FilledLess(cache.items, top);
    ghost var was := cache.items;
    var evicted := DeleteOne(cache, top, 2 * size);
    OldestGoes(was - {top}, top, evicted);
    xs := DeleteTrace(before, LocksOf(was), top, evicted);
    LocksOfFilled(was, top, 0, evicted);
  }

  /**
   A run of the storage over a cache of any size. Thread 0 is in AddNumber, past its release of account 0;
   thread 1 loads half as many accounts again as the cache is to hold, and deletes until the cache is
   trimmed. Account 0 is the oldest and goes, and thread 0 still uses it.
   */
  method LosingRun(limit: nat) returns (cache: CAccountCache<nat>, ghost xs: seq<AccountLocks.Step>)
    ensures fresh(cache) && Init(START) && Runs(START, xs) && cache.Locks() == After(START, xs).acc
    ensures var s := After(START, xs); 0 in s.pcs && UsesAcc(s.pcs[0], 0) && 0 !in s.acc
  {
    cache := new CAccountCache<nat>(limit);
    var m := cache.maxItems;
    xs := Fill(cache, m + m / 2);
    xs := DeleteSome(cache, m + m / 2 + 1, m / 2 - 1, xs);
    FilledLess(cache.items, m + 1);
    xs := DeleteLast(cache, m + 2, xs);
  }
}
