/**
 The cache objects take the steps of the storage state machine: in every reachable state a search of a cache
 succeeds or misses at once and an insertion finds its key free, so no operation sleeps or times out; and
 what a call does to a cache is one step of its thread, with one eviction step for every item it drops besides.
 */
module StorageSteps {
  import opened Bytes
  import opened CacheItems
  import opened AccountLocks
  import opened AccountCache
  import opened BlocksCache
  import BlockInPlace

  ghost predicate Reachable(s: State)
  {
    exists states: seq<State>, steps: seq<AccountLocks.Step> :: IsRun(states, steps) && states[|steps|] == s
  }

  // Thread t stands at pc in a reachable state.
  ghost predicate Stands(s: State, t: Thread) { Reachable(s) && t in s.pcs }

  predicate Runs(s: State, xs: seq<AccountLocks.Step>)
    decreases |xs|
  {
    xs == [] || (Enabled(s, xs[0]) && Runs(Apply(s, xs[0]), xs[1..]))
  }

  function After(s: State, xs: seq<AccountLocks.Step>): State
    requires Runs(s, xs)
    decreases |xs|
  {
    if xs == [] then s else After(Apply(s, xs[0]), xs[1..])
  }

  lemma ReachableStep(s: State, x: AccountLocks.Step)
    requires Reachable(s) && Enabled(s, x)
    ensures Reachable(Apply(s, x))
  {
    var states: seq<State>, steps: seq<AccountLocks.Step> :| IsRun(states, steps) && states[|steps|] == s;
    var more, taken := states + [Apply(s, x)], steps + [x];
    forall i | 0 <= i < |taken| ensures Enabled(more[i], taken[i]) && more[i + 1] == Apply(more[i], taken[i]) {
      if i < |steps| { assert taken[i] == steps[i] && more[i] == states[i] && more[i + 1] == states[i + 1]; }
    }
    assert IsRun(more, taken) && more[|taken|] == Apply(s, x);
  }

  /** Steps taken from a reachable state lead to reachable states. */
  lemma {:induction false} ReachableRun(s: State, xs: seq<AccountLocks.Step>)
    requires Reachable(s) && Runs(s, xs)
    ensures Reachable(After(s, xs))
    decreases |xs|
  {
    if xs != [] {
      ReachableStep(s, xs[0]);
      ReachableRun(Apply(s, xs[0]), xs[1..]);
    }
  }

  lemma {:induction false} RunsThen(s: State, xs: seq<AccountLocks.Step>, x: AccountLocks.Step)
    requires Runs(s, xs) && Enabled(After(s, xs), x)
    ensures Runs(s, xs + [x]) && After(s, xs + [x]) == Apply(After(s, xs), x)
    decreases |xs|
  {
    if xs == [] {
      assert Runs(Apply(s, x), []);
    } else {
      RunsThen(Apply(s, xs[0]), xs[1..], x);
      assert (xs + [x])[1..] == xs[1..] + [x];
    }
  }

  // Evictions of these numbers and nothing else.
  predicate EvictsBlks(xs: seq<AccountLocks.Step>, gone: set<Num>)
  {
    |xs| == |gone| && forall i :: 0 <= i < |xs| ==> xs[i].EvictBlk? && xs[i].n in gone
  }

  predicate EvictsAccs(xs: seq<AccountLocks.Step>, gone: set<Num>)
  {
    |xs| == |gone| && forall i :: 0 <= i < |xs| ==> xs[i].EvictAcc? && xs[i].n in gone
  }

  predicate AllFree(items: Items, ns: set<Num>) { forall n :: n in ns ==> n in items && items[n].None? }

  lemma {:induction false} EvictBlks(s: State, gone: set<Num>) returns (xs: seq<AccountLocks.Step>)
    requires AllFree(s.blk, gone)
    ensures Runs(s, xs) && EvictsBlks(xs, gone) && After(s, xs) == s.(blk := s.blk - gone)
    decreases |gone|
  {
    xs := [];
    if gone != {} {
      var n :| n in gone;
      var left := gone - {n};
      xs := EvictBlks(s, left);
      RunsThen(s, xs, EvictBlk(n));
      xs := xs + [EvictBlk(n)];
      MinusGrow(s.blk, left, n);
      assert left + {n} == gone;
    } else {
      assert s.blk - gone == s.blk;
    }
  }

  lemma {:induction false} EvictAccs(s: State, gone: set<Num>) returns (xs: seq<AccountLocks.Step>)
    requires AllFree(s.acc, gone)
    ensures Runs(s, xs) && EvictsAccs(xs, gone) && After(s, xs) == s.(acc := s.acc - gone)
    decreases |gone|
  {
    xs := [];
    if gone != {} {
      var n :| n in gone;
      var left := gone - {n};
      xs := EvictAccs(s, left);
      RunsThen(s, xs, EvictAcc(n));
      xs := xs + [EvictAcc(n)];
      MinusGrow(s.acc, left, n);
      assert left + {n} == gone;
    } else {
      assert s.acc - gone == s.acc;
    }
  }

  // What the run that leads to s says about thread t.
  lemma AtOnce(s: State, t: Thread)
    requires Stands(s, t)
    ensures var pc := s.pcs[t];
            && (pc.Locked? && pc.n in s.acc ==> s.acc[pc.n].None?)
            && (pc.HasAcc? ==> pc.n in s.acc && (pc.n in s.blk ==> s.blk[pc.n].None?))
            && (pc.Missed? ==> pc.n !in s.acc)
            && (pc.BlkMissed? ==> pc.n !in s.blk)
            && (pc.HasBlk? ==> pc.n in s.blk)
            && (pc.Deleting? ==> Usable(s.acc, pc.n, t))
  {
    var states: seq<State>, steps: seq<AccountLocks.Step> :| IsRun(states, steps) && states[|steps|] == s;
    FindNeverWaits(states, steps, |steps|, t);
    RunInv(states, steps, |steps|);
    if !s.pcs[t].Idle? { assert Good(s, t, s.pcs[t].n); }
  }

  lemma DeleteAccApplied(s: State, t: Thread, n: Num)
    requires Enabled(s, DeleteAcc(t)) && s.pcs[t].n == n
    ensures Apply(s, DeleteAcc(t)).acc == s.acc - {n}
  {
  }

  // The item to delete is there and ours, and unlocked items are free to go.
  lemma Deletable<A>(items: map<Num, AccountCache.Item<A>>, s: State, t: Thread)
    requires Stands(s, t) && s.pcs[t].Deleting? && s.acc == AccountCache.LocksOf(items)
    ensures var n := s.pcs[t].n;
            && n in items && Usable(s.acc, n, t) && Enabled(s, DeleteAcc(t))
            && Apply(s, DeleteAcc(t)).acc == s.acc - {n}
            && forall gone :: gone <= Unlocked(items - {n}) ==> AllFree(s.acc - {n}, gone)
  {
    AtOnce(s, t);
    DeleteAccApplied(s, t, s.pcs[t].n);
    assert forall k :: k in items ==> s.acc[k] == items[k].lockedBy;
  }

  lemma DeleteBlkApplied(s: State, t: Thread, n: Num)
    requires Enabled(s, DeleteBlk(t)) && s.pcs[t].n == n
    ensures Apply(s, DeleteBlk(t)).blk == s.blk - {n}
    ensures n !in s.blk ==> s.blk - {n} == s.blk
  {
  }

  lemma AddBlkApplied(s: State, t: Thread, n: Num)
    requires Enabled(s, AddBlk(t)) && s.pcs[t].n == n && n !in s.blk
    ensures Apply(s, AddBlk(t)).blk == s.blk[n := Some(t)]
  {
  }

  method FindAccount<A(==)>(cache: CAccountCache<A>, ghost s: State, n: Num, t: Thread, now: nat)
    returns (r: AccountCache.Attempt<A>)
    requires Stands(s, t) && s.pcs[t].Locked? && s.pcs[t].n == n && cache.Locks() == s.acc
    modifies cache
    ensures !r.Busy?
    ensures var x := if r.Got? then FindAcc(t) else MissAcc(t);
            Enabled(s, x) && cache.Locks() == Apply(s, x).acc
  {
    AtOnce(s, t);
    assert n in cache.Locks() <==> n in cache.items;
    r := cache.Find(n, t, now);
  }

  method AddAccount<A(==)>(cache: CAccountCache<A>, ghost s: State, n: Num, account: A, t: Thread, now: nat)
    requires Stands(s, t) && s.pcs[t].Missed? && s.pcs[t].n == n && cache.Locks() == s.acc
    modifies cache
    ensures n !in old(cache.items) && n in cache.items && cache.items[n].account == account
    ensures Enabled(s, AddAcc(t)) && cache.Locks() == Apply(s, AddAcc(t)).acc
  {
    AtOnce(s, t);
    assert n in cache.Locks() <==> n in cache.items;
    cache.AddAndLock(n, account, t, now);
  }

  // The guard's destructor.
  method UnlockAccount<A(==)>(cache: CAccountCache<A>, ghost s: State, n: Num, t: Thread, ghost ok: bool)
    requires Stands(s, t) && s.pcs[t].HasAcc? && s.pcs[t].n == n && cache.Locks() == s.acc
    modifies cache
    ensures Enabled(s, ReleaseAcc(t, ok)) && cache.Locks() == Apply(s, ReleaseAcc(t, ok)).acc
  {
    AtOnce(s, t);
    assert n in cache.Locks() <==> n in cache.items;
    cache.Unlock(n);
  }

  // Deleting frees the item at once; trimming then evicts unlocked ones.
  method DeleteAccount<A(==)>(cache: CAccountCache<A>, ghost s: State, n: Num, t: Thread)
    returns (r: AccountCache.Attempt<A>, evicted: set<Num>, ghost xs: seq<AccountLocks.Step>)
    requires Stands(s, t) && s.pcs[t].Deleting? && s.pcs[t].n == n && cache.Locks() == s.acc
    modifies cache
    ensures r.Got? && Enabled(s, DeleteAcc(t)) && EvictsAccs(xs, evicted)
    ensures Runs(Apply(s, DeleteAcc(t)), xs) && cache.Locks() == After(Apply(s, DeleteAcc(t)), xs).acc
  {
    Deletable(cache.items, s, t);
    r, evicted := cache.Delete(n, t);
    xs := EvictAccs(Apply(s, DeleteAcc(t)), evicted);
  }

  method FindBlock(cache: CBlocksCache, ghost s: State, n: Num, t: Thread, now: nat)
    returns (r: BlocksCache.Attempt)
    requires Stands(s, t) && s.pcs[t].HasAcc? && s.pcs[t].job.MailJob? && s.pcs[t].n == n
    requires cache.Valid() && cache.Locks() == s.blk
    modifies cache
    ensures !r.Busy? && cache.Valid()
    ensures var x := if r.Got? then FindBlk(t) else MissBlk(t);
            Enabled(s, x) && cache.Locks() == Apply(s, x).blk
  {
    AtOnce(s, t);
    assert n in cache.Locks() <==> n in cache.entries;
    r := cache.Find(n, t, now);
  }

  // The insertion may release handles first; with memory full it drops those blocks, all of them unlocked.
  method AddBlock(cache: CBlocksCache, ghost s: State, n: Num, block: BlockInPlace.CMsgBlock, t: Thread, now: nat)
    returns (ghost gone: set<Num>, ghost xs: seq<AccountLocks.Step>)
    requires Stands(s, t) && s.pcs[t].BlkMissed? && s.pcs[t].n == n
    requires cache.Valid() && cache.Locks() == s.blk
    requires block !in cache.home && block.counters == cache.counters && !block.handlerOpen && block.MemSize() == 0
    modifies cache, cache.home.Keys, cache.counters
    ensures cache.Valid() && n in cache.entries && cache.entries[n].block == block
    ensures EvictsBlks(xs, gone) && Runs(s, xs)
    ensures Enabled(After(s, xs), AddBlk(t)) && cache.Locks() == Apply(After(s, xs), AddBlk(t)).blk
  {
    AtOnce(s, t);
    assert n in cache.Locks() <==> n in cache.entries;
    ghost var full := cache.counters.totalMemory >= cache.maxMemory;
    var released := cache.AddAndLock(n, block, t, now);
    gone := if full then released else {};
    xs := EvictBlks(s, gone);
    AddBlkApplied(After(s, xs), t, n);
  }

  method UnlockBlock(cache: CBlocksCache, ghost s: State, n: Num, t: Thread)
    requires Stands(s, t) && s.pcs[t].HasBlk? && s.pcs[t].n == n
    requires cache.Valid() && cache.Locks() == s.blk
    modifies cache
    ensures cache.Valid() && Enabled(s, ReleaseBlk(t)) && cache.Locks() == Apply(s, ReleaseBlk(t)).blk
  {
    AtOnce(s, t);
    assert n in cache.Locks() <==> n in cache.entries;
    cache.Unlock(n);
  }

  // Cached or not, the block is gone at once.
  method DeleteBlock(cache: CBlocksCache, ghost s: State, n: Num, t: Thread) returns (r: BlocksCache.Attempt)
    requires Stands(s, t) && s.pcs[t].HasAcc? && s.pcs[t].job.DeleteJob? && s.pcs[t].n == n
    requires cache.Valid() && cache.Locks() == s.blk
    modifies cache, cache.home.Keys, cache.counters
    ensures cache.Valid() && !r.Busy?
    ensures Enabled(s, DeleteBlk(t)) && cache.Locks() == Apply(s, DeleteBlk(t)).blk
  {
    AtOnce(s, t);
    assert n in cache.Locks() <==> n in cache.entries;
    DeleteBlkApplied(s, t, n);
    r := cache.Delete(n, t);
  }
}
