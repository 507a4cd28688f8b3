/**
 Storage operations by any number of threads: the locker entry of a number, the lock flag of its account
 item and the lock flag of its block item. One step is one critical section of one of the three mutexes.
 */
module AccountLocks {
  import opened Bytes
  import opened CacheItems

  datatype Job =
    | AddJob              // AddNumber
    | DeleteJob           // DeleteNumber
    | PlainJob            // operations on the account alone
    | MailJob             // operations on the account and its message block
    | SendJob(to: Num)    // SendMsg while it checks the sender; the delivery is a MailJob on `to`

  datatype Pc =
    | Idle
    | Want(n: Num, job: Job)        // in the retry loop of the locker
    | Locked(n: Num, job: Job)      // holds the locker entry, looks for the account item
    | Missed(n: Num, job: Job)      // the item was not cached
    | HasAcc(n: Num, job: Job)      // holds the account item; AddNumber does so only after it has added it
    | BlkMissed(n: Num, job: Job)   // holds the account item, the block was not cached
    | HasBlk(n: Num, job: Job)      // holds account and block item
    | Deleting(n: Num, job: Job)    // the block is deleted, the account item is next
    | Creating(n: Num, job: Job)    // AddNumber after it released the item, still using the account
    | Free(n: Num, job: Job, ok: bool)   // only the locker entry is left

  datatype State = State(locker: map<Num, Thread>, acc: Items, blk: Items, pcs: map<Thread, Pc>)

  datatype Step =
    | Begin(t: Thread, n: Num, job: Job)
    | Lock(t: Thread)
    | FindAcc(t: Thread)                  // an unlocked item, or one this thread locked itself
    | GiveUp(t: Thread)                   // AddNumber found the account file, or no other operation did
    | MissAcc(t: Thread)                  // no item, but the account can be made or loaded
    | AddAcc(t: Thread)
    | FindBlk(t: Thread)
    | MissBlk(t: Thread)
    | AddBlk(t: Thread)
    | ReleaseBlk(t: Thread)
    | DeleteBlk(t: Thread)
    | DeleteAcc(t: Thread)
    | ReleaseAcc(t: Thread, ok: bool)     // the guard's destructor, after success or an exception
    | Finish(t: Thread)                   // AddNumber has created the folder
    | Unlock(t: Thread)
    | EvictAcc(n: Num)                    // a release of unlocked items by some other operation
    | EvictBlk(n: Num)

  predicate At(s: State, t: Thread) { t in s.pcs }

  predicate Enabled(s: State, x: Step)
  {
    match x
    case Begin(t, _, _) => At(s, t) && s.pcs[t].Idle?
    case Lock(t) => At(s, t) && s.pcs[t].Want? && s.pcs[t].n !in s.locker
    case FindAcc(t) => At(s, t) && s.pcs[t].Locked? && Usable(s.acc, s.pcs[t].n, t)
    case GiveUp(t) => At(s, t) && s.pcs[t].Locked? && (s.pcs[t].job.AddJob? || s.pcs[t].n !in s.acc)
    case MissAcc(t) => At(s, t) && s.pcs[t].Locked? && s.pcs[t].n !in s.acc
    case AddAcc(t) => At(s, t) && s.pcs[t].Missed?
    case FindBlk(t) => At(s, t) && s.pcs[t].HasAcc? && s.pcs[t].job.MailJob? && Usable(s.blk, s.pcs[t].n, t)
    case MissBlk(t) => At(s, t) && s.pcs[t].HasAcc? && s.pcs[t].job.MailJob? && s.pcs[t].n !in s.blk
    case AddBlk(t) => At(s, t) && s.pcs[t].BlkMissed?
    case ReleaseBlk(t) => At(s, t) && s.pcs[t].HasBlk?
    case DeleteBlk(t) =>
      At(s, t) && s.pcs[t].HasAcc? && s.pcs[t].job.DeleteJob?
      && (s.pcs[t].n in s.blk ==> Usable(s.blk, s.pcs[t].n, t))
    case DeleteAcc(t) => At(s, t) && s.pcs[t].Deleting? && (s.pcs[t].n in s.acc ==> Usable(s.acc, s.pcs[t].n, t))
    case ReleaseAcc(t, _) => At(s, t) && s.pcs[t].HasAcc?
    case Finish(t) => At(s, t) && s.pcs[t].Creating?
    case Unlock(t) => At(s, t) && s.pcs[t].Free?
    case EvictAcc(n) => n in s.acc && s.acc[n].None?
    case EvictBlk(n) => n in s.blk && s.blk[n].None?
  }

  function Goto(s: State, t: Thread, pc: Pc): State { s.(pcs := s.pcs[t := pc]) }

  function Apply(s: State, x: Step): State
    requires Enabled(s, x)
  {
    match x
    case Begin(t, n, job) => Goto(s, t, Want(n, job))
    case Lock(t) =>
      var pc := s.pcs[t];
      Goto(s, t, Locked(pc.n, pc.job)).(locker := s.locker[pc.n := t])
    case FindAcc(t) =>
      var pc := s.pcs[t];
      // AddNumber only has to release an account it finds
      Goto(s, t, HasAcc(pc.n, if pc.job.AddJob? then PlainJob else pc.job)).(acc := s.acc[pc.n := Some(t)])
    case GiveUp(t) => Goto(s, t, Free(s.pcs[t].n, s.pcs[t].job, false))
    case MissAcc(t) => Goto(s, t, Missed(s.pcs[t].n, s.pcs[t].job))
    case AddAcc(t) =>
      var pc := s.pcs[t];
      // inserting an existing key changes nothing
      Goto(s, t, HasAcc(pc.n, pc.job)).(acc := if pc.n in s.acc then s.acc else s.acc[pc.n := Some(t)])
    case FindBlk(t) =>
      var pc := s.pcs[t];
      Goto(s, t, HasBlk(pc.n, pc.job)).(blk := s.blk[pc.n := Some(t)])
    case MissBlk(t) => Goto(s, t, BlkMissed(s.pcs[t].n, s.pcs[t].job))
    case AddBlk(t) =>
      var pc := s.pcs[t];
      Goto(s, t, HasBlk(pc.n, pc.job)).(blk := if pc.n in s.blk then s.blk else s.blk[pc.n := Some(t)])
    case ReleaseBlk(t) =>
      var pc := s.pcs[t];
      Goto(s, t, HasAcc(pc.n, PlainJob)).(blk := if pc.n in s.blk then s.blk[pc.n := None] else s.blk)
    case DeleteBlk(t) => Goto(s, t, Deleting(s.pcs[t].n, s.pcs[t].job)).(blk := s.blk - {s.pcs[t].n})
    case DeleteAcc(t) => Goto(s, t, Free(s.pcs[t].n, s.pcs[t].job, true)).(acc := s.acc - {s.pcs[t].n})
    case ReleaseAcc(t, ok) =>
      var pc := s.pcs[t];
      Goto(s, t, if pc.job.AddJob? then Creating(pc.n, pc.job) else Free(pc.n, pc.job, ok))
        .(acc := if pc.n in s.acc then s.acc[pc.n := None] else s.acc)
    case Finish(t) => Goto(s, t, Free(s.pcs[t].n, s.pcs[t].job, true))
    case Unlock(t) =>
      var pc := s.pcs[t];
      Goto(s, t, if pc.job.SendJob? && pc.ok then Want(pc.job.to, MailJob) else Idle).(locker := s.locker - {pc.n})
    case EvictAcc(n) => s.(acc := s.acc - {n})
    case EvictBlk(n) => s.(blk := s.blk - {n})
  }

  // ---- the invariant ----

  predicate HoldsEntry(pc: Pc, n: Num) { !pc.Idle? && !pc.Want? && pc.n == n }
  predicate HoldsAcc(pc: Pc, n: Num) { (pc.HasAcc? || pc.BlkMissed? || pc.HasBlk? || pc.Deleting?) && pc.n == n }
  predicate HoldsBlk(pc: Pc, n: Num) { pc.HasBlk? && pc.n == n }

  // What thread t believes about number n is what the three tables say.
  predicate Good(s: State, t: Thread, n: Num)
    requires t in s.pcs
  {
    var pc := s.pcs[t];
    && (HoldsEntry(pc, n) <==> n in s.locker && s.locker[n] == t)
    && (HoldsAcc(pc, n) <==> n in s.acc && s.acc[n] == Some(t))
    && (HoldsBlk(pc, n) <==> n in s.blk && s.blk[n] == Some(t))
    && (pc.Missed? && pc.n == n ==> n !in s.acc)
    && (pc.BlkMissed? && pc.n == n ==> n !in s.blk)
  }

  // Every entry of the three tables names a thread.
  predicate Known(s: State, n: Num)
  {
    && (n in s.locker ==> s.locker[n] in s.pcs)
    && (n in s.acc && s.acc[n].Some? ==> s.acc[n].value in s.pcs)
    && (n in s.blk && s.blk[n].Some? ==> s.blk[n].value in s.pcs)
  }

  ghost predicate Inv(s: State)
  {
    && (forall n :: Known(s, n))
    && (forall t, n :: t in s.pcs ==> Good(s, t, n))
  }

  ghost predicate Init(s: State)
  {
    && s.locker == map[]
    && (forall n :: n in s.acc ==> s.acc[n].None?)
    && (forall n :: n in s.blk ==> s.blk[n].None?)
    && (forall t :: t in s.pcs ==> s.pcs[t].Idle?)
  }

  function ThreadOf(x: Step): Option<Thread>
  {
    match x
    case EvictAcc(_) => None
    case EvictBlk(_) => None
    case _ => Some(x.t)
  }

  // The number a step touches: the thread's own, or the evicted one.
  function NumOf(s: State, x: Step): Num
    requires Enabled(s, x)
  {
    match x
    case EvictAcc(n) => n
    case EvictBlk(n) => n
    case Begin(_, n, _) => n
    case _ => s.pcs[x.t].n
  }

  lemma OwnNumber(s: State, x: Step)
    requires Inv(s) && Enabled(s, x) && ThreadOf(x).Some?
    ensures x.t in s.pcs && Good(Apply(s, x), x.t, NumOf(s, x))
  {
    assert Good(s, x.t, NumOf(s, x)) && Known(s, NumOf(s, x));
  }

  lemma OwnStep(s: State, x: Step, n: Num)
    requires Inv(s) && Enabled(s, x) && ThreadOf(x).Some?
    ensures x.t in s.pcs && Good(Apply(s, x), x.t, n)
  {
    assert Good(s, x.t, n) && Good(s, x.t, NumOf(s, x)) && Known(s, NumOf(s, x));
    if n == NumOf(s, x) { OwnNumber(s, x); }
  }

  lemma OtherStep(s: State, x: Step, t: Thread, n: Num)
    requires Inv(s) && Enabled(s, x) && t in s.pcs && ThreadOf(x) != Some(t)
    ensures Good(Apply(s, x), t, n)
  {
    assert Good(s, t, n);
    if ThreadOf(x).Some? {
      assert Good(s, x.t, n) && Known(s, n);
    }
  }

  lemma KnownStep(s: State, x: Step, n: Num)
    requires Inv(s) && Enabled(s, x)
    ensures Known(Apply(s, x), n)
  {
    assert Known(s, n);
  }

  /** Every critical section of every thread keeps the invariant. */
  lemma InvStep(s: State, x: Step)
    requires Inv(s) && Enabled(s, x)
    ensures Inv(Apply(s, x))
  {
    var r := Apply(s, x);
    forall n ensures Known(r, n) { KnownStep(s, x, n); }
    forall t, n | t in r.pcs ensures Good(r, t, n) {
      if ThreadOf(x) == Some(t) { OwnStep(s, x, n); } else { OtherStep(s, x, t, n); }
    }
  }

  ghost predicate IsRun(states: seq<State>, steps: seq<Step>)
  {
    && |states| == |steps| + 1
    && Init(states[0])
    && forall i :: 0 <= i < |steps| ==> Enabled(states[i], steps[i]) && states[i + 1] == Apply(states[i], steps[i])
  }

  lemma {:induction false} RunInv(states: seq<State>, steps: seq<Step>, i: nat)
    requires IsRun(states, steps) && i <= |steps|
    ensures Inv(states[i])
  {
    if i > 0 {
      RunInv(states, steps, i - 1);
      InvStep(states[i - 1], steps[i - 1]);
    }
  }

  // ---- what follows ----

  /** A locked account or block item means that the same thread holds the number's locker entry. */
  lemma LockedItemsAreCovered(states: seq<State>, steps: seq<Step>, i: nat, n: Num)
    requires IsRun(states, steps) && i <= |steps|
    ensures var s := states[i];
            && (n in s.acc && s.acc[n].Some? ==> n in s.locker && s.locker[n] == s.acc[n].value)
            && (n in s.blk && s.blk[n].Some? ==> n in s.locker && s.locker[n] == s.blk[n].value)
  {
    RunInv(states, steps, i);
    var s := states[i];
    assert Known(s, n);
    if n in s.acc && s.acc[n].Some? { assert Good(s, s.acc[n].value, n); }
    if n in s.blk && s.blk[n].Some? { assert Good(s, s.blk[n].value, n); }
  }

  /** No search waits for another thread's item, and no insertion meets an existing key. */
  lemma FindNeverWaits(states: seq<State>, steps: seq<Step>, i: nat, t: Thread)
    requires IsRun(states, steps) && i <= |steps| && t in states[i].pcs
    ensures var s, pc := states[i], states[i].pcs[t];
            && (pc.Locked? && pc.n in s.acc ==> s.acc[pc.n].None?)
            && (pc.HasAcc? && pc.n in s.blk ==> s.blk[pc.n].None?)
            && (pc.Missed? ==> pc.n !in s.acc)
            && (pc.BlkMissed? ==> pc.n !in s.blk)
            && (pc.Deleting? ==> Usable(s.acc, pc.n, t))
  {
    RunInv(states, steps, i);
    var pc := states[i].pcs[t];
    if !pc.Idle? {
      assert Good(states[i], t, pc.n);
      LockedItemsAreCovered(states, steps, i, pc.n);
    }
  }

  /** Two threads never work on the same number at once, and a waiting thread holds nothing. */
  lemma MutualExclusion(states: seq<State>, steps: seq<Step>, i: nat, t: Thread, u: Thread, n: Num)
    requires IsRun(states, steps) && i <= |steps| && t in states[i].pcs && u in states[i].pcs
    ensures HoldsEntry(states[i].pcs[t], n) && HoldsEntry(states[i].pcs[u], n) ==> t == u
    ensures states[i].pcs[t].Want? && n in states[i].locker ==> states[i].locker[n] != t
  {
    RunInv(states, steps, i);
    assert Good(states[i], t, n) && Good(states[i], u, n);
  }

  // How many critical sections a thread can still pass before it gives its locker entry back.
  function Rank(pc: Pc): nat
  {
    match pc
    case Locked(_, _) => 8
    case Missed(_, _) => 7
    case HasAcc(_, job) => if job.MailJob? then 6 else 3
    case BlkMissed(_, _) => 5
    case HasBlk(_, _) => 4
    case Deleting(_, _) => 2
    case Creating(_, _) => 2
    case Free(_, _, _) => 1
    case _ => 0
  }

  // A step that a thread in the middle of an operation can take.
  function NextStep(s: State, t: Thread): Step
    requires t in s.pcs && !s.pcs[t].Idle? && !s.pcs[t].Want?
  {
    match s.pcs[t]
    case Locked(n, _) => if n in s.acc then FindAcc(t) else MissAcc(t)
    case Missed(_, _) => AddAcc(t)
    case HasAcc(n, job) =>
      if job.MailJob? then (if n in s.blk then FindBlk(t) else MissBlk(t))
      else if job.DeleteJob? then DeleteBlk(t)
      else ReleaseAcc(t, true)
    case BlkMissed(_, _) => AddBlk(t)
    case HasBlk(_, _) => ReleaseBlk(t)
    case Deleting(_, _) => DeleteAcc(t)
    case Creating(_, _) => Finish(t)
    case _ => Unlock(t)
  }

  lemma HolderCanMove(states: seq<State>, steps: seq<Step>, i: nat, t: Thread)
    requires IsRun(states, steps) && i <= |steps| && t in states[i].pcs
    requires !states[i].pcs[t].Idle? && !states[i].pcs[t].Want?
    ensures Enabled(states[i], NextStep(states[i], t))
  {
    FindNeverWaits(states, steps, i, t);
  }

  /**
   No deadlock: in every reachable state a thread that holds a locker entry can go on with its operation,
   and a thread that waits can move unless the entry is held by another thread, which can go on.
   */
  lemma DeadlockFree(states: seq<State>, steps: seq<Step>, i: nat, t: Thread)
    requires IsRun(states, steps) && i <= |steps| && t in states[i].pcs && !states[i].pcs[t].Idle?
    ensures var s := states[i];
            if !s.pcs[t].Want? then Enabled(s, NextStep(s, t))
            else if s.pcs[t].n !in s.locker then Enabled(s, Lock(t))
            else var u := s.locker[s.pcs[t].n];
                 u != t && u in s.pcs && HoldsEntry(s.pcs[u], s.pcs[t].n) && Enabled(s, NextStep(s, u))
  {
    RunInv(states, steps, i);
    var s := states[i];
    var n := s.pcs[t].n;
    assert Known(s, n) && Good(s, t, n);
    if !s.pcs[t].Want? {
      HolderCanMove(states, steps, i, t);
    } else if n in s.locker {
      assert Good(s, s.locker[n], n);
      HolderCanMove(states, steps, i, s.locker[n]);
    }
  }

  /** Whatever a holder does next brings it closer to giving its entry back; other threads do not push it back. */
  lemma HolderProgress(s: State, x: Step, t: Thread)
    requires Enabled(s, x) && t in s.pcs && Rank(s.pcs[t]) > 0
    ensures ThreadOf(x) == Some(t) ==> Apply(s, x).pcs[t].Want? || Rank(Apply(s, x).pcs[t]) < Rank(s.pcs[t])
    ensures ThreadOf(x) != Some(t) ==> Apply(s, x).pcs[t] == s.pcs[t]
  {
  }

  // ---- the account AddNumber keeps using ----

  // The thread uses the cached account object of this number.
  predicate UsesAcc(pc: Pc, n: Num) { HoldsAcc(pc, n) || (pc.Creating? && pc.n == n) }

  /** A used account is cached and locked by its user, except after AddNumber has released it. */
  lemma UsedAccountIsLocked(states: seq<State>, steps: seq<Step>, i: nat, t: Thread, n: Num)
    requires IsRun(states, steps) && i <= |steps| && t in states[i].pcs && UsesAcc(states[i].pcs[t], n)
    ensures (n in states[i].acc && states[i].acc[n] == Some(t)) <==> !states[i].pcs[t].Creating?
  {
    RunInv(states, steps, i);
    assert Good(states[i], t, n);
  }

  // ---- the locker itself ----

  datatype LockCode = LOCK_OK | LOCK_SHUTDOWN | Retry

  class CAccountLocker {
    var entries: set<Num>
    var shutDown: bool

    constructor ()
      ensures entries == {} && !shutDown
    {
      entries, shutDown := {}, false;
    }

    method ShutDown()
      modifies this`shutDown
      ensures shutDown
    {
      shutDown := true;
    }

    // One turn of the loop of Lock: another turn follows while the number is still locked.
    method TryLock(n: Num) returns (r: LockCode)
      modifies this`entries
      ensures r == if shutDown then LOCK_SHUTDOWN else if n in old(entries) then Retry else LOCK_OK
      ensures entries == if r == LOCK_OK then old(entries) + {n} else old(entries)
    {
      if shutDown { return LOCK_SHUTDOWN; }
      if n !in entries {
        entries := entries + {n};
        return LOCK_OK;
      }
      r := Retry;
    }

    method Unlock(n: Num) returns (r: LockCode)
      modifies this`entries
      ensures r == if shutDown then LOCK_SHUTDOWN else LOCK_OK
      ensures entries == if shutDown then old(entries) else old(entries) - {n}
    {
      if shutDown { return LOCK_SHUTDOWN; }
      entries := entries - {n};
      r := LOCK_OK;
    }
  }

  /** While the storage is not shutting down, the locker's entries and the state machine's move together. */
  method LockerStep(k: CAccountLocker, s: State, x: Step) returns (r: LockCode)
    requires !k.shutDown && k.entries == s.locker.Keys && (x.Lock? || x.Unlock?) && x.t in s.pcs
    requires if x.Lock? then s.pcs[x.t].Want? else Enabled(s, x)
    modifies k
    ensures r == (if Enabled(s, x) then LOCK_OK else Retry)
    ensures k.entries == if Enabled(s, x) then Apply(s, x).locker.Keys else s.locker.Keys
  {
    var n := s.pcs[x.t].n;
    if x.Lock? { r := k.TryLock(n); } else { r := k.Unlock(n); }
  }
}
