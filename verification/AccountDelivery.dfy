/**
 SendMsg in two parts: it checks the sender under the sender's entry and delivers under the receiver's. What
 follows the first part is the second one, and nothing of the sender's can stand in its way.
 */
module AccountDelivery {
  import opened Bytes
  import opened CacheItems
  import opened AccountLocks
  import opened StorageSteps

  lemma OthersLeave(s: State, x: AccountLocks.Step, t: Thread)
    requires Enabled(s, x) && t in s.pcs && ThreadOf(x) != Some(t)
    ensures t in Apply(s, x).pcs && Apply(s, x).pcs[t] == s.pcs[t]
  {
  }

  lemma OnlyUnlock(s: State, x: AccountLocks.Step, t: Thread, n: Num, to: Num)
    requires Enabled(s, x) && t in s.pcs && ThreadOf(x) == Some(t) && s.pcs[t] == Free(n, SendJob(to), true)
    ensures x == AccountLocks.Unlock(t) && Apply(s, x).pcs[t] == Want(to, MailJob)
  {
  }

  lemma OnlyLock(s: State, x: AccountLocks.Step, t: Thread, to: Num)
    requires Enabled(s, x) && t in s.pcs && ThreadOf(x) == Some(t) && s.pcs[t] == Want(to, MailJob)
    ensures Apply(s, x).pcs[t] == Locked(to, MailJob)
    ensures to in Apply(s, x).locker && Apply(s, x).locker[to] == t
  {
  }

  // The thread holds the receiver's entry and looks for its account.
  ghost predicate Delivers(s: State, t: Thread, to: Num)
  {
    t in s.pcs && s.pcs[t] == Locked(to, MailJob) && to in s.locker && s.locker[to] == t
  }

  lemma {:induction false} WantDelivers(states: seq<State>, steps: seq<AccountLocks.Step>, i: nat, j: nat, t: Thread,
                                        to: Num) returns (k: nat)
    requires IsRun(states, steps) && i < j <= |steps| && t in states[i].pcs && t in states[j].pcs
    requires states[i].pcs[t] == Want(to, MailJob) && states[j].pcs[t].Idle?
    ensures i < k < j && Delivers(states[k], t, to)
    decreases j - i
  {
    var s, x := states[i], steps[i];
    if ThreadOf(x) == Some(t) {
      OnlyLock(s, x, t, to);
      k := i + 1;
    } else {
      OthersLeave(s, x, t);
      k := WantDelivers(states, steps, i + 1, j, t, to);
    }
  }

  /**
   In every run: a SendMsg that has checked its sender does not end before it has locked the receiver, the
   sender's own number included, to deliver.
   */
  lemma {:induction false} SendDelivers(states: seq<State>, steps: seq<AccountLocks.Step>, i: nat, j: nat, t: Thread,
                                        n: Num, to: Num) returns (k: nat)
    requires IsRun(states, steps) && i < j <= |steps| && t in states[i].pcs && t in states[j].pcs
    requires states[i].pcs[t] == Free(n, SendJob(to), true) && states[j].pcs[t].Idle?
    ensures i < k < j && Delivers(states[k], t, to)
    decreases j - i
  {
    var s, x := states[i], steps[i];
    if ThreadOf(x) == Some(t) {
      OnlyUnlock(s, x, t, n, to);
      k := WantDelivers(states, steps, i + 1, j, t, to);
    } else {
      OthersLeave(s, x, t);
      k := SendDelivers(states, steps, i + 1, j, t, n, to);
    }
  }

  // A SendMsg whose sender has not been found good yet, or is not.
  predicate Unchecked(pc: Pc, n: Num, to: Num)
  {
    pc.Idle? || pc == Want(n, SendJob(to)) || pc == Locked(n, SendJob(to)) || pc == Missed(n, SendJob(to))
    || pc == HasAcc(n, SendJob(to)) || pc == Free(n, SendJob(to), false)
  }

  lemma StaysUnchecked(s: State, x: AccountLocks.Step, t: Thread, n: Num, to: Num)
    requires Enabled(s, x) && t in s.pcs && Unchecked(s.pcs[t], n, to) && ThreadOf(x) == Some(t) && !x.Begin?
    ensures t in Apply(s, x).pcs
    ensures if x == ReleaseAcc(t, true) then s.pcs[t] == HasAcc(n, SendJob(to))
            else Unchecked(Apply(s, x).pcs[t], n, to)
  {
  }

  predicate NoBegin(steps: seq<AccountLocks.Step>, i: nat, j: nat, t: Thread)
  {
    forall k :: i <= k < j && k < |steps| ==> !(steps[k].Begin? && steps[k].t == t)
  }

  /**
   In every run: a SendMsg delivers only after it has held its sender's account and released it as good; when
   the sender is not found, or its pin is wrong, nothing of the receiver is locked.
   */
  lemma {:induction false} DeliveryWasChecked(states: seq<State>, steps: seq<AccountLocks.Step>, i: nat, j: nat,
                                              t: Thread, n: Num, to: Num) returns (k: nat)
    requires IsRun(states, steps) && i <= j <= |steps| && NoBegin(steps, i, j, t)
    requires t in states[i].pcs && Unchecked(states[i].pcs[t], n, to)
    requires t in states[j].pcs && !Unchecked(states[j].pcs[t], n, to)
    ensures i <= k < j && steps[k] == ReleaseAcc(t, true)
    ensures t in states[k].pcs && states[k].pcs[t] == HasAcc(n, SendJob(to))
    decreases j - i
  {
    var s, x := states[i], steps[i];
    if ThreadOf(x) == Some(t) {
      StaysUnchecked(s, x, t, n, to);
      if x == ReleaseAcc(t, true) { k := i; } else { k := DeliveryWasChecked(states, steps, i + 1, j, t, n, to); }
    } else {
      OthersLeave(s, x, t);
      k := DeliveryWasChecked(states, steps, i + 1, j, t, n, to);
    }
  }

  /** What an operation reports: success only where its work is done, and the account's own verdict otherwise. */
  lemma Outcome(s: State, x: AccountLocks.Step, t: Thread)
    requires Enabled(s, x) && ThreadOf(x) == Some(t) && t in s.pcs && t in Apply(s, x).pcs
    ensures var pc := Apply(s, x).pcs[t];
            pc.Free? ==> pc.ok == (x.Finish? || x.DeleteAcc? || (x.ReleaseAcc? && x.ok))
  {
  }

  /** A number that is not cached may turn out not to exist; then the operation ends without having locked it. */
  lemma MissingNumberEnds(s: State, t: Thread)
    requires t in s.pcs && s.pcs[t].Locked? && s.pcs[t].n !in s.acc
    ensures Runs(s, [GiveUp(t)])
    ensures After(s, [GiveUp(t)]) == s.(pcs := s.pcs[t := Free(s.pcs[t].n, s.pcs[t].job, false)])
  {
    assert [GiveUp(t)][1..] == [];
  }

  // On its way from the receiver's entry to its block.
  predicate Delivering(s: State, t: Thread, to: Num)
  {
    t in s.pcs && (s.pcs[t] == Locked(to, MailJob) || s.pcs[t] == Missed(to, MailJob)
                   || s.pcs[t] == HasAcc(to, MailJob) || s.pcs[t] == BlkMissed(to, MailJob))
  }

  // The step it can take next.
  function Onward(s: State, t: Thread, to: Num): AccountLocks.Step
    requires Delivering(s, t, to)
  {
    match s.pcs[t]
    case Locked(_, _) => if to in s.acc then FindAcc(t) else MissAcc(t)
    case Missed(_, _) => AddAcc(t)
    case HasAcc(_, _) => if to in s.blk then FindBlk(t) else MissBlk(t)
    case _ => AddBlk(t)
  }

  lemma OnwardStep(s: State, t: Thread, to: Num)
    requires Reachable(s) && Delivering(s, t, to)
    ensures var x := Onward(s, t, to);
            && Enabled(s, x) && ThreadOf(x) == Some(t)
            && var r := Apply(s, x);
               (Delivering(r, t, to) && Rank(r.pcs[t]) < Rank(s.pcs[t]))
               || (t in r.pcs && r.pcs[t] == HasBlk(to, MailJob))
  {
    AtOnce(s, t);
  }

  // All steps are this thread's own.
  predicate Own(xs: seq<AccountLocks.Step>, t: Thread)
  {
    forall i :: 0 <= i < |xs| ==> ThreadOf(xs[i]) == Some(t)
  }

  lemma {:induction false} Arrives(s: State, t: Thread, to: Num) returns (xs: seq<AccountLocks.Step>)
    requires Reachable(s) && Delivering(s, t, to)
    ensures Runs(s, xs) && Own(xs, t)
    ensures var r := After(s, xs); t in r.pcs && r.pcs[t] == HasBlk(to, MailJob)
    decreases Rank(s.pcs[t])
  {
    var x := Onward(s, t, to);
    OnwardStep(s, t, to);
    ReachableStep(s, x);
    var r := Apply(s, x);
    var ys: seq<AccountLocks.Step> := [];
    if Delivering(r, t, to) { ys := Arrives(r, t, to); }
    xs := [x] + ys;
    assert xs[1..] == ys;
  }

  lemma UnlockToWant(s: State, t: Thread, n: Num, to: Num)
    requires t in s.pcs && s.pcs[t] == Free(n, SendJob(to), true)
    ensures Enabled(s, AccountLocks.Unlock(t))
    ensures Apply(s, AccountLocks.Unlock(t)) == s.(pcs := s.pcs[t := Want(to, MailJob)], locker := s.locker - {n})
  {
  }

  lemma LockToDeliver(s: State, t: Thread, to: Num)
    requires t in s.pcs && s.pcs[t] == Want(to, MailJob) && to !in s.locker
    ensures Enabled(s, Lock(t)) && Delivering(Apply(s, Lock(t)), t, to)
  {
  }

  /**
   From every reachable state, if no other thread holds the receiver's number, the sender's steps alone lead
   to the receiver's block, cached or not; sending to oneself included.
   */
  lemma SendCanDeliver(s: State, t: Thread, n: Num, to: Num) returns (xs: seq<AccountLocks.Step>)
    requires Reachable(s) && t in s.pcs && s.pcs[t] == Free(n, SendJob(to), true)
    requires to in s.locker ==> s.locker[to] == t
    ensures Runs(s, xs) && Own(xs, t)
    ensures var r := After(s, xs); t in r.pcs && r.pcs[t] == HasBlk(to, MailJob)
  {
    OwnEntry(s, t, n, to);
    UnlockToWant(s, t, n, to);
    ReachableStep(s, AccountLocks.Unlock(t));
    var ys := LocksAndArrives(Apply(s, AccountLocks.Unlock(t)), t, to);
    StepThenRuns(s, AccountLocks.Unlock(t), ys);
    xs := [AccountLocks.Unlock(t)] + ys;
  }

  lemma LocksAndArrives(s: State, t: Thread, to: Num) returns (xs: seq<AccountLocks.Step>)
    requires Reachable(s) && t in s.pcs && s.pcs[t] == Want(to, MailJob) && to !in s.locker
    ensures Runs(s, xs) && Own(xs, t)
    ensures var r := After(s, xs); t in r.pcs && r.pcs[t] == HasBlk(to, MailJob)
  {
    LockToDeliver(s, t, to);
    ReachableStep(s, Lock(t));
    var ys := Arrives(Apply(s, Lock(t)), t, to);
    StepThenRuns(s, Lock(t), ys);
    xs := [Lock(t)] + ys;
  }

  lemma StepThenRuns(s: State, x: AccountLocks.Step, xs: seq<AccountLocks.Step>)
    requires Enabled(s, x) && Runs(Apply(s, x), xs)
    ensures Runs(s, [x] + xs) && After(s, [x] + xs) == After(Apply(s, x), xs)
  {
    assert ([x] + xs)[1..] == xs;
  }

  // The only entry a thread holds is that of the number it works on.
  lemma OwnEntry(s: State, t: Thread, n: Num, to: Num)
    requires Reachable(s) && t in s.pcs && s.pcs[t] == Free(n, SendJob(to), true)
    ensures to in s.locker && s.locker[to] == t ==> to == n
  {
    var states: seq<State>, steps: seq<AccountLocks.Step> :| IsRun(states, steps) && states[|steps|] == s;
    RunInv(states, steps, |steps|);
    assert Good(s, t, to);
  }

  // ---- every operation can run its course ----

  /** An operation on messages gets from nothing to the block of its number, if nobody else holds that. */
  lemma MailCanStart(s: State, t: Thread, n: Num) returns (xs: seq<AccountLocks.Step>)
    requires Reachable(s) && t in s.pcs && s.pcs[t] == Idle && n !in s.locker
    ensures Runs(s, xs) && Own(xs, t)
    ensures var r := After(s, xs); t in r.pcs && r.pcs[t] == HasBlk(n, MailJob)
  {
    var x := Begin(t, n, MailJob);
    ReachableStep(s, x);
    var ys := LocksAndArrives(Apply(s, x), t, n);
    StepThenRuns(s, x, ys);
    xs := [x] + ys;
  }

  // The step of an operation that ends with the entry given back; what it leaves behind on the way.
  lemma NextKeeps(s: State, t: Thread)
    requires Reachable(s) && t in s.pcs && Rank(s.pcs[t]) > 0
    ensures var x, n := NextStep(s, t), s.pcs[t].n;
            && Enabled(s, x) && ThreadOf(x) == Some(t)
            && var r := Apply(s, x);
               && t in r.pcs
               && (if s.pcs[t].Free? then r.locker == s.locker - {n} && (r.pcs[t].Idle? || r.pcs[t].Want?)
                   else r.locker == s.locker && 0 < Rank(r.pcs[t]) < Rank(s.pcs[t]) && r.pcs[t].n == n)
  {
    HolderCan(s, t);
    if s.pcs[t].Free? { UnlockKeeps(s, t); } else { HoldingKeeps(s, t); }
  }

  lemma UnlockKeeps(s: State, t: Thread)
    requires t in s.pcs && s.pcs[t].Free?
    ensures var x, n := AccountLocks.Unlock(t), s.pcs[t].n;
            && NextStep(s, t) == x && Enabled(s, x)
            && var r := Apply(s, x);
               t in r.pcs && r.locker == s.locker - {n} && (r.pcs[t].Idle? || r.pcs[t].Want?)
  {
  }

  lemma HoldingKeeps(s: State, t: Thread)
    requires t in s.pcs && Rank(s.pcs[t]) > 0 && !s.pcs[t].Free? && Enabled(s, NextStep(s, t))
    ensures var x := NextStep(s, t);
            && ThreadOf(x) == Some(t)
            && var r := Apply(s, x);
               t in r.pcs && r.locker == s.locker && 0 < Rank(r.pcs[t]) < Rank(s.pcs[t]) && r.pcs[t].n == s.pcs[t].n
  {
  }

  lemma HolderCan(s: State, t: Thread)
    requires Reachable(s) && t in s.pcs && Rank(s.pcs[t]) > 0
    ensures Enabled(s, NextStep(s, t))
  {
    var states: seq<State>, steps: seq<AccountLocks.Step> :| IsRun(states, steps) && states[|steps|] == s;
    HolderCanMove(states, steps, |steps|, t);
  }

  /**
   A thread that holds a number's entry can give it back by its own steps alone; then neither the account nor
   the block of any number is locked by it.
   */
  lemma {:induction false} HolderCanFinish(s: State, t: Thread) returns (xs: seq<AccountLocks.Step>)
    requires Reachable(s) && t in s.pcs && Rank(s.pcs[t]) > 0
    ensures Runs(s, xs) && Own(xs, t)
    ensures var r := After(s, xs);
            && t in r.pcs && (r.pcs[t].Idle? || r.pcs[t].Want?) && r.locker == s.locker - {s.pcs[t].n}
            && (forall m :: m in r.acc ==> r.acc[m] != Some(t)) && (forall m :: m in r.blk ==> r.blk[m] != Some(t))
    decreases Rank(s.pcs[t])
  {
    var x := NextStep(s, t);
    NextKeeps(s, t);
    ReachableStep(s, x);
    var r := Apply(s, x);
    if s.pcs[t].Free? {
      xs := [x];
      assert xs[1..] == [];
      HoldsNothing(r, t);
    } else {
      var ys := HolderCanFinish(r, t);
      xs := [x] + ys;
      assert xs[1..] == ys;
    }
  }

  lemma HoldsNothing(s: State, t: Thread)
    requires Reachable(s) && t in s.pcs && (s.pcs[t].Idle? || s.pcs[t].Want?)
    ensures (forall m :: m in s.acc ==> s.acc[m] != Some(t)) && (forall m :: m in s.blk ==> s.blk[m] != Some(t))
  {
    var states: seq<State>, steps: seq<AccountLocks.Step> :| IsRun(states, steps) && states[|steps|] == s;
    RunInv(states, steps, |steps|);
    forall m ensures m in s.acc ==> s.acc[m] != Some(t) { assert Good(s, t, m); }
    forall m ensures m in s.blk ==> s.blk[m] != Some(t) { assert Good(s, t, m); }
  }

  /** A deletion ends with neither account nor block of its number in the caches. */
  lemma DeletionEmptiesCaches(states: seq<State>, steps: seq<AccountLocks.Step>, i: nat, t: Thread, n: Num)
    requires IsRun(states, steps) && i < |steps| && steps[i] == DeleteAcc(t)
    requires t in states[i].pcs && states[i].pcs[t].n == n
    ensures n !in states[i + 1].acc && n !in states[i + 1].blk && states[i + 1].pcs[t] == Free(n, DeleteJob, true)
  {
    RunDeleting(states, steps, i, t);
  }

  // Between the two deletions nobody can cache the block again.
  lemma {:induction false} RunDeleting(states: seq<State>, steps: seq<AccountLocks.Step>, i: nat, t: Thread)
    requires IsRun(states, steps) && i <= |steps| && t in states[i].pcs && states[i].pcs[t].Deleting?
    ensures states[i].pcs[t].n !in states[i].blk && states[i].pcs[t].job.DeleteJob?
    decreases i
  {
    if i > 0 {
      var s, x := states[i - 1], steps[i - 1];
      RunInv(states, steps, i - 1);
      if ThreadOf(x) == Some(t) {
        OnlyDeleteBlk(s, x, t);
      } else {
        OthersLeft(s, x, t);
        RunDeleting(states, steps, i - 1, t);
        OthersBlock(s, x, t);
      }
    }
  }

  lemma OnlyDeleteBlk(s: State, x: AccountLocks.Step, t: Thread)
    requires Enabled(s, x) && ThreadOf(x) == Some(t) && Apply(s, x).pcs[t].Deleting?
    ensures s.pcs[t].n == Apply(s, x).pcs[t].n && s.pcs[t].n !in Apply(s, x).blk && Apply(s, x).pcs[t].job.DeleteJob?
  {
  }

  lemma OthersLeft(s: State, x: AccountLocks.Step, t: Thread)
    requires Enabled(s, x) && ThreadOf(x) != Some(t) && t in Apply(s, x).pcs
    ensures t in s.pcs && Apply(s, x).pcs[t] == s.pcs[t]
  {
  }

  lemma OthersBlock(s: State, x: AccountLocks.Step, t: Thread)
    requires Inv(s) && Enabled(s, x) && ThreadOf(x) != Some(t) && t in s.pcs && s.pcs[t].Deleting?
    requires s.pcs[t].n !in s.blk
    ensures s.pcs[t].n !in Apply(s, x).blk
  {
    var n := s.pcs[t].n;
    assert Good(s, t, n);
    if ThreadOf(x).Some? { assert x.t in s.pcs && Good(s, x.t, n); }
  }
}
