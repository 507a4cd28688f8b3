/**
 What a client of the reply cache sees over a whole run of calls, said by the calls and their answers alone:
 a reply is there from the call that stored it for as long as it is asked for in time, and nothing else is.
 */
module CacheLaws {
  import opened Bytes
  import opened OpenConsCache

  // The map after the first i calls.
  function MapAt(m: Items, ttl: nat, calls: seq<Call>, i: nat): Items
    requires i <= |calls| && forall k :: 0 <= k < |calls| ==> ClientId(calls[k].id)
  {
    if i == 0 then m else Forever(MapAt(m, ttl, calls, i - 1), ttl, calls[i - 1]).0
  }

  lemma {:induction false} ClockIds(t: nat, calls: seq<Call>, k: nat)
    requires Clock(t, calls) && k < |calls|
    ensures ClientId(calls[k].id) && t <= calls[k].now <= calls[k].later
    decreases |calls|
  {
    if k > 0 { ClockIds(calls[0].later, calls[1..], k - 1); }
  }

  lemma {:induction false} ClockOrder(t: nat, calls: seq<Call>, i: nat, j: nat)
    requires Clock(t, calls) && i < j < |calls|
    ensures calls[i].now <= calls[j].now
    decreases |calls|
  {
    if i == 0 {
      ClockIds(calls[0].later, calls[1..], j - 1);
    } else {
      ClockOrder(calls[0].later, calls[1..], i - 1, j - 1);
    }
  }

  lemma AllIds(t: nat, calls: seq<Call>)
    requires Clock(t, calls)
    ensures forall k :: 0 <= k < |calls| ==> ClientId(calls[k].id)
  {
    forall k | 0 <= k < |calls| ensures ClientId(calls[k].id) { ClockIds(t, calls, k); }
  }

  lemma {:induction false} MapAtShift(m: Items, ttl: nat, calls: seq<Call>, i: nat)
    requires i < |calls| && forall k :: 0 <= k < |calls| ==> ClientId(calls[k].id)
    ensures MapAt(m, ttl, calls, i + 1) == MapAt(Forever(m, ttl, calls[0]).0, ttl, calls[1..], i)
  {
    if i > 0 { MapAtShift(m, ttl, calls, i - 1); }
  }

  lemma {:induction false} AnswerAt(m: Items, ttl: nat, t: nat, calls: seq<Call>, j: nat)
    requires Clock(t, calls) && j < |calls| && forall k :: 0 <= k < |calls| ==> ClientId(calls[k].id)
    ensures RunForever(m, ttl, t, calls).1[j] == Forever(MapAt(m, ttl, calls, j), ttl, calls[j]).1
    decreases |calls|
  {
    if j > 0 {
      AnswerAt(Forever(m, ttl, calls[0]).0, ttl, calls[0].later, calls[1..], j - 1);
      MapAtShift(m, ttl, calls, j - 1);
    }
  }

  // The answers of the cache as it runs, pruning whenever it likes.
  function Answers(ttl: nat, calls: seq<Call>, prunes: seq<bool>): (r: seq<Answer>)
    requires Clock(0, calls) && |prunes| == |calls|
    ensures |r| == |calls|
  {
    RunPruned(map[], ttl, 0, calls, prunes).1
  }

  lemma AnswersAre(ttl: nat, calls: seq<Call>, prunes: seq<bool>, j: nat)
    requires Clock(0, calls) && |prunes| == |calls| && j < |calls|
    requires forall k :: 0 <= k < |calls| ==> ClientId(calls[k].id)
    ensures Answers(ttl, calls, prunes)[j] == Forever(MapAt(map[], ttl, calls, j), ttl, calls[j]).1
  {
    PruningInvisible(ttl, calls, prunes);
    AnswerAt(map[], ttl, 0, calls, j);
  }

  // Only Find between these calls, as far as this client goes.
  predicate NoStore(calls: seq<Call>, id: str, i: nat, j: nat)
  {
    forall k :: i < k < j && k < |calls| ==> calls[k].CallFind? || calls[k].id != id
  }

  // The entry of the client stays as it is, and is never used before this time.
  ghost predicate Keeps(m: Items, id: str, item: Item, since: nat)
  {
    id in m && m[id].lastAccess >= since && m[id].(lastAccess := 0) == item.(lastAccess := 0)
  }

  lemma {:induction false} EntryStays(ttl: nat, calls: seq<Call>, id: str, item: Item, since: nat, i: nat, j: nat)
    requires Clock(0, calls) && forall k :: 0 <= k < |calls| ==> ClientId(calls[k].id)
    requires i < j <= |calls| && NoStore(calls, id, i, j) && since <= calls[i].now
    requires Keeps(MapAt(map[], ttl, calls, i + 1), id, item, since)
    ensures Keeps(MapAt(map[], ttl, calls, j), id, item, since)
    decreases j
  {
    if i + 1 < j {
      EntryStays(ttl, calls, id, item, since, i, j - 1);
      ClockOrder(0, calls, i, j - 1);
    }
  }

  /**
   A reply stored by Update is what Find answers until the client's entry is stored anew, whatever other
   clients do and whenever pruning runs, for less than the life time.
   */
  lemma StoredReplyIsFound(ttl: nat, calls: seq<Call>, prunes: seq<bool>, i: nat, j: nat)
    requires Clock(0, calls) && |prunes| == |calls| && i < j < |calls|
    requires calls[i].CallUpdate? && |calls[i].id| == 32 && calls[i].id[0] != 0 && calls[i].seqNum != 0
    requires calls[j].CallFind? && calls[j].id == calls[i].id && calls[j].seqNum == calls[i].seqNum
    requires NoStore(calls, calls[i].id, i, j) && calls[j].now - calls[i].now < ttl
    ensures Answers(ttl, calls, prunes)[j] == Answer(Done, calls[i].error, calls[i].reply)
  {
    AllIds(0, calls);
    AnswersAre(ttl, calls, prunes, j);
    var c := calls[i];
    EntryStays(ttl, calls, c.id, Item(c.seqNum, c.now, c.reply, c.error, Done), c.now, i, j);
  }

  /** And after Add it is "in process". */
  lemma StartedIsInProcess(ttl: nat, calls: seq<Call>, prunes: seq<bool>, i: nat, j: nat)
    requires Clock(0, calls) && |prunes| == |calls| && i < j < |calls|
    requires calls[i].CallAdd? && |calls[i].id| == 32 && calls[i].id[0] != 0 && calls[i].seqNum != 0
    requires calls[j].CallFind? && calls[j].id == calls[i].id && calls[j].seqNum == calls[i].seqNum
    requires NoStore(calls, calls[i].id, i, j) && calls[j].now - calls[i].now < ttl
    ensures Answers(ttl, calls, prunes)[j] == Answer(InProcessing, false, [])
  {
    AllIds(0, calls);
    AnswersAre(ttl, calls, prunes, j);
    var c := calls[i];
    EntryStays(ttl, calls, c.id, Item(c.seqNum, c.now, [], false, InProcessing), c.now, i, j);
  }

  /** Asking in time keeps a reply: a Find that hit makes a later one within the life time answer the same. */
  lemma AskingKeepsAlive(ttl: nat, calls: seq<Call>, prunes: seq<bool>, i: nat, j: nat)
    requires Clock(0, calls) && |prunes| == |calls| && i < j < |calls|
    requires calls[i].CallFind? && calls[j].CallFind?
    requires calls[j].id == calls[i].id && calls[j].seqNum == calls[i].seqNum
    requires NoStore(calls, calls[i].id, i, j) && calls[j].now - calls[i].now < ttl
    requires Answers(ttl, calls, prunes)[i] != Answer(NotFound, false, [])
    ensures Answers(ttl, calls, prunes)[j] == Answers(ttl, calls, prunes)[i]
  {
    AllIds(0, calls);
    AnswersAre(ttl, calls, prunes, i);
    AnswersAre(ttl, calls, prunes, j);
    var c, m := calls[i], MapAt(map[], ttl, calls, i);
    assert MapAt(map[], ttl, calls, i + 1) == m[c.id := m[c.id].(lastAccess := c.now)];
    EntryStays(ttl, calls, c.id, m[c.id], c.now, i, j);
  }

  // ---- and nothing else is found ----

  lemma {:induction false} NothingStored(ttl: nat, calls: seq<Call>, id: str, j: nat)
    requires j <= |calls| && forall k :: 0 <= k < |calls| ==> ClientId(calls[k].id)
    requires forall k :: 0 <= k < j ==> calls[k].CallFind? || calls[k].id != id
    ensures id !in MapAt(map[], ttl, calls, j)
  {
    if j > 0 { NothingStored(ttl, calls, id, j - 1); }
  }

  /** Who was never added or updated is not found. */
  lemma UnknownIsNotFound(ttl: nat, calls: seq<Call>, prunes: seq<bool>, j: nat)
    requires Clock(0, calls) && |prunes| == |calls| && j < |calls| && calls[j].CallFind?
    requires forall k :: 0 <= k < j ==> calls[k].CallFind? || calls[k].id != calls[j].id
    ensures Answers(ttl, calls, prunes)[j] == Answer(NotFound, false, [])
  {
    AllIds(0, calls);
    AnswersAre(ttl, calls, prunes, j);
    NothingStored(ttl, calls, calls[j].id, j);
  }

  /** Only the number stored last is found. */
  lemma OtherNumberIsNotFound(ttl: nat, calls: seq<Call>, prunes: seq<bool>, i: nat, j: nat)
    requires Clock(0, calls) && |prunes| == |calls| && i < j < |calls|
    requires !calls[i].CallFind? && |calls[i].id| == 32 && calls[i].id[0] != 0 && calls[i].seqNum != 0
    requires calls[j].CallFind? && calls[j].id == calls[i].id && calls[j].seqNum != calls[i].seqNum
    requires NoStore(calls, calls[i].id, i, j)
    ensures Answers(ttl, calls, prunes)[j] == Answer(NotFound, false, [])
  {
    AllIds(0, calls);
    AnswersAre(ttl, calls, prunes, j);
    var c := calls[i];
    EntryStays(ttl, calls, c.id, MapAt(map[], ttl, calls, i + 1)[c.id], c.now, i, j);
  }

  // No call of this client between these two.
  predicate Silent(calls: seq<Call>, id: str, i: nat, j: nat)
  {
    forall k :: i < k < j && k < |calls| ==> calls[k].id != id
  }

  lemma {:induction false} EntrySleeps(ttl: nat, calls: seq<Call>, id: str, i: nat, j: nat)
    requires i < j <= |calls| && Silent(calls, id, i, j) && forall k :: 0 <= k < |calls| ==> ClientId(calls[k].id)
    ensures id in MapAt(map[], ttl, calls, j) <==> id in MapAt(map[], ttl, calls, i + 1)
    ensures id in MapAt(map[], ttl, calls, j) ==>
              MapAt(map[], ttl, calls, j)[id] == MapAt(map[], ttl, calls, i + 1)[id]
    decreases j
  {
    if i + 1 < j { EntrySleeps(ttl, calls, id, i, j - 1); }
  }

  lemma {:induction false} NoLaterAccess(ttl: nat, calls: seq<Call>, id: str, i: nat)
    requires Clock(0, calls) && i < |calls| && forall k :: 0 <= k < |calls| ==> ClientId(calls[k].id)
    ensures var m := MapAt(map[], ttl, calls, i + 1); id in m ==> m[id].lastAccess <= calls[i].now
  {
    if i > 0 {
      NoLaterAccess(ttl, calls, id, i - 1);
      ClockOrder(0, calls, i - 1, i);
    }
  }

  /** A client that stays away for the life time is not found any more. */
  lemma SilenceExpires(ttl: nat, calls: seq<Call>, prunes: seq<bool>, i: nat, j: nat)
    requires Clock(0, calls) && |prunes| == |calls| && i < j < |calls| && calls[j].CallFind?
    requires Silent(calls, calls[j].id, i, j) && calls[j].now - calls[i].now >= ttl
    ensures Answers(ttl, calls, prunes)[j] == Answer(NotFound, false, [])
  {
    AllIds(0, calls);
    AnswersAre(ttl, calls, prunes, j);
    EntrySleeps(ttl, calls, calls[j].id, i, j);
    NoLaterAccess(ttl, calls, calls[j].id, i);
  }

  // ---- the calls this is about ----

  // When the call before this one was over.
  function Before(t: nat, calls: seq<Call>, k: nat): nat
    requires k < |calls|
  {
    if k == 0 then t else calls[k - 1].later
  }

  /** Every id of 32 bytes without a zero byte can call, at any times that do not go back. */
  lemma {:induction false} AnyCalls(t: nat, calls: seq<Call>)
    requires forall k :: 0 <= k < |calls| ==>
               |calls[k].id| == 32 && (forall i :: 0 <= i < 32 ==> calls[k].id[i] != 0)
    requires forall k :: 0 <= k < |calls| ==> Before(t, calls, k) <= calls[k].now <= calls[k].later
    ensures Clock(t, calls)
    decreases |calls|
  {
    if calls != [] {
      var rest := calls[1..];
      assert ClientId(calls[0].id) by {
        assert |calls[0].id| == 32 && forall i :: 0 <= i < 32 ==> calls[0].id[i] != 0;
      }
      assert Before(t, calls, 0) == t;
      forall k | 0 <= k < |rest| ensures Before(calls[0].later, rest, k) <= rest[k].now <= rest[k].later {
        assert Before(calls[0].later, rest, k) == Before(t, calls, k + 1) && rest[k] == calls[k + 1];
      }
      AnyCalls(calls[0].later, rest);
    }
  }
}
