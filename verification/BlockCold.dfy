/**
 Adding to a block that was evicted and found again: its header is loaded and its records are not. The new
 buffer has room for ten records and nothing of the old ones is in it.
 */
module BlockCold {
  import opened Bytes
  import opened MsgBlock
  import opened BlockRuns
  import BlockFile
  import BlockInPlace

  // What Add makes of such a block: the value memory holds afterwards and the reply.
  function ColdAdd(b: Block, junk: Junk, now: nat, from: str, id: str): (Block, Reply)
  {
    var r := ColdReply(b.h, from, id);
    if r.Added? then (ColdAdded(b.h, b.file, junk, NewRecord(now, from, id)), r) else (b, r)
  }

  lemma JunkShows(b: Block, junk: Junk, now: nat, from: str, id: str)
    requires ValidArgs(from, id) && 0 < b.h.total < RECORDS_STEP
    requires forall k: nat :: junk(k) != b.recs[0][0]
    ensures ColdAdd(b, junk, now, from, id) != Add(b, now, from, id)
  {
    var r := NewRecord(now, from, id);
    assert ColdAdd(b, junk, now, from, id).0.recs[0] == JunkRecord(junk, 0);
    assert Add(b, now, from, id).0.recs == b.recs + [r];
    assert (b.recs + [r])[0] == b.recs[0];
    assert JunkRecord(junk, 0)[0] == junk(0);
  }

  lemma ColdDiffers(b: Block, now: nat, from: str, id: str) returns (junk: Junk)
    requires Exact(b) && ValidArgs(from, id) && b.h.total > 0 && |Live(b.recs)| < MAX_MSG_IN_BLOCK
    ensures ColdAdd(b, junk, now, from, id) != Add(b, now, from, id)
  {
    var c: byte := if b.recs[0][0] == 0 then 1 else 0;
    junk := k => c;
    if b.h.total < RECORDS_STEP {
      JunkShows(b, junk, now, from, id);
    } else {
      AddFailsExactlyWhenFull(b, now, from, id);
    }
  }

  lemma ColdAgrees(b: Block, junk: Junk, now: nat, from: str, id: str)
    requires Exact(b) && (!ValidArgs(from, id) || b.h.total == 0 || |Live(b.recs)| == MAX_MSG_IN_BLOCK)
    ensures ColdAdd(b, junk, now, from, id) == Add(b, now, from, id)
  {
    if ValidArgs(from, id) && b.h.total == 0 { assert JunkRecords(junk, 0) == b.recs; }
  }

  /**
   Without the records in memory Add is right, whatever the new buffer held before, exactly when there are
   no records, when it refuses its arguments, or when the block is full of live messages anyway.
   */
  lemma ColdAddRight(b: Block, now: nat, from: str, id: str)
    requires Exact(b)
    ensures (forall junk: Junk :: ColdAdd(b, junk, now, from, id) == Add(b, now, from, id))
            <==> !ValidArgs(from, id) || b.h.total == 0 || |Live(b.recs)| == 1024
  {
    if !ValidArgs(from, id) || b.h.total == 0 || |Live(b.recs)| == MAX_MSG_IN_BLOCK {
      forall junk: Junk ensures ColdAdd(b, junk, now, from, id) == Add(b, now, from, id) {
        ColdAgrees(b, junk, now, from, id);
      }
    } else {
      var junk := ColdDiffers(b, now, from, id);
    }
  }

  /** Its write stays inside the buffer exactly when the file holds fewer than ten records. */
  lemma ColdWriteInBounds(b: Block, junk: Junk, now: nat, from: str, id: str)
    requires ValidArgs(from, id) && b.h.total < MAX_MSG_IN_BLOCK
    ensures ColdAdd(b, junk, now, from, id).1 == if b.h.total < 10 then Added else Overrun
  {
  }

  /** A full block with tombstones takes a message when its records are loaded and refuses it when not. */
  lemma ColdRefusesWithSpace(b: Block, junk: Junk, now: nat, from: str, id: str)
    requires Exact(b) && ValidArgs(from, id) && b.h.total == MAX_MSG_IN_BLOCK && b.h.deleted > 0
    ensures Add(b, now, from, id).1 == Added && ColdAdd(b, junk, now, from, id).1 == NoSpace
  {
    AddFailsExactlyWhenFull(b, now, from, id);
  }

  const ZEROS: Junk := k => 0

  lemma ColdListing(b: Block, now: nat, from: str, id: str)
    requires ValidArgs(from, id) && b.h.total < RECORDS_STEP
    ensures GetIds(ColdAdd(b, ZEROS, now, from, id).0, All) == [LineOf(NewRecord(now, from, id))]
  {
    var r, before := NewRecord(now, from, id), JunkRecords(ZEROS, b.h.total);
    assert forall i :: 0 <= i < |before| ==> Status(before[i]) == STATUS_ERROR;
    NothingListed(before, All);
    ListedLast(before, r, All);
    assert Lines([]) + [LineOf(r)] == [LineOf(r)];
  }

  /** In memory that happens to be zero every earlier message disappears from the listing. */
  lemma ColdAddHidesMessages(b: Block, now: nat, from: str, id: str)
    requires ValidArgs(from, id) && 0 < b.h.total < RECORDS_STEP
    ensures var r := NewRecord(now, from, id);
            && GetIds(ColdAdd(b, ZEROS, now, from, id).0, All) == [LineOf(r)]
            && GetIds(Add(b, now, from, id).0, All) == Lines(Listed(b.recs, All)) + [LineOf(r)]
  {
    ColdListing(b, now, from, id);
    ListedLast(b.recs, NewRecord(now, from, id), All);
  }

  /** The run itself: a message, an eviction, another message; the listing shows the second one only. */
  method AddEvictAdd(counters: BlockInPlace.Counters, now: nat, from: str, id: str, later: nat, from2: str, id2: str)
    returns (loaded: BlockInPlace.Load, ids: seq<IdLine>)
    requires ValidArgs(from, id) && ValidArgs(from2, id2)
    modifies counters
    ensures loaded.Loaded? && ids == [LineOf(NewRecord(later, from2, id2))]
  {
    var block := new BlockInPlace.CMsgBlock(counters, [], ZEROS);
    var r := block.Add(now, from, id);
    ghost var first := Append(EMPTY_BLOCK, NewRecord(now, from, id));
    assert block.Value([]) == first;
    assert BlockFile.Mirror(first) by {
      BlockFile.EmptyMirror();
      BlockFile.AppendMirror(EMPTY_BLOCK, NewRecord(now, from, id));
    }
    block.Destruct();
    var again := new BlockInPlace.CMsgBlock(counters, block.file, ZEROS);
    r := again.Add(later, from2, id2);
    ColdAddHidesMessages(first, later, from2, id2);
    loaded, ids := again.GetIds(All, []);
  }
}
