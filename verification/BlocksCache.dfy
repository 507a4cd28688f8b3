/**
 The block cache: locks, the global counters of memory and open handles, and the release of handles. Its
 entries hold the block objects themselves; every block adds to and subtracts from the same two counters,
 and the counters stay the sums over all blocks in the cache whatever is done to any of them.
 */
module BlocksCache {
  import opened Bytes
  import opened CacheItems
  import opened BlockInPlace
  import MsgBlock

  const MAX_ADDED_TO_CHECK_HANDLES := 512

  // An entry of the cache.
  datatype Entry = Entry(block: CMsgBlock, lockedBy: Option<Thread>, lastAccess: nat)

  // What can be seen of an entry: of the block, whether its handle is open and how much memory it holds.
  datatype Blk = Blk(open: bool, mem: nat)
  datatype Item = Item(block: Blk, lockedBy: Option<Thread>, lastAccess: nat)
  datatype Attempt = Got | Missing | Busy

  type Blocks = map<Num, Item>

  function MemOf(i: Item): nat { i.block.mem }
  function OpenOf(i: Item): nat { if i.block.open then 1 else 0 }

  // Unlocked items whose block has an open handle.
  function FreeOpen(items: Blocks): set<Num>
  {
    set n | n in items && items[n].lockedBy.None? && items[n].block.open
  }

  // The scan of a release asks every unlocked item for its block, which counts as an access.
  function Refreshed(items: Blocks, now: nat): Blocks
  {
    map n | n in items :: if items[n].lockedBy.None? then items[n].(lastAccess := now) else items[n]
  }

  function Closed(items: Blocks, ns: set<Num>): Blocks
  {
    map n | n in items :: if n in ns then items[n].(block := items[n].block.(open := false)) else items[n]
  }

  // Handles closed, or the whole blocks dropped.
  function Freed(items: Blocks, ns: set<Num>, memoryFull: bool): Blocks
  {
    if memoryFull then items - ns else Closed(items, ns)
  }

  function AfterRelease(items: Blocks, now: nat, released: set<Num>, memoryFull: bool): Blocks
  {
    Freed(Refreshed(items, now), released, memoryFull)
  }

  function LocksOf(entries: map<Num, Entry>): Items { map n | n in entries :: entries[n].lockedBy }

  function LocksSeen(items: Blocks): Items { map n | n in items :: items[n].lockedBy }

  lemma LocksWithNew(items: Blocks, n: Num, t: Thread, now: nat)
    ensures LocksSeen(WithNew(items, n, t, now))
            == if n in items then LocksSeen(items) else LocksSeen(items)[n := Some(t)]
  {
  }

  lemma LocksFreed(items: Blocks, now: nat, released: set<Num>, memoryFull: bool)
    ensures LocksSeen(AfterRelease(items, now, released, memoryFull))
            == LocksSeen(items) - if memoryFull then released else {}
  {
  }

  lemma LocksSet(entries: map<Num, Entry>, n: Num, e: Entry)
    ensures LocksOf(entries[n := e]) == LocksOf(entries)[n := e.lockedBy]
    ensures LocksOf(entries - {n}) == LocksOf(entries) - {n}
  {
  }

  function Accessed(e: Entry, now: nat): Entry { if e.lockedBy.None? then e.(lastAccess := now) else e }

  function RefreshedEntries(entries: map<Num, Entry>, now: nat): map<Num, Entry>
  {
    map n | n in entries :: Accessed(entries[n], now)
  }

  function NewItem(t: Thread, now: nat): Item { Item(Blk(false, 0), Some(t), now) }

  /**
   A release leaves locked items as they are, and the others locked by nobody; what it released is closed, or
   gone if memory was full, and the rest was only accessed.
   */
  lemma ReleaseSparesLocked(items: Blocks, now: nat, released: set<Num>, memoryFull: bool, n: Num)
    requires released <= FreeOpen(items)
    ensures n in items && items[n].lockedBy.Some? ==>
              && n in AfterRelease(items, now, released, memoryFull)
              && AfterRelease(items, now, released, memoryFull)[n] == items[n]
    ensures n in AfterRelease(items, now, released, memoryFull) ==>
              n in items && AfterRelease(items, now, released, memoryFull)[n].lockedBy == items[n].lockedBy
    ensures n in released ==>
              var after := AfterRelease(items, now, released, memoryFull);
              if memoryFull then n !in after
              else n in after && after[n] == Item(Blk(false, items[n].block.mem), None, now)
    ensures n in items && items[n].lockedBy.None? && n !in released ==>
              n in AfterRelease(items, now, released, memoryFull)
              && AfterRelease(items, now, released, memoryFull)[n] == Item(items[n].block, None, now)
  {
  }

  function WithNew(items: Blocks, n: Num, t: Thread, now: nat): Blocks
  {
    if n in items then items else items[n := NewItem(t, now)]
  }

  ghost function Seen(e: Entry): Item
    reads e.block
  {
    Item(Blk(e.block.handlerOpen, e.block.MemSize()), e.lockedBy, e.lastAccess)
  }

  // Both totals after one item changed, came, or went.
  lemma TotalsUpdate(items: Blocks, n: Num, i: Item)
    requires n in items
    ensures Total(items[n := i], MemOf) == Total(items, MemOf) - MemOf(items[n]) + MemOf(i)
    ensures Total(items[n := i], OpenOf) == Total(items, OpenOf) - OpenOf(items[n]) + OpenOf(i)
  {
    TotalWithout(items, MemOf, n);
    TotalWithout(items, OpenOf, n);
    TotalUpdate(items, MemOf, n, i);
    TotalUpdate(items, OpenOf, n, i);
  }

  lemma TotalsInsert(items: Blocks, n: Num, i: Item)
    requires n !in items
    ensures Total(items[n := i], MemOf) == Total(items, MemOf) + MemOf(i)
    ensures Total(items[n := i], OpenOf) == Total(items, OpenOf) + OpenOf(i)
  {
    TotalUpdate(items, MemOf, n, i);
    TotalUpdate(items, OpenOf, n, i);
  }

  lemma TotalsDrop(items: Blocks, n: Num)
    requires n in items
    ensures Total(items - {n}, MemOf) == Total(items, MemOf) - MemOf(items[n])
    ensures Total(items - {n}, OpenOf) == Total(items, OpenOf) - OpenOf(items[n])
  {
    TotalWithout(items, MemOf, n);
    TotalWithout(items, OpenOf, n);
  }

  lemma TotalsRefreshed(items: Blocks, now: nat)
    ensures Total(Refreshed(items, now), MemOf) == Total(items, MemOf)
    ensures Total(Refreshed(items, now), OpenOf) == Total(items, OpenOf)
  {
    TotalSame(items, Refreshed(items, now), MemOf);
    TotalSame(items, Refreshed(items, now), OpenOf);
  }

  ghost predicate Housed(entries: map<Num, Entry>, home: map<CMsgBlock, Num>, counters: Counters)
  {
    forall n :: n in entries ==>
      entries[n].block in home && home[entries[n].block] == n && entries[n].block.counters == counters
  }

  class CBlocksCache {
    const counters: Counters
    var entries: map<Num, Entry>
    var added: nat
    const maxMemory: nat
    const maxHandles: nat
    ghost var view: Blocks               // what can be seen of the entries
    ghost var home: map<CMsgBlock, Num>  // the one number every block it was given belongs to

    // No block is cached twice, and all share the two counters.
    ghost predicate Homes()
      reads this
    {
      entries.Keys == view.Keys && Housed(entries, home, counters)
    }

    ghost predicate Sees(n: Num)
      requires n in entries
      reads this, entries[n].block
    {
      n in view && view[n] == Seen(entries[n])
    }

    // The counters are exact: the memory of all blocks, the number of open handles.
    ghost predicate Valid()
      reads this, counters, home.Keys
    {
      && Homes()
      && (forall n :: n in entries ==> Sees(n))
      && counters.totalMemory == Total(view, MemOf)
      && counters.openHandlers == Total(view, OpenOf)
    }

    function Locks(): Items
      reads this`entries
    {
      LocksOf(entries)
    }

    lemma LocksAreSeen()
      requires Valid()
      ensures Locks() == LocksSeen(view)
    {
      assert forall n :: n in entries ==> Sees(n);
    }

    constructor (counters: Counters, memory: nat, handles: nat)
      requires counters.totalMemory == 0 && counters.openHandlers == 0
      ensures Valid() && entries == map[] && added == 0 && home == map[]
      ensures this.counters == counters && maxMemory == memory && maxHandles == handles
    {
      this.counters := counters;
      entries, added, view, home := map[], 0, map[], map[];
      maxMemory, maxHandles := memory, handles;
    }

    /**
     A block that counts its own change keeps the counters exact: what the block's methods promise about
     the counters adds up to the sums over the cache.
     */
    ghost method BlockCounts(n: Num, before: Item, memory: int, handlers: int)
      requires n in entries && Homes() && before == view[n]
      requires forall m :: m in entries && m != n ==> Sees(m)
      requires memory == Total(view, MemOf) && handlers == Total(view, OpenOf)
      requires counters.totalMemory - memory == entries[n].block.MemSize() - before.block.mem
      requires counters.openHandlers - handlers == entries[n].block.Handles() - OpenOf(before)
      modifies this`view
      ensures Valid() && view == old(view)[n := Seen(entries[n])]
    {
      TotalsUpdate(view, n, Seen(entries[n]));
      view := view[n := Seen(entries[n])];
    }

    // Lock and access time only.
    method Touch(n: Num, lockedBy: Option<Thread>, lastAccess: nat)
      requires Valid() && n in entries
      modifies this`entries, this`view
      ensures Valid() && entries == old(entries)[n := Entry(old(entries)[n].block, lockedBy, lastAccess)]
      ensures view == old(view)[n := Item(old(view)[n].block, lockedBy, lastAccess)]
    {
      TotalsUpdate(view, n, Item(view[n].block, lockedBy, lastAccess));
      entries := entries[n := Entry(entries[n].block, lockedBy, lastAccess)];
      view := view[n := Item(view[n].block, lockedBy, lastAccess)];
    }

    method Close(n: Num)
      requires Valid() && n in entries
      modifies this`view, entries[n].block`handlerOpen, counters
      ensures Valid() && view == old(view)[n := old(view)[n].(block := old(view)[n].block.(open := false))]
      ensures counters.openHandlers == old(counters.openHandlers) - OpenOf(old(view)[n])
    {
      entries[n].block.CloseHandler();
      BlockCounts(n, view[n], old(counters.totalMemory), old(counters.openHandlers));
    }

    // The destructor of the block, with its item.
    method Drop(n: Num)
      requires Valid() && n in entries
      modifies this`entries, this`view, entries[n].block, counters
      ensures Valid() && entries == old(entries) - {n} && view == old(view) - {n}
      ensures counters.openHandlers == old(counters.openHandlers) - OpenOf(old(view)[n])
      ensures counters.totalMemory == old(counters.totalMemory) - MemOf(old(view)[n])
    {
      entries[n].block.Destruct();
      UpdateGone(view, n, Seen(entries[n]));
      BlockCounts(n, view[n], old(counters.totalMemory), old(counters.openHandlers));
      Forget(n);
    }

    method Forget(n: Num)
      requires Valid() && n in entries && view[n].block == Blk(false, 0)
      modifies this`entries, this`view
      ensures Valid() && entries == old(entries) - {n} && view == old(view) - {n}
    {
      TotalsDrop(view, n);
      entries := entries - {n};
      view := view - {n};
    }

    // An existing key keeps its entry; the new block is then in no cache and counts nothing yet.
    method AddAndLock(n: Num, block: CMsgBlock, t: Thread, now: nat) returns (released: set<Num>)
      requires Valid() && block !in home && block.counters == counters
      requires !block.handlerOpen && block.MemSize() == 0
      modifies this, home.Keys, counters
      ensures Valid() && home == old(home)[block := n] && released <= FreeOpen(old(view))
      ensures old(added) + 1 <= MAX_ADDED_TO_CHECK_HANDLES || old(counters.openHandlers) < maxHandles ==> released == {}
      ensures counters.openHandlers == old(counters.openHandlers) - |released|
      ensures added == if old(added) >= 512 then 0 else old(added) + 1
      ensures view == WithNew(if old(added) + 1 > MAX_ADDED_TO_CHECK_HANDLES
                                 && old(counters.openHandlers) >= maxHandles
                              then AfterRelease(old(view), now, released, old(counters.totalMemory) >= maxMemory)
                              else old(view), n, t, now)
      ensures n !in old(entries) ==> n in entries && entries[n] == Entry(block, Some(t), now)
      ensures n !in old(entries) ==>
                var dropped := if old(counters.totalMemory) >= maxMemory then released else {};
                Locks() == (old(Locks()) - dropped)[n := Some(t)]
    {
      released := MakeRoom(now);
      ghost var before := view;
      LocksAreSeen();
      Insert(n, block, t, now);
      LocksAreSeen();
      LocksWithNew(before, n, t, now);
    }

    // Every so many insertions the handles are counted.
    method MakeRoom(now: nat) returns (released: set<Num>)
      requires Valid()
      modifies this`entries, this`view, this`added, home.Keys, counters
      ensures Valid() && entries.Keys <= old(entries).Keys && released <= FreeOpen(old(view))
      ensures counters.openHandlers == old(counters.openHandlers) - |released|
      ensures added == if old(added) >= 512 then 0 else old(added) + 1
      ensures if old(added) + 1 > MAX_ADDED_TO_CHECK_HANDLES && old(counters.openHandlers) >= maxHandles
              then view == AfterRelease(old(view), now, released, old(counters.totalMemory) >= maxMemory)
              else view == old(view) && released == {}
      ensures Locks() == old(Locks()) - if old(counters.totalMemory) >= maxMemory then released else {}
    {
      released := {};
      MinusNone(Locks());
      added := added + 1;
      if added > MAX_ADDED_TO_CHECK_HANDLES {
        added := 0;
        released := ReleaseHandles(now);
      }
    }

    method Insert(n: Num, block: CMsgBlock, t: Thread, now: nat)
      requires Valid() && block !in home && block.counters == counters
      requires !block.handlerOpen && block.MemSize() == 0
      modifies this`entries, this`view, this`home
      ensures Valid() && view == WithNew(old(view), n, t, now) && home == old(home)[block := n]
      ensures entries == if n in old(entries) then old(entries) else old(entries)[n := Entry(block, Some(t), now)]
    {
      home := home[block := n];
      if n in entries { return; }
      TotalsInsert(view, n, NewItem(t, now));
      entries := entries[n := Entry(block, Some(t), now)];
      view := view[n := NewItem(t, now)];
    }

    // One turn of the waiting loop; Busy means sleep and try again.
    method Find(n: Num, t: Thread, now: nat) returns (r: Attempt)
      requires Valid()
      modifies this`entries, this`view
      ensures Valid()
      ensures r.Missing? <==> n !in old(entries)
      ensures r.Got? <==> Usable(old(Locks()), n, t)
      ensures Locks() == if r.Got? then old(Locks())[n := Some(t)] else old(Locks())
      ensures !r.Got? ==> entries == old(entries)
      ensures r.Got? ==> n in entries && entries == old(entries)[n := entries[n]]
                         && entries[n].block == old(entries)[n].block
    {
      if n !in entries { return Missing; }
      if entries[n].lockedBy.None? {
        LocksSet(entries, n, Entry(entries[n].block, Some(t), now));
        Touch(n, Some(t), now);
        return Got;
      }
      r := if entries[n].lockedBy == Some(t) then Got else Busy;
    }

    method Unlock(n: Num)
      requires Valid() && n in entries
      modifies this`entries, this`view
      ensures Valid() && Locks() == old(Locks())[n := None]
      ensures entries == old(entries)[n := old(entries)[n].(lockedBy := None)]
    {
      LocksSet(entries, n, entries[n].(lockedBy := None));
      Touch(n, None, entries[n].lastAccess);
    }

    method Delete(n: Num, t: Thread) returns (r: Attempt)
      requires Valid()
      modifies this`entries, this`view, home.Keys, counters
      ensures Valid()
      ensures r.Missing? <==> n !in old(entries)
      ensures r.Got? <==> Usable(old(Locks()), n, t)
      ensures view == if r.Got? then old(view) - {n} else old(view)
      ensures Locks() == if r.Got? then old(Locks()) - {n} else old(Locks())
    {
      if n !in entries { return Missing; }
      if entries[n].lockedBy.None? || entries[n].lockedBy == Some(t) {
        LocksSet(entries, n, entries[n]);
        Drop(n);
        return Got;
      }
      r := Busy;
    }

    // Every unlocked item is asked for its block.
    method Collect(now: nat) returns (found: seq<Num>)
      modifies this`entries
      ensures entries == RefreshedEntries(old(entries), now) && NoRepeats(found)
      ensures forall n :: n in entries && entries[n].lockedBy.None? ==> entries[n].lastAccess == now
      ensures forall n :: n in found <==>
                n in entries && entries[n].lockedBy.None? && old(entries)[n].block.handlerOpen
    {
      found := [];
      var rest := entries.Keys;
      ghost var open := set n | n in entries && entries[n].lockedBy.None? && entries[n].block.handlerOpen;
      while rest != {}
        invariant Looked(old(entries), entries, rest, found, open, now)
        decreases |rest|
      {
        var n :| n in rest;
        LookedNext(old(entries), entries, rest, found, open, now, n);
        if entries[n].lockedBy.None? {
          if entries[n].block.handlerOpen { found := found + [n]; }
          entries := entries[n := entries[n].(lastAccess := now)];
        }
        rest := rest - {n};
      }
    }

    method Scan(now: nat) returns (found: seq<Num>)
      requires Valid()
      modifies this`entries, this`view
      ensures Valid() && view == Refreshed(old(view), now)
      ensures NoRepeats(found) && Keys(found) == FreeOpen(old(view))
    {
      assert view.Keys == entries.Keys && forall n :: n in entries ==> view[n] == Seen(entries[n]);
      found := Collect(now);
      FoundFree(found, old(entries), now);
      LookRefreshed(old(entries), now);
    }

    ghost method LookRefreshed(was: map<Num, Entry>, now: nat)
      requires was.Keys == view.Keys && Housed(was, home, counters) && entries == RefreshedEntries(was, now)
      requires forall n :: n in was ==> view[n] == Seen(was[n])
      requires counters.totalMemory == Total(view, MemOf) && counters.openHandlers == Total(view, OpenOf)
      modifies this`view
      ensures Valid() && view == Refreshed(old(view), now)
    {
      TotalsRefreshed(view, now);
      HousedRefreshed(was, home, counters, now);
      view := Refreshed(view, now);
    }

    lemma FoundFree(found: seq<Num>, was: map<Num, Entry>, now: nat)
      requires was.Keys == view.Keys && entries == RefreshedEntries(was, now)
      requires forall n :: n in was ==> view[n] == Seen(was[n])
      requires forall n :: n in found <==> n in entries && entries[n].lockedBy.None? && was[n].block.handlerOpen
      ensures Keys(found) == FreeOpen(view)
    {
      forall n ensures n in Keys(found) <==> n in FreeOpen(view) {
        if n in entries { assert view[n] == Seen(was[n]); }
      }
    }

    /**
     When the handle limit is reached, closes half of the open handles, or all of the unlocked ones if
     they are fewer. When memory is full too the blocks leave the cache. A locked item is never touched.
     All candidates were just accessed, so their order means nothing.
     */
    method ReleaseHandles(now: nat) returns (released: set<Num>)
      requires Valid()
      modifies this`entries, this`view, home.Keys, counters
      ensures Valid() && entries.Keys <= old(entries).Keys
      ensures old(counters.openHandlers) < maxHandles ==> released == {} && view == old(view)
      ensures old(counters.openHandlers) >= maxHandles ==>
                && released <= FreeOpen(old(view))
                && |released| == Min(old(counters.openHandlers) / 2, |FreeOpen(old(view))|)
                && view == AfterRelease(old(view), now, released, old(counters.totalMemory) >= maxMemory)
      ensures counters.openHandlers == old(counters.openHandlers) - |released|
      ensures Locks() == old(Locks()) - if old(counters.totalMemory) >= maxMemory then released else {}
    {
      LocksAreSeen();
      var releaseMemory := counters.totalMemory >= maxMemory;
      released := {};
      if counters.openHandlers < maxHandles { return; }
      var quota := counters.openHandlers / 2;
      var found := Scan(now);
      ghost var before := view;
      var k := ReleaseFirst(found, quota, releaseMemory);
      released := FirstKeys(found, k);
      FirstKeysCount(found, k);
      HandlesFreed(before, found, k, releaseMemory);
      KeysSize(found);
      LocksFreed(old(view), now, released, releaseMemory);
      LocksAreSeen();
    }

    method ReleaseOne(n: Num, releaseMemory: bool)
      requires Valid() && n in entries && view[n].block.open
      modifies this`entries, this`view, entries[n].block, counters
      ensures Valid() && view == Freed(old(view), {n}, releaseMemory)
    {
      ClosedOne(view, n);
      if releaseMemory { Drop(n); } else { Close(n); }
    }

    method ReleaseAt(found: seq<Num>, i: nat, releaseMemory: bool, ghost before: Blocks)
      requires Valid() && NoRepeats(found) && Keys(found) <= FreeOpen(before) && i < |found|
      requires view == Freed(before, FirstKeys(found, i), releaseMemory)
      modifies this`entries, this`view, home.Keys, counters
      ensures Valid() && view == Freed(before, FirstKeys(found, i + 1), releaseMemory)
    {
      NextFreed(before, found, i, releaseMemory);
      ReleaseOne(found[i], releaseMemory);
    }

    method ReleaseFirst(found: seq<Num>, quota: nat, releaseMemory: bool) returns (i: nat)
      requires Valid() && NoRepeats(found) && Keys(found) <= FreeOpen(view)
      modifies this`entries, this`view, home.Keys, counters
      ensures Valid() && i == Min(quota, |found|)
      ensures view == Freed(old(view), FirstKeys(found, i), releaseMemory)
    {
      i := 0;
      var left := quota;
      FreedNone(view, releaseMemory);
      while i < |found| && left != 0
        invariant 0 <= left && i + left == quota && i <= |found|
        invariant Valid() && view == Freed(old(view), FirstKeys(found, i), releaseMemory)
      {
        ReleaseAt(found, i, releaseMemory, old(view));
        left := left - 1;
        i := i + 1;
      }
    }

    // ---- what a thread does to the block it holds ----

    method StoreMessage(n: Num, now: nat, from: str, id: str) returns (r: MsgBlock.Reply)
      requires Valid() && n in entries && entries[n].block.Plausible()
      modifies this`view, entries[n].block, entries[n].block.mem, counters
      ensures Valid() && view == old(view)[n := Seen(entries[n])]
      ensures old(entries[n].block.Resident()) ==>
                entries[n].block.Resident()
                && (entries[n].block.Value([]), r) == MsgBlock.Add(old(entries[n].block.Value([])), now, from, id)
    {
      r := entries[n].block.Add(now, from, id);
      BlockCounts(n, view[n], old(counters.totalMemory), old(counters.openHandlers));
    }

    method GetMsgCount(n: Num) returns (ok: bool, total: nat, unread: nat)
      requires Valid() && n in entries
      modifies this`view, entries[n].block, counters
      ensures Valid() && view == old(view)[n := Seen(entries[n])]
      ensures ok ==> total == old(entries[n].block.LoadedHeader()).total
      ensures ok ==> unread == old(entries[n].block.LoadedHeader()).unread
    {
      ok, total, unread := entries[n].block.GetCount();
      BlockCounts(n, view[n], old(counters.totalMemory), old(counters.openHandlers));
    }

    method GetIds(n: Num, q: MsgBlock.Query, short: seq<nat>) returns (r: Load, ids: seq<MsgBlock.IdLine>)
      requires Valid() && n in entries && entries[n].block.Plausible()
      modifies this`view, entries[n].block, entries[n].block.mem, counters
      ensures Valid() && view == old(view)[n := Seen(entries[n])]
      ensures r == old(entries[n].block.LoadOutcome(short))
      ensures r.Loaded? ==> ids == MsgBlock.GetIds(old(entries[n].block.LoadedValue()), q)
    {
      r, ids := entries[n].block.GetIds(q, short);
      BlockCounts(n, view[n], old(counters.totalMemory), old(counters.openHandlers));
    }

    method ReadMessage(n: Num, id: str, text: Option<str>, short: seq<nat>) returns (r: MsgBlock.Reply)
      requires Valid() && n in entries && entries[n].block.Plausible()
      modifies this`view, entries[n].block, entries[n].block.mem, counters
      ensures Valid() && view == old(view)[n := Seen(entries[n])]
      ensures r == match old(entries[n].block.LoadOutcome(short))
                   case BadHeader => MsgBlock.HeaderError
                   case Overran => MsgBlock.Overrun
                   case Loaded => MsgBlock.Read(old(entries[n].block.LoadedValue()), id, text).1
    {
      r := entries[n].block.ReadMessage(id, text, short);
      BlockCounts(n, view[n], old(counters.totalMemory), old(counters.openHandlers));
    }

    method DeleteMessage(n: Num, id: str, short: seq<nat>) returns (r: MsgBlock.Reply)
      requires Valid() && n in entries && entries[n].block.Plausible()
      modifies this`view, entries[n].block, entries[n].block.mem, counters
      ensures Valid() && view == old(view)[n := Seen(entries[n])]
      ensures r == match old(entries[n].block.LoadOutcome(short))
                   case BadHeader => MsgBlock.HeaderError
                   case Overran => MsgBlock.Overrun
                   case Loaded => MsgBlock.Delete(old(entries[n].block.LoadedValue()), id).1
    {
      r := entries[n].block.DeleteMessage(id, short);
      BlockCounts(n, view[n], old(counters.totalMemory), old(counters.openHandlers));
    }
  }

  // All but the rest were looked at; the open ones among them were found.
  ghost predicate Looked(was: map<Num, Entry>, entries: map<Num, Entry>, rest: set<Num>, found: seq<Num>,
                         open: set<Num>, now: nat)
  {
    && rest <= entries.Keys == was.Keys && NoRepeats(found)
    && (forall n :: n in entries ==> entries[n] == if n in rest then was[n] else Accessed(was[n], now))
    && (forall n :: n in found <==> n in open && n !in rest)
  }

  lemma LookedNext(was: map<Num, Entry>, entries: map<Num, Entry>, rest: set<Num>, found: seq<Num>, open: set<Num>,
                   now: nat, n: Num)
    requires Looked(was, entries, rest, found, open, now) && n in rest && open <= was.Keys
    ensures var next := if was[n].lockedBy.None? then entries[n := Accessed(was[n], now)] else entries;
            Looked(was, next, rest - {n}, if n in open then Appended(found, n) else found, open, now)
  {
  }

  lemma HousedRefreshed(entries: map<Num, Entry>, home: map<CMsgBlock, Num>, counters: Counters, now: nat)
    requires Housed(entries, home, counters)
    ensures Housed(RefreshedEntries(entries, now), home, counters)
  {
  }

  lemma NotBefore(ks: seq<Num>, i: nat)
    requires NoRepeats(ks) && i < |ks|
    ensures ks[i] in Keys(ks) && ks[i] !in Keys(ks[..i])
  {
    assert forall j :: 0 <= j < i ==> ks[..i][j] == ks[j];
  }

  lemma FreedNone(items: Blocks, memoryFull: bool)
    ensures Freed(items, {}, memoryFull) == items
  {
  }

  lemma ClosedOne(items: Blocks, n: Num)
    requires n in items
    ensures Closed(items, {n}) == items[n := items[n].(block := items[n].block.(open := false))]
  {
  }

  lemma FreedGrow(items: Blocks, ns: set<Num>, n: Num, memoryFull: bool)
    requires n in FreeOpen(items) && n !in ns
    ensures Freed(items, ns + {n}, memoryFull) == Freed(Freed(items, ns, memoryFull), {n}, memoryFull)
    ensures n in Freed(items, ns, memoryFull) && Freed(items, ns, memoryFull)[n].block.open
  {
    MinusGrow(items, ns, n);
  }

  // One more of the found blocks.
  lemma ReleaseNext(before: Blocks, found: seq<Num>, i: nat, memoryFull: bool)
    requires NoRepeats(found) && Keys(found) <= FreeOpen(before) && i < |found|
    ensures var released, n := Keys(found[..i]), found[i];
            && n !in released && Keys(found[..i + 1]) == released + {n}
            && n in Freed(before, released, memoryFull) && Freed(before, released, memoryFull)[n].block.open
            && Freed(before, Keys(found[..i + 1]), memoryFull)
               == Freed(Freed(before, released, memoryFull), {n}, memoryFull)
  {
    KeysGrow(found, i);
    NotBefore(found, i);
    FreedGrow(before, Keys(found[..i]), found[i], memoryFull);
  }

  // The first i of the found blocks.
  function FirstKeys(found: seq<Num>, i: nat): set<Num>
    requires i <= |found|
  {
    if i == 0 then {} else FirstKeys(found, i - 1) + {found[i - 1]}
  }

  lemma {:induction false} FirstKeysAre(found: seq<Num>, i: nat)
    requires NoRepeats(found) && i <= |found|
    ensures FirstKeys(found, i) == Keys(found[..i])
  {
    if i > 0 {
      FirstKeysAre(found, i - 1);
      KeysGrow(found, i - 1);
    }
  }

  lemma {:induction false} FirstKeysCount(found: seq<Num>, i: nat)
    requires NoRepeats(found) && i <= |found|
    ensures FirstKeys(found, i) <= Keys(found) && |FirstKeys(found, i)| == i
  {
    if i > 0 {
      FirstKeysCount(found, i - 1);
      FirstKeysAre(found, i - 1);
      NotBefore(found, i - 1);
    }
  }

  lemma HandleFreed(items: Blocks, n: Num, memoryFull: bool)
    requires n in items && items[n].block.open
    ensures Total(Freed(items, {n}, memoryFull), OpenOf) == Total(items, OpenOf) - 1
  {
    if memoryFull {
      TotalsDrop(items, n);
    } else {
      ClosedOne(items, n);
      TotalsUpdate(items, n, items[n].(block := items[n].block.(open := false)));
    }
  }

  // Every block released takes one handle with it.
  lemma {:induction false} HandlesFreed(before: Blocks, found: seq<Num>, i: nat, memoryFull: bool)
    requires NoRepeats(found) && Keys(found) <= FreeOpen(before) && i <= |found|
    ensures Total(Freed(before, FirstKeys(found, i), memoryFull), OpenOf) == Total(before, OpenOf) - i
  {
    if i == 0 {
      FreedNone(before, memoryFull);
    } else {
      HandlesFreed(before, found, i - 1, memoryFull);
      NextHandle(before, found, i - 1, memoryFull);
    }
  }

  lemma NextHandle(before: Blocks, found: seq<Num>, i: nat, memoryFull: bool)
    requires NoRepeats(found) && Keys(found) <= FreeOpen(before) && i < |found|
    ensures Total(Freed(before, FirstKeys(found, i + 1), memoryFull), OpenOf)
            == Total(Freed(before, FirstKeys(found, i), memoryFull), OpenOf) - 1
  {
    NextFreed(before, found, i, memoryFull);
    HandleFreed(Freed(before, FirstKeys(found, i), memoryFull), found[i], memoryFull);
  }

  lemma NextFreed(before: Blocks, found: seq<Num>, i: nat, memoryFull: bool)
    requires NoRepeats(found) && Keys(found) <= FreeOpen(before) && i < |found|
    ensures var items, n := Freed(before, FirstKeys(found, i), memoryFull), found[i];
            && n in items && items[n].block.open
            && Freed(before, FirstKeys(found, i + 1), memoryFull) == Freed(items, {n}, memoryFull)
  {
    FirstKeysAre(found, i);
    FirstKeysAre(found, i + 1);
    ReleaseNext(before, found, i, memoryFull);
  }
}
