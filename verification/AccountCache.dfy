/** The account cache: one critical section per method, and the eviction of the oldest unlocked accounts. */
module AccountCache {
  import opened Bytes
  import opened CacheItems
  import opened Filters

  const DEFAULT_MIN_ITEMS := 100

  datatype Item<A> = Item(account: A, lockedBy: Option<Thread>, lastAccess: nat)
  datatype Attempt<A> = Got(account: A) | Missing | Busy

  // What Release may and must evict from a cache.
  ghost predicate Evicts<A>(items: map<Num, Item<A>>, quota: nat, evicted: set<Num>)
  {
    var free := Unlocked(items);
    && evicted <= free && |evicted| == Min(quota, |free|)
    && forall e, k :: e in evicted && k in free - evicted ==> items[e].lastAccess <= items[k].lastAccess
  }

  // The other unlocked accounts that were last used before n, or no later than n.
  function Older<A>(items: map<Num, Item<A>>, n: Num): set<Num>
    requires n in items
  {
    set k | k in Unlocked(items) && items[k].lastAccess < items[n].lastAccess
  }

  function NotYounger<A>(items: map<Num, Item<A>>, n: Num): set<Num>
    requires n in items
  {
    set k | k in Unlocked(items) && k != n && items[k].lastAccess <= items[n].lastAccess
  }

  /**
   An unlocked account is evicted if fewer others than the quota were used no later than it, and only if
   fewer were used before it; only accounts of the same age leave a choice.
   */
  lemma EvictedByAge<A>(items: map<Num, Item<A>>, quota: nat, evicted: set<Num>, n: Num)
    requires Evicts(items, quota, evicted) && n in Unlocked(items)
    ensures |NotYounger(items, n)| < quota ==> n in evicted
    ensures n in evicted ==> |Older(items, n)| < quota
  {
    var free := Unlocked(items);
    if n !in evicted {
      SubsetSize(evicted, NotYounger(items, n));
      assert evicted <= free - {n};
      SubsetSize(evicted, free - {n});
    } else {
      assert Older(items, n) <= evicted - {n};
      SubsetSize(Older(items, n), evicted - {n});
    }
  }

  function Unlocked<A>(items: map<Num, Item<A>>): set<Num>
  {
    set n | n in items && items[n].lockedBy.None?
  }

  function LocksOf<A>(items: map<Num, Item<A>>): Items { map n | n in items :: items[n].lockedBy }

  class CAccountCache<A(==)> {
    var items: map<Num, Item<A>>
    var deleted: nat
    const maxItems: nat

    function Locks(): Items
      reads this
    {
      LocksOf(items)
    }

    // The deletion that leaves these items has the cache trimmed.
    predicate Trims(deleted: nat, left: map<Num, Item<A>>)
    {
      maxItems > 0 && deleted + 1 >= maxItems / 2 && |left| >= maxItems
    }

    constructor (limit: nat)
      ensures items == map[] && deleted == 0
      ensures maxItems == if limit < 100 then 100 else limit
    {
      items, deleted := map[], 0;
      maxItems := if limit < DEFAULT_MIN_ITEMS then DEFAULT_MIN_ITEMS else limit;
    }

    // Inserting an existing key changes nothing.
    method AddAndLock(n: Num, account: A, t: Thread, now: nat)
      modifies this`items
      ensures items == if n in old(items) then old(items) else old(items)[n := Item(account, Some(t), now)]
      ensures Locks() == if n in old(items) then old(Locks()) else old(Locks())[n := Some(t)]
    {
      if n !in items { items := items[n := Item(account, Some(t), now)]; }
    }

    // One turn of the waiting loop; Busy means sleep and try again.
    method Find(n: Num, t: Thread, now: nat) returns (r: Attempt<A>)
      modifies this`items
      ensures r.Missing? <==> n !in old(items)
      ensures r.Got? <==> Usable(old(Locks()), n, t)
      ensures r.Got? ==> r.account == old(items)[n].account && Locks() == old(Locks())[n := Some(t)]
      ensures items == if r.Got? && old(items)[n].lockedBy.None?
                       then old(items)[n := Item(r.account, Some(t), now)] else old(items)
    {
      if n !in items { return Missing; }
      var item := items[n];
      if item.lockedBy.None? {
        items := items[n := Item(item.account, Some(t), now)];
        return Got(item.account);
      }
      if item.lockedBy == Some(t) { return Got(item.account); }
      r := Busy;
    }

    // The account behind a held item; asking for it counts as an access.
    method GetAccount(n: Num, now: nat) returns (account: A)
      requires n in items
      modifies this`items
      ensures account == old(items)[n].account && Locks() == old(Locks())
      ensures items == old(items)[n := old(items)[n].(lastAccess := now)]
    {
      account := items[n].account;
      items := items[n := items[n].(lastAccess := now)];
    }

    // The item's own Release, by the thread that holds it.
    method Unlock(n: Num)
      requires n in items
      modifies this`items
      ensures items == old(items)[n := old(items)[n].(lockedBy := None)]
      ensures Locks() == old(Locks())[n := None]
    {
      items := items[n := items[n].(lockedBy := None)];
    }

    // One turn again. Every so many deletions the cache is trimmed as well.
    method Delete(n: Num, t: Thread) returns (r: Attempt<A>, evicted: set<Num>)
      modifies this
      ensures r.Missing? <==> n !in old(items)
      ensures r.Got? <==> Usable(old(Locks()), n, t)
      ensures !r.Got? ==> items == old(items) && deleted == old(deleted) && evicted == {}
      ensures r.Got? ==> r.account == old(items)[n].account && items == old(items) - {n} - evicted
      ensures r.Got? ==> evicted <= Unlocked(old(items) - {n})
      ensures r.Got? && evicted != {} ==>
                maxItems > 0 && old(deleted) + 1 >= maxItems / 2 && |old(items) - {n}| >= maxItems
      ensures r.Got? ==> deleted == if maxItems > 0 && old(deleted) + 1 >= maxItems / 2 then 0 else old(deleted) + 1
      ensures r.Got? && maxItems > 0 && old(deleted) + 1 >= maxItems / 2 && |old(items) - {n}| >= maxItems ==>
                Evicts(old(items) - {n}, |old(items) - {n}| / 3, evicted)
    {
      evicted := {};
      if n !in items { return Missing, evicted; }
      var item := items[n];
      if item.lockedBy.None? || item.lockedBy == Some(t) {
        items := items - {n};
        deleted := deleted + 1;
        if maxItems > 0 && deleted >= maxItems / 2 {
          deleted := 0;
          evicted := Release();
        }
        return Got(item.account), evicted;
      }
      r := Busy;
    }

    method CollectUnlocked() returns (found: seq<Num>)
      ensures NoRepeats(found) && Keys(found) == Unlocked(items)
    {
      found := [];
      var rest := items.Keys;
      while rest != {}
        invariant rest <= items.Keys && NoRepeats(found)
        invariant forall n :: n in found <==> n in items.Keys - rest && items[n].lockedBy.None?
        decreases |rest|
      {
        var n :| n in rest;
        if items[n].lockedBy.None? { found := found + [n]; }
        rest := rest - {n};
      }
    }

    /**
     Evicts a third of the cache, or all unlocked accounts if they are fewer; the oldest first, never a
     locked one.
     */
    method Release() returns (evicted: set<Num>)
      modifies this`items
      ensures items == old(items) - evicted
      ensures if |old(items)| < maxItems then evicted == {} else Evicts(old(items), |old(items)| / 3, evicted)
    {
      evicted := {};
      var all := items;
      if |all| < maxItems { return; }
      var found := CollectUnlocked();
      var order := SortByAccess(all, found);
      var i;
      i, evicted := EvictFirst(order, |all| / 3);
      OldestFirst(all, order, |all| / 3, i);
    }

    method EvictFirst(order: seq<Num>, quota: nat) returns (i: nat, evicted: set<Num>)
      modifies this`items
      ensures i == Min(quota, |order|) && evicted == Keys(order[..i]) && items == old(items) - evicted
    {
      evicted := {};
      var left := quota;
      i := 0;
      while i < |order| && left != 0
        invariant 0 <= left && i + left == quota && i <= |order|
        invariant evicted == Keys(order[..i]) && items == old(items) - evicted
      {
        KeysGrow(order, i);
        MinusGrow(old(items), evicted, order[i]);
        evicted := evicted + {order[i]};
        items := items - {order[i]};
        left := left - 1;
        i := i + 1;
      }
    }
  }

  // The standard sort by last access.
  method SortByAccess<A>(all: map<Num, Item<A>>, found: seq<Num>) returns (order: seq<Num>)
    requires NoRepeats(found) && Keys(found) <= all.Keys
    ensures NoRepeats(order) && Keys(order) == Keys(found) && OldToNew(all, order)
  {
    var age := (n: Num) => if n in all then all[n].lastAccess else 0;
    order := Sorted(age, found);
    SortedSorts(age, found);
    NoRepeatsCount(found, order);
    forall i, j | 0 <= i < j < |order| ensures all[order[i]].lastAccess <= all[order[j]].lastAccess {
      assert order[i] in Keys(order) && order[j] in Keys(order);
      assert age(order[i]) <= age(order[j]);
    }
  }

  predicate OldToNew<A>(all: map<Num, Item<A>>, order: seq<Num>)
    requires Keys(order) <= all.Keys
  {
    forall i, j :: 0 <= i < j < |order| ==>
      order[i] in all && order[j] in all && all[order[i]].lastAccess <= all[order[j]].lastAccess
  }

  // The first keys of the sorted list are what may be evicted.
  lemma OldestFirst<A>(all: map<Num, Item<A>>, order: seq<Num>, quota: nat, i: nat)
    requires NoRepeats(order) && Keys(order) == Unlocked(all) && OldToNew(all, order)
    requires i <= |order| && (i == |order| || i == quota) && i <= quota
    ensures Evicts(all, quota, Keys(order[..i]))
  {
    var evicted := Keys(order[..i]);
    KeysSize(order);
    KeysSize(order[..i]);
    assert evicted <= Keys(order);
    assert forall y :: 0 <= y < i ==> order[..i][y] == order[y];
    forall e, k | e in evicted && k in Unlocked(all) - evicted
      ensures all[e].lastAccess <= all[k].lastAccess
    {
      var x :| 0 <= x < i && order[x] == e;
      assert k in Keys(order);
      var y :| 0 <= y < |order| && order[y] == k;
      assert order[y] !in evicted;
    }
  }
}
