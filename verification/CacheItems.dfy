/**
 What the caches share: numbers, threads and locks, keys in the order of their last access, and sums over
 a cache.
 */
module CacheItems {
  import opened Bytes

  type Num = nat      // a clean number; only equality matters here
  type Thread = nat

  // Who locked a cache item, if anyone.
  type Items = map<Num, Option<Thread>>

  // An item that Find or Delete may use: unlocked, or locked by the caller.
  predicate Usable(items: Items, n: Num, t: Thread)
  {
    n in items && (items[n].None? || items[n] == Some(t))
  }

  function Min(a: nat, b: nat): nat { if a <= b then a else b }

  // ---- the standard sort ----

  function Insert(age: Num -> nat, k: Num, ks: seq<Num>): seq<Num>
  {
    if ks == [] || age(k) <= age(ks[0]) then [k] + ks else [ks[0]] + Insert(age, k, ks[1..])
  }

  function Sorted(age: Num -> nat, ks: seq<Num>): seq<Num>
  {
    if ks == [] then [] else Insert(age, ks[0], Sorted(age, ks[1..]))
  }

  ghost predicate Ascending(age: Num -> nat, ks: seq<Num>)
  {
    forall i, j :: 0 <= i < j < |ks| ==> age(ks[i]) <= age(ks[j])
  }

  lemma {:induction false} InsertSorts(age: Num -> nat, k: Num, ks: seq<Num>)
    requires Ascending(age, ks)
    ensures Ascending(age, Insert(age, k, ks))
    ensures multiset(Insert(age, k, ks)) == multiset{k} + multiset(ks)
    decreases |ks|
  {
    if ks != [] && age(k) > age(ks[0]) {
      InsertSorts(age, k, ks[1..]);
      ConsSorts(age, ks[0], Insert(age, k, ks[1..]), k, ks[1..]);
      assert ks == [ks[0]] + ks[1..];
    } else {
      assert multiset([k] + ks) == multiset([k]) + multiset(ks);
    }
  }

  lemma ConsSorts(age: Num -> nat, first: Num, more: seq<Num>, k: Num, rest: seq<Num>)
    requires age(first) <= age(k) && Ascending(age, [first] + rest) && Ascending(age, more)
    requires multiset(more) == multiset{k} + multiset(rest)
    ensures Ascending(age, [first] + more)
    ensures multiset([first] + more) == multiset{k} + multiset([first] + rest)
  {
    forall i | 0 <= i < |more| ensures age(first) <= age(more[i]) {
      assert more[i] in multiset(more);
      if more[i] != k {
        assert more[i] in multiset(rest);
        var j :| 0 <= j < |rest| && rest[j] == more[i];
        assert ([first] + rest)[0] == first && ([first] + rest)[j + 1] == rest[j];
      }
    }
  }

  /** The result is ascending by age and holds the same keys equally often. */
  lemma {:induction false} SortedSorts(age: Num -> nat, ks: seq<Num>)
    ensures Ascending(age, Sorted(age, ks)) && multiset(Sorted(age, ks)) == multiset(ks)
    decreases |ks|
  {
    if ks != [] {
      SortedSorts(age, ks[1..]);
      InsertSorts(age, ks[0], Sorted(age, ks[1..]));
      assert ks == [ks[0]] + ks[1..];
    }
  }

  predicate NoRepeats(ks: seq<Num>) { forall i, j :: 0 <= i < j < |ks| ==> ks[i] != ks[j] }

  function Keys(ks: seq<Num>): set<Num> { set k | k in ks }

  function Appended(ks: seq<Num>, k: Num): (more: seq<Num>)
    requires NoRepeats(ks) && k !in ks
    ensures NoRepeats(more) && forall j :: j in more <==> j in ks || j == k
  {
    ks + [k]
  }

  lemma NoRepeatsCount(ks: seq<Num>, more: seq<Num>)
    requires NoRepeats(ks) && multiset(ks) == multiset(more)
    ensures NoRepeats(more) && Keys(ks) == Keys(more)
  {
    forall k ensures k in ks <==> k in more {
      assert k in multiset(ks) <==> k in multiset(more);
    }
    forall i, j | 0 <= i < j < |more| ensures more[i] != more[j] {
      if more[i] == more[j] {
        var k := more[i];
        assert more == more[..j] + more[j..] && k in more[..j] && k in more[j..];
        assert multiset(more)[k] == multiset(more[..j])[k] + multiset(more[j..])[k] >= 2;
        OnceEach(ks, k);
      }
    }
  }

  lemma {:induction false} OnceEach(ks: seq<Num>, k: Num)
    requires NoRepeats(ks)
    ensures multiset(ks)[k] <= 1
    decreases |ks|
  {
    if ks != [] {
      OnceEach(ks[1..], k);
      assert ks == [ks[0]] + ks[1..];
      if ks[0] == k { assert k !in ks[1..]; assert k !in multiset(ks[1..]); }
    }
  }

  lemma KeysGrow(ks: seq<Num>, i: nat)
    requires i < |ks|
    ensures Keys(ks[..i + 1]) == Keys(ks[..i]) + {ks[i]}
  {
    assert ks[..i + 1] == ks[..i] + [ks[i]];
  }

  lemma {:induction false} KeysSize(ks: seq<Num>)
    requires NoRepeats(ks)
    ensures |Keys(ks)| == |ks|
    decreases |ks|
  {
    if ks == [] {
      assert Keys(ks) == {};
    } else {
      KeysSize(ks[1..]);
      assert Keys(ks) == {ks[0]} + Keys(ks[1..]);
      assert ks[0] !in ks[1..];
    }
  }

  lemma UpdateGone<V>(items: map<Num, V>, k: Num, v: V)
    ensures items[k := v] - {k} == items - {k}
  {
  }

  lemma MinusNone<V>(items: map<Num, V>)
    ensures items - {} == items
  {
  }

  lemma MinusGrow<V>(items: map<Num, V>, gone: set<Num>, k: Num)
    ensures items - gone - {k} == items - (gone + {k})
  {
  }

  // ---- sums over a map ----

  ghost function Total<V>(items: map<Num, V>, weight: V -> nat): nat
    decreases |items|
  {
    if items == map[] then 0
    else
      var k :| k in items;
      weight(items[k]) + Total(items - {k}, weight)
  }

  lemma {:induction false} TotalWithout<V>(items: map<Num, V>, weight: V -> nat, k: Num)
    requires k in items
    ensures Total(items, weight) == weight(items[k]) + Total(items - {k}, weight)
    decreases |items|
  {
    var j :| j in items && Total(items, weight) == weight(items[j]) + Total(items - {j}, weight);
    if j != k {
      TotalWithout(items - {j}, weight, k);
      TotalWithout(items - {k}, weight, j);
      assert items - {j} - {k} == items - {k} - {j};
    }
  }

  lemma TotalUpdate<V>(items: map<Num, V>, weight: V -> nat, k: Num, v: V)
    ensures Total(items[k := v], weight) == Total(items - {k}, weight) + weight(v)
    ensures k !in items ==> items - {k} == items
  {
    TotalWithout(items[k := v], weight, k);
    assert items[k := v] - {k} == items - {k};
  }

  lemma {:induction false} TotalSame<V>(a: map<Num, V>, b: map<Num, V>, weight: V -> nat)
    requires a.Keys == b.Keys && forall k :: k in a ==> weight(a[k]) == weight(b[k])
    ensures Total(a, weight) == Total(b, weight)
    decreases |a|
  {
    if a == map[] {
      assert b == map[];
    } else {
      var k :| k in a;
      TotalWithout(a, weight, k);
      TotalWithout(b, weight, k);
      TotalSame(a - {k}, b - {k}, weight);
    }
  }
}
