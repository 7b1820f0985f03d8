/** The size-tracked cache with random eviction that fronts the database stores. */
module CacheStore {
  import opened Basics

  /** `m` holds nothing that `n` does not hold as well. */
  ghost predicate SubMap<K, V>(m: map<K, V>, n: map<K, V>)
  {
    forall k :: k in m ==> k in n && m[k] == n[k]
  }

  /** Sum of the estimated sizes of all entries. */
  ghost function TotalSize<K, V>(m: map<K, V>, size: V -> nat): (t: nat)
    decreases |m|
  {
    if m == map[] then 0
    else
      var k :| k in m;
      RemoveShrinks(m, k);
      size(m[k]) + TotalSize(m - {k}, size)
  }

  /** The sum does not depend on the order in which entries are taken. */
  lemma {:induction false} TotalSizeRemove<K, V>(m: map<K, V>, size: V -> nat, k: K)
    requires k in m
    ensures TotalSize(m, size) == size(m[k]) + TotalSize(m - {k}, size)
    decreases |m|
  {
    var j :| j in m && TotalSize(m, size) == size(m[j]) + TotalSize(m - {j}, size);
    if j != k {
      RemoveShrinks(m, j);
      RemoveShrinks(m, k);
      TotalSizeRemove(m - {j}, size, k);
      TotalSizeRemove(m - {k}, size, j);
      assert m - {j} - {k} == m - {k} - {j};
    }
  }

  lemma TotalSizeUpdate<K, V>(m: map<K, V>, size: V -> nat, k: K, v: V)
    ensures TotalSize(m[k := v], size) + (if k in m then size(m[k]) else 0) == TotalSize(m, size) + size(v)
  {
    TotalSizeRemove(m[k := v], size, k);
    assert m[k := v] - {k} == m - {k};
    if k in m {
      TotalSizeRemove(m, size, k);
    } else {
      assert m - {k} == m;
    }
  }

  lemma InsertGrows<K, V>(m: map<K, V>, k: K, v: V)
    ensures |m[k := v]| == if k in m then |m| else |m| + 1
  {
    assert m[k := v].Keys == m.Keys + {k};
    assert |m[k := v]| == |m[k := v].Keys| && |m| == |m.Keys|;
  }

  /** The entries of `m` overridden by `items`, later items winning. */
  function CacheItems<K, V>(m: map<K, V>, items: seq<(K, V)>): (r: map<K, V>)
  {
    if |items| == 0 then m
    else CacheItems(m, items[..|items| - 1])[items[|items| - 1].0 := items[|items| - 1].1]
  }

  function KeySet<K>(keys: seq<K>): (r: set<K>)
  {
    set k | k in keys
  }

  lemma KeySetSnoc<K>(keys: seq<K>, i: nat)
    requires i < |keys|
    ensures KeySet(keys[..i + 1]) == KeySet(keys[..i]) + {keys[i]}
  {
    assert keys[..i + 1] == keys[..i] + [keys[i]];
  }

  lemma RemoveOneMore<K, V>(m: map<K, V>, keys: seq<K>, i: nat)
    requires i < |keys|
    ensures m - KeySet(keys[..i]) - {keys[i]} == m - KeySet(keys[..i + 1])
  {
    KeySetSnoc(keys, i);
  }

  datatype CachePolicy = Empty | Count(capacity: nat) | Tracked(limit: nat, floor: nat)

  /** `Inner` and `Cache` in one object; `size` is the estimator for the policy's memory mode. */
  class Cache<K(==), V> {
    const tracked: bool
    const maxSize: nat
    const minItems: nat
    const size: V -> nat
    var entries: map<K, V>
    var trackedSize: nat

    /** What every call preserves: exact accounting in tracked mode, and the policy's bound in either mode. */
    ghost predicate Valid()
      reads this
    {
      && (maxSize == 0 ==> entries == map[])
      && (tracked ==> trackedSize == TotalSize(entries, size) && (trackedSize <= maxSize || |entries| <= minItems))
      && (!tracked ==> |entries| <= maxSize)
    }

    /** Going from one to the other evicts nothing: the size stays within the limit, or the count was below it. */
    ghost predicate RoomFor(before: map<K, V>, after: map<K, V>)
    {
      0 < maxSize && if tracked then TotalSize(after, size) <= maxSize else |before| < maxSize
    }

    constructor (policy: CachePolicy, size: V -> nat)
      ensures Valid() && entries == map[]
      ensures tracked == policy.Tracked?
      ensures maxSize == match policy { case Empty => 0 case Count(n) => n case Tracked(n, _) => n }
      ensures minItems == match policy { case Tracked(_, n) => n case _ => 0 }
    {
      match policy {
        case Empty => tracked, maxSize, minItems := false, 0, 0;
        case Count(n) => tracked, maxSize, minItems := false, n, 0;
        case Tracked(n, m) => tracked, maxSize, minItems := true, n, m;
      }
      this.size := size;
      entries, trackedSize := map[], 0;
    }

    /** `tracked_evict`: drops entries, whichever they are, until the policy is met. */
    method TrackedEvict()
      requires trackedSize == TotalSize(entries, size)
      modifies this
      ensures trackedSize == TotalSize(entries, size)
      ensures trackedSize <= maxSize || |entries| <= minItems
      ensures SubMap(entries, old(entries))
      ensures old(trackedSize <= maxSize || |entries| <= minItems) ==> entries == old(entries)
    {
      while trackedSize > maxSize && |entries| > minItems
        invariant trackedSize == TotalSize(entries, size)
        invariant SubMap(entries, old(entries))
        invariant old(trackedSize <= maxSize || |entries| <= minItems) ==> entries == old(entries)
        decreases |entries|
      {
        var k :| k in entries;
        TotalSizeRemove(entries, size, k);
        RemoveShrinks(entries, k);
        trackedSize := trackedSize - size(entries[k]);
        entries := entries - {k};
      }
    }

    /** `Inner::insert`. */
    method InsertInner(k: K, v: V)
      requires Valid() && maxSize > 0
      modifies this
      ensures Valid()
      ensures SubMap(entries, old(entries)[k := v])
      ensures !tracked ==> k in entries && entries[k] == v && |entries| + 1 >= |old(entries)|
      ensures RoomFor(old(entries), old(entries)[k := v]) ==> entries == old(entries)[k := v]
    {
      if tracked {
        TotalSizeUpdate(entries, size, k, v);
        trackedSize := trackedSize + size(v);
        if k in entries {
          trackedSize := trackedSize - size(entries[k]);
        }
        entries := entries[k := v];
        TrackedEvict();
      } else {
        if |entries| == maxSize {
          var j :| j in entries;
          RemoveShrinks(entries, j);
          entries := entries - {j};
        }
        InsertGrows(entries, k, v);
        entries := entries[k := v];
      }
    }

    method Insert(k: K, v: V)
      requires Valid()
      modifies this
      ensures Valid()
      ensures SubMap(entries, old(entries)[k := v])
      ensures !tracked && maxSize > 0 ==> k in entries && entries[k] == v && |entries| + 1 >= |old(entries)|
      ensures RoomFor(old(entries), old(entries)[k := v]) ==> entries == old(entries)[k := v]
    {
      if maxSize == 0 {
        return;
      }
      InsertInner(k, v);
    }

    method Remove(k: K)
      requires Valid()
      modifies this
      ensures Valid()
      ensures entries == old(entries) - {k}
    {
      if maxSize == 0 {
        return;
      }
      if k in entries {
        TotalSizeRemove(entries, size, k);
        RemoveShrinks(entries, k);
        if tracked {
          trackedSize := trackedSize - size(entries[k]);
        }
      } else {
        assert entries - {k} == entries;
      }
      entries := entries - {k};
    }

    /** There is room at every one of the items. */
    ghost predicate AlwaysRoom(m: map<K, V>, items: seq<(K, V)>)
    {
      forall i :: 0 <= i < |items| ==> RoomFor(CacheItems(m, items[..i]), CacheItems(m, items[..i + 1]))
    }

    method InsertMany(items: seq<(K, V)>)
      requires Valid()
      modifies this
      ensures Valid()
      ensures SubMap(entries, CacheItems(old(entries), items))
      ensures !tracked && maxSize > 0 && |items| > 0 ==>
                var last := items[|items| - 1]; last.0 in entries && entries[last.0] == last.1
      ensures AlwaysRoom(old(entries), items) ==> entries == CacheItems(old(entries), items)
    {
      if maxSize == 0 {
        if |items| > 0 {
          assert !RoomFor(CacheItems(entries, items[..0]), CacheItems(entries, items[..0 + 1]));
        }
        return;
      }
      var i := 0;
      while i < |items|
        invariant 0 <= i <= |items| && Valid()
        invariant SubMap(entries, CacheItems(old(entries), items[..i]))
        invariant !tracked && i > 0 ==> items[i - 1].0 in entries && entries[items[i - 1].0] == items[i - 1].1
        invariant AlwaysRoom(old(entries), items) ==> entries == CacheItems(old(entries), items[..i])
      {
        assert items[..i + 1][..i] == items[..i];
        if AlwaysRoom(old(entries), items) {
          assert RoomFor(CacheItems(old(entries), items[..i]), CacheItems(old(entries), items[..i + 1]));
        }
        InsertInner(items[i].0, items[i].1);
        i := i + 1;
      }
      assert items[..i] == items;
    }

    method RemoveMany(keys: seq<K>)
      requires Valid()
      modifies this
      ensures Valid()
      ensures entries == old(entries) - KeySet(keys)
    {
      if maxSize == 0 {
        return;
      }
      var i := 0;
      while i < |keys|
        invariant 0 <= i <= |keys| && Valid()
        invariant entries == old(entries) - KeySet(keys[..i])
      {
        RemoveOneMore(old(entries), keys, i);
        Remove(keys[i]);
        i := i + 1;
      }
      assert keys[..i] == keys;
    }

    method UpdateIfEntryExists(k: K, op: V -> V)
      requires Valid()
      modifies this
      ensures Valid()
      ensures SubMap(entries, if k in old(entries) then old(entries)[k := op(old(entries)[k])] else old(entries))
      ensures !tracked && maxSize > 0 && k in old(entries) ==> entries == old(entries)[k := op(old(entries)[k])]
      ensures k !in old(entries) ==> entries == old(entries)
      ensures k in old(entries) && RoomFor(old(entries), old(entries)[k := op(old(entries)[k])]) ==>
                entries == old(entries)[k := op(old(entries)[k])]
    {
      if maxSize == 0 || k !in entries {
        return;
      }
      var v := op(entries[k]);
      TotalSizeUpdate(entries, size, k, v);
      TotalSizeRemove(entries, size, k);
      InsertGrows(entries, k, v);
      if tracked {
        trackedSize := trackedSize - size(entries[k]);
        entries := entries[k := v];
        trackedSize := trackedSize + size(v);
        TrackedEvict();
      } else {
        entries := entries[k := v];
      }
    }

    method RemoveAll()
      requires Valid()
      modifies this
      ensures Valid()
      ensures entries == map[]
    {
      if maxSize == 0 {
        return;
      }
      entries := map[];
      if tracked {
        trackedSize := 0;
      }
    }
  }
}
