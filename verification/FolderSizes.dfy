/**
 The folder-size cache (src/folder_sizes.rs): a bounded map of expiring entries, stamped with
 a generation that every invalidation advances.
 */
module FolderSizes {
  import opened Common
  import opened VirtualPaths

  datatype FolderSize = FolderSize(bytes: nat, complete: bool)

  /** A folder: its share and its path in it. */
  datatype Key = Key(share: Bytes, path: Path)

  datatype Cached = Cached(size: FolderSize, stored: nat)

  type Entries = map<Key, Cached>

  function WrappingAdd(n: nat): nat {
    (n + 1) % U64_LIMIT
  }

  /** One of the two folders contains, or is, the other. */
  predicate Related(a: Key, b: Key) {
    a.share == b.share && (a.path <= b.path || b.path <= a.path)
  }

  function SaturatingSince(now: nat, earlier: nat): nat {
    if now < earlier then 0 else now - earlier
  }

  predicate Fresh(c: Cached, now: nat, ttl: nat) {
    SaturatingSince(now, c.stored) < ttl
  }

  function FreshEntries(entries: Entries, now: nat, ttl: nat): Entries {
    map k | k in entries && Fresh(entries[k], now, ttl) :: entries[k]
  }

  // ---- what each operation does to the entries ----

  /** The entries after storing a result: the new entry, and the rest minus what made room for it. */
  ghost predicate Stores(before: Entries, after: Entries, key: Key, cached: Cached, ttl: nat, capacity: nat) {
    exists evicted: set<Key> ::
      && after == (before - evicted)[key := cached]
      && MakesRoom(before, key, cached.stored, ttl, capacity, evicted)
  }

  /** Nothing is evicted unless a new key meets a full cache; then every expired entry goes, and
      if that is not enough, one of the oldest others. */
  ghost predicate MakesRoom(before: Entries, key: Key, now: nat, ttl: nat, capacity: nat, evicted: set<Key>) {
    if key in before || |before| < capacity then evicted == {}
    else if |FreshEntries(before, now, ttl)| < capacity then evicted == Expired(before, now, ttl)
    else exists oldest ::
      IsOldest(FreshEntries(before, now, ttl), oldest) && evicted == Expired(before, now, ttl) + {oldest}
  }

  function Expired(entries: Entries, now: nat, ttl: nat): set<Key> {
    entries.Keys - FreshEntries(entries, now, ttl).Keys
  }

  predicate IsOldest(entries: Entries, oldest: Key) {
    oldest in entries && forall k :: k in entries ==> entries[oldest].stored <= entries[k].stored
  }

  ghost predicate Forgets(before: Entries, after: Entries, key: Key) {
    after == map k | k in before && !Related(k, key) :: before[k]
  }

  /** Removing keys that are there removes as many entries. */
  lemma RemovedCount(entries: Entries, gone: set<Key>)
    requires gone <= entries.Keys
    ensures |entries - gone| == |entries| - |gone|
  {
    assert (entries - gone).Keys == entries.Keys - gone;
    assert |(entries - gone).Keys| == |entries.Keys| - |gone|;
  }

  lemma ExpiredGone(entries: Entries, now: nat, ttl: nat)
    ensures FreshEntries(entries, now, ttl) == entries - Expired(entries, now, ttl)
    ensures |FreshEntries(entries, now, ttl)| <= |entries|
  {
    assert FreshEntries(entries, now, ttl) == entries - Expired(entries, now, ttl);
    RemovedCount(entries, Expired(entries, now, ttl));
  }

  lemma OneMoreGone(before: Entries, gone: set<Key>, k: Key)
    requires k in before - gone
    ensures before - gone - {k} == before - (gone + {k}) && |before - gone - {k}| == |before - gone| - 1
  {
    assert before - gone - {k} == before - (gone + {k});
    RemovedCount(before - gone, {k});
  }

  lemma OneMoreStored(entries: Entries, k: Key, cached: Cached)
    ensures |entries[k := cached]| == |entries| + (if k in entries then 0 else 1)
  {
    assert entries[k := cached].Keys == entries.Keys + {k};
  }

  class FolderSizeCache {
    const ttl: nat
    const capacity: nat
    var entries: Entries
    var generation: nat

    ghost predicate Valid()
      reads this
    {
      1 <= capacity && |entries| <= capacity && generation < U64_LIMIT
    }

    constructor (ttl: nat, capacity: nat)
      ensures Valid() && entries == map[] && generation == 0
      ensures this.ttl == ttl && this.capacity == (if capacity < 1 then 1 else capacity)
    {
      this.ttl := ttl;
      this.capacity := if capacity < 1 then 1 else capacity;
      this.entries := map[];
      this.generation := 0;
    }

    /** The cached size if it is live; an expired entry is dropped when it is read. */
    method GetAt(key: Key, now: nat) returns (size: Option<FolderSize>)
      requires Valid()
      modifies this`entries
      ensures Valid()
      ensures size == if key in old(entries) && Fresh(old(entries)[key], now, ttl) then Some(old(entries)[key].size) else None
      ensures size.Some? <==> key in old(entries) && 0 < ttl && now < old(entries)[key].stored + ttl
      ensures entries == if size.None? then old(entries) - {key} else old(entries)
    {
      if key !in entries {
        return None;
      }
      if Fresh(entries[key], now, ttl) {
        return Some(entries[key].size);
      }
      RemovedCount(entries, {key});
      entries := entries - {key};
      size := None;
    }

    method Generation() returns (started: nat)
      requires Valid()
      ensures started == generation
    {
      started := generation;
    }

    /** Stores a walk's result unless an invalidation happened since `started`. */
    method InsertAt(key: Key, size: FolderSize, started: nat, now: nat)
      requires Valid()
      modifies this`entries
      ensures Valid()
      ensures generation != started ==> entries == old(entries)
      ensures generation == started ==> Stores(old(entries), entries, key, Cached(size, now), ttl, capacity)
    {
      if generation != started {
        return;
      }
      ghost var before, evicted: set<Key> := entries, {};
      if key !in entries && |entries| >= capacity {
        evicted := Evict(key, now);
      }
      assert entries == before - evicted;
      OneMoreStored(entries, key, Cached(size, now));
      entries := entries[key := Cached(size, now)];
    }

    /** Room for one more key in a full cache. */
    method Evict(key: Key, now: nat) returns (ghost evicted: set<Key>)
      requires Valid() && key !in entries && |entries| >= capacity
      modifies this`entries
      ensures |entries| < capacity && entries == old(entries) - evicted
      ensures MakesRoom(old(entries), key, now, ttl, capacity, evicted)
    {
      ghost var before := entries;
      evicted := Expired(entries, now, ttl);
      ExpiredGone(entries, now, ttl);
      entries := FreshEntries(entries, now, ttl);
      if |entries| >= capacity {
        var oldest := Oldest();
        OneMoreGone(before, evicted, oldest);
        entries := entries - {oldest};
        evicted := evicted + {oldest};
      }
    }

    /** `min_by_key` over the stored times. */
    method Oldest() returns (oldest: Key)
      requires |entries| > 0
      ensures IsOldest(entries, oldest)
    {
      assert entries.Keys != {};
      var rest := entries.Keys;
      oldest :| oldest in rest;
      rest := rest - {oldest};
      while rest != {}
        invariant oldest in entries && rest <= entries.Keys
        invariant forall k :: k in entries && k !in rest ==> entries[oldest].stored <= entries[k].stored
        decreases |rest|
      {
        var k :| k in rest;
        if entries[k].stored < entries[oldest].stored {
          oldest := k;
        }
        rest := rest - {k};
      }
    }

    /** Forgets `key`, every folder containing it, and everything beneath it. */
    method Invalidate(key: Key)
      requires Valid()
      modifies this
      ensures Valid()
      ensures generation == WrappingAdd(old(generation))
      ensures Forgets(old(entries), entries, key)
    {
      generation := WrappingAdd(generation);
      ghost var gone := set k | k in entries && Related(k, key);
      RemovedCount(entries, gone);
      assert entries - gone == map k | k in entries && !Related(k, key) :: entries[k];
      entries := map k | k in entries && !Related(k, key) :: entries[k];
    }

    /** `invalidate_share` */
    method InvalidateShare(share: Bytes)
      requires Valid()
      modifies this
      ensures Valid()
      ensures generation == WrappingAdd(old(generation))
      ensures entries == map k | k in old(entries) && k.share != share :: old(entries)[k]
    {
      Invalidate(Key(share, []));
    }
  }
}
