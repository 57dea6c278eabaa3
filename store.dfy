/**
 * The store handle: a fixed table of SHARDS shard maps, the expiry index and
 * the creation instant. Every operation runs as one sequential step (the
 * per-shard and index locks are not modelled) and is proved to leave the
 * store in the state the matching StoreSpec function describes.
 */
module Store {
  import opened Keys
  import opened StoreSpec

  class CornerStore {
    /** The key hasher; fixed for the life of the store. */
    const hash: Bytes -> bv64
    /** The instant the store was created: the lower end of every eviction scan. */
    const createdAt: int
    /** The shard table. */
    const data: array<ShardMap>
    /** The expiry index: instant to the hidden keys registered for it. */
    var expiryTimes: ExpiryIndex

    /** The store as a value. */
    ghost function State(): StoreState
      reads this, data
    {
      StoreState(data[..], expiryTimes, createdAt)
    }

    /** The object invariant: SHARDS shards, each record in its own shard under its own key's hash. */
    ghost predicate Valid()
      reads this, data
    {
      && data.Length == SHARDS
      && Sharded(State())
      && KeysHashed(hash, State())
    }

    /** `new`: SHARDS empty shards pushed one by one, an empty index, `now` as creation instant. */
    constructor (hash: Bytes -> bv64, now: int)
      ensures Valid() && fresh(data)
      ensures this.hash == hash
      ensures State() == Empty(now)
    {
      var shards := new ShardMap[SHARDS];
      for i := 0 to SHARDS
        invariant forall j :: 0 <= j < i ==> shards[j] == map[]
      {
        shards[i] := map[];
      }
      this.hash := hash;
      data := shards;
      createdAt := now;
      expiryTimes := map[];
      new;
      assert data[..] == Empty(now).shards;
    }

    /** `get`: the value under `key`, or None when it is missing or has expired at `now`. */
    method Get(key: Bytes, now: int) returns (r: Option<Bytes>)
      requires Valid()
      ensures r == StoreSpec.Get(State(), Hidden(hash, key), now)
    {
      var hk := Hidden(hash, key);
      var shard := data[Shard(hk)];
      if hk in shard {
        var kv := shard[hk];
        if kv.expiry.Some? && kv.expiry.value <= now {
          return None;
        }
        r := Some(kv.value);
      } else {
        r := None;
      }
    }

    /** `get_key_value`: the stored key and value under `key`; expiry is not checked. */
    method GetKeyValue(key: Bytes) returns (r: Option<(Bytes, Bytes)>)
      requires Valid()
      ensures r == StoreSpec.GetKeyValue(State(), Hidden(hash, key))
      ensures r.Some? ==> Hidden(hash, r.value.0) == Hidden(hash, key)
    {
      var hk := Hidden(hash, key);
      var shard := data[Shard(hk)];
      if hk in shard {
        r := Some((shard[hk].key, shard[hk].value));
      } else {
        r := None;
      }
    }

    /** `get_unchecked`: the value under `key`, even when it has expired. */
    method GetUnchecked(key: Bytes) returns (r: Option<Bytes>)
      requires Valid()
      ensures r == StoreSpec.GetUnchecked(State(), Hidden(hash, key))
    {
      var hk := Hidden(hash, key);
      var shard := data[Shard(hk)];
      if hk in shard {
        r := Some(shard[hk].value);
      } else {
        r := None;
      }
    }

    /** `get_key_value_unchecked`: the stored key and value under `key`, even when expired. */
    method GetKeyValueUnchecked(key: Bytes) returns (r: Option<(Bytes, Bytes)>)
      requires Valid()
      ensures r == StoreSpec.GetKeyValue(State(), Hidden(hash, key))
      ensures r.Some? ==> Hidden(hash, r.value.0) == Hidden(hash, key)
    {
      var hk := Hidden(hash, key);
      var shard := data[Shard(hk)];
      if hk in shard {
        r := Some((shard[hk].key, shard[hk].value));
      } else {
        r := None;
      }
    }

    /**
     * `set`: when `expiry` is present, a bucket `[hk]` is created for it
     * unless one already exists; then the record replaces the key's entry.
     */
    method Set(key: Bytes, val: Bytes, expiry: Option<int>)
      requires Valid()
      modifies this, data
      ensures Valid()
      ensures State() == StoreSpec.Set(old(State()), Hidden(hash, key), KeyValuePair(key, val, expiry))
    {
      var hk := Hidden(hash, key);
      var kv := KeyValuePair(key, val, expiry);
      if expiry.Some? {
        var time := expiry.value;
        if time !in expiryTimes {
          expiryTimes := expiryTimes[time := [hk]];
        }
      }
      var s := Shard(hk);
      data[s] := data[s][hk := kv];
      SetKeepsKeysHashed(hash, old(State()), key, kv);
    }

    /** `update`: the same as `set`. */
    method Update(key: Bytes, val: Bytes, expiry: Option<int>)
      requires Valid()
      modifies this, data
      ensures Valid()
      ensures State() == StoreSpec.Set(old(State()), Hidden(hash, key), KeyValuePair(key, val, expiry))
    {
      Set(key, val, expiry);
    }

    /**
     * `remove`: the record under `key` leaves its shard; the expiry it carried
     * is read out first, and `hk` is then retained out of that bucket only.
     */
    method Remove(key: Bytes)
      requires Valid()
      modifies this, data
      ensures Valid()
      ensures State() == StoreSpec.Remove(old(State()), Hidden(hash, key))
    {
      var hk := Hidden(hash, key);
      var expiry: Option<int> := None;
      var s := Shard(hk);
      if hk in data[s] {
        expiry := data[s][hk].expiry;
        data[s] := data[s] - {hk};
      }
      if expiry.Some? && expiry.value in expiryTimes {
        expiryTimes := expiryTimes[expiry.value := Retain(expiryTimes[expiry.value], hk)];
      }
    }

    /**
     * The scan of `evict`: every instant of the index in `createdAt..now`,
     * and every hidden key listed under one of them.
     */
    method CollectDue(now: int) returns (timesToRemove: seq<int>, itemsToRemove: seq<HiddenKey>)
      requires Valid() && createdAt <= now
      ensures forall t :: t in timesToRemove <==> t in DueTimes(State(), now)
      ensures forall hk :: hk in itemsToRemove <==> hk in ListedIn(expiryTimes, DueTimes(State(), now))
    {
      ghost var due := DueTimes(State(), now);
      timesToRemove, itemsToRemove := [], [];
      var pending := set t | t in expiryTimes && createdAt <= t < now;
      while pending != {}
        invariant pending <= due
        invariant forall t :: t in timesToRemove <==> t in due && t !in pending
        invariant forall hk :: hk in itemsToRemove <==> hk in ListedIn(expiryTimes, due - pending)
        decreases pending
      {
        var t :| t in pending;
        ListedInInsert(expiryTimes, due - pending, t);
        assert due - (pending - {t}) == (due - pending) + {t};
        timesToRemove := timesToRemove + [t];
        itemsToRemove := itemsToRemove + expiryTimes[t];
        pending := pending - {t};
      }
    }

    /** The first removal loop of `evict`: each listed key leaves the shard it selects. */
    method RemoveItems(items: seq<HiddenKey>)
      requires Valid()
      modifies data
      ensures Valid()
      ensures forall i, hk :: 0 <= i < SHARDS ==>
        (hk in data[i] <==> hk in old(data[i]) && !(hk in items && Shard(hk) == i))
      ensures forall i, hk :: 0 <= i < SHARDS && hk in data[i] ==> hk in old(data[i]) && data[i][hk] == old(data[i])[hk]
    {
      var j := 0;
      while j < |items|
        invariant 0 <= j <= |items|
        invariant forall i, hk :: 0 <= i < SHARDS ==>
          (hk in data[i] <==> hk in old(data[i]) && !(hk in items[..j] && Shard(hk) == i))
        invariant forall i, hk :: 0 <= i < SHARDS && hk in data[i] ==> hk in old(data[i]) && data[i][hk] == old(data[i])[hk]
      {
        var item := items[j];
        var s := Shard(item);
        data[s] := data[s] - {item};
        assert items[..j + 1] == items[..j] + [item];
        j := j + 1;
      }
      assert items[..j] == items;
    }

    /**
     * `evict` at `now`: collect the instants of the index in
     * `createdAt..now` and the keys listed under them, remove each such key
     * from its shard, then delete each such bucket. `now` comes from a
     * monotonic clock read after the store was created.
     */
    method Evict(now: int)
      requires Valid() && createdAt <= now
      modifies this, data
      ensures Valid()
      ensures State() == StoreSpec.Evict(old(State()), now)
    {
      ghost var st0 := State();
      ghost var due := DueTimes(st0, now);
      var timesToRemove, itemsToRemove := CollectDue(now);
      assert State() == st0;
      forall t ensures t in timesToRemove <==> t in due {
        assert t in timesToRemove <==> t in DueTimes(State(), now);
      }
      assert (set t | t in timesToRemove) == due;
      RemoveItems(itemsToRemove);
      ghost var shards := data[..];
      assert forall i :: 0 <= i < SHARDS ==> shards[i] == data[i] && st0.shards[i] == old(data[i]);
      var k := 0;
      while k < |timesToRemove|
        modifies this
        invariant 0 <= k <= |timesToRemove|
        invariant expiryTimes == st0.expiryTimes - (set t | t in timesToRemove[..k])
      {
        assert timesToRemove[..k + 1] == timesToRemove[..k] + [timesToRemove[k]];
        expiryTimes := expiryTimes - {timesToRemove[k]};
        k := k + 1;
      }
      assert timesToRemove[..k] == timesToRemove;
      EvictShardsMatch(st0, due, itemsToRemove, shards);
    }
  }
}
