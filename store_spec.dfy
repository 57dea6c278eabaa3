/**
 * The store as a value: the shard table, the expiry index and the creation
 * instant, and one function per store operation as lib.rs performs it.
 * The class in store.dfy is proved against these functions; the lemmas at
 * the end state what the operations promise.
 */
module StoreSpec {
  import opened Keys

  /** One stored record: the raw key, the value and an optional absolute expiry instant. */
  datatype KeyValuePair = KeyValuePair(key: Bytes, value: Bytes, expiry: Option<int>)

  /** One shard: hidden key to record. */
  type ShardMap = map<HiddenKey, KeyValuePair>

  /** The expiry index: instant to the hidden keys registered at that instant. */
  type ExpiryIndex = map<int, seq<HiddenKey>>

  datatype StoreState = StoreState(shards: seq<ShardMap>, expiryTimes: ExpiryIndex, createdAt: int)

  /** Every record sits in the shard its hidden key selects. */
  ghost predicate Sharded(st: StoreState)
  {
    && |st.shards| == SHARDS
    && forall i, hk :: 0 <= i < |st.shards| && hk in st.shards[i] ==> Shard(hk) == i
  }

  /** Every record is filed under the hidden key of its own raw key. */
  ghost predicate KeysHashed(hash: Bytes -> bv64, st: StoreState)
  {
    forall i, hk :: 0 <= i < |st.shards| && hk in st.shards[i] ==> Hidden(hash, st.shards[i][hk].key) == hk
  }

  /** The store as `new` leaves it: SHARDS empty shards and an empty expiry index. */
  function Empty(createdAt: int): (st: StoreState)
    ensures Sharded(st) && st.createdAt == createdAt
    ensures forall i :: 0 <= i < SHARDS ==> st.shards[i] == map[]
    ensures st.expiryTimes == map[]
  {
    StoreState(seq(SHARDS, _ => map[]), map[], createdAt)
  }

  /** The record stored under `hk`, looked up in the one shard `hk` selects. */
  function Lookup(st: StoreState, hk: HiddenKey): Option<KeyValuePair>
    requires |st.shards| == SHARDS
  {
    var shard := st.shards[Shard(hk)];
    if hk in shard then Some(shard[hk]) else None
  }

  /** A record has expired at `now` when its expiry instant is at or before `now`. */
  predicate ExpiredAt(kv: KeyValuePair, now: int)
  {
    kv.expiry.Some? && kv.expiry.value <= now
  }

  /** `get`: the value, unless the record is missing or has expired at `now`. */
  function Get(st: StoreState, hk: HiddenKey, now: int): (r: Option<Bytes>)
    requires |st.shards| == SHARDS
    ensures r.Some? <==> GetUnchecked(st, hk).Some? && !ExpiredAt(Lookup(st, hk).value, now)
    ensures r.Some? ==> r == GetUnchecked(st, hk)
  {
    match Lookup(st, hk)
    case None => None
    case Some(kv) => if ExpiredAt(kv, now) then None else Some(kv.value)
  }

  /** `get_unchecked`: the value of any stored record, expired or not. */
  function GetUnchecked(st: StoreState, hk: HiddenKey): (r: Option<Bytes>)
    requires |st.shards| == SHARDS
    ensures r.Some? <==> GetKeyValue(st, hk).Some?
    ensures r.Some? ==> r.value == GetKeyValue(st, hk).value.1
  {
    match Lookup(st, hk)
    case None => None
    case Some(kv) => Some(kv.value)
  }

  /** `get_key_value` and `get_key_value_unchecked`: the stored raw key and value, expired or not. */
  function GetKeyValue(st: StoreState, hk: HiddenKey): (r: Option<(Bytes, Bytes)>)
    requires |st.shards| == SHARDS
    ensures r.Some? <==> hk in st.shards[Shard(hk)]
    ensures r.Some? ==> r.value == (st.shards[Shard(hk)][hk].key, st.shards[Shard(hk)][hk].value)
  {
    match Lookup(st, hk)
    case None => None
    case Some(kv) => Some((kv.key, kv.value))
  }

  /** The record under `hk` exists and carries expiry instant `t`. */
  predicate ExpiresAt(st: StoreState, hk: HiddenKey, t: int)
    requires |st.shards| == SHARDS
  {
    Lookup(st, hk).Some? && Lookup(st, hk).value.expiry == Some(t)
  }

  /** The index entry for `t`, created as `[hk]` only when there is none yet. */
  function RegisterIfAbsent(idx: ExpiryIndex, t: int, hk: HiddenKey): (r: ExpiryIndex)
    ensures t in r && (t in idx ==> r[t] == idx[t]) && (t !in idx ==> r[t] == [hk])
    ensures t in idx && hk !in idx[t] ==> hk !in r[t]
    ensures forall u :: u != t ==> (u in r <==> u in idx)
    ensures forall u :: u in idx ==> r[u] == idx[u]
  {
    if t in idx then idx else idx[t := [hk]]
  }

  /**
   * `set`: the expiry (if any) is registered with RegisterIfAbsent, then the
   * record replaces whatever the key's shard held under `hk`.
   */
  function Set(st: StoreState, hk: HiddenKey, kv: KeyValuePair): (r: StoreState)
    requires |st.shards| == SHARDS
    ensures |r.shards| == SHARDS && r.createdAt == st.createdAt
    ensures Lookup(r, hk) == Some(kv)
    ensures forall h :: h != hk ==> Lookup(r, h) == Lookup(st, h)
    ensures forall i :: 0 <= i < SHARDS && i != Shard(hk) ==> r.shards[i] == st.shards[i]
    ensures Sharded(st) ==> Sharded(r)
    ensures kv.expiry.None? ==> r.expiryTimes == st.expiryTimes
    ensures kv.expiry.Some? ==> kv.expiry.value in r.expiryTimes
    ensures forall t :: t in st.expiryTimes ==> t in r.expiryTimes && r.expiryTimes[t] == st.expiryTimes[t]
    ensures forall t :: t in r.expiryTimes && t !in st.expiryTimes ==> kv.expiry == Some(t) && r.expiryTimes[t] == [hk]
  {
    var s := Shard(hk);
    var idx := if kv.expiry.Some? then RegisterIfAbsent(st.expiryTimes, kv.expiry.value, hk) else st.expiryTimes;
    StoreState(st.shards[s := st.shards[s][hk := kv]], idx, st.createdAt)
  }

  /** `Vec::retain(|&x| x != hk)`: every occurrence of `hk` dropped, the rest kept in order. */
  function Retain(xs: seq<HiddenKey>, hk: HiddenKey): (r: seq<HiddenKey>)
    ensures multiset(r) == multiset(xs)[hk := 0]
    ensures forall x :: x in r <==> x in xs && x != hk
    ensures hk !in xs ==> r == xs
  {
    if xs == [] then []
    else
      assert xs == [xs[0]] + xs[1..];
      if xs[0] == hk then Retain(xs[1..], hk) else [xs[0]] + Retain(xs[1..], hk)
  }

  /**
   * The bucket of `expiry` (when there is one) with `hk` retained out of it;
   * the bucket itself stays, even when it becomes empty.
   */
  function Unregister(idx: ExpiryIndex, expiry: Option<int>, hk: HiddenKey): (r: ExpiryIndex)
    ensures r.Keys == idx.Keys
    ensures forall t :: t in idx && expiry != Some(t) ==> r[t] == idx[t]
    ensures expiry.Some? && expiry.value in idx ==> multiset(r[expiry.value]) == multiset(idx[expiry.value])[hk := 0]
  {
    if expiry.Some? && expiry.value in idx then idx[expiry.value := Retain(idx[expiry.value], hk)] else idx
  }

  /**
   * `remove`: the record under `hk` leaves its shard and, when it carried an
   * expiry, `hk` is retained out of that one bucket.
   */
  function Remove(st: StoreState, hk: HiddenKey): (r: StoreState)
    requires |st.shards| == SHARDS
    ensures |r.shards| == SHARDS && r.createdAt == st.createdAt
    ensures Lookup(r, hk) == None
    ensures forall h :: h != hk ==> Lookup(r, h) == Lookup(st, h)
    ensures forall i :: 0 <= i < SHARDS && i != Shard(hk) ==> r.shards[i] == st.shards[i]
    ensures Sharded(st) ==> Sharded(r)
    ensures r.expiryTimes.Keys == st.expiryTimes.Keys
    ensures forall t :: t in st.expiryTimes && !ExpiresAt(st, hk, t) ==> r.expiryTimes[t] == st.expiryTimes[t]
    ensures forall t :: t in st.expiryTimes && ExpiresAt(st, hk, t) ==>
      multiset(r.expiryTimes[t]) == multiset(st.expiryTimes[t])[hk := 0]
  {
    var s := Shard(hk);
    if hk in st.shards[s] then
      var expiry := st.shards[s][hk].expiry;
      StoreState(st.shards[s := st.shards[s] - {hk}], Unregister(st.expiryTimes, expiry, hk), st.createdAt)
    else
      st
  }

  /** The instants `evict` scans: those of the index in `createdAt..now`, half-open. */
  function DueTimes(st: StoreState, now: int): (r: set<int>)
    ensures r <= st.expiryTimes.Keys
    ensures now !in r && st.createdAt - 1 !in r
    ensures forall t :: t in r ==> st.createdAt <= t < now
    ensures forall t :: t in st.expiryTimes && st.createdAt <= t < now ==> t in r
  {
    set t | t in st.expiryTimes && st.createdAt <= t < now
  }

  /** Every hidden key listed in a bucket of the index at one of `times`. */
  function ListedIn(idx: ExpiryIndex, times: set<int>): set<HiddenKey>
  {
    set t, hk | t in times && t in idx && hk in idx[t] :: hk
  }

  /** Adding one instant to a scan adds exactly the keys of its bucket. */
  lemma ListedInInsert(idx: ExpiryIndex, times: set<int>, t: int)
    requires t in idx
    ensures forall hk :: hk in ListedIn(idx, times + {t}) <==> hk in ListedIn(idx, times) || hk in idx[t]
  {
    forall hk | hk in idx[t] ensures hk in ListedIn(idx, times + {t}) {
      assert t in times + {t};
    }
  }

  /**
   * The shard table and index after the buckets at `due` are consumed: every
   * key listed in one of them leaves its own shard, then those buckets go.
   */
  function EvictTimes(st: StoreState, due: set<int>): (r: StoreState)
    requires |st.shards| == SHARDS
    ensures |r.shards| == SHARDS && r.createdAt == st.createdAt
    ensures forall hk :: hk in ListedIn(st.expiryTimes, due) ==> Lookup(r, hk) == None
    ensures forall hk :: hk !in ListedIn(st.expiryTimes, due) ==> Lookup(r, hk) == Lookup(st, hk)
    ensures Sharded(st) ==> Sharded(r)
    ensures r.expiryTimes.Keys == st.expiryTimes.Keys - due
    ensures forall t :: t in r.expiryTimes ==> r.expiryTimes[t] == st.expiryTimes[t]
  {
    var items := ListedIn(st.expiryTimes, due);
    var shards := seq(SHARDS, i requires 0 <= i < SHARDS => st.shards[i] - (set hk | hk in items && Shard(hk) == i));
    StoreState(shards, st.expiryTimes - due, st.createdAt)
  }

  /**
   * A shard table that lost, shard by shard, exactly the keys of `items` that
   * select that shard is the one EvictTimes describes, when `items` lists
   * the keys of the buckets at `due`.
   */
  lemma EvictShardsMatch(st: StoreState, due: set<int>, items: seq<HiddenKey>, shards: seq<ShardMap>)
    requires |st.shards| == SHARDS && |shards| == SHARDS
    requires forall hk :: hk in items <==> hk in ListedIn(st.expiryTimes, due)
    requires forall i, hk :: 0 <= i < SHARDS ==>
      (hk in shards[i] <==> hk in st.shards[i] && !(hk in items && Shard(hk) == i))
    requires forall i, hk :: 0 <= i < SHARDS && hk in shards[i] ==> hk in st.shards[i] && shards[i][hk] == st.shards[i][hk]
    ensures shards == EvictTimes(st, due).shards
  {
    var r := EvictTimes(st, due);
    forall i | 0 <= i < SHARDS ensures shards[i] == r.shards[i] {
      forall hk ensures hk in shards[i] <==> hk in r.shards[i] {
        assert hk in ListedIn(st.expiryTimes, due) <==> hk in items;
      }
      assert shards[i].Keys == r.shards[i].Keys;
    }
  }

  /**
   * `evict` at `now`. The Rust code reads `now` from a monotonic clock after the
   * store was created, so `now` is never before `createdAt` (a range whose
   * start exceeds its end would panic).
   */
  function Evict(st: StoreState, now: int): (r: StoreState)
    requires |st.shards| == SHARDS && st.createdAt <= now
    ensures |r.shards| == SHARDS && r.createdAt == st.createdAt
    ensures forall t :: t in r.expiryTimes <==> t in st.expiryTimes && !(st.createdAt <= t < now)
    ensures forall t :: t in r.expiryTimes ==> r.expiryTimes[t] == st.expiryTimes[t]
    ensures forall hk :: Lookup(r, hk) == (if hk in ListedIn(st.expiryTimes, DueTimes(st, now)) then None else Lookup(st, hk))
  {
    EvictTimes(st, DueTimes(st, now))
  }

  // ----- What the operations promise -----

  /** `new` then any read: nothing is stored. */
  lemma EmptyStoresNothing(createdAt: int, hk: HiddenKey, now: int)
    ensures Lookup(Empty(createdAt), hk) == None
    ensures Get(Empty(createdAt), hk, now) == None && GetKeyValue(Empty(createdAt), hk) == None
  {
  }

  /**
   * `set` then `get`: the value comes back unless the new expiry is at or
   * before `now`; `get_unchecked` and `get_key_value` always return it.
   */
  lemma SetThenGet(st: StoreState, hk: HiddenKey, kv: KeyValuePair, now: int)
    requires |st.shards| == SHARDS
    ensures Get(Set(st, hk, kv), hk, now) == if ExpiredAt(kv, now) then None else Some(kv.value)
    ensures GetUnchecked(Set(st, hk, kv), hk) == Some(kv.value)
    ensures GetKeyValue(Set(st, hk, kv), hk) == Some((kv.key, kv.value))
  {
  }

  /** A second `set` of the same hidden key wins wholesale. */
  lemma SetOverwrites(st: StoreState, hk: HiddenKey, kv1: KeyValuePair, kv2: KeyValuePair)
    requires |st.shards| == SHARDS
    ensures Lookup(Set(Set(st, hk, kv1), hk, kv2), hk) == Some(kv2)
  {
  }

  /** Expiry hides a record from `get` without erasing it; a later expiry keeps it visible. */
  lemma ExpiryHidesWithoutErasing(st: StoreState, hk: HiddenKey, now: int)
    requires |st.shards| == SHARDS && Lookup(st, hk).Some?
    ensures ExpiredAt(Lookup(st, hk).value, now) ==>
      Get(st, hk, now) == None && GetUnchecked(st, hk) == Some(Lookup(st, hk).value.value)
    ensures !ExpiredAt(Lookup(st, hk).value, now) ==> Get(st, hk, now) == GetUnchecked(st, hk)
    ensures GetKeyValue(st, hk) == Some((Lookup(st, hk).value.key, Lookup(st, hk).value.value))
  {
  }

  /**
   * Two raw keys with the same hash are one entry: after `set` under one,
   * the other reads the same value and the first key's bytes.
   */
  lemma CollidingKeysShareEntry(hash: Bytes -> bv64, st: StoreState, k1: Bytes, k2: Bytes, v: Bytes, e: Option<int>)
    requires |st.shards| == SHARDS && hash(k1) == hash(k2)
    ensures GetKeyValue(Set(st, Hidden(hash, k1), KeyValuePair(k1, v, e)), Hidden(hash, k2)) == Some((k1, v))
  {
  }

  /** `set` keeps the key-hashing invariant when the record is filed under its own key's hash. */
  lemma SetKeepsKeysHashed(hash: Bytes -> bv64, st: StoreState, key: Bytes, kv: KeyValuePair)
    requires Sharded(st) && KeysHashed(hash, st) && kv.key == key
    ensures KeysHashed(hash, Set(st, Hidden(hash, key), kv))
  {
    var r := Set(st, Hidden(hash, key), kv);
    forall i, hk | 0 <= i < |r.shards| && hk in r.shards[i]
      ensures Hidden(hash, r.shards[i][hk].key) == hk
    {
      if i != Shard(Hidden(hash, key)) {
        assert r.shards[i] == st.shards[i];
      }
    }
  }

  /** The keys a read-back record came from hash like the key asked for. */
  lemma KeyValueKeyCollides(hash: Bytes -> bv64, st: StoreState, key: Bytes)
    requires Sharded(st) && KeysHashed(hash, st) && GetKeyValue(st, Hidden(hash, key)).Some?
    ensures Hidden(hash, GetKeyValue(st, Hidden(hash, key)).value.0) == Hidden(hash, key)
  {
  }

  /** `remove` twice is `remove` once. */
  lemma RemoveIdempotent(st: StoreState, hk: HiddenKey)
    requires |st.shards| == SHARDS
    ensures Remove(Remove(st, hk), hk) == Remove(st, hk)
  {
  }

  /**
   * `set` with expiry `t` then `remove`: the record is gone and the bucket at
   * `t` is still there but no longer lists `hk`, whether `set` created it or
   * found it already present.
   */
  lemma SetThenRemoveUnlists(st: StoreState, hk: HiddenKey, kv: KeyValuePair, t: int)
    requires |st.shards| == SHARDS && kv.expiry == Some(t)
    ensures Lookup(Remove(Set(st, hk, kv), hk), hk) == None
    ensures t in Remove(Set(st, hk, kv), hk).expiryTimes
    ensures hk !in Remove(Set(st, hk, kv), hk).expiryTimes[t]
  {
    var s1 := Set(st, hk, kv);
    var r := Remove(s1, hk);
    assert ExpiresAt(s1, hk, t);
    assert multiset(r.expiryTimes[t])[hk] == 0;
  }

  /**
   * `evict` at `now`: a key listed in a bucket at an instant in
   * `createdAt..now` is gone from its shard; any other key is untouched;
   * those buckets are deleted and every other bucket is unchanged.
   */
  lemma EvictEffectiveAndScoped(st: StoreState, now: int, hk: HiddenKey, t: int)
    requires |st.shards| == SHARDS && st.createdAt <= now
    ensures t in st.expiryTimes && st.createdAt <= t < now && hk in st.expiryTimes[t] ==>
      Lookup(Evict(st, now), hk) == None
    ensures (forall u :: u in st.expiryTimes && st.createdAt <= u < now ==> hk !in st.expiryTimes[u]) ==>
      Lookup(Evict(st, now), hk) == Lookup(st, hk)
    ensures t in Evict(st, now).expiryTimes <==> t in st.expiryTimes && !(st.createdAt <= t < now)
    ensures t in Evict(st, now).expiryTimes ==> Evict(st, now).expiryTimes[t] == st.expiryTimes[t]
  {
    var due := DueTimes(st, now);
    if t in st.expiryTimes && st.createdAt <= t < now && hk in st.expiryTimes[t] {
      assert hk in ListedIn(st.expiryTimes, due);
    }
  }

  /**
   * From a fresh store: an entry whose expiry falls in `createdAt..now` is
   * physically gone after `evict(now)`, while an entry of another key with
   * a later expiry is still returned by `get`.
   */
  lemma EvictScenario(c: int, h1: HiddenKey, kv1: KeyValuePair, h2: HiddenKey, kv2: KeyValuePair, now: int)
    requires h1 != h2
    requires kv1.expiry.Some? && c <= kv1.expiry.value < now
    requires kv2.expiry.Some? && kv2.expiry.value > now
    ensures GetUnchecked(Evict(Set(Set(Empty(c), h1, kv1), h2, kv2), now), h1) == None
    ensures Get(Evict(Set(Set(Empty(c), h1, kv1), h2, kv2), now), h2, now) == Some(kv2.value)
  {
    var st := Set(Set(Empty(c), h1, kv1), h2, kv2);
    var t1 := kv1.expiry.value;
    assert st.expiryTimes[t1] == [h1];
    EvictEffectiveAndScoped(st, now, h1, t1);
    EvictEffectiveAndScoped(st, now, h2, t1);
  }
}
