/**
 * Where the store's code departs from what it evidently means to do, this
 * module shows the departure on a concrete store (the "as written" lemmas,
 * about the StoreSpec functions the class is proved against) and gives the
 * corrected definition with the intended property proved:
 *
 * - `get_key_value` is documented as returning only unexpired pairs, but
 *   does not check expiry: GetKeyValueLive checks it.
 * - `set` registers an expiry only when no bucket exists at that instant,
 *   and never unregisters the previous expiry of the key it overwrites:
 *   SetRegistering unregisters the old one and appends to the bucket.
 * - `evict` scans `createdAt..now` only, so records that expire before the
 *   store was created, or exactly at `now`, are hidden by `get` but never
 *   reclaimed: EvictExpired consumes every bucket at or before `now`.
 *
 * With the corrections the index is exact (IndexExact) and eviction removes
 * precisely the records `get` hides.
 */
module Corrected {
  import opened Keys
  import opened StoreSpec

  // ----- Expiry-checked key/value read -----

  /** `get_key_value` with the expiry check its documentation promises. */
  function GetKeyValueLive(st: StoreState, hk: HiddenKey, now: int): (r: Option<(Bytes, Bytes)>)
    requires |st.shards| == SHARDS
    ensures r.Some? <==> Get(st, hk, now).Some?
    ensures r.Some? ==> r == GetKeyValue(st, hk) && r.value.1 == Get(st, hk, now).value
  {
    match Lookup(st, hk)
    case None => None
    case Some(kv) => if ExpiredAt(kv, now) then None else Some((kv.key, kv.value))
  }

  /** As written: `get_key_value` returns a pair that `get` hides as expired. */
  lemma GetKeyValueReturnsExpired()
    ensures var st := Set(Empty(0), HiddenKey(0), KeyValuePair([1], [2], Some(5)));
      && Get(st, HiddenKey(0), 5) == None
      && GetKeyValue(st, HiddenKey(0)) == Some(([1], [2]))
      && GetKeyValueLive(st, HiddenKey(0), 5) == None
  {
  }

  // ----- An exact expiry index -----

  /** Every record with an expiry is listed in the bucket at that instant. */
  ghost predicate Listed(st: StoreState)
    requires |st.shards| == SHARDS
  {
    forall hk, t :: ExpiresAt(st, hk, t) ==> t in st.expiryTimes && hk in st.expiryTimes[t]
  }

  /** Every key listed in a bucket has a record that expires at that bucket's instant. */
  ghost predicate Current(st: StoreState)
    requires |st.shards| == SHARDS
  {
    forall t, hk :: t in st.expiryTimes && hk in st.expiryTimes[t] ==> ExpiresAt(st, hk, t)
  }

  /** The shard table and the expiry index agree both ways. */
  ghost predicate IndexExact(st: StoreState)
    requires |st.shards| == SHARDS
  {
    Listed(st) && Current(st)
  }

  /** The record under `hk` exists and expires at one of the instants `times`. */
  predicate ExpiresWithin(st: StoreState, hk: HiddenKey, times: set<int>)
    requires |st.shards| == SHARDS
  {
    Lookup(st, hk).Some? && Lookup(st, hk).value.expiry.Some? && Lookup(st, hk).value.expiry.value in times
  }

  /** The bucket at `t` with `hk` appended, created when absent. */
  function Register(idx: ExpiryIndex, t: int, hk: HiddenKey): (r: ExpiryIndex)
    ensures t in r && hk in r[t]
    ensures multiset(r[t]) == (if t in idx then multiset(idx[t]) else multiset{}) + multiset{hk}
    ensures forall u :: u != t ==> (u in r <==> u in idx)
    ensures forall u :: u in idx && u != t ==> r[u] == idx[u]
  {
    idx[t := (if t in idx then idx[t] else []) + [hk]]
  }

  /**
   * `set` as intended: the key's previous record and its registration go
   * first (as `remove` does), then the new expiry is appended to its bucket,
   * and the record is stored as `set` stores it (finding that bucket present,
   * `set` leaves the index alone).
   */
  function SetRegistering(st: StoreState, hk: HiddenKey, kv: KeyValuePair): (r: StoreState)
    requires |st.shards| == SHARDS
    ensures |r.shards| == SHARDS && r.createdAt == st.createdAt
    ensures Lookup(r, hk) == Some(kv)
    ensures forall h :: h != hk ==> Lookup(r, h) == Lookup(st, h)
    ensures kv.expiry.Some? ==> kv.expiry.value in r.expiryTimes && hk in r.expiryTimes[kv.expiry.value]
  {
    var cleared := Remove(st, hk);
    var idx := if kv.expiry.Some? then Register(cleared.expiryTimes, kv.expiry.value, hk) else cleared.expiryTimes;
    Set(cleared.(expiryTimes := idx), hk, kv)
  }

  /** `evict` as intended: every bucket at or before `now` is consumed. */
  function EvictExpired(st: StoreState, now: int): (r: StoreState)
    requires |st.shards| == SHARDS
    ensures |r.shards| == SHARDS
    ensures forall t :: t in r.expiryTimes ==> now < t && t in st.expiryTimes && r.expiryTimes[t] == st.expiryTimes[t]
    ensures forall t :: t in st.expiryTimes && now < t ==> t in r.expiryTimes
  {
    EvictTimes(st, set t | t in st.expiryTimes && t <= now)
  }

  lemma EmptyIndexExact(createdAt: int)
    ensures IndexExact(Empty(createdAt))
  {
  }

  /** `remove` keeps the index exact, and afterwards no bucket lists the removed key. */
  lemma {:induction false} RemoveKeepsIndexExact(st: StoreState, hk: HiddenKey)
    requires |st.shards| == SHARDS && IndexExact(st)
    ensures IndexExact(Remove(st, hk))
    ensures forall t :: t in Remove(st, hk).expiryTimes ==> hk !in Remove(st, hk).expiryTimes[t]
  {
    var r := Remove(st, hk);
    forall t | t in r.expiryTimes ensures hk !in r.expiryTimes[t] {
      if ExpiresAt(st, hk, t) {
        assert multiset(r.expiryTimes[t])[hk] == 0;
      } else {
        assert r.expiryTimes[t] == st.expiryTimes[t];
      }
    }
    forall h, t | ExpiresAt(r, h, t) ensures t in r.expiryTimes && h in r.expiryTimes[t] {
      assert h != hk && ExpiresAt(st, h, t);
      if ExpiresAt(st, hk, t) {
        assert multiset(r.expiryTimes[t])[h] == multiset(st.expiryTimes[t])[h];
      }
    }
    forall t, h | t in r.expiryTimes && h in r.expiryTimes[t] ensures ExpiresAt(r, h, t) {
      assert h != hk;
      if ExpiresAt(st, hk, t) {
        assert multiset(r.expiryTimes[t])[h] == multiset(st.expiryTimes[t])[h];
      }
      assert ExpiresAt(st, h, t);
    }
  }

  /** After the corrected `set`, every record with an expiry is listed at it. */
  lemma {:induction false} SetRegisteringKeepsListed(st: StoreState, hk: HiddenKey, kv: KeyValuePair)
    requires |st.shards| == SHARDS && IndexExact(Remove(st, hk))
    ensures Listed(SetRegistering(st, hk, kv))
  {
    var c := Remove(st, hk);
    var r := SetRegistering(st, hk, kv);
    forall h, t | ExpiresAt(r, h, t) ensures t in r.expiryTimes && h in r.expiryTimes[t] {
      if h != hk {
        assert Lookup(r, h) == Lookup(c, h);
        assert ExpiresAt(c, h, t);
        if kv.expiry == Some(t) {
          assert multiset(r.expiryTimes[t])[h] >= multiset(c.expiryTimes[t])[h];
        }
      }
    }
  }

  /** After the corrected `set`, every listed key has a record expiring at its bucket's instant. */
  lemma {:induction false} SetRegisteringKeepsCurrent(st: StoreState, hk: HiddenKey, kv: KeyValuePair)
    requires |st.shards| == SHARDS && IndexExact(Remove(st, hk))
    requires forall t :: t in Remove(st, hk).expiryTimes ==> hk !in Remove(st, hk).expiryTimes[t]
    ensures Current(SetRegistering(st, hk, kv))
  {
    var c := Remove(st, hk);
    var r := SetRegistering(st, hk, kv);
    forall t, h | t in r.expiryTimes && h in r.expiryTimes[t] ensures ExpiresAt(r, h, t) {
      if kv.expiry == Some(t) {
        if h != hk {
          assert multiset(r.expiryTimes[t])[h] == (if t in c.expiryTimes then multiset(c.expiryTimes[t])[h] else 0);
          assert ExpiresAt(c, h, t);
          assert Lookup(r, h) == Lookup(c, h);
        }
      } else {
        assert t in c.expiryTimes && r.expiryTimes[t] == c.expiryTimes[t];
        assert ExpiresAt(c, h, t);
        assert h != hk && Lookup(r, h) == Lookup(c, h);
      }
    }
  }

  /** The corrected `set` keeps the index exact. */
  lemma {:induction false} SetRegisteringKeepsIndexExact(st: StoreState, hk: HiddenKey, kv: KeyValuePair)
    requires |st.shards| == SHARDS && IndexExact(st)
    ensures IndexExact(SetRegistering(st, hk, kv))
  {
    RemoveKeepsIndexExact(st, hk);
    SetRegisteringKeepsListed(st, hk, kv);
    SetRegisteringKeepsCurrent(st, hk, kv);
  }

  /**
   * On an exact index, consuming the buckets at `due` removes exactly the
   * records whose expiry is in `due` and keeps the index exact.
   */
  lemma {:induction false} EvictTimesRemovesExactlyDue(st: StoreState, due: set<int>)
    requires |st.shards| == SHARDS && IndexExact(st)
    ensures IndexExact(EvictTimes(st, due))
    ensures forall hk :: Lookup(EvictTimes(st, due), hk) == (if ExpiresWithin(st, hk, due) then None else Lookup(st, hk))
  {
    var r := EvictTimes(st, due);
    var items := ListedIn(st.expiryTimes, due);
    forall hk ensures hk in items <==> ExpiresWithin(st, hk, due) {
      if hk in items {
        var t :| t in due && t in st.expiryTimes && hk in st.expiryTimes[t];
        assert ExpiresAt(st, hk, t);
      }
      if ExpiresWithin(st, hk, due) {
        var t := Lookup(st, hk).value.expiry.value;
        assert ExpiresAt(st, hk, t);
      }
    }
    forall h, t | ExpiresAt(r, h, t) ensures t in r.expiryTimes && h in r.expiryTimes[t] {
      assert h !in items && ExpiresAt(st, h, t);
    }
    forall t, h | t in r.expiryTimes && h in r.expiryTimes[t] ensures ExpiresAt(r, h, t) {
      assert ExpiresAt(st, h, t);
      assert t !in due;
    }
  }

  /**
   * The corrected `evict` on an exact index removes exactly the records that
   * have expired at `now`: afterwards `get_unchecked` returns what `get`
   * returned before, and nothing stored is hidden from `get` any more.
   */
  lemma {:induction false} EvictExpiredRemovesExactlyExpired(st: StoreState, now: int, hk: HiddenKey)
    requires |st.shards| == SHARDS && IndexExact(st)
    ensures IndexExact(EvictExpired(st, now))
    ensures Lookup(EvictExpired(st, now), hk) ==
      if Lookup(st, hk).Some? && ExpiredAt(Lookup(st, hk).value, now) then None else Lookup(st, hk)
    ensures GetUnchecked(EvictExpired(st, now), hk) == Get(st, hk, now)
    ensures Get(EvictExpired(st, now), hk, now) == GetUnchecked(EvictExpired(st, now), hk)
  {
    var due := set t | t in st.expiryTimes && t <= now;
    EvictTimesRemovesExactlyDue(st, due);
    if Lookup(st, hk).Some? && Lookup(st, hk).value.expiry.Some? {
      assert ExpiresAt(st, hk, Lookup(st, hk).value.expiry.value);
    }
  }

  // ----- The code as written -----

  /**
   * As written: a second key set to expire at an instant that already has a
   * bucket is never listed, so `evict` past that instant leaves its record
   * in place and empties the index, so that no later `evict` reaches it:
   * the record stays, hidden from `get`, for good.
   */
  lemma SharedInstantEscapesEviction()
    ensures var st := Set(Set(Empty(0), HiddenKey(0), KeyValuePair([0], [0], Some(5))),
                          HiddenKey(1), KeyValuePair([1], [1], Some(5)));
      && st.expiryTimes[5] == [HiddenKey(0)]
      && !IndexExact(st)
      && Lookup(Evict(st, 10), HiddenKey(0)) == None
      && GetUnchecked(Evict(st, 10), HiddenKey(1)) == Some([1])
      && Get(Evict(st, 10), HiddenKey(1), 10) == None
      && Evict(st, 10).expiryTimes == map[]
      && forall later :: 10 <= later ==> Evict(Evict(st, 10), later) == Evict(st, 10)
  {
    var st := Set(Set(Empty(0), HiddenKey(0), KeyValuePair([0], [0], Some(5))),
                  HiddenKey(1), KeyValuePair([1], [1], Some(5)));
    assert ExpiresAt(st, HiddenKey(1), 5);
    EvictEffectiveAndScoped(st, 10, HiddenKey(0), 5);
    EvictEffectiveAndScoped(st, 10, HiddenKey(1), 5);
    var e := Evict(st, 10);
    assert e.expiryTimes.Keys == {};
    forall later | 10 <= later ensures Evict(e, later) == e {
      var e2 := Evict(e, later);
      assert e2.expiryTimes == e.expiryTimes;
      forall i | 0 <= i < SHARDS ensures e2.shards[i] == e.shards[i] {
        forall h ensures h in e2.shards[i] <==> h in e.shards[i] {
          assert Lookup(e2, h) == Lookup(e, h);
        }
      }
    }
  }

  /**
   * As written: re-setting a key without expiry leaves its old registration
   * behind, and `evict` past the old instant deletes the permanent record.
   */
  lemma StaleRegistrationEvictsPermanentEntry()
    ensures var st := Set(Set(Empty(0), HiddenKey(0), KeyValuePair([0], [1], Some(5))),
                          HiddenKey(0), KeyValuePair([0], [2], None));
      && Get(st, HiddenKey(0), 10) == Some([2])
      && GetUnchecked(Evict(st, 10), HiddenKey(0)) == None
  {
    var st := Set(Set(Empty(0), HiddenKey(0), KeyValuePair([0], [1], Some(5))),
                  HiddenKey(0), KeyValuePair([0], [2], None));
    EvictEffectiveAndScoped(st, 10, HiddenKey(0), 5);
  }

  /** Corrected: the same two writes through SetRegistering keep the permanent record. */
  lemma ReSetKeepsPermanentEntry()
    ensures var st := SetRegistering(SetRegistering(Empty(0), HiddenKey(0), KeyValuePair([0], [1], Some(5))),
                                     HiddenKey(0), KeyValuePair([0], [2], None));
      && IndexExact(st)
      && Get(EvictExpired(st, 10), HiddenKey(0), 10) == Some([2])
  {
    var st1 := SetRegistering(Empty(0), HiddenKey(0), KeyValuePair([0], [1], Some(5)));
    EmptyIndexExact(0);
    SetRegisteringKeepsIndexExact(Empty(0), HiddenKey(0), KeyValuePair([0], [1], Some(5)));
    SetRegisteringKeepsIndexExact(st1, HiddenKey(0), KeyValuePair([0], [2], None));
    var st := SetRegistering(st1, HiddenKey(0), KeyValuePair([0], [2], None));
    EvictExpiredRemovesExactlyExpired(st, 10, HiddenKey(0));
  }

  /**
   * As written: a record that expired before the store was created (as the
   * expiry test in lib.rs sets up) is hidden by `get` but survives
   * `evict` at every instant from the store's creation on, although the
   * index lists it exactly.
   */
  lemma PreCreationExpiryEscapesEviction(now: int)
    requires 100 <= now
    ensures var st := Set(Empty(100), HiddenKey(0), KeyValuePair([0], [1], Some(99)));
      && IndexExact(st)
      && Get(st, HiddenKey(0), 100) == None
      && GetUnchecked(Evict(st, now), HiddenKey(0)) == Some([1])
  {
    var st := Set(Empty(100), HiddenKey(0), KeyValuePair([0], [1], Some(99)));
    EvictEffectiveAndScoped(st, now, HiddenKey(0), 99);
  }

  /** As written: a record expiring exactly at `now` is hidden by `get` at `now` but kept by `evict` at `now`. */
  lemma ExpiryAtNowEscapesEviction()
    ensures var st := Set(Empty(0), HiddenKey(0), KeyValuePair([0], [1], Some(5)));
      && Get(st, HiddenKey(0), 5) == None
      && GetUnchecked(Evict(st, 5), HiddenKey(0)) == Some([1])
  {
    var st := Set(Empty(0), HiddenKey(0), KeyValuePair([0], [1], Some(5)));
    EvictEffectiveAndScoped(st, 5, HiddenKey(0), 5);
  }
}
