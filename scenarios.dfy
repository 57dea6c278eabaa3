/**
 * The three unit tests of lib.rs, replayed against the class contracts
 * alone, as a client of the store would see them. The store is created at
 * instant 100, so "the past" is 99 and "the future" is 101; the clock
 * has moved on to 101 by the time the expiry test evicts. Each method
 * returns what the test observes, and its contract states what the test
 * asserts.
 */
module Scenarios {
  import opened Keys
  import opened Store

  const Greeting: Bytes := [0x67, 0x72, 0x65, 0x65, 0x74, 0x69, 0x6e, 0x67]
  const Hello: Bytes := [0x68, 0x65, 0x6c, 0x6c, 0x6f]

  /** A value set without expiry is returned by `get`. */
  method CanStoreData(hash: Bytes -> bv64) returns (actual: Option<Bytes>)
    ensures actual == Some(Hello)
  {
    var store := new CornerStore(hash, 100);
    store.Set(Greeting, Hello, None);
    actual := store.Get(Greeting, 100);
  }

  /**
   * A value set with a past expiry is hidden by `get` but still returned by
   * `get_unchecked`; after `evict` at a later instant `get` still hides it.
   * Since its expiry lies before the store's creation, outside the range
   * `evict` scans, the record is not removed and `get_unchecked` still
   * returns it afterwards.
   */
  method ExpiredDataIsNotReturned(hash: Bytes -> bv64)
    returns (actual: Option<Bytes>, unchecked: Option<Bytes>, afterEvict: Option<Bytes>, uncheckedAfterEvict: Option<Bytes>)
    ensures actual == None && unchecked == Some(Hello)
    ensures afterEvict == None
    ensures uncheckedAfterEvict == Some(Hello)
  {
    var store := new CornerStore(hash, 100);
    var past := 99;
    store.Set(Greeting, Hello, Some(past));
    actual := store.Get(Greeting, 100);
    unchecked := store.GetUnchecked(Greeting);
    store.Evict(101);
    afterEvict := store.Get(Greeting, 101);
    uncheckedAfterEvict := store.GetUnchecked(Greeting);
  }

  /** A value set with a future expiry is returned by `get`. */
  method FreshDataIsReturned(hash: Bytes -> bv64) returns (actual: Option<Bytes>)
    ensures actual == Some(Hello)
  {
    var store := new CornerStore(hash, 100);
    var future := 101;
    store.Set(Greeting, Hello, Some(future));
    actual := store.Get(Greeting, 100);
  }
}
