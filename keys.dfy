/**
 * Byte strings, optional values, and the hidden-key scheme of the store:
 * a key's bytes are hashed once to a 64-bit identifier, and a fixed
 * middle slice of that identifier selects one of the SHARDS shards.
 */
module Keys {

  /** Keys and values are untyped byte strings of any length. */
  type Bytes = seq<bv8>

  datatype Option<T> = None | Some(value: T)

  /** The number of shards of the shard table. */
  const SHARDS: nat := 128

  /** A pre-computed hash of a key: the map key inside a shard. */
  datatype HiddenKey = HiddenKey(ident: bv64)

  /**
   * The hidden key of `key`. The hasher is a parameter of the model: any
   * total, deterministic function of the bytes. Two different keys with
   * the same hash get the same hidden key, and so share one stored entry.
   */
  function Hidden(hash: Bytes -> bv64, key: Bytes): (r: HiddenKey)
    ensures r.ident == hash(key)
  {
    HiddenKey(hash(key))
  }

  /** Two keys share a hidden key exactly when their hashes agree, whatever their bytes. */
  lemma HiddenKeysCollide(hash: Bytes -> bv64, a: Bytes, b: Bytes)
    ensures Hidden(hash, a) == Hidden(hash, b) <==> hash(a) == hash(b)
  {
  }

  /**
   * The shard of a hidden key. It uses bits 13 to 19 of the identifier
   * only (bit 12 is masked in and then shifted out), so it always names
   * one of the SHARDS shards.
   */
  function Shard(hk: HiddenKey): (s: nat)
    ensures s < SHARDS
    ensures s == ((hk.ident >> 13) & 0x7f) as nat
  {
    ((hk.ident & 0xff000) >> 13) as nat
  }

  /** Identifiers that agree on bits 13 to 19 land in the same shard. */
  lemma ShardIgnoresOtherBits(a: HiddenKey, b: HiddenKey)
    requires a.ident & 0xfe000 == b.ident & 0xfe000
    ensures Shard(a) == Shard(b)
  {
    assert (a.ident >> 13) & 0x7f == ((a.ident & 0xfe000) >> 13) & 0x7f;
    assert (b.ident >> 13) & 0x7f == ((b.ident & 0xfe000) >> 13) & 0x7f;
  }
}
