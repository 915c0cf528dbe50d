/**
 What every forwarder does with a parsed shred: offer its key to the shared cache, and the shred to a
 bounded channel.
 */
module Forwarding {
  import opened Bits
  import opened Shreds
  import AlterKeyCache

  const CHANNEL_CAPACITY: nat := 100_000

  function Key64(p: PartialShred): AlterKeyCache.Key {
    Key(p.slot, p.index, p.variant.code)
  }

  /** Two parsed shreds have one key exactly when slots agree modulo 2^36 and index and variant are equal. */
  lemma SameKey64(p: PartialShred, q: PartialShred)
    requires p.index < TWO20 && q.index < TWO20
    ensures Key64(p) == Key64(q) <==>
              p.slot % TWO36 == q.slot % TWO36 && p.index == q.index && p.variant.code == q.variant.code
  {
    KeyPacking(p.slot, p.index, p.variant.code, q.slot, q.index, q.variant.code);
  }

  /** What the cache and a bounded channel become when a parsed shred is offered to them. */
  function Offer<T>(cache: AlterKeyCache.Generations, ch: seq<T>, capacity: nat, key: AlterKeyCache.Key, item: T)
    : (AlterKeyCache.Generations, seq<T>)
  {
    (AlterKeyCache.Insert(cache, key), if !cache.Has(key) && |ch| < capacity then ch + [item] else ch)
  }
}
