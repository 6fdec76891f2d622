/**
 * `CacheClientProcess`: an in-process cache over a `sync.Map`, modelled as a
 * sequential map from key to the value stored under it. The `exp` argument
 * of `Set` is accepted and ignored.
 */
module ProcessCache {
  import opened Bytes
  import opened Wrappers
  import opened CacheApi

  /** The `sync.Map` contents. */
  type Store = map<Key, Value>

  /** `Set(key, value, exp)`: store the value, overwriting any earlier one; never fails. */
  function Set(s: Store, key: Key, v: Value, exp: int): (u: Update<Value>)
    ensures u.err.Pass?
    ensures key in u.store && u.store[key] == v
    ensures OthersUnchanged(s, u.store, key)
    ensures v.Str? ==> Get(u.store, key) == Found(v.s)
  {
    Update(s[key := v], Pass)
  }

  /** `Get(key)`: `redis.Nil` when absent; the `.(string)` assertion panics on any non-string. */
  function Get(s: Store, key: Key): (r: GetResult)
    ensures r == NotFound <==> key !in s
    ensures r.Found? <==> key in s && s[key].Str?
    ensures r.Found? ==> s[key] == Str(r.s)
    ensures !r.Failed?
  {
    if key !in s then NotFound
    else match s[key]
      case Str(str) => Found(str)
      case _ => Panic
  }

  /** `Del(key)`: delete the key, present or not; never fails. */
  function Del(s: Store, key: Key): (u: Update<Value>)
    ensures u.err.Pass?
    ensures Get(u.store, key) == NotFound
    ensures OthersUnchanged(s, u.store, key)
  {
    Update(s - {key}, Pass)
  }

  /** `Scan(key, action)`: visits nothing and returns nil. */
  function Scan(s: Store, prefix: Key): (u: Update<Value>)
    ensures u.err.Pass? && u.store == s
  {
    Update(s, Pass)
  }

  /** The `exp` passed to `Set` has no effect on anything a later call observes. */
  lemma SetIgnoresTtl(s: Store, key: Key, v: Value, exp1: int, exp2: int)
    ensures Set(s, key, v, exp1) == Set(s, key, v, exp2)
  {
  }

  /**
   * Unlike the object-store cache, which renders a bool with `FormatBool`,
   * this cache panics when a stored bool is read back.
   */
  lemma BoolReadsPanic(s: Store, key: Key, b: bool)
    ensures Get(Set(s, key, Bool(b), 0).store, key) == Panic
  {
  }
}
