/**
 * The cache interface both cache clients implement: `Set(key, value, exp)`,
 * `Get(key)`, `Del(key)` and `Scan(key, action)`, with `redis.Nil` as the
 * distinguished "not found" error of `Get`.
 */
module CacheApi {
  import opened Bytes
  import opened Wrappers

  /** A cache key. */
  type Key = Bytes

  /**
   * A value handed to `Set`, after Go's dynamic typing: a Go `bool`, a Go
   * `string`, a value whose JSON encoding is neither a boolean nor a string
   * (a number, a struct, a slice other than `[]byte`, nil), or one
   * `encoding/json` cannot encode (a channel, a function).
   */
  datatype Value = Bool(b: bool) | Str(s: Bytes) | Other | Unencodable

  /** What a `Get` call ends in. */
  datatype GetResult =
    | Found(s: Bytes)   // the string and a nil error
    | NotFound          // the error `redis.Nil`
    | Failed            // any other error
    | Panic             // a run-time panic instead of a return

  /** Why a call that returns only an `error` failed. */
  datatype CacheError = MarshalError | StoreError

  /** A cache's contents after a call, and the `error` the call returned. */
  datatype Update<V> = Update(store: map<Key, V>, err: Outcome<CacheError>)

  /** Every key but `key` maps to the same entry in both maps. */
  ghost predicate OthersUnchanged<V>(s: map<Key, V>, s': map<Key, V>, key: Key)
  {
    && s'.Keys - {key} == s.Keys - {key}
    && forall k :: k in s && k != key ==> k in s' && s'[k] == s[k]
  }

  /** `strconv.FormatBool`. */
  function FormatBool(b: bool): (r: Bytes)
    ensures r == Lit("true") || r == Lit("false")
    ensures b <==> r == Lit("true")
  {
    if b then Lit("true") else Lit("false")
  }

  /** Different booleans render to different strings, so a reader can recover the bool. */
  lemma FormatBoolInjective(a: bool, b: bool)
    requires FormatBool(a) == FormatBool(b)
    ensures a == b
  {
    assert |Lit("true")| != |Lit("false")|;
  }
}
