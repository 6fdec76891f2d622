/**
 * `CacheClientS3`: a cache whose entries are objects of one bucket. The
 * bucket is a finite map from key to stored object; the JSON encoding of the
 * value is abstracted into the `Value` datatype, and the success or failure
 * of each remote call is a parameter.
 */
module S3Cache {
  import opened Bytes
  import opened Wrappers
  import opened CacheApi

  /**
   * An object in the bucket: its decoded JSON body, the standard `Expires`
   * option it was put with, and its user metadata. `Set` fills only the first
   * two; the expiry sweep reads only the third.
   */
  datatype StoredObject = StoredObject(body: Value, expires: int, userMetadata: map<Bytes, Bytes>)

  /** The bucket. */
  type Store = map<Key, StoredObject>

  /**
   * `Set(key, value, exp)` at wall-clock time `now`: encode the value and put
   * it with `Expires: now + exp`. `putOk` says whether `PutObject` succeeded.
   */
  function Set(s: Store, key: Key, v: Value, exp: int, now: int, putOk: bool): (u: Update<StoredObject>)
    ensures v.Unencodable? ==> u == Update(s, Fail(MarshalError))
    ensures !v.Unencodable? && !putOk ==> u == Update(s, Fail(StoreError))
    ensures u.err.Pass? <==> !v.Unencodable? && putOk
    ensures u.err.Pass? ==> key in u.store && u.store[key].expires == now + exp
    ensures u.err.Pass? ==> u.store[key].userMetadata == map[]
    ensures u.err.Pass? && v.Bool? ==> Get(u.store, key, true, true) == Found(FormatBool(v.b))
    ensures u.err.Pass? && v.Str? ==> Get(u.store, key, true, true) == Found(v.s)
    ensures u.err.Pass? && v.Other? ==> Get(u.store, key, true, true) == Panic
    ensures OthersUnchanged(s, u.store, key)
  {
    if v.Unencodable? then Update(s, Fail(MarshalError))
    else if !putOk then Update(s, Fail(StoreError))
    else Update(s[key := StoredObject(v, now + exp, map[])], Pass)
  }

  /**
   * `Get(key)`: any `StatObject` failure, an absent key among them, reads as
   * `redis.Nil`; a failed fetch is an error; a bool is rendered by
   * `FormatBool`, a string comes back as is, anything else panics.
   * `statOk` and `fetchOk` say whether `StatObject` and `GetObject` succeeded
   * on a present key.
   */
  function Get(s: Store, key: Key, statOk: bool, fetchOk: bool): (r: GetResult)
    ensures key !in s || !statOk <==> r == NotFound
    ensures r.Found? ==> key in s && (s[key].body == Bool(r.s == Lit("true")) || s[key].body == Str(r.s))
    ensures key in s && statOk && !fetchOk ==> r == Failed
    ensures key in s && statOk && fetchOk && s[key].body.Bool? ==> r == Found(FormatBool(s[key].body.b))
    ensures key in s && statOk && fetchOk && s[key].body.Str? ==> r == Found(s[key].body.s)
    ensures key in s && statOk && fetchOk ==> (r == Panic <==> !(s[key].body.Bool? || s[key].body.Str?))
  {
    if key !in s || !statOk then NotFound
    else if !fetchOk then Failed
    else match s[key].body
      case Bool(b) => Found(FormatBool(b))
      case Str(str) => Found(str)
      case _ => Panic
  }

  /** `Del(key)`: remove the object; `removeOk` says whether `RemoveObject` succeeded. */
  function Del(s: Store, key: Key, removeOk: bool): (u: Update<StoredObject>)
    ensures u.err.Pass? <==> removeOk
    ensures removeOk ==> key !in u.store && Get(u.store, key, true, true) == NotFound
    ensures !removeOk ==> u.store == s
    ensures OthersUnchanged(s, u.store, key)
  {
    if removeOk then Update(s - {key}, Pass) else Update(s, Fail(StoreError))
  }

  /** `Scan(key, action)`: visits nothing and returns nil. */
  function Scan(s: Store, prefix: Key): (u: Update<StoredObject>)
    ensures u.err.Pass? && u.store == s
  {
    Update(s, Pass)
  }

  /** `Get` reads the body only: the expiry and the metadata of the object make no difference. */
  lemma GetIgnoresExpiry(s: Store, key: Key, expires: int, meta: map<Bytes, Bytes>, statOk: bool, fetchOk: bool)
    requires key in s
    ensures Get(s[key := StoredObject(s[key].body, expires, meta)], key, statOk, fetchOk)
            == Get(s, key, statOk, fetchOk)
  {
  }

  /** A `Get` long after the expiry still finds a value that was set. */
  lemma GetAfterExpiryStillFound(s: Store, key: Key, str: Bytes, exp: int, now: int, later: int)
    requires later > now + exp
    ensures var u := Set(s, key, Str(str), exp, now, true);
            u.err.Pass? && u.store[key].expires < later && Get(u.store, key, true, true) == Found(str)
  {
  }
}
