/**
 * The object-store cache and the expiry sweep share one bucket. `Set` puts
 * each entry with the standard `Expires` option only, while the sweep decides
 * by the `expires-at` user metadata; this module relates the two.
 */
module CacheSweep {
  import opened Bytes
  import opened Wrappers
  import opened CacheApi
  import S3Cache
  import opened S3Cleanup

  /** The listing of the bucket in the order `keys` gives, every object listed without error. */
  function Listing(s: S3Cache.Store, keys: seq<Key>): (objs: seq<ObjectInfo>)
    requires forall i :: 0 <= i < |keys| ==> keys[i] in s
    ensures |objs| == |keys|
    ensures forall i :: 0 <= i < |keys| ==>
              objs[i] == ObjectInfo(keys[i], false, s[keys[i]].userMetadata)
  {
    seq(|keys|, i requires 0 <= i < |keys| => ObjectInfo(keys[i], false, s[keys[i]].userMetadata))
  }

  /** Every object in the bucket carries the user metadata `S3Cache.Set` gives it: none. */
  ghost predicate WrittenBySet(s: S3Cache.Store)
  {
    forall k :: k in s ==> s[k].userMetadata == map[]
  }

  /** Successful and failed `Set` calls keep a bucket written by `Set` only. */
  lemma SetKeepsWrittenBySet(s: S3Cache.Store, key: Key, v: Value, exp: int, now: int, putOk: bool)
    requires WrittenBySet(s)
    ensures WrittenBySet(S3Cache.Set(s, key, v, exp, now, putOk).store)
  {
  }

  /**
   * As written, the sweep deletes every entry the cache wrote, however far
   * in the future its `Expires` lies: none of them has `expires-at`.
   */
  lemma SweepDeletesEveryCachedEntry(s: S3Cache.Store, keys: seq<Key>, now: int, parse: Parser)
    requires WrittenBySet(s)
    requires forall i :: 0 <= i < |keys| ==> keys[i] in s
    ensures var r := CleanupExpired(Listing(s, keys), now, parse, {});
            && r.failed.None?
            && forall i :: 0 <= i < |keys| ==> keys[i] in r.deleted
  {
    var objs := Listing(s, keys);
    forall i | 0 <= i < |objs| ensures Expired(objs[i], now, parse) {
      assert ExpiresAtKey !in objs[i].userMetadata;
    }
  }

  /** An entry cached for a day at time 0 is swept at time 1. */
  lemma FreshEntrySwept(key: Key, parse: Parser)
    ensures var u := S3Cache.Set(map[], key, Bool(true), 86400, 0, true);
            && u.store[key].expires == 86400
            && CleanupExpired(Listing(u.store, [key]), 1, parse, {}) == SweepResult([key], None)
  {
    var u := S3Cache.Set(map[], key, Bool(true), 86400, 0, true);
    var objs := Listing(u.store, [key]);
    assert ExpiresAtKey !in objs[0].userMetadata;
    assert objs[1..] == [];
  }

  /**
   * `Set` as evidently intended: it also records the expiry instant, written
   * by `format`, under the `expires-at` user metadata the sweep reads.
   */
  function SetIntended(s: S3Cache.Store, key: Key, v: Value, exp: int, now: int, putOk: bool,
                       format: int -> Bytes): (u: Update<S3Cache.StoredObject>)
    ensures u.err == S3Cache.Set(s, key, v, exp, now, putOk).err
    ensures u.err.Pass? ==> key in u.store && u.store[key].expires == now + exp
    ensures u.err.Pass? ==> u.store[key].userMetadata == map[ExpiresAtKey := format(now + exp)]
    ensures u.err.Pass? ==> forall statOk, fetchOk ::
              S3Cache.Get(u.store, key, statOk, fetchOk)
              == S3Cache.Get(S3Cache.Set(s, key, v, exp, now, putOk).store, key, statOk, fetchOk)
    ensures OthersUnchanged(s, u.store, key)
  {
    var u := S3Cache.Set(s, key, v, exp, now, putOk);
    if u.err.Pass? then
      var o := u.store[key];
      Update(u.store[key := o.(userMetadata := map[ExpiresAtKey := format(now + exp)])], Pass)
    else u
  }

  /**
   * With the intended `Set` and a parser that reads back what the formatter
   * writes, the sweep deletes an entry exactly when its expiry has passed.
   */
  lemma SweepHonoursIntendedExpiry(s: S3Cache.Store, key: Key, v: Value, exp: int, setAt: int, now: int,
                                   format: int -> Bytes, parse: Parser)
    requires !v.Unencodable?
    requires forall t :: parse(format(t)) == Some(t)
    ensures var u := SetIntended(s, key, v, exp, setAt, true, format);
            && u.err.Pass?
            && CleanupExpired(Listing(u.store, [key]), now, parse, {})
               == SweepResult(if now > setAt + exp then [key] else [], None)
  {
    var u := SetIntended(s, key, v, exp, setAt, true, format);
    var objs := Listing(u.store, [key]);
    assert objs[0].userMetadata[ExpiresAtKey] == format(setAt + exp);
    assert parse(format(setAt + exp)) == Some(setAt + exp);
    assert objs[1..] == [];
  }
}
