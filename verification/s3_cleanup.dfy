/**
 * One pass of the expired-object sweep (`cleanupExpired`): walk the listing
 * of the bucket, delete every object whose `expires-at` user metadata is
 * missing or lies in the past, and stop at the first failed delete. The
 * ticker, goroutine and stop channel around it are not part of the model.
 */
module S3Cleanup {
  import opened Bytes
  import opened Wrappers
  import opened CacheApi

  /** One value received from `ListObjects` with `WithMetadata: true`. */
  datatype ObjectInfo = ObjectInfo(key: Key, listErr: bool, userMetadata: map<Bytes, Bytes>)

  /** The user-metadata key holding the RFC 3339 expiry time. */
  const ExpiresAtKey: Bytes := Lit("expires-at")

  /**
   * `time.Parse(time.RFC3339, v)`: the instant `v` denotes, or `None` when it
   * does not parse. Instants are integers on the same scale as `now`.
   */
  type Parser = Bytes -> Option<int>

  /** What a pass did: the keys it deleted, in order, and the key whose delete failed, if any. */
  datatype SweepResult = SweepResult(deleted: seq<Key>, failed: Option<Key>)

  /**
   * The objects the sweep removes: listed without error, and either without
   * `expires-at` or with one that parses to an instant strictly before `now`.
   */
  predicate Expired(o: ObjectInfo, now: int, parse: Parser)
  {
    && !o.listErr
    && (ExpiresAtKey in o.userMetadata ==>
          var t := parse(o.userMetadata[ExpiresAtKey]);
          t.Some? && now > t.value)
  }

  /** A delete the pass attempts and that fails: it ends the pass. */
  predicate FailsDelete(o: ObjectInfo, now: int, parse: Parser, removeFails: set<Key>)
  {
    Expired(o, now, parse) && o.key in removeFails
  }

  /** `delete(obj)` followed by the rest of the pass: a failed delete returns at once. */
  function DeleteThen(key: Key, removeFails: set<Key>, rest: SweepResult): (r: SweepResult)
    ensures key in removeFails <==> r.failed == Some(key) && r.deleted == []
    ensures key !in removeFails ==> |r.deleted| == |rest.deleted| + 1 && r.deleted[0] == key
                                    && r.deleted[1..] == rest.deleted && r.failed == rest.failed
  {
    if key in removeFails then SweepResult([], Some(key))
    else SweepResult([key] + rest.deleted, rest.failed)
  }

  /**
   * `cleanupExpired` over the listing `objs` at time `now`; `removeFails`
   * holds the keys whose `RemoveObject` call fails.
   */
  function CleanupExpired(objs: seq<ObjectInfo>, now: int, parse: Parser, removeFails: set<Key>): (r: SweepResult)
    ensures forall k :: k in r.deleted ==> k !in removeFails
    ensures forall k :: k in r.deleted ==>
              exists i :: 0 <= i < |objs| && objs[i].key == k && Expired(objs[i], now, parse)
    ensures r.failed.None? <==> forall i :: 0 <= i < |objs| ==> !FailsDelete(objs[i], now, parse, removeFails)
    ensures r.failed.None? ==>
              forall i :: 0 <= i < |objs| && Expired(objs[i], now, parse) ==> objs[i].key in r.deleted
    ensures r.failed.Some? ==>
              exists i :: 0 <= i < |objs| && FailsDelete(objs[i], now, parse, removeFails)
                          && objs[i].key == r.failed.value
    decreases |objs|
  {
    if |objs| == 0 then SweepResult([], None)
    else
      var o := objs[0];
      var rest := objs[1..];
      if o.listErr then
        CleanupExpired(rest, now, parse, removeFails)
      else if ExpiresAtKey !in o.userMetadata then
        DeleteThen(o.key, removeFails, CleanupExpired(rest, now, parse, removeFails))
      else match parse(o.userMetadata[ExpiresAtKey])
        case None => CleanupExpired(rest, now, parse, removeFails)
        case Some(t) =>
          if !(now > t) then CleanupExpired(rest, now, parse, removeFails)
          else DeleteThen(o.key, removeFails, CleanupExpired(rest, now, parse, removeFails))
  }

  /** An object whose listing failed can be dropped from the listing without changing the pass. */
  lemma {:induction false} ListingErrorSkipped(objs: seq<ObjectInfo>, i: nat, now: int, parse: Parser,
                                               removeFails: set<Key>)
    requires i < |objs| && objs[i].listErr
    ensures CleanupExpired(objs, now, parse, removeFails)
            == CleanupExpired(objs[..i] + objs[i + 1..], now, parse, removeFails)
  {
    if i == 0 {
      assert objs[..0] + objs[1..] == objs[1..];
    } else {
      var rest := objs[1..];
      var dropped := objs[..i] + objs[i + 1..];
      assert dropped[0] == objs[0];
      assert dropped[1..] == rest[..i - 1] + rest[i..];
      ListingErrorSkipped(rest, i - 1, now, parse, removeFails);
    }
  }

  /**
   * The first failing delete ends the pass with its key: the result is that
   * of the listing cut just after the failing object, so no later object is
   * visited, and the keys deleted are those the earlier objects produced.
   */
  lemma {:induction false} AbortsAtFirstFailure(objs: seq<ObjectInfo>, i: nat, now: int, parse: Parser,
                                                removeFails: set<Key>)
    requires i < |objs| && FailsDelete(objs[i], now, parse, removeFails)
    requires forall j :: 0 <= j < i ==> !FailsDelete(objs[j], now, parse, removeFails)
    ensures var r := CleanupExpired(objs, now, parse, removeFails);
            && r.failed == Some(objs[i].key)
            && r == CleanupExpired(objs[..i + 1], now, parse, removeFails)
            && r.deleted == CleanupExpired(objs[..i], now, parse, removeFails).deleted
  {
    var rest := objs[1..];
    if i == 0 {
      assert CleanupExpired(objs[..0], now, parse, removeFails) == SweepResult([], None);
    } else {
      assert !FailsDelete(objs[0], now, parse, removeFails);
      assert objs[..i + 1][0] == objs[0] && objs[..i + 1][1..] == rest[..i];
      assert objs[..i][0] == objs[0] && objs[..i][1..] == rest[..i - 1];
      AbortsAtFirstFailure(rest, i - 1, now, parse, removeFails);
    }
  }

  /** The objects of `objs` whose key is not in `deleted`, in listing order. */
  function Survivors(objs: seq<ObjectInfo>, deleted: seq<Key>): (r: seq<ObjectInfo>)
    ensures forall o :: o in r ==> o in objs && o.key !in deleted
    ensures forall o :: o in objs && o.key !in deleted ==> o in r
  {
    if |objs| == 0 then []
    else if objs[0].key in deleted then Survivors(objs[1..], deleted)
    else [objs[0]] + Survivors(objs[1..], deleted)
  }

  /** A pass over objects none of which is expired deletes nothing and succeeds. */
  lemma NothingExpiredNothingDeleted(objs: seq<ObjectInfo>, now: int, parse: Parser, removeFails: set<Key>)
    requires forall i :: 0 <= i < |objs| ==> !Expired(objs[i], now, parse)
    ensures CleanupExpired(objs, now, parse, removeFails) == SweepResult([], None)
  {
    var r := CleanupExpired(objs, now, parse, removeFails);
    assert forall k :: k !in r.deleted;
  }

  /**
   * A second pass at the same `now` over a fresh listing of the objects a
   * completed pass left, each listed anew with or without a listing error,
   * deletes only objects whose first listing failed; when no first listing
   * failed, it deletes nothing and returns nil, whatever deletes would fail.
   */
  lemma SweepIdempotent(objs: seq<ObjectInfo>, now: int, parse: Parser, removeFails: set<Key>,
                        relisted: seq<ObjectInfo>, removeFails': set<Key>)
    requires CleanupExpired(objs, now, parse, removeFails).failed.None?
    requires var left := Survivors(objs, CleanupExpired(objs, now, parse, removeFails).deleted);
             && |relisted| == |left|
             && forall i :: 0 <= i < |left| ==> relisted[i] == left[i].(listErr := relisted[i].listErr)
    ensures var r2 := CleanupExpired(relisted, now, parse, removeFails');
            forall k :: k in r2.deleted ==> exists i :: 0 <= i < |objs| && objs[i].key == k && objs[i].listErr
    ensures (forall i :: 0 <= i < |objs| ==> !objs[i].listErr) ==>
              CleanupExpired(relisted, now, parse, removeFails') == SweepResult([], None)
  {
    var r := CleanupExpired(objs, now, parse, removeFails);
    var left := Survivors(objs, r.deleted);
    forall j | 0 <= j < |left| ensures left[j] in objs && !Expired(left[j], now, parse) {
      assert left[j] in left;
      var i :| 0 <= i < |objs| && objs[i] == left[j];
    }
    var r2 := CleanupExpired(relisted, now, parse, removeFails');
    forall k | k in r2.deleted ensures exists i :: 0 <= i < |objs| && objs[i].key == k && objs[i].listErr {
      var j :| 0 <= j < |relisted| && relisted[j].key == k && Expired(relisted[j], now, parse);
      var i :| 0 <= i < |objs| && objs[i] == left[j];
    }
    if forall i :: 0 <= i < |objs| ==> !objs[i].listErr {
      NothingExpiredNothingDeleted(relisted, now, parse, removeFails');
    }
  }

  /** At `now` equal to the expiry the object is kept; one instant later it is deleted. */
  lemma ExpiryIsStrict(key: Key, stamp: Bytes, t: int, parse: Parser)
    requires parse(stamp) == Some(t)
    ensures var o := ObjectInfo(key, false, map[ExpiresAtKey := stamp]);
            && CleanupExpired([o], t, parse, {}) == SweepResult([], None)
            && CleanupExpired([o], t + 1, parse, {}) == SweepResult([key], None)
  {
  }
}
