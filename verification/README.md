# golangoss-bluesky core, modelled in Dafny

A model of the bot that posts noteworthy Go repositories to Bluesky. It covers
five pieces of sequential logic:

- **Post encoder** (`PostRecord`, `addFeature`). This builds the text of an
  `app.bsky.feed.post` record and its `app.bsky.richtext.facet` link facets.
  Facet offsets are UTF-8 byte offsets. Strings are therefore byte sequences
  (`Bytes.Bytes`), and Go's `strings.Index` is modelled as "first occurrence"
  (`Bytes.Index`).
- **Expired-object sweep** (`cleanupExpired`, `delete`). This is a recursive
  function over the listing of the bucket at a fixed `now`. It returns the keys
  it deleted and the key whose delete failed, if any.
- **Object-store cache** (`CacheClientS3`). The bucket is a map from key to
  stored object. A stored object holds the decoded value, the standard
  `Expires` option and the user metadata, as three separate fields.
- **In-process cache** (`CacheClientProcess`). A plain map that ignores the TTL.
- **Content step** (`Do`). This covers the classification of `ExtraData`
  entries into author, stargazers and hashtags, and the branching on the
  provider's answer.

Remote calls are not modelled. These are `PutObject`, `StatObject`,
`GetObject`, `RemoveObject`, `ListObjects` and the provider. Each becomes an
input: a success flag, a set of failing keys, or the listing itself.
`time.Parse(time.RFC3339, ·)` (section 5.6 of RFC 3339) is an abstract partial
function `Bytes -> Option<int>`. The wall clock is a `now` parameter.

Modules: `Wrappers` (Option, Outcome), `Bytes` (Go string functions on bytes),
`Bluesky`, `CacheApi` (keys, values, `Get` outcomes and the update frame shared by both caches and the sweep),
`S3Cache`, `ProcessCache`, `S3Cleanup`, `CacheSweep` (how the cache and the
sweep interact) and `Content`.

Some facts about the code that the model keeps:
- Neither cache's `Get` looks at an entry's expiry.
- The object-store `Set` puts `Expires: now + exp` with the `exp` it is given, zero included.
- The post text has no description block and is never truncated.
- The only facets are the URL link and the author link; hashtags get none.
- The URL facet is placed on the literal URL, which is appended to the text.
- `Do` returns whatever error `Post` returns, without classifying it.

## Model

| member | source | states |
|---|---|---|
| `Bytes.Index` | internal/bluesky/bluesky.go:43 | `strings.Index`: -1 exactly when `sub` occurs nowhere; otherwise an occurrence with no earlier one |
| `Bytes.Contains` | internal/content/content.go:51-60 | `strings.Contains`: true exactly when `sub` occurs at some offset of `s` |
| `Bytes.ReplaceFirst` | internal/content/content.go:52 | `strings.Replace(·, ·, ·, 1)`: no occurrence leaves the string unchanged; otherwise only the first occurrence is replaced and the bytes around it are kept |
| `Bytes.TrimSpace` | internal/content/content.go:56 | the result is a slice of the input with only spaces cut away on either side, and it neither starts nor ends with a space |
| `Bluesky.AddFeature` | internal/bluesky/bluesky.go:91-96 | a feature map has exactly the keys `$type` and the attribute; the attribute maps to the value, and `$type` maps to the type unless the attribute is `$type` itself |
| `Bluesky.AuthorStart` | internal/bluesky/bluesky.go:26-31 | -1 exactly when there is no author; a non-empty author always gives an offset of at least 3, so its facet is always emitted; a handle starting with `@` gives an offset of at most `|title|+4` |
| `Bluesky.PostRecord` | internal/bluesky/bluesky.go:23-89 | facet count is 1 plus 1 for an author. Every facet is a single `#link` feature with a `uri`. The URL facet covers the first occurrence of `url` in the text, ends at start plus `|url|` inside the text, and links to `url`. The author facet is `|author|` bytes long and links to `https://github.com/` plus the author without its first byte. It lies inside the text for an `@` handle |
| `Bluesky.PostTextLayout` | internal/bluesky/bluesky.go:24-41 | the text is title, `" by "+author` if any, `" ("+stargazers+")"` if any, `"\n\n"+url`, `"\n\n"+hashtags` if any, in that order |
| `Bluesky.FirstByAtIsAppended` | internal/bluesky/bluesky.go:30 | with an `@` handle and a title without `" by @"`, the first `" by @"` is the appended one, at offset `|title|` |
| `Bluesky.AuthorFacetCoversAuthor` | internal/bluesky/bluesky.go:28-62 | in that case the author facet is `[|title|+4, |title|+4+|author|)` and its bytes are exactly the author |
| `Bluesky.AuthorFacetMisplaced` | internal/bluesky/bluesky.go:30 | counterexample: title `"a by @b"` with author `"@c"` puts the author facet on `"@b"` inside the title |
| `Bluesky.PostRecordIntended` | internal/bluesky/bluesky.go:57-67 | corrected offset `|title|+4`: for every input with an author, the author facet covers exactly the author bytes; the text and the URL facet are equal to those of `PostRecord`, and the facet count is the same |
| `Bluesky.IntendedAgreesWithWritten` | internal/bluesky/bluesky.go:26-67 | the corrected and the written encoder agree on every input without an author, or with an `@` handle and a title without `" by @"` |
| `Bluesky.ShortCaseHasOneFacet` | internal/bluesky/bluesky_test.go:40-58 | the "Short" test input (no author, no hashtags) gives exactly one facet and at most 300 bytes of text |
| `Bluesky.SimpleCaseHasTwoFacets` | internal/bluesky/bluesky_test.go:22-30 | the "simple" test input gives two facets, not the three the test expects, and the author facet covers `"@user"` |
| `CacheApi.FormatBool` | internal/content/s3_cache.go:57 | `strconv.FormatBool` gives `"true"` exactly for true, and `"false"` otherwise |
| `CacheApi.FormatBoolInjective` | internal/content/s3_cache.go:55-57 | two bools that render the same are equal |
| `S3Cache.Set` | internal/content/s3_cache.go:21-33 | an unencodable value is a marshal error and a failed put is a store error; both leave the bucket unchanged. On success the entry has `Expires = now + exp` and no user metadata. A later `Get` returns `FormatBool(b)` for a bool, the string for a string, and panics for anything else. All other keys are unchanged |
| `S3Cache.Get` | internal/content/s3_cache.go:38-63 | `redis.Nil` exactly when the key is absent or `StatObject` fails. A present key whose fetch fails gives an error. After a successful fetch, a bool is returned as `FormatBool(b)`, a string as is, and anything else panics. A found string comes from a stored bool or string |
| `S3Cache.Del` | internal/content/s3_cache.go:65-69 | on success the key is gone and `Get` reports not-found; on failure the bucket is unchanged; other keys are unchanged either way |
| `S3Cache.Scan` | internal/content/s3_cache.go:71-74 | returns nil and leaves the bucket unchanged |
| `S3Cache.GetIgnoresExpiry` | internal/content/s3_cache.go:38-63 | replacing an object's expiry and metadata does not change what `Get` returns |
| `S3Cache.GetAfterExpiryStillFound` | internal/content/s3_cache.go:29-59 | a string set with TTL `exp` is still found by `Get` after `now + exp` |
| `ProcessCache.Set` | internal/content/cache.go:17-21 | always nil; the key maps to the new value, overwriting any earlier one; a stored string reads back as is; other keys are unchanged |
| `ProcessCache.Get` | internal/content/cache.go:23-30 | `redis.Nil` exactly for an absent key; found exactly for a stored string, which is returned unchanged; otherwise a panic, never a coercion or another error |
| `ProcessCache.Del` | internal/content/cache.go:32-35 | always nil, present key or not; `Get` afterwards is not-found; other keys are unchanged |
| `ProcessCache.Scan` | internal/content/cache.go:37-39 | returns nil and leaves the map unchanged |
| `ProcessCache.SetIgnoresTtl` | internal/content/cache.go:17-21 | `Set` with two different `exp` values gives the same map and the same result |
| `ProcessCache.BoolReadsPanic` | internal/content/cache.go:29 | a bool stored in the process cache panics when read back |
| `S3Cleanup.CleanupExpired` | internal/content/s3_cleanup.go:60-101 | deleted keys are keys of expired objects whose delete succeeded. Expired means listed without error, and either no `expires-at` or one that parses to a time strictly before `now`. The pass returns nil exactly when no delete of an expired object fails. In that case every expired object's key is deleted. A failure names the key of an expired object whose delete failed |
| `S3Cleanup.DeleteThen` | internal/content/s3_cleanup.go:96-110 | `delete` and the early return: a failing delete ends the pass with that key and no deleted keys; otherwise the key is put in front of the keys deleted by the rest of the pass, whose error is kept |
| `S3Cleanup.ListingErrorSkipped` | internal/content/s3_cleanup.go:68-71 | removing an object with a listing error from the listing changes neither the deleted keys nor the error |
| `S3Cleanup.AbortsAtFirstFailure` | internal/content/s3_cleanup.go:80-108 | the first failing delete ends the pass with that key. The result equals that of the listing cut after it, so no later object is visited. The deleted keys are those of the objects before it |
| `S3Cleanup.NothingExpiredNothingDeleted` | internal/content/s3_cleanup.go:67-100 | a listing without expired objects deletes nothing and returns nil |
| `S3Cleanup.SweepIdempotent` | internal/content/s3_cleanup.go:74-98 | after a pass that returned nil, a second pass at the same `now` over a new listing of the surviving objects deletes only objects whose first listing failed. Each object may or may not fail to list the second time. When no first listing failed, the second pass deletes nothing and returns nil |
| `S3Cleanup.ExpiryIsStrict` | internal/content/s3_cleanup.go:91-93 | an object whose expiry equals `now` is kept; one instant later it is deleted |
| `CacheSweep.SetKeepsWrittenBySet` | internal/content/s3_cache.go:29-31 | `Set` never gives an object user metadata |
| `CacheSweep.SweepDeletesEveryCachedEntry` | internal/content/s3_cleanup.go:74-84 | on a bucket written only by `Set`, a pass without delete failures deletes every listed key, whatever its `Expires` |
| `CacheSweep.FreshEntrySwept` | internal/content/s3_cache.go:29-31 | counterexample: an entry set for 86400 s at time 0 is deleted by a sweep at time 1 |
| `CacheSweep.SetIntended` | internal/content/s3_cache.go:21-33 | corrected `Set`: same error and same `Get` results as `Set`, and it also writes `expires-at` as the formatted expiry |
| `CacheSweep.SweepHonoursIntendedExpiry` | internal/content/s3_cleanup.go:74-98 | with the corrected `Set` and a parser that reads back the formatter's output, the sweep deletes the entry exactly when `now > setAt + exp` |
| `Content.Classify` | internal/content/content.go:47-65 | author is the last entry containing `"Author: @"`, minus its first `"Author: "`. hashTags is the trimmed last entry containing `"#"`. stargazers is the last entry containing `"⭐️ "` and no `"#"`, kept verbatim. Each is empty when no entry matches, so empty `ExtraData` gives all three empty |
| `Content.Do` | internal/content/content.go:35-67 | a provider error yields `ErrCouldNotContent`, and only then. A nil project yields nil without posting, and only then. A nil title, subtitle or URL panics, and only then. Otherwise the post gets the project's title, subtitle and URL and the classified extras |
| `Content.HashTagEntryNotStargazers` | internal/content/content.go:55-63 | an entry containing `"#"` sets the hashtags and leaves the stargazers as they were, even when it has the star |
| `Content.UnmatchedEntryIgnored` | internal/content/content.go:50-64 | an entry matching none of the markers changes nothing |
| `Content.AuthorAndHashTagsInOneEntry` | internal/content/content.go:51-57 | a single entry with both `"Author: @"` and `"#"` sets both author and hashtags |
| `Content.AuthorDropsLabel` | internal/content/content.go:51-53 | the author is eight bytes shorter than its entry; when the marker is the first `"Author: "`, the author starts with `@` at that offset |

## Left out

- `Client.Post` (internal/bluesky/bluesky.go:99-126) is not modelled: an XRPC session, JSON marshalling and a remote call that passes errors through. `Content.Do` ends in the draft it hands to `Post`.
- The record's `createdAt` (wall clock) and `langs` (a constant) fields are not modelled.
- `Content.Do`: the code at internal/content/content.go:67 and the test call `PostRecord` with six arguments, including the project subtitle. The function shown takes five. `Do` is modelled up to these six arguments and is not linked to the five-argument encoder. For the same reason, the test's expectation of three facets for "simple" is recorded as two (`Bluesky.SimpleCaseHasTwoFacets`).
- The 300-byte length bound is not enforced by the encoder. It is proved only for the "Short" test input.
- `S3Cleanup.CleanupExpired`: the model uses one `now` for the whole pass, while the code reads the clock once per object.
- `Start`, `Stop` and `cleanupRoutine` are not modelled (a goroutine, a ticker and channel cancellation). `sync.Map` is modelled as a sequential map. Log output is not modelled.
- `S3Cache.Get`: `GetObject` errors and JSON decode errors are merged into one `Failed` outcome, chosen by the `fetchOk` flag. Any `StatObject` error reads as not-found, as in the code.
- `S3Cache.Set`, `ProcessCache.Get`: one `Value` serves both caches. Go values that encode to a JSON string or boolean without being a Go `string` or `bool` are not modelled. Examples are `[]byte`, `time.Time` and named string types. The object-store cache would read them back as `Found`, and the process cache would panic on them.
- `S3Cache.Set`: a string is assumed to survive the JSON round trip unchanged. Go's `encoding/json` replaces invalid UTF-8 with U+FFFD, and the model does not capture this. `time.Now().Add(exp)` is `now + exp` with no saturation.
- `Bytes.TrimSpace`: only ASCII whitespace is trimmed. Go also trims multi-byte Unicode spaces such as U+00A0 and U+3000.
- RFC 3339 parsing and formatting are abstract functions.
- The listing order of `ListObjects`, and the success of each remote call, are inputs.
- The GitHub provider is not part of this model, and neither is `cmd/bot/main.go` beyond the fact that the cache and the sweep share one bucket (cmd/bot/main.go:83-87).

## Findings

| source | as written | input that shows it | evidently intended | confidence | as-written member | corrected member |
|---|---|---|---|---|---|---|
| internal/bluesky/bluesky.go:30 | the author facet starts four bytes after the first `" by @"` anywhere in the text | title `"a by @b"`, author `"@c"`: the facet is `[5,7)`, covering `"@b"` | the facet starts just past the appended `" by "`, at `len(title)+4` | medium (repository titles seldom contain `" by @"`); not executed | `Bluesky.AuthorFacetMisplaced` | `Bluesky.PostRecordIntended` |
| internal/content/s3_cache.go:29-31 | `Set` records the expiry only as the standard `Expires` option, never as the `expires-at` user metadata that the sweep reads (internal/content/s3_cleanup.go:74) | `Set(k, true, 24h)` at time 0, then a sweep at time 1: `k` is deleted as orphaned | `Set` also writes `expires-at` with the RFC 3339 expiry time | high; not executed | `CacheSweep.FreshEntrySwept` | `CacheSweep.SetIntended` |
