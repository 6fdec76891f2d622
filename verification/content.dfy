/**
 * `Do`: fetch one project from the content provider and hand a post for it
 * to the Bluesky client. The provider and the client are outside the model:
 * the provider's answer is an input, and the result names the draft that
 * `Do` passes to `Post` (whose error `Do` returns unchanged).
 */
module Content {
  import opened Bytes
  import opened Wrappers

  /** The author, stargazers and hashtag strings picked out of a project's extra data. */
  datatype Extra = Extra(author: Bytes, stargazers: Bytes, hashTags: Bytes)

  /** A project as the provider returns it: title, subtitle and URL are pointers, `None` for nil. */
  datatype Project = Project(title: Option<Bytes>, subtitle: Option<Bytes>, url: Option<Bytes>,
                             extraData: seq<Bytes>)

  /** `provider.GetContentToPublish()`: an error, a nil project, or a project. */
  datatype Fetch = FetchError | NoProject | Fetched(project: Project)

  /** The arguments `Do` passes to the post encoder, in call order. */
  datatype Draft = Draft(title: Bytes, subtitle: Bytes, url: Bytes,
                         author: Bytes, stargazers: Bytes, hashTags: Bytes)

  /**
   * How `Do` ends: `ErrCouldNotContent`, nil without posting, a run-time
   * panic on a nil title, subtitle or URL, or the result of posting `draft`.
   */
  datatype DoResult = CouldNotContent | NothingToPost | NilDereference | Posted(draft: Draft)

  const AuthorMarker: Bytes := Lit("Author: @")
  const AuthorLabel: Bytes := Lit("Author: ")
  const HashMark: Bytes := Lit("#")

  /** `"⭐️ "`: U+2B50, the variation selector U+FE0F and a space, as UTF-8. */
  const StarMarker: Bytes := [0xE2, 0xAD, 0x90, 0xEF, 0xB8, 0x8F, 0x20]

  /** An entry naming the author. */
  predicate NamesAuthor(e: Bytes)
  {
    Contains(e, AuthorMarker)
  }

  /** The author an entry names: the entry without its first `"Author: "`. */
  function AuthorOf(e: Bytes): Bytes
  {
    ReplaceFirst(e, AuthorLabel, [])
  }

  /** An entry holding hashtags. */
  predicate HasHashTags(e: Bytes)
  {
    Contains(e, HashMark)
  }

  /** An entry taken for the stargazer count: it has the star and no hashtag. */
  predicate HasStargazers(e: Bytes)
  {
    Contains(e, StarMarker) && !Contains(e, HashMark)
  }

  /** One turn of the loop over `ExtraData`. */
  function Step(acc: Extra, e: Bytes): Extra
  {
    var acc := if Contains(e, AuthorMarker) then acc.(author := ReplaceFirst(e, AuthorLabel, [])) else acc;
    if Contains(e, HashMark) then acc.(hashTags := TrimSpace(e))
    else if Contains(e, StarMarker) then acc.(stargazers := e)
    else acc
  }

  /** `i` is the last index of `es` at which `p` holds. */
  ghost predicate LastWith(es: seq<Bytes>, i: int, p: Bytes -> bool)
  {
    0 <= i < |es| && p(es[i]) && forall j :: i < j < |es| ==> !p(es[j])
  }

  /**
   * `v` is what a last-match-wins scan of `es` leaves: `f` of the last entry
   * satisfying `p`, or empty when no entry does.
   */
  ghost predicate LastWins(es: seq<Bytes>, p: Bytes -> bool, f: Bytes -> Bytes, v: Bytes)
  {
    && ((forall i :: 0 <= i < |es| ==> !p(es[i])) ==> v == [])
    && (forall i :: LastWith(es, i, p) ==> v == f(es[i]))
  }

  /** Extending a scan by one entry: a match replaces the value, anything else keeps it. */
  lemma LastWinsExtend(es: seq<Bytes>, p: Bytes -> bool, f: Bytes -> Bytes, prev: Bytes, next: Bytes)
    requires |es| > 0
    requires LastWins(es[..|es| - 1], p, f, prev)
    requires next == if p(es[|es| - 1]) then f(es[|es| - 1]) else prev
    ensures LastWins(es, p, f, next)
  {
    var init := es[..|es| - 1];
    assert forall i :: 0 <= i < |init| ==> init[i] == es[i];
    forall i | LastWith(es, i, p) ensures next == f(es[i]) {
      if i < |es| - 1 {
        assert LastWith(init, i, p);
      }
    }
  }

  /** The stargazers entry is kept verbatim. */
  function Id(e: Bytes): Bytes { e }

  /**
   * The loop over `ExtraData`: each field is set by the LAST entry that
   * matches it, and stays empty when no entry does.
   */
  function Classify(es: seq<Bytes>): (r: Extra)
    ensures LastWins(es, NamesAuthor, AuthorOf, r.author)
    ensures LastWins(es, HasHashTags, TrimSpace, r.hashTags)
    ensures LastWins(es, HasStargazers, Id, r.stargazers)
    decreases |es|
  {
    if |es| == 0 then Extra([], [], [])
    else
      var prev := Classify(es[..|es| - 1]);
      var e := es[|es| - 1];
      var r := Step(prev, e);
      LastWinsExtend(es, NamesAuthor, AuthorOf, prev.author, r.author);
      LastWinsExtend(es, HasHashTags, TrimSpace, prev.hashTags, r.hashTags);
      LastWinsExtend(es, HasStargazers, Id, prev.stargazers, r.stargazers);
      r
  }

  /** `Do`, given what the provider answered. */
  function Do(f: Fetch): (r: DoResult)
    ensures r == CouldNotContent <==> f.FetchError?
    ensures r == NothingToPost <==> f.NoProject?
    ensures r == NilDereference <==>
              f.Fetched? && (f.project.title.None? || f.project.subtitle.None? || f.project.url.None?)
    ensures r.Posted? ==> f.Fetched? && f.project.title == Some(r.draft.title)
                          && f.project.subtitle == Some(r.draft.subtitle) && f.project.url == Some(r.draft.url)
    ensures r.Posted? ==> Extra(r.draft.author, r.draft.stargazers, r.draft.hashTags)
                          == Classify(f.project.extraData)
  {
    match f
    case FetchError => CouldNotContent
    case NoProject => NothingToPost
    case Fetched(p) =>
      var extra := Classify(p.extraData);
      if p.title.None? || p.subtitle.None? || p.url.None? then NilDereference
      else Posted(Draft(p.title.value, p.subtitle.value, p.url.value, extra.author, extra.stargazers, extra.hashTags))
  }

  /** A hashtag entry never sets the stargazers, even when it also has the star. */
  lemma HashTagEntryNotStargazers(acc: Extra, e: Bytes)
    requires HasHashTags(e)
    ensures Step(acc, e).stargazers == acc.stargazers
    ensures Step(acc, e).hashTags == TrimSpace(e)
  {
  }

  /** An entry that matches none of the three markers changes nothing. */
  lemma UnmatchedEntryIgnored(es: seq<Bytes>, e: Bytes)
    requires !NamesAuthor(e) && !HasHashTags(e) && !Contains(e, StarMarker)
    ensures Classify(es + [e]) == Classify(es)
  {
    assert (es + [e])[..|es|] == es;
  }

  /** One entry with both the author marker and a hashtag sets the author and the hashtags. */
  lemma AuthorAndHashTagsInOneEntry(e: Bytes)
    requires NamesAuthor(e) && HasHashTags(e)
    ensures Classify([e]) == Extra(AuthorOf(e), [], TrimSpace(e))
  {
    assert LastWith([e], 0, NamesAuthor);
    assert LastWith([e], 0, HasHashTags);
  }

  /**
   * Every entry with the author marker also holds `"Author: "`, so the
   * author is the entry minus those eight bytes, and it starts with `@` when
   * the marker is the entry's first `"Author: "`.
   */
  lemma AuthorDropsLabel(e: Bytes)
    requires NamesAuthor(e)
    ensures |AuthorOf(e)| == |e| - 8
    ensures Index(e, AuthorLabel) == Index(e, AuthorMarker) ==> AuthorOf(e)[Index(e, AuthorLabel)] == '@' as int
  {
    var i := Index(e, AuthorMarker);
    assert e[i..i + 9][..8] == e[i..i + 8];
    assert e[i..i + 8] == AuthorLabel;
    OccurrenceFound(e, AuthorLabel, i);
    if Index(e, AuthorLabel) == i {
      assert e[i + 8] == e[i..i + 9][8];
    }
  }
}
