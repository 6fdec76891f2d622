/**
 * The post encoder of the Bluesky client: `PostRecord` assembles the text of
 * an `app.bsky.feed.post` record and the `app.bsky.richtext.facet` entries
 * that turn the repository URL and the author handle into links. Facet
 * offsets are UTF-8 byte offsets into the text, which is why every string
 * here is a byte sequence.
 */
module Bluesky {
  import opened Bytes

  /** A facet feature: Go's `map[string]string` holding `$type` and one attribute. */
  type Feature = map<Bytes, Bytes>

  /** The `index` of a facet: the half-open byte range `[byteStart, byteEnd)`. */
  datatype ByteSlice = ByteSlice(byteStart: int, byteEnd: int)

  /** One `app.bsky.richtext.facet`: a byte range and the features attached to it. */
  datatype Facet = Facet(index: ByteSlice, features: seq<Feature>)

  /**
   * The post record. The `createdAt` timestamp and the constant `langs` list
   * of the Go map are not part of the model.
   */
  datatype Record = Record(recordType: Bytes, text: Bytes, facets: seq<Facet>)

  const TypeKey: Bytes := Lit("$type")
  const LinkType: Bytes := Lit("app.bsky.richtext.facet#link")
  const UriAttr: Bytes := Lit("uri")
  const PostType: Bytes := Lit("app.bsky.feed.post")
  const GitHubPrefix: Bytes := Lit("https://github.com/")
  const By: Bytes := Lit(" by ")
  const ByAt: Bytes := Lit(" by @")
  const OpenParen: Bytes := Lit(" (")
  const CloseParen: Bytes := Lit(")")
  const Separator: Bytes := Lit("\n\n")
  const At: Byte := '@' as int

  /** `addFeature`: a feature map of type `fType` whose attribute `fAttr` is `value`. */
  function AddFeature(fType: Bytes, fAttr: Bytes, value: Bytes): (f: Feature)
    ensures f.Keys == {TypeKey, fAttr}
    ensures f[fAttr] == value
    ensures fAttr != TypeKey ==> f[TypeKey] == fType
  {
    map[TypeKey := fType, fAttr := value]
  }

  /** A facet that links the bytes `[start, start + len)` to `uri`. */
  function LinkFacet(start: int, len: int, uri: Bytes): Facet
  {
    Facet(ByteSlice(start, start + len), [AddFeature(LinkType, UriAttr, uri)])
  }

  /** The post text, appended piece by piece as `PostRecord` does. */
  function PostText(title: Bytes, url: Bytes, author: Bytes, stargazers: Bytes, hashtags: Bytes): Bytes
  {
    var text := title;
    var text := if |author| > 0 then text + By + author else text;
    var text := if |stargazers| > 0 then text + OpenParen + stargazers + CloseParen else text;
    var text := text + Separator + url;
    if |hashtags| > 0 then text + Separator + hashtags else text
  }

  /** `part` when `present`, nothing otherwise. */
  function When(present: bool, part: Bytes): Bytes
  {
    if present then part else []
  }

  /**
   * The offset `PostRecord` records for the author facet: four bytes past the
   * FIRST `" by @"` in the title-and-author text, or -1 without an author.
   */
  function AuthorStart(title: Bytes, author: Bytes): (start: int)
    ensures |author| == 0 <==> start == -1
    ensures |author| > 0 ==> 3 <= start
    ensures |author| > 0 && author[0] == At ==> start <= |title| + 4
  {
    if |author| > 0 then
      var t := title + By + author;
      assert |author| > 0 && author[0] == At ==> OccursAt(t, ByAt, |title|) by {
        if author[0] == At {
          assert t[|title|..|title| + 5] == ByAt;
        }
      }
      Index(t, ByAt) + 4
    else -1
  }

  /**
   * The record for a given author offset: the URL facet first, found by
   * searching the text for `url`, then the author facet when `startAuthor`
   * is positive. No hashtag facet is ever produced.
   */
  function BuildRecord(title: Bytes, url: Bytes, author: Bytes, stargazers: Bytes, hashtags: Bytes,
                       startAuthor: int): Record
    requires startAuthor > 0 ==> |author| > 0
  {
    var text := PostText(title, url, author, stargazers, hashtags);
    var startRepoUrl := Index(text, url);
    var urlFacet := LinkFacet(startRepoUrl, |url|, url);
    var facets :=
      if startAuthor > 0
      then [urlFacet, LinkFacet(startAuthor, |author|, GitHubPrefix + author[1..])]
      else [urlFacet];
    Record(PostType, text, facets)
  }

  /** A facet range lies inside the text. */
  predicate InText(text: Bytes, s: ByteSlice)
  {
    0 <= s.byteStart <= s.byteEnd <= |text|
  }

  /** A facet range lies inside the text and its bytes are exactly `sub`. */
  predicate Covers(text: Bytes, s: ByteSlice, sub: Bytes)
  {
    InText(text, s) && text[s.byteStart..s.byteEnd] == sub
  }

  /** A facet carries exactly one feature, a link with a `uri` attribute. */
  predicate IsLinkFacet(f: Facet)
  {
    && |f.features| == 1
    && TypeKey in f.features[0] && f.features[0][TypeKey] == LinkType
    && UriAttr in f.features[0]
  }

  /** A link facet whose `uri` is `uri`. */
  predicate LinksTo(f: Facet, uri: Bytes)
  {
    IsLinkFacet(f) && f.features[0][UriAttr] == uri
  }

  /**
   * `PostRecord(title, url, author, stargazers, hashtags)` as written: the
   * author facet starts four bytes after the first `" by @"` of the text.
   */
  function PostRecord(title: Bytes, url: Bytes, author: Bytes, stargazers: Bytes, hashtags: Bytes): (r: Record)
    ensures r.recordType == PostType
    ensures |r.facets| == if |author| > 0 then 2 else 1
    ensures forall f :: f in r.facets ==> IsLinkFacet(f)
    ensures LinksTo(r.facets[0], url) && Covers(r.text, r.facets[0].index, url)
    ensures forall j :: 0 <= j < r.facets[0].index.byteStart ==> !OccursAt(r.text, url, j)
    ensures |author| > 0 ==> LinksTo(r.facets[1], GitHubPrefix + author[1..])
    ensures |author| > 0 ==> r.facets[1].index.byteEnd == r.facets[1].index.byteStart + |author|
    ensures |author| > 0 && author[0] == At ==> InText(r.text, r.facets[1].index)
  {
    var startAuthor := AuthorStart(title, author);
    RecordFacts(title, url, author, stargazers, hashtags, startAuthor);
    BuildRecord(title, url, author, stargazers, hashtags, startAuthor)
  }

  /** The text is the pieces in order: title, author, stargazers, URL, hashtags. */
  lemma PostTextLayout(title: Bytes, url: Bytes, author: Bytes, stargazers: Bytes, hashtags: Bytes)
    ensures PostRecord(title, url, author, stargazers, hashtags).text
            == title
               + When(|author| > 0, By + author)
               + When(|stargazers| > 0, OpenParen + stargazers + CloseParen)
               + Separator + url
               + When(|hashtags| > 0, Separator + hashtags)
  {
    TextLayout(title, url, author, stargazers, hashtags);
  }

  lemma TextLayout(title: Bytes, url: Bytes, author: Bytes, stargazers: Bytes, hashtags: Bytes)
    ensures PostText(title, url, author, stargazers, hashtags)
            == title
               + When(|author| > 0, By + author)
               + When(|stargazers| > 0, OpenParen + stargazers + CloseParen)
               + Separator + url
               + When(|hashtags| > 0, Separator + hashtags)
  {
    var a := When(|author| > 0, By + author);
    var g := When(|stargazers| > 0, OpenParen + stargazers + CloseParen);
    var h := When(|hashtags| > 0, Separator + hashtags);
    var t1 := if |author| > 0 then title + By + author else title;
    assert t1 == title + a;
    var t2 := if |stargazers| > 0 then t1 + OpenParen + stargazers + CloseParen else t1;
    assert t2 == title + a + g;
    var t3 := t2 + Separator + url;
    var t4 := if |hashtags| > 0 then t3 + Separator + hashtags else t3;
    assert t4 == t3 + h;
    assert PostText(title, url, author, stargazers, hashtags) == t4;
  }

  /** Everything up to and including the author is a prefix of the text. */
  lemma TitleAndAuthorPrefix(title: Bytes, url: Bytes, author: Bytes, stargazers: Bytes, hashtags: Bytes)
    ensures var text := PostText(title, url, author, stargazers, hashtags);
            var head := title + When(|author| > 0, By + author);
            |head| <= |text| && text[..|head|] == head
  {
    TextLayout(title, url, author, stargazers, hashtags);
  }

  /** The URL is appended after the title, author and stargazers pieces, so it always occurs. */
  lemma UrlOccurs(title: Bytes, url: Bytes, author: Bytes, stargazers: Bytes, hashtags: Bytes)
    ensures var text := PostText(title, url, author, stargazers, hashtags);
            var p := |title + When(|author| > 0, By + author)
                            + When(|stargazers| > 0, OpenParen + stargazers + CloseParen) + Separator|;
            OccursAt(text, url, p)
  {
    TextLayout(title, url, author, stargazers, hashtags);
    var text := PostText(title, url, author, stargazers, hashtags);
    var pre := title + When(|author| > 0, By + author)
               + When(|stargazers| > 0, OpenParen + stargazers + CloseParen) + Separator;
    var post := When(|hashtags| > 0, Separator + hashtags);
    assert text == pre + url + post;
    assert text[|pre|..|pre| + |url|] == url;
  }

  /** The facts about `BuildRecord` shared by `PostRecord` and `PostRecordIntended`. */
  lemma RecordFacts(title: Bytes, url: Bytes, author: Bytes, stargazers: Bytes, hashtags: Bytes,
                    startAuthor: int)
    requires startAuthor > 0 <==> |author| > 0
    ensures var r := BuildRecord(title, url, author, stargazers, hashtags, startAuthor);
            && r.recordType == PostType
            && r.text == PostText(title, url, author, stargazers, hashtags)
            && |r.facets| == (if |author| > 0 then 2 else 1)
            && (forall f :: f in r.facets ==> IsLinkFacet(f))
            && LinksTo(r.facets[0], url) && Covers(r.text, r.facets[0].index, url)
            && (forall j :: 0 <= j < r.facets[0].index.byteStart ==> !OccursAt(r.text, url, j))
            && (|author| > 0 ==> r.facets[1].index == ByteSlice(startAuthor, startAuthor + |author|))
            && (|author| > 0 ==> LinksTo(r.facets[1], GitHubPrefix + author[1..]))
            && (|author| > 0 && startAuthor <= |title| + 4 ==> InText(r.text, r.facets[1].index))
  {
    UrlOccurs(title, url, author, stargazers, hashtags);
    TitleAndAuthorPrefix(title, url, author, stargazers, hashtags);
    assert UriAttr != TypeKey by { assert |UriAttr| != |TypeKey|; }
  }

  /**
   * With a handle-shaped author and no `" by @"` in the title, the author
   * facet covers exactly the author bytes appended after `" by "`.
   */
  lemma AuthorFacetCoversAuthor(title: Bytes, url: Bytes, author: Bytes, stargazers: Bytes, hashtags: Bytes)
    requires |author| > 0 && author[0] == At
    requires !Contains(title, ByAt)
    ensures var r := PostRecord(title, url, author, stargazers, hashtags);
            && r.facets[1].index == ByteSlice(|title| + 4, |title| + 4 + |author|)
            && Covers(r.text, r.facets[1].index, author)
  {
    FirstByAtIsAppended(title, author);
    AuthorFacetAtAppendedAuthor(title, url, author, stargazers, hashtags, |title| + 4);
  }

  /** A facet placed right after `" by "` covers the author. */
  lemma AuthorFacetAtAppendedAuthor(title: Bytes, url: Bytes, author: Bytes, stargazers: Bytes, hashtags: Bytes,
                                    startAuthor: int)
    requires startAuthor == if |author| > 0 then |title| + 4 else -1
    ensures var r := BuildRecord(title, url, author, stargazers, hashtags, startAuthor);
            |author| > 0 ==>
            && r.facets[1].index == ByteSlice(|title| + 4, |title| + 4 + |author|)
            && Covers(r.text, r.facets[1].index, author)
  {
    RecordFacts(title, url, author, stargazers, hashtags, startAuthor);
    if |author| > 0 {
      TitleAndAuthorPrefix(title, url, author, stargazers, hashtags);
      var text := PostText(title, url, author, stargazers, hashtags);
      var head := title + By + author;
      assert text[..|head|] == head;
      assert text[|title| + 4..|head|] == head[|title| + 4..];
      assert head[|title| + 4..] == author;
    }
  }

  /** Without `" by @"` in the title, the first `" by @"` is the appended one. */
  lemma FirstByAtIsAppended(title: Bytes, author: Bytes)
    requires |author| > 0 && author[0] == At
    requires !Contains(title, ByAt)
    ensures Index(title + By + author, ByAt) == |title|
  {
    var t := title + By + author;
    assert t[|title|..|title| + 5] == ByAt;
    OccurrenceFound(t, ByAt, |title|);
    // A match starting in the last four title bytes would need the appended
    // " b" to line up with a later byte of " by @".
    forall j | 0 <= j < |title| && |title| < j + 5
      ensures !OccursAt(t, ByAt, j)
    {
      var k := |title| - j;
      if k == 3 {
        assert t[j..j + 5][4] == 'b' as int;
      } else {
        assert t[j..j + 5][k] == ' ' as int;
      }
    }
    var i := Index(t, ByAt);
    if i < |title| {
      assert i + 5 <= |title|;
      assert t[i..i + 5] == title[i..i + 5];
      OccurrenceFound(title, ByAt, i);
      assert false;
    }
  }

  /**
   * `PostRecord` with the author offset it evidently means: the byte just
   * past the appended `" by "`, wherever `" by @"` first occurs.
   */
  function PostRecordIntended(title: Bytes, url: Bytes, author: Bytes, stargazers: Bytes, hashtags: Bytes): (r: Record)
    ensures |r.facets| == if |author| > 0 then 2 else 1
    ensures forall f :: f in r.facets ==> IsLinkFacet(f)
    ensures LinksTo(r.facets[0], url) && Covers(r.text, r.facets[0].index, url)
    ensures |author| > 0 ==> LinksTo(r.facets[1], GitHubPrefix + author[1..])
    ensures |author| > 0 ==> Covers(r.text, r.facets[1].index, author)
    ensures r.text == PostRecord(title, url, author, stargazers, hashtags).text
    ensures r.facets[0] == PostRecord(title, url, author, stargazers, hashtags).facets[0]
  {
    var startAuthor := if |author| > 0 then |title| + 4 else -1;
    RecordFacts(title, url, author, stargazers, hashtags, startAuthor);
    RecordFacts(title, url, author, stargazers, hashtags, AuthorStart(title, author));
    AuthorFacetAtAppendedAuthor(title, url, author, stargazers, hashtags, startAuthor);
    BuildRecord(title, url, author, stargazers, hashtags, startAuthor)
  }

  /** On a handle-shaped author and a title without `" by @"`, both versions agree. */
  lemma IntendedAgreesWithWritten(title: Bytes, url: Bytes, author: Bytes, stargazers: Bytes, hashtags: Bytes)
    requires |author| > 0 ==> author[0] == At && !Contains(title, ByAt)
    ensures PostRecordIntended(title, url, author, stargazers, hashtags)
            == PostRecord(title, url, author, stargazers, hashtags)
  {
    if |author| > 0 {
      FirstByAtIsAppended(title, author);
    }
  }

  /** The title `"a by @b"` of the counterexample below. */
  const CapturingTitle: Bytes := [0x61, 0x20, 0x62, 0x79, 0x20, 0x40, 0x62]

  /** The author `"@c"` of the counterexample below. */
  const OtherAuthor: Bytes := [0x40, 0x63]

  /**
   * A title containing `" by @"` captures the author facet: with title
   * `"a by @b"` and author `"@c"` the facet covers `"@b"` of the title.
   */
  lemma AuthorFacetMisplaced()
    ensures var r := PostRecord(CapturingTitle, [0x75], OtherAuthor, [], []);
            && r.facets[1].index == ByteSlice(5, 7)
            && r.text[5..7] == [0x40, 0x62]
            && !Covers(r.text, r.facets[1].index, OtherAuthor)
  {
    var t := CapturingTitle + By + OtherAuthor;
    assert t[1..6] == ByAt;
    OccurrenceFound(t, ByAt, 1);
    assert !OccursAt(t, ByAt, 0) by {
      assert t[0..5][0] == 0x61;
    }
    assert AuthorStart(CapturingTitle, OtherAuthor) == 5;
    RecordFacts(CapturingTitle, [0x75], OtherAuthor, [], [], 5);
    TitleAndAuthorPrefix(CapturingTitle, [0x75], OtherAuthor, [], []);
    var text := PostText(CapturingTitle, [0x75], OtherAuthor, [], []);
    assert text[..|t|] == t;
    assert text[5..7] == t[5..7] == [0x40, 0x62];
  }

  /** The bytes of `"0 ⭐️"`: a digit, a space, U+2B50 and the variation selector U+FE0F. */
  const ZeroStars: Bytes := [0x30, 0x20, 0xE2, 0xAD, 0x90, 0xEF, 0xB8, 0x8F]

  /** The "Short" test case: no author and no hashtags give exactly one facet. */
  lemma ShortCaseHasOneFacet()
    ensures var r := PostRecord(Lit("Short"), Lit("https://github.com/s/s"), [], ZeroStars, []);
            && |r.facets| == 1
            && |r.text| <= 300
  {
    TextLayout(Lit("Short"), Lit("https://github.com/s/s"), [], ZeroStars, []);
  }

  /**
   * The "simple" test case: an author and hashtags still give two facets,
   * because no hashtag facet is built.
   */
  lemma SimpleCaseHasTwoFacets()
    ensures var r := PostRecord(Lit("simple"), Lit("https://github.com/user/repo"), Lit("@user"),
                                [0x31, 0x20, 0xE2, 0xAD, 0x90, 0xEF, 0xB8, 0x8F], Lit("#go"));
            && |r.facets| == 2
            && Covers(r.text, r.facets[1].index, Lit("@user"))
  {
    var title := Lit("simple");
    assert !Contains(title, ByAt) by {
      forall j ensures !OccursAt(title, ByAt, j) {
        if 0 <= j && j + 5 <= |title| {
          assert title[j..j + 5][0] == title[j] != ' ' as int;
        }
      }
    }
    AuthorFacetCoversAuthor(title, Lit("https://github.com/user/repo"), Lit("@user"),
                            [0x31, 0x20, 0xE2, 0xAD, 0x90, 0xEF, 0xB8, 0x8F], Lit("#go"));
  }
}
