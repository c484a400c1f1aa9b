/**
 * The feed route built from the raw Markdown modules: a slug from each
 * module's path, an item with defaults that the frontmatter overrides, a
 * filter on the publication date, a newest-first sort and a projection to
 * the four fields the feed shows.
 */
module RssFeedJs {
  import opened Wrappers
  import opened Strings
  import opened JsValues
  import opened Rss
  import Sorting

  /** A module found by the glob: its path and its `frontmatter` (`None` when null or undefined). */
  datatype PostModule = PostModule(path: string, frontmatter: Option<JsObject>)

  /** `.replace(/\.mdx?$/, '')`: one trailing `.md` or `.mdx` removed. */
  function StripMarkdownExtension(path: string): (r: string)
    ensures EndsWith(path, ".mdx") ==> r + ".mdx" == path
    ensures !EndsWith(path, ".mdx") && EndsWith(path, ".md") ==> r + ".md" == path
    ensures !EndsWith(path, ".mdx") && !EndsWith(path, ".md") ==> r == path
  {
    if EndsWith(path, ".mdx") then path[..|path| - 4]
    else if EndsWith(path, ".md") then path[..|path| - 3]
    else path
  }

  const BlogMarker := "/blog/"

  /** The first piece of a split is a prefix of the text, followed by the separator or the end. */
  lemma SplitHead(s: string, sep: string)
    requires |sep| > 0
    ensures var h := Split(s, sep)[0];
            StartsWith(s, h) && (h == s || OccursAt(s, sep, |h|))
            && forall j :: 0 <= j < |h| ==> !OccursAt(s, sep, j)
  {
    match IndexOfFrom(s, sep, 0)
    case None =>
      assert s[..|s|] == s;
    case Some(i) =>
      assert Split(s, sep)[0] == s[..i];
  }

  /** `.split('/blog/')[1]`: the text after the first `/blog/`, up to the next one or the end. */
  function BlogSegment(path: string): (r: Option<string>)
    ensures r.None? <==> IndexOfFrom(path, BlogMarker, 0).None?
    ensures r.Some? ==>
      var after := path[IndexOfFrom(path, BlogMarker, 0).value + |BlogMarker|..];
      && StartsWith(after, r.value)
      && (r.value == after || OccursAt(after, BlogMarker, |r.value|))
      && forall j :: 0 <= j < |r.value| ==> !OccursAt(after, BlogMarker, j)
  {
    var pieces := Split(path, BlogMarker);
    match IndexOfFrom(path, BlogMarker, 0)
    case None => None
    case Some(i) =>
      var after := path[i + |BlogMarker|..];
      assert pieces == [path[..i]] + Split(after, BlogMarker);
      SplitHead(after, BlogMarker);
      Some(pieces[1])
  }

  /** `.replace(/\/index$/, '')`. */
  function StripIndex(s: string): (r: string)
    ensures EndsWith(s, "/index") ==> r + "/index" == s
    ensures !EndsWith(s, "/index") ==> r == s
  {
    if EndsWith(s, "/index") then s[..|s| - 6] else s
  }

  /** The slug of a module path; `""` when the path has no `/blog/`. */
  function SlugOf(path: string): (r: string)
    ensures BlogSegment(StripMarkdownExtension(path)).None? ==> r == ""
    ensures BlogSegment(StripMarkdownExtension(path)).Some? ==>
      r == StripIndex(BlogSegment(StripMarkdownExtension(path)).value)
  {
    match BlogSegment(StripMarkdownExtension(path))
    case None => ""
    case Some(segment) => StripIndex(segment)
  }

  /** The item before the frontmatter is spread over it. `dateOf` is `new Date(v)`'s time
      value (`None` for an invalid date) and `now` the time of the request. */
  function ComputedFields(slug: string, fm: JsObject, dateOf: JsValue -> Option<int>, now: int): (r: JsObject)
    ensures r.Keys == {"link", "title", "pubDate", "description"}
    ensures r["link"] == Str("/blog/" + slug)
    ensures r["title"] == if Nullish(Get(fm, "title")) then Str(slug) else Get(fm, "title")
    ensures r["pubDate"].Date?
    ensures Truthy(Get(fm, "pubDate")) && dateOf(Get(fm, "pubDate")).Some? ==>
            r["pubDate"] == Date(dateOf(Get(fm, "pubDate")).value)
    ensures !(Truthy(Get(fm, "pubDate")) && dateOf(Get(fm, "pubDate")).Some?) ==> r["pubDate"] == Date(now)
    ensures r["description"] == Get(fm, "description")
  {
    var date := if Truthy(Get(fm, "pubDate")) then dateOf(Get(fm, "pubDate")) else None;
    map[
      "link" := Str("/blog/" + slug),
      "title" := if Nullish(Get(fm, "title")) then Str(slug) else Get(fm, "title"),
      "pubDate" := Date(if date.Some? then date.value else now),
      "description" := Get(fm, "description")]
  }

  /** One post object: the computed fields, then `...fm`, whose keys win. */
  function PostOf(m: PostModule, dateOf: JsValue -> Option<int>, now: int): (r: JsObject)
    ensures var fm := m.frontmatter.GetOr(map[]);
            && r.Keys == fm.Keys + {"link", "title", "pubDate", "description"}
            && (forall k :: k in fm ==> r[k] == fm[k])
            && (forall k :: k in r && k !in fm ==> r[k] == ComputedFields(SlugOf(m.path), fm, dateOf, now)[k])
  {
    var fm := m.frontmatter.GetOr(map[]);
    ComputedFields(SlugOf(m.path), fm, dateOf, now) + fm
  }

  /** The posts in module order. */
  function Posts(modules: seq<PostModule>, dateOf: JsValue -> Option<int>, now: int): (r: seq<JsObject>)
    ensures |r| == |modules|
    ensures forall i :: 0 <= i < |modules| ==> r[i] == PostOf(modules[i], dateOf, now)
  {
    seq(|modules|, i requires 0 <= i < |modules| => PostOf(modules[i], dateOf, now))
  }

  /** `.filter((post) => post.pubDate)`, order kept. */
  function WithPubDate(posts: seq<JsObject>): (r: seq<JsObject>)
    ensures |r| <= |posts|
    ensures forall p :: p in r ==> Truthy(Get(p, "pubDate"))
    ensures forall p :: p in posts && Truthy(Get(p, "pubDate")) ==> p in r
    ensures forall p :: p in r ==> p in posts
    ensures forall p :: multiset(r)[p] == if Truthy(Get(p, "pubDate")) then multiset(posts)[p] else 0
  {
    if posts == [] then []
    else
      assert posts == [posts[0]] + posts[1..];
      Head(posts[0]) + WithPubDate(posts[1..])
  }

  lemma SeqAppendAssoc(x: seq<JsObject>, y: seq<JsObject>, z: seq<JsObject>)
    ensures x + (y + z) == (x + y) + z
  {
  }

  /** What the filter keeps of one post. */
  function Head(p: JsObject): seq<JsObject> {
    if Truthy(Get(p, "pubDate")) then [p] else []
  }

  /** The filter distributes over concatenation, so the kept posts keep their order. */
  lemma {:induction false} WithPubDateAppend(a: seq<JsObject>, b: seq<JsObject>)
    ensures WithPubDate(a + b) == WithPubDate(a) + WithPubDate(b)
    decreases |a|
  {
    if a == [] {
      assert a + b == b;
    } else {
      var ab := a + b;
      assert ab[0] == a[0] && ab[1..] == a[1..] + b;
      WithPubDateAppend(a[1..], b);
      calc {
        WithPubDate(ab);
        Head(a[0]) + WithPubDate(a[1..] + b);
        Head(a[0]) + (WithPubDate(a[1..]) + WithPubDate(b));
        { SeqAppendAssoc(Head(a[0]), WithPubDate(a[1..]), WithPubDate(b)); }
        (Head(a[0]) + WithPubDate(a[1..])) + WithPubDate(b);
      }
    }
  }

  /** The four fields the feed shows of a post. */
  function ItemOf(post: JsObject): (r: JsObject)
    ensures r.Keys == {"title", "pubDate", "description", "link"}
    ensures forall k :: k in r ==> r[k] == Get(post, k)
  {
    map["title" := Get(post, "title"), "pubDate" := Get(post, "pubDate"),
        "description" := Get(post, "description"), "link" := Get(post, "link")]
  }

  /** `items.map(...)` with the projection above. */
  function Items(posts: seq<JsObject>): (r: seq<JsObject>)
    ensures |r| == |posts|
    ensures forall i :: 0 <= i < |posts| ==> r[i] == ItemOf(posts[i])
  {
    seq(|posts|, i requires 0 <= i < |posts| => ItemOf(posts[i]))
  }

  /** The posts that reach the feed, newest first. */
  function SortedPosts(modules: seq<PostModule>, dateOf: JsValue -> Option<int>,
                       numberOf: JsValue -> int, now: int): (r: seq<JsObject>)
    ensures |r| <= |modules|
    ensures Sorting.SortedBy(r, NewestFirst(numberOf))
    ensures multiset(r) == multiset(WithPubDate(Posts(modules, dateOf, now)))
  {
    Sorting.SortBy(WithPubDate(Posts(modules, dateOf, now)), NewestFirst(numberOf))
  }

  /** `GET`: `site` is `context.site`, `numberOf` what `valueOf()` gives for a non-date. */
  function BuildFeed(modules: seq<PostModule>, site: Option<string>, dateOf: JsValue -> Option<int>,
                     numberOf: JsValue -> int, now: int): (r: Feed)
    ensures r.channel == ChannelFor(site)
    ensures r.items == Items(SortedPosts(modules, dateOf, numberOf, now))
    ensures |r.items| <= |modules|
  {
    Feed(ChannelFor(site), Items(SortedPosts(modules, dateOf, numberOf, now)))
  }

  /** The sorted posts never have a pair the comparator would swap. */
  lemma SortedAgreesWithComparator(modules: seq<PostModule>, dateOf: JsValue -> Option<int>,
                                   numberOf: JsValue -> int, now: int)
    ensures var sorted := SortedPosts(modules, dateOf, numberOf, now);
            forall i, j :: 0 <= i < j < |sorted| ==> CompareByPubDate(sorted[i], sorted[j], numberOf) <= 0
  {
    var sorted := SortedPosts(modules, dateOf, numberOf, now);
    forall i, j | 0 <= i < j < |sorted|
      ensures CompareByPubDate(sorted[i], sorted[j], numberOf) <= 0
    {
      assert NewestFirst(numberOf)(sorted[i]) <= NewestFirst(numberOf)(sorted[j]);
      CompareIsKeyDifference(sorted[i], sorted[j], numberOf);
    }
  }

  /** The feed's items come newest first: each carries its post's date, and the
      posts are sorted. */
  lemma ItemsNewestFirst(modules: seq<PostModule>, site: Option<string>, dateOf: JsValue -> Option<int>,
                         numberOf: JsValue -> int, now: int)
    ensures var items := BuildFeed(modules, site, dateOf, numberOf, now).items;
            forall i, j :: 0 <= i < j < |items| ==>
              TimeValue(items[j]["pubDate"], numberOf) <= TimeValue(items[i]["pubDate"], numberOf)
  {
    var sorted := SortedPosts(modules, dateOf, numberOf, now);
    var items := BuildFeed(modules, site, dateOf, numberOf, now).items;
    forall i, j | 0 <= i < j < |items|
      ensures TimeValue(items[j]["pubDate"], numberOf) <= TimeValue(items[i]["pubDate"], numberOf)
    {
      assert NewestFirst(numberOf)(sorted[i]) <= NewestFirst(numberOf)(sorted[j]);
    }
  }

  /** Because `...fm` comes last, a post's date is the frontmatter's raw `pubDate`
      whenever it has one; the parsed date and the "now" fallback surface only
      when the key is absent. */
  lemma PubDateOfPost(m: PostModule, dateOf: JsValue -> Option<int>, now: int)
    ensures var fm := m.frontmatter.GetOr(map[]);
            Get(PostOf(m, dateOf, now), "pubDate") == if "pubDate" in fm then fm["pubDate"] else Date(now)
  {
    var fm := m.frontmatter.GetOr(map[]);
    if "pubDate" !in fm {
      assert Get(fm, "pubDate") == Undefined;
      assert ComputedFields(SlugOf(m.path), fm, dateOf, now)["pubDate"] == Date(now);
    }
  }

  /** Every frontmatter key, `link` and `title` included, overrides the computed value. */
  lemma FrontmatterOverrides(m: PostModule, dateOf: JsValue -> Option<int>, now: int, k: string)
    requires m.frontmatter.Some? && k in m.frontmatter.value
    ensures Get(PostOf(m, dateOf, now), k) == m.frontmatter.value[k]
  {
  }

  /** Without a frontmatter `link`, the link is `/blog/` followed by the slug. */
  lemma DefaultLink(m: PostModule, dateOf: JsValue -> Option<int>, now: int)
    requires "link" !in m.frontmatter.GetOr(map[])
    ensures Get(PostOf(m, dateOf, now), "link") == Str("/blog/" + SlugOf(m.path))
  {
  }

  /** The filter keeps exactly the posts with a truthy date (see `WithPubDate`), and a
      post's date is falsy only when its frontmatter itself carries a falsy `pubDate`. */
  lemma DroppedOnlyByFalsyFrontmatterDate(m: PostModule, dateOf: JsValue -> Option<int>, now: int)
    requires !Truthy(Get(PostOf(m, dateOf, now), "pubDate"))
    ensures var fm := m.frontmatter.GetOr(map[]);
            "pubDate" in fm && !Truthy(fm["pubDate"])
  {
    PubDateOfPost(m, dateOf, now);
  }

  /** Posts with the same date keep the order of the modules. */
  lemma EqualDatesKeepOrder(modules: seq<PostModule>, dateOf: JsValue -> Option<int>,
                            numberOf: JsValue -> int, now: int, k: int)
    ensures var key := NewestFirst(numberOf);
            Sorting.WithKey(SortedPosts(modules, dateOf, numberOf, now), key, k)
            == Sorting.WithKey(WithPubDate(Posts(modules, dateOf, now)), key, k)
  {
    Sorting.SortByIsStable(WithPubDate(Posts(modules, dateOf, now)), NewestFirst(numberOf), k);
  }

  /** A slug never contains `/blog/`. */
  lemma SlugHasNoBlogMarker(path: string)
    ensures forall j :: !OccursAt(SlugOf(path), BlogMarker, j)
  {
    var p := StripMarkdownExtension(path);
    match BlogSegment(p)
    case None =>
    case Some(segment) =>
      var after := p[IndexOfFrom(p, BlogMarker, 0).value + |BlogMarker|..];
      var slug := StripIndex(segment);
      assert StartsWith(segment, slug);
      forall j | OccursAt(slug, BlogMarker, j) ensures false {
        assert slug[j..j + |BlogMarker|] == after[j..j + |BlogMarker|];
        assert OccursAt(after, BlogMarker, j);
      }
  }

  lemma NoMarkerInIndexTail()
    ensures IndexOfFrom("hi/index", BlogMarker, 0) == None
  {
    var x := "hi/index";
    assert IndexOfFrom(x, BlogMarker, 3) == None;
    assert x[2..8][1] == 'i';
    assert IndexOfFrom(x, BlogMarker, 2) == None;
    assert x[1..7][0] == 'i';
    assert IndexOfFrom(x, BlogMarker, 1) == None;
    assert x[0..6][0] == 'h';
  }

  /** An index page takes its directory's name. */
  lemma SlugOfIndexPage()
    ensures SlugOf("/blog/hi/index.mdx") == "hi"
  {
    IndexPageStripped();
    IndexPageSegment();
    IndexSegmentStripped();
  }

  /** The index page's path without `.mdx`. */
  lemma IndexPageStripped()
    ensures StripMarkdownExtension("/blog/hi/index.mdx") == "/blog/hi/index"
  {
    var p := "/blog/hi/index.mdx";
    assert p[|p| - 4..] == ".mdx";
  }

  /** The index page's segment without `/index`. */
  lemma IndexSegmentStripped()
    ensures StripIndex("hi/index") == "hi"
  {
    var s := "hi/index";
    assert s[|s| - 6..] == "/index";
  }

  /** The blog segment of the index page's extension-less path. */
  lemma IndexPageSegment()
    ensures BlogSegment("/blog/hi/index") == Some("hi/index")
  {
    var p := "/blog/hi/index";
    assert IndexOfFrom(p, BlogMarker, 0) == Some(0);
    assert p[|BlogMarker|..] == "hi/index";
    NoMarkerInIndexTail();
  }

  /** A plain post takes its file name. */
  lemma SlugOfPlainPost()
    ensures SlugOf("/blog/hi.md") == "hi"
  {
    assert StripMarkdownExtension("/blog/hi.md") == "/blog/hi";
    assert IndexOfFrom("/blog/hi", BlogMarker, 0) == Some(0);
    assert IndexOfFrom("hi", BlogMarker, 0) == None;
    assert BlogSegment("/blog/hi") == Some("hi");
  }

  /** A path outside the blog has the empty slug. */
  lemma SlugOutsideBlog()
    ensures SlugOf("/docs/hi.md") == ""
  {
    assert StripMarkdownExtension("/docs/hi.md") == "/docs/hi";
    assert IndexOfFrom("/docs/hi", BlogMarker, 0) == None by {
      assert "/docs/hi"[2..8][0] == 'o';
      assert "/docs/hi"[1..7][0] == 'd';
      assert "/docs/hi"[0..6][1] == 'd';
    }
  }
}
