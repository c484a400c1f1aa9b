/**
 * The newsletter script: read each blog post's frontmatter, work out which
 * posts the site's RSS feed already lists, and announce the others, oldest
 * first, as broadcasts to the blog segment of the mailing provider.
 *
 * The feed download and parsing, directory listing, `stat`, file reads, the
 * WHATWG URL parser, JavaScript `Date` parsing and the provider's broadcast
 * call are given as data or as functions.
 */
module Newsletter {
  import opened Wrappers
  import opened Strings
  import Sorting

  const DefaultSiteUrl := "https://sun-envidiado.com"
  const BroadcastSender := "Sun Envidiado's Blogs <blogs@sun-envidiado.com>"
  /** An en dash (U+2013) between the post title and the site name. */
  const SubjectSuffix := " \U{2013} Sun Envidiado"

  datatype BlogMetadata = BlogMetadata(title: string, description: string, pubDate: string, tags: seq<string>)

  /** A captured group is usable when it is present and not empty (JavaScript truthiness). */
  predicate Present(o: Option<string>) {
    o.Some? && o.value != ""
  }

  // ---------------------------------------------------------------------
  // The frontmatter block: /^---\n([\s\S]*?)\n---/
  // ---------------------------------------------------------------------

  const OpeningFence := "---\n"
  const ClosingFence := "\n---"

  /** The text between an opening `---` line at the very start and the first later `\n---`. */
  function FrontmatterBlock(content: string): (r: Option<string>)
    ensures r.Some? <==> StartsWith(content, OpeningFence) && exists j :: 4 <= j && OccursAt(content, ClosingFence, j)
    ensures r.Some? ==> StartsWith(content, OpeningFence + r.value + ClosingFence)
    ensures r.Some? ==> forall j :: 4 <= j < 4 + |r.value| ==> !OccursAt(content, ClosingFence, j)
  {
    if !StartsWith(content, OpeningFence) then None
    else match IndexOfFrom(content, ClosingFence, 4)
      case None => None
      case Some(j) =>
        var block := content[4..j];
        assert content[..|OpeningFence + block + ClosingFence|] == OpeningFence + block + ClosingFence by {
          assert content[..4] == OpeningFence;
          assert content[j..j + 4] == ClosingFence;
          assert content[..j + 4] == content[..4] + content[4..j] + content[j..j + 4];
        }
        Some(block)
  }

  // ---------------------------------------------------------------------
  // Field patterns inside the block
  // ---------------------------------------------------------------------

  /** The two regular expressions the script applies to the block. */
  datatype FieldPattern =
    | Quoted(key: string)     // key:\s*("(.*)"|'(.*)')
    | Bracketed(key: string)  // key:\s*\[(.*?)\]

  predicate IsQuote(c: char) {
    c == '"' || c == '\''
  }

  /** Where greedy `\s*` stops. */
  function SkipWhitespace(s: string, i: nat): (r: nat)
    requires i <= |s|
    ensures i <= r <= |s|
    ensures r < |s| ==> !IsWhitespace(s[r])
    ensures forall k :: i <= k < r ==> IsWhitespace(s[k])
    decreases |s| - i
  {
    if i < |s| && IsWhitespace(s[i]) then SkipWhitespace(s, i + 1) else i
  }

  /** Where `.` stops: the first line terminator at or after `i`, or the end. */
  function LineEnd(s: string, i: nat): (r: nat)
    requires i <= |s|
    ensures i <= r <= |s|
    ensures r < |s| ==> IsLineTerminator(s[r])
    ensures forall k :: i <= k < r ==> !IsLineTerminator(s[k])
    decreases |s| - i
  {
    if i < |s| && !IsLineTerminator(s[i]) then LineEnd(s, i + 1) else i
  }

  /** The index of the opening quote or bracket, once `key:` is found at `i`. */
  function ValueStart(s: string, p: FieldPattern, i: nat): nat
    requires OccursAt(s, p.key + ":", i)
  {
    SkipWhitespace(s, i + |p.key| + 1)
  }

  /** The group the pattern captures when its match begins at index `i`. */
  function CaptureAt(s: string, p: FieldPattern, i: nat): Option<string>
    requires i <= |s|
  {
    if !OccursAt(s, p.key + ":", i) then None
    else
      var j := ValueStart(s, p, i);
      if j == |s| then None
      else
        var e := LineEnd(s, j + 1);
        match p
        case Quoted(_) =>
          if !IsQuote(s[j]) then None
          else (match LastIndexIn(s, s[j], j + 1, e)
            case None => None
            case Some(k) => Some(s[j + 1..k]))
        case Bracketed(_) =>
          if s[j] != '[' then None
          else match FirstIndexIn(s, ']', j + 1, e)
            case None => None
            case Some(k) =>
              Some(s[j + 1..k])
  }

  /** A capture is the text between the opening quote (or bracket) after `key:` and
      the closing one: for quotes the last matching quote on the line, for brackets
      the first `]` on the line. */
  lemma CaptureAtShape(s: string, p: FieldPattern, i: nat)
    requires i <= |s|
    ensures var r := CaptureAt(s, p, i); r.Some? ==> OccursAt(s, p.key + ":", i)
    ensures var r := CaptureAt(s, p, i); r.Some? ==>
      var j := ValueStart(s, p, i);
      var close := j + 1 + |r.value|;
      && j < |s|
      && close < LineEnd(s, j + 1)
      && s[j + 1..close] == r.value
      && (p.Quoted? ==> IsQuote(s[j]) && s[close] == s[j]
                        && forall k :: close < k < LineEnd(s, j + 1) ==> s[k] != s[j])
      && (p.Bracketed? ==> s[j] == '[' && s[close] == ']' && ']' !in r.value)
  {
  }

  /** The leftmost position at or after `i` where the pattern matches. */
  function FirstMatch(s: string, p: FieldPattern, i: nat): (r: Option<nat>)
    requires i <= |s|
    ensures r.Some? ==> i <= r.value <= |s| && CaptureAt(s, p, r.value).Some?
    ensures r.Some? ==> forall m :: i <= m < r.value ==> CaptureAt(s, p, m).None?
    ensures r.None? ==> forall m :: i <= m <= |s| ==> CaptureAt(s, p, m).None?
    decreases |s| - i
  {
    if CaptureAt(s, p, i).Some? then Some(i)
    else if i == |s| then None
    else FirstMatch(s, p, i + 1)
  }

  /** `s.match(pattern)?.[group]`: the group of the leftmost match. */
  function Capture(s: string, p: FieldPattern): Option<string> {
    match FirstMatch(s, p, 0)
    case None => None
    case Some(m) => CaptureAt(s, p, m)
  }

  /** `tag.trim().replace(/["']/g, '')`. */
  function CleanTag(t: string): (r: string)
    ensures forall k :: 0 <= k < |r| ==> !IsQuote(r[k])
    ensures |r| <= |t|
  {
    RemoveAll(Trim(t), IsQuote)
  }

  /** The tag list: the bracketed text split on commas and cleaned; nothing (or an empty capture) gives []. */
  function ParseTags(list: Option<string>): (tags: seq<string>)
    ensures !Present(list) ==> tags == []
    ensures Present(list) ==>
      var pieces := Split(list.value, ",");
      |tags| == |pieces| && forall k :: 0 <= k < |tags| ==> tags[k] == CleanTag(pieces[k])
    ensures forall k, n :: 0 <= k < |tags| && 0 <= n < |tags[k]| ==> !IsQuote(tags[k][n])
  {
    if !Present(list) then []
    else
      var pieces := Split(list.value, ",");
      seq(|pieces|, k requires 0 <= k < |pieces| => CleanTag(pieces[k]))
  }

  /** Title, description and publication date are all captured and non-empty. */
  predicate HasRequiredFields(fm: string) {
    Present(Capture(fm, Quoted("title"))) && Present(Capture(fm, Quoted("description")))
    && Present(Capture(fm, Quoted("pubDate")))
  }

  /** `getBlogMetadata`: `index` is the content of the post's `index.mdx`, `None` when reading it fails. */
  function GetBlogMetadata(index: Option<string>): (r: Option<BlogMetadata>)
    ensures r.Some? ==> index.Some? && StartsWith(index.value, OpeningFence)
    ensures r.Some? <==> index.Some? && FrontmatterBlock(index.value).Some?
                         && HasRequiredFields(FrontmatterBlock(index.value).value)
    ensures r.Some? ==>
      var fm := FrontmatterBlock(index.value).value;
      && r.value.title == Capture(fm, Quoted("title")).value
      && r.value.description == Capture(fm, Quoted("description")).value
      && r.value.pubDate == Capture(fm, Quoted("pubDate")).value
      && r.value.tags == ParseTags(Capture(fm, Bracketed("tags")))
    ensures r.Some? ==> r.value.title != "" && r.value.description != "" && r.value.pubDate != ""
  {
    match index
    case None => None
    case Some(content) =>
      match FrontmatterBlock(content)
      case None => None
      case Some(fm) =>
        var title := Capture(fm, Quoted("title"));
        var description := Capture(fm, Quoted("description"));
        var pubDate := Capture(fm, Quoted("pubDate"));
        var tags := ParseTags(Capture(fm, Bracketed("tags")));
        if !Present(title) || !Present(description) || !Present(pubDate) then None
        else Some(BlogMetadata(title.value, description.value, pubDate.value, tags))
  }

  // ---------------------------------------------------------------------
  // Slugs already in the feed
  // ---------------------------------------------------------------------

  /** `filter(Boolean)` on the pieces of a path. */
  function NonEmpty(parts: seq<string>): (r: seq<string>)
    ensures forall k :: 0 <= k < |r| ==> r[k] != ""
  {
    if parts == [] then []
    else (if parts[0] == "" then [] else [parts[0]]) + NonEmpty(parts[1..])
  }

  lemma NonEmptyCons(a: string, t: seq<string>)
    ensures NonEmpty([a] + t) == (if a == "" then [] else [a]) + NonEmpty(t)
  {
    assert ([a] + t)[0] == a && ([a] + t)[1..] == t;
  }

  /** The non-empty `/`-separated segments of a path. */
  function Segments(path: string): seq<string> {
    NonEmpty(Split(path, "/"))
  }

  predicate AllSlashes(s: string) {
    forall k :: 0 <= k < |s| ==> s[k] == '/'
  }

  /** `path == a + x + b` where `x` is the last maximal run of non-`/` characters. */
  predicate IsFinalRun(path: string, a: string, x: string, b: string) {
    && path == a + x + b
    && x != "" && '/' !in x
    && (a == "" || a[|a| - 1] == '/')
    && AllSlashes(b)
  }

  lemma SlashFree(path: string, i: nat)
    requires i <= |path|
    requires forall j :: 0 <= j < i ==> !OccursAt(path, "/", j)
    ensures '/' !in path[..i]
  {
    forall k | 0 <= k < i ensures path[k] != '/' {
      assert !OccursAt(path, "/", k);
      assert path[k..k + 1] == [path[k]];
    }
  }

  function Last(parts: seq<string>): string
    requires parts != []
  {
    parts[|parts| - 1]
  }

  /** A path with no `/` is its own only segment, unless it is empty. */
  lemma SegmentsWithoutSlash(path: string)
    requires IndexOfFrom(path, "/", 0).None?
    ensures '/' !in path
    ensures Segments(path) == if path == "" then [] else [path]
  {
    assert Split(path, "/") == [path];
    NonEmptyCons(path, []);
    SlashFree(path, |path|);
    assert path[..|path|] == path;
    assert [path] + [] == [path];
  }

  /** The segments of a path are those before its first `/` and those after. */
  lemma SegmentsAtFirstSlash(path: string, i: nat)
    requires IndexOfFrom(path, "/", 0) == Some(i)
    ensures path == path[..i] + "/" + path[i + 1..]
    ensures '/' !in path[..i]
    ensures Segments(path) == (if i == 0 then [] else [path[..i]]) + Segments(path[i + 1..])
  {
    assert Split(path, "/") == [path[..i]] + Split(path[i + 1..], "/");
    NonEmptyCons(path[..i], Split(path[i + 1..], "/"));
    SlashFree(path, i);
    assert path[i..i + 1] == "/";
  }

  /** The last non-empty segment is the final run of non-slash characters;
      there is none exactly when the path is made of slashes only. */
  lemma {:induction false} SegmentsFinalRun(path: string)
    ensures Segments(path) == [] <==> AllSlashes(path)
    ensures Segments(path) != [] ==> exists a, b :: IsFinalRun(path, a, Last(Segments(path)), b)
    decreases |path|
  {
    match IndexOfFrom(path, "/", 0)
    case None =>
      SegmentsWithoutSlash(path);
      if path != "" {
        assert path[0] != '/';
        assert Last(Segments(path)) == path;
        assert path == "" + path + "";
        assert IsFinalRun(path, "", path, "");
      }
    case Some(i) =>
      SegmentsAtFirstSlash(path, i);
      SegmentsFinalRun(path[i + 1..]);
      if Segments(path[i + 1..]) != [] {
        FinalRunInRest(path, path[..i], path[i + 1..]);
      } else if i != 0 {
        FinalRunIsHead(path, path[..i], path[i + 1..]);
      } else {
        AllSlashesCons(path[i + 1..]);
      }
  }

  /** When the part after the first `/` has segments, the path's final run is its final run. */
  lemma FinalRunInRest(path: string, head: string, rest: string)
    requires path == head + "/" + rest
    requires Segments(path) == (if head == "" then [] else [head]) + Segments(rest)
    requires Segments(rest) != []
    requires exists a, b :: IsFinalRun(rest, a, Last(Segments(rest)), b)
    ensures Segments(path) != [] && !AllSlashes(path)
    ensures exists a, b :: IsFinalRun(path, a, Last(Segments(path)), b)
  {
    LastOfAppend(if head == "" then [] else [head], Segments(rest));
    var x := Last(Segments(rest));
    var a', b' :| IsFinalRun(rest, a', x, b');
    assert path == (head + "/" + a') + x + b';
    assert IsFinalRun(path, head + "/" + a', x, b');
    assert path[|head + "/" + a'|] == x[0];
  }

  /** When only slashes follow the first `/`, the part before it is the final run. */
  lemma FinalRunIsHead(path: string, head: string, rest: string)
    requires path == head + "/" + rest
    requires head != "" && '/' !in head
    requires Segments(path) == [head] + Segments(rest)
    requires Segments(rest) == [] && AllSlashes(rest)
    ensures Segments(path) != [] && !AllSlashes(path)
    ensures exists a, b :: IsFinalRun(path, a, Last(Segments(path)), b)
  {
    assert Segments(path) == [head];
    assert Last(Segments(path)) == head;
    assert path[0] == head[0] && head[0] != '/';
    AllSlashesCons(rest);
    assert path == "" + head + ("/" + rest);
    assert IsFinalRun(path, "", head, "/" + rest);
  }

  lemma LastOfAppend(a: seq<string>, b: seq<string>)
    requires b != []
    ensures Last(a + b) == Last(b)
  {
  }

  lemma AllSlashesCons(rest: string)
    ensures AllSlashes("/" + rest) <==> AllSlashes(rest)
  {
    assert forall k :: 0 <= k < |rest| ==> ("/" + rest)[k + 1] == rest[k];
  }

  /** `pathname.split('/').filter(Boolean).pop()`. */
  function LastSegment(path: string): (r: Option<string>)
    ensures r.None? <==> AllSlashes(path)
    ensures r.Some? ==> exists a, b :: IsFinalRun(path, a, r.value, b)
  {
    SegmentsFinalRun(path);
    var segments := Segments(path);
    if segments == [] then None else Some(Last(segments))
  }

  datatype FeedItem = FeedItem(link: Option<string>)

  /** What one feed item does to the published set. */
  datatype ItemEffect = Adds(slug: string) | AddsNothing | Throws

  /** `pathnameOf(link)` is the WHATWG URL parser's `pathname`, `None` when `new URL(link)` throws. */
  function ItemEffectOf(item: FeedItem, pathnameOf: string -> Option<string>): (r: ItemEffect)
    ensures !Present(item.link) ==> r == AddsNothing
    ensures r.Throws? <==> Present(item.link) && pathnameOf(item.link.value).None?
    ensures r.Adds? <==> Present(item.link) && pathnameOf(item.link.value).Some?
                         && !AllSlashes(pathnameOf(item.link.value).value)
    ensures r.Adds? ==> LastSegment(pathnameOf(item.link.value).value) == Some(r.slug)
    ensures r.Adds? ==> r.slug != "" && '/' !in r.slug
  {
    if !Present(item.link) then AddsNothing
    else match pathnameOf(item.link.value)
      case None => Throws
      case Some(pathname) =>
        match LastSegment(pathname)
        case None => AddsNothing
        case Some(slug) => Adds(slug)
  }

  /** The index of the first item whose URL does not parse (or the item count):
      the loop is abandoned there and the slugs gathered so far are kept. */
  function StopIndex(items: seq<FeedItem>, pathnameOf: string -> Option<string>, from: nat): (r: nat)
    requires from <= |items|
    ensures from <= r <= |items|
    ensures forall k :: from <= k < r ==> !ItemEffectOf(items[k], pathnameOf).Throws?
    ensures r < |items| ==> ItemEffectOf(items[r], pathnameOf).Throws?
    decreases |items| - from
  {
    if from == |items| || ItemEffectOf(items[from], pathnameOf).Throws? then from
    else StopIndex(items, pathnameOf, from + 1)
  }

  /** The slugs the first `n` items add, built one item at a time as the loop does. */
  function SlugsBefore(items: seq<FeedItem>, pathnameOf: string -> Option<string>, n: nat): (r: set<string>)
    requires n <= |items|
    ensures forall slug :: slug in r ==> slug != "" && '/' !in slug
  {
    if n == 0 then {}
    else
      var effect := ItemEffectOf(items[n - 1], pathnameOf);
      SlugsBefore(items, pathnameOf, n - 1) + if effect.Adds? then {effect.slug} else {}
  }

  /** Those are exactly the slugs of the first `n` items that add one. */
  lemma {:induction false} SlugsBeforeSet(items: seq<FeedItem>, pathnameOf: string -> Option<string>, n: nat)
    requires n <= |items|
    ensures SlugsBefore(items, pathnameOf, n)
         == set k | 0 <= k < n && ItemEffectOf(items[k], pathnameOf).Adds? :: ItemEffectOf(items[k], pathnameOf).slug
  {
    if n > 0 {
      SlugsBeforeSet(items, pathnameOf, n - 1);
    }
  }

  /** The published set of `getPublishedBlogs`: `feed` is `None` when fetching or parsing the feed fails. */
  function PublishedSlugs(feed: Option<seq<FeedItem>>, pathnameOf: string -> Option<string>): set<string> {
    match feed
    case None => {}
    case Some(items) => SlugsBefore(items, pathnameOf, StopIndex(items, pathnameOf, 0))
  }

  /** `getPublishedBlogs`. */
  method GetPublishedBlogs(feed: Option<seq<FeedItem>>, pathnameOf: string -> Option<string>)
    returns (published: set<string>)
    ensures published == PublishedSlugs(feed, pathnameOf)
    ensures forall slug :: slug in published ==> slug != "" && '/' !in slug
  {
    published := {};
    if feed.None? {
      return;
    }
    var items := feed.value;
    var i := 0;
    while i < |items|
      invariant 0 <= i <= StopIndex(items, pathnameOf, 0)
      invariant published == SlugsBefore(items, pathnameOf, i)
    {
      var item := items[i];
      if Present(item.link) {
        var pathname := pathnameOf(item.link.value);
        if pathname.None? {
          assert ItemEffectOf(item, pathnameOf).Throws?;
          break;
        }
        var slug := LastSegment(pathname.value);
        if slug.Some? {
          assert ItemEffectOf(item, pathnameOf) == Adds(slug.value);
          published := published + {slug.value};
        } else {
          assert ItemEffectOf(item, pathnameOf) == AddsNothing;
        }
      } else {
        assert ItemEffectOf(item, pathnameOf) == AddsNothing;
      }
      i := i + 1;
    }
  }

  // ---------------------------------------------------------------------
  // New posts
  // ---------------------------------------------------------------------

  /** A directory entry: `isDirectory` is false also when `stat` throws;
      `index` is the content of its `index.mdx`, `None` when it cannot be read. */
  datatype DirEntry = DirEntry(name: string, isDirectory: bool, index: Option<string>)

  datatype Candidate = Candidate(slug: string, metadata: BlogMetadata)

  /** The checks of the directory loop, in their order. */
  function Admit(e: DirEntry, published: set<string>): (r: Option<Candidate>)
    ensures r.Some? <==> !StartsWith(e.name, ".") && e.isDirectory && e.name !in published
                         && GetBlogMetadata(e.index).Some?
    ensures r.Some? ==> r.value.slug == e.name && r.value.metadata == GetBlogMetadata(e.index).value
  {
    if StartsWith(e.name, ".") then None
    else if !e.isDirectory then None
    else if e.name in published then None
    else match GetBlogMetadata(e.index)
      case None => None
      case Some(m) => Some(Candidate(e.name, m))
  }

  /** The candidates in directory order, before sorting. */
  function Admitted(entries: seq<DirEntry>, published: set<string>): (r: seq<Candidate>)
    ensures |r| <= |entries|
  {
    if entries == [] then []
    else
      var init := Admitted(entries[..|entries| - 1], published);
      match Admit(entries[|entries| - 1], published)
      case None => init
      case Some(c) => init + [c]
  }

  predicate DistinctNames(entries: seq<DirEntry>) {
    forall i, j :: 0 <= i < j < |entries| ==> entries[i].name != entries[j].name
  }

  /** A candidate is admitted iff some entry passes every check; with distinct
      directory names (as `readdir` gives) it is admitted exactly once. */
  lemma {:induction false} AdmittedOnce(entries: seq<DirEntry>, published: set<string>, c: Candidate)
    requires DistinctNames(entries)
    ensures multiset(Admitted(entries, published))[c]
         == if exists e :: e in entries && Admit(e, published) == Some(c) then 1 else 0
  {
    if entries != [] {
      var init := entries[..|entries| - 1];
      var last := entries[|entries| - 1];
      assert entries == init + [last];
      AdmittedOnce(init, published, c);
      assert DistinctNames(init);
      assert forall e :: e in entries <==> e in init || e == last;
    }
  }

  /** The sort key: `new Date(pubDate).getTime()`, given as `timeOf`. */
  function ByPubDate(timeOf: string -> int): Candidate -> int {
    (c: Candidate) => timeOf(c.metadata.pubDate)
  }

  /** `getNewBlogs`. */
  method GetNewBlogs(feed: Option<seq<FeedItem>>, entries: seq<DirEntry>,
                     pathnameOf: string -> Option<string>, timeOf: string -> int)
    returns (blogs: seq<Candidate>)
    ensures blogs == Sorting.SortBy(Admitted(entries, PublishedSlugs(feed, pathnameOf)), ByPubDate(timeOf))
    ensures Sorting.SortedBy(blogs, ByPubDate(timeOf))
    ensures multiset(blogs) == multiset(Admitted(entries, PublishedSlugs(feed, pathnameOf)))
  {
    var published := GetPublishedBlogs(feed, pathnameOf);
    var newBlogs: seq<Candidate> := [];
    var i := 0;
    while i < |entries|
      invariant 0 <= i <= |entries|
      invariant newBlogs == Admitted(entries[..i], published)
    {
      var dir := entries[i];
      assert entries[..i + 1][..i] == entries[..i];
      if !StartsWith(dir.name, ".") && dir.isDirectory && dir.name !in published {
        var metadata := GetBlogMetadata(dir.index);
        if metadata.Some? {
          newBlogs := newBlogs + [Candidate(dir.name, metadata.value)];
        }
      }
      i := i + 1;
    }
    assert entries[..|entries|] == entries;
    blogs := Sorting.SortBy(newBlogs, ByPubDate(timeOf));
  }

  // ---------------------------------------------------------------------
  // Sending
  // ---------------------------------------------------------------------

  /** The environment variables the script reads. */
  datatype Env = Env(nodeEnv: Option<string>, resendApiKey: Option<string>,
                     blogSegmentId: Option<string>, publicSiteUrl: Option<string>)

  predicate IsProduction(env: Env) {
    env.nodeEnv == Some("production")
  }

  /** `PUBLIC_SITE_URL || 'https://sun-envidiado.com'`. */
  function SiteUrl(env: Env): (r: string)
    ensures Present(env.publicSiteUrl) ==> r == env.publicSiteUrl.value
    ensures !Present(env.publicSiteUrl) ==> r == DefaultSiteUrl
  {
    if Present(env.publicSiteUrl) then env.publicSiteUrl.value else DefaultSiteUrl
  }

  /** One trailing `/` removed, and only one. */
  function TrimTrailingSlash(url: string): (r: string)
    ensures EndsWith(url, "/") ==> r + "/" == url
    ensures !EndsWith(url, "/") ==> r == url
  {
    if EndsWith(url, "/") then url[..|url| - 1] else url
  }

  /** The request `sendNewsletter` gives to `broadcasts.create` (the HTML body aside). */
  datatype Broadcast = Broadcast(segmentId: string, from: string, subject: string, name: string,
                                 blogUrl: string, send: bool)

  /** Both the API key and the blog segment id are set. */
  predicate Configured(env: Env) {
    Present(env.resendApiKey) && Present(env.blogSegmentId)
  }

  /** The broadcast for a post, or `None` when the script is not configured to send. */
  function BroadcastFor(env: Env, blog: Candidate): (r: Option<Broadcast>)
    ensures r.None? <==> !Configured(env)
  {
    if !Configured(env) then None
    else
      var baseUrl := TrimTrailingSlash(SiteUrl(env));
      Some(Broadcast(env.blogSegmentId.value, BroadcastSender, blog.metadata.title + SubjectSuffix,
                     blog.metadata.title, baseUrl + "/blog/" + blog.slug, true))
  }

  /** What a configured broadcast asks for: the blog segment, the fixed sender, the
      title with the site's suffix, sent at once, and the post's URL: the site URL
      followed by `/blog/` and the slug, a trailing `/` of the site URL not doubled. */
  lemma BroadcastFields(env: Env, blog: Candidate)
    requires Configured(env)
    ensures var b := BroadcastFor(env, blog).value;
            && b.segmentId == env.blogSegmentId.value
            && b.from == BroadcastSender
            && b.subject == blog.metadata.title + SubjectSuffix
            && b.name == blog.metadata.title
            && b.send
    ensures var b := BroadcastFor(env, blog).value;
            && (EndsWith(SiteUrl(env), "/") ==> b.blogUrl == SiteUrl(env) + "blog/" + blog.slug)
            && (!EndsWith(SiteUrl(env), "/") ==> b.blogUrl == SiteUrl(env) + "/blog/" + blog.slug)
  {
  }

  /** How one post's announcement ends: skipped for missing configuration (which
      the loop still logs as sent), accepted by the provider, or failed. */
  datatype SendResult = SkippedNoConfig | Sent | Failed

  function SendResultFor(env: Env, blog: Candidate, accepted: bool): (r: SendResult)
    ensures r == SkippedNoConfig <==> !Configured(env)
    ensures r == Sent <==> Configured(env) && accepted
  {
    if BroadcastFor(env, blog).None? then SkippedNoConfig
    else if accepted then Sent
    else Failed
  }

  /** The sending loop of `main`: one `sendNewsletter` per post, in order.
      `accepted(i)` is the provider's answer to the broadcast of the i-th post
      (false also when the call throws). */
  method SendAll(env: Env, blogs: seq<Candidate>, accepted: nat -> bool)
    returns (broadcasts: seq<Broadcast>, results: seq<SendResult>)
    ensures |results| == |blogs|
    ensures forall i :: 0 <= i < |blogs| ==> results[i] == SendResultFor(env, blogs[i], accepted(i))
    ensures Configured(env) ==> |broadcasts| == |blogs|
    ensures Configured(env) ==> forall i :: 0 <= i < |blogs| ==> Some(broadcasts[i]) == BroadcastFor(env, blogs[i])
    ensures !Configured(env) ==> broadcasts == []
  {
    broadcasts, results := [], [];
    var i := 0;
    while i < |blogs|
      invariant 0 <= i <= |blogs|
      invariant results == Results(env, blogs[..i], accepted)
      invariant broadcasts == if Configured(env) then Requests(env, blogs[..i]) else []
    {
      assert blogs[..i + 1][..i] == blogs[..i];
      var request := BroadcastFor(env, blogs[i]);
      if request.Some? {
        assert Requests(env, blogs[..i + 1]) == Requests(env, blogs[..i]) + [request.value];
        broadcasts := broadcasts + [request.value];
      }
      assert Results(env, blogs[..i + 1], accepted)
          == Results(env, blogs[..i], accepted) + [SendResultFor(env, blogs[i], accepted(i))];
      results := results + [SendResultFor(env, blogs[i], accepted(i))];
      i := i + 1;
    }
    assert blogs[..i] == blogs;
    if Configured(env) {
      forall k | 0 <= k < |blogs| ensures Some(broadcasts[k]) == BroadcastFor(env, blogs[k]) {
        RequestAt(env, blogs, k);
      }
    }
  }

  /** The requests made for the posts, in order, when configured. */
  function Requests(env: Env, blogs: seq<Candidate>): (r: seq<Broadcast>)
    requires Configured(env)
    ensures |r| == |blogs|
  {
    if blogs == [] then []
    else Requests(env, blogs[..|blogs| - 1]) + [BroadcastFor(env, blogs[|blogs| - 1]).value]
  }

  /** The i-th request is the broadcast of the i-th post. */
  lemma {:induction false} RequestAt(env: Env, blogs: seq<Candidate>, i: nat)
    requires Configured(env) && i < |blogs|
    ensures Some(Requests(env, blogs)[i]) == BroadcastFor(env, blogs[i])
    decreases |blogs|
  {
    var init := blogs[..|blogs| - 1];
    if i < |init| {
      RequestAt(env, init, i);
      assert init[i] == blogs[i];
    }
  }

  /** The outcome of each post's announcement, in order. */
  function Results(env: Env, blogs: seq<Candidate>, accepted: nat -> bool): (r: seq<SendResult>)
    ensures |r| == |blogs| && forall i :: 0 <= i < |blogs| ==> r[i] == SendResultFor(env, blogs[i], accepted(i))
  {
    if blogs == [] then []
    else
      var init := blogs[..|blogs| - 1];
      assert forall i :: 0 <= i < |init| ==> init[i] == blogs[i];
      Results(env, init, accepted) + [SendResultFor(env, blogs[|blogs| - 1], accepted(|blogs| - 1))]
  }

  /** `main`: find the new posts and, in production only, announce each in turn.
      `entries` is `None` when reading the blog directory fails: that rejection is
      not caught inside `main`, so `main` itself rejects, the error is only logged,
      and nothing is announced. */
  method Announce(env: Env, feed: Option<seq<FeedItem>>, entries: Option<seq<DirEntry>>,
                  pathnameOf: string -> Option<string>, timeOf: string -> int, accepted: nat -> bool)
    returns (blogs: seq<Candidate>, broadcasts: seq<Broadcast>, results: seq<SendResult>)
    ensures entries.None? ==> blogs == [] && broadcasts == [] && results == []
    ensures entries.Some? ==>
      blogs == Sorting.SortBy(Admitted(entries.value, PublishedSlugs(feed, pathnameOf)), ByPubDate(timeOf))
    ensures !IsProduction(env) ==> broadcasts == [] && results == []
    ensures IsProduction(env) ==> |results| == |blogs|
    ensures forall i :: 0 <= i < |results| ==> results[i] == SendResultFor(env, blogs[i], accepted(i))
    ensures IsProduction(env) && Configured(env) ==> |broadcasts| == |blogs|
    ensures IsProduction(env) && Configured(env) ==>
      forall i :: 0 <= i < |blogs| ==> Some(broadcasts[i]) == BroadcastFor(env, blogs[i])
    ensures !Configured(env) ==> broadcasts == []
  {
    blogs, broadcasts, results := [], [], [];
    if entries.None? {
      return;
    }
    blogs := GetNewBlogs(feed, entries.value, pathnameOf, timeOf);
    if |blogs| == 0 || !IsProduction(env) {
      return;
    }
    broadcasts, results := SendAll(env, blogs, accepted);
  }
}
