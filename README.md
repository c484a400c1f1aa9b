# Sun Envidiado's site: a verified model of its logic

This project models the logic of a personal Astro blog and its helper scripts, and proves properties of that model. The blog is Sun Envidiado's site. Calls to outside services are parameters of the model:

- the Resend email and contact API;
- JWT signing and verification;
- the RSS fetcher and renderer;
- the image library;
- the filesystem;
- the URL parser;
- date parsing.

The modules follow the program's files. There is one module per core file; each file's module is named with the file in the table below. Modules for values the files share sit beside them:

- `Wrappers`: `Option`.
- `Strings`: JavaScript whitespace, `startsWith`/`endsWith`, `indexOf`, `split`/`join`, `trim`, decimal text.
- `Sorting`: the stable sort `Array.prototype.sort` performs with a numeric comparator.
- `JsValues`: JavaScript values, truthiness and nullishness, and objects as maps, where a spread is a map union.
- `Http`: responses, and how a provider call ends: it returns data, it returns an error, or it throws.
- `Cookies`: the cookie jar as `document.cookie` lists it (section 5.4 of RFC 6265), an assignment's effect on the jar, and the `getCookie` regular expression.
- `UriComponent`: `encodeURIComponent` and `decodeURIComponent` over UTF-8 (section 19.2.6 of ECMA-262).
- `Rss`: the channel and the newest-first order that both feed routes share.

What each core file becomes:

- **Newsletter script** (`scripts/send-newsletter.ts`), module `Newsletter`:
  - **Pure part.** The frontmatter parser is made of functions that reproduce its regular expressions exactly: the leftmost match, greedy `\s*`, and `.` stopping at a line terminator.
  - **Loops.** The loop over the feed, the loop over the directory and the send loop are methods. Each is proved equal to a specification function, and that function's properties are lemmas.
- **SEO defaults** (`src/utils/seo.ts`), module `Seo`: one function per decision, and `BuildSeoMetadata` for the whole record. The title suffix is the source's literal characters U+00E2 U+20AC U+201D, a mis-decoded em dash.
- **CRT preference** (`src/scripts/crtPreference.ts`), module `CrtPreference`: the page is a class. Its fields are:
  - `localStorage`;
  - the cookie jar;
  - the flags that decide which browser calls throw;
  - the two CSS-class flags.

  `setCookie`, `setPreference`, `window.__setCrtPreference`, the top-level script and its `DOMContentLoaded` listener are methods on that class.
- **Feed from Markdown modules** (`src/pages/rss.xml.js`), module `RssFeedJs`: a chain of functions, from slug to item, then filter, sort and projection.
- **Feed from the typed collection** (`src/pages/rss.xml.ts`), module `RssFeedTs`: a sort, then a method whose loop pushes one item per post.
- **Image optimiser** (`scripts/optimize-images.ts`), module `ImageOptimizer`:
  - one file's outcome is a function;
  - the batch is specified by `Run`;
  - `OptimizeImages` is a loop over a `Disk` object whose file map it overwrites.
- **API routes** (`src/pages/api/subscribe.ts`, `src/pages/api/verify.ts`, `src/pages/api/verify-blog-subscription.ts`), modules `Subscribe`, `Verify` and `VerifyBlogSubscription`: total functions from the configuration, the request and the outcomes of the provider calls to a response and the calls made.

## Model

| member | source | states |
|---|---|---|
| Newsletter.FrontmatterBlock | scripts/send-newsletter.ts:29-32 | a block exists iff the content starts with `---` and a newline and has a later newline-`---`; the block is the text between the opening fence and the first closing fence after it |
| Newsletter.CaptureAtShape | scripts/send-newsletter.ts:34-43 | a capture at a position means `key:` stands there. After optional whitespace, the value lies between a quote and the last quote of the same kind on that line, or between `[` and the first `]` on that line |
| Newsletter.CaptureAt | scripts/send-newsletter.ts:34-43 | definition; see Newsletter.CaptureAtShape |
| Newsletter.Capture | scripts/send-newsletter.ts:34-43 | definition; see Newsletter.FirstMatch |
| Newsletter.FirstMatch | scripts/send-newsletter.ts:34-43 | the match the regular expression finds is the leftmost one: it captures there and at no earlier position; no result means no position matches |
| Newsletter.CleanTag | scripts/send-newsletter.ts:45 | a cleaned tag holds no quote and is no longer than the raw piece |
| Newsletter.ParseTags | scripts/send-newsletter.ts:43-46 | no list or an empty list gives no tags; otherwise there is one tag per comma-separated piece, trimmed with every quote removed, so no tag holds a quote |
| Newsletter.HasRequiredFields | scripts/send-newsletter.ts:48 | definition; see Newsletter.GetBlogMetadata |
| Newsletter.GetBlogMetadata | scripts/send-newsletter.ts:24-55 | metadata exists iff the file was read, its frontmatter block exists and title, description and pubDate are all captured non-empty. The fields are those captures, and the tags are the parsed bracketed list |
| Newsletter.SegmentsFinalRun | scripts/send-newsletter.ts:68 | a path has no non-empty segment iff it is all slashes; otherwise its last segment is its final maximal run of non-slash characters |
| Newsletter.LastSegment | scripts/send-newsletter.ts:68-69 | no slug iff the pathname is all slashes; a slug is the pathname's final maximal run of non-slash characters |
| Newsletter.ItemEffectOf | scripts/send-newsletter.ts:65-71 | an item without a link adds nothing; it throws iff it has a link the URL parser rejects; it adds a slug iff the link parses to a pathname that is not all slashes, and that slug is the pathname's last segment, non-empty and slash-free |
| Newsletter.StopIndex | scripts/send-newsletter.ts:65-78 | the loop runs up to the first item whose link the URL parser rejects (which throws out of the loop), and every earlier item parses |
| Newsletter.SlugsBeforeSet | scripts/send-newsletter.ts:65-73 | the set built item by item is exactly the set of slugs that the first n items add |
| Newsletter.PublishedSlugs | scripts/send-newsletter.ts:57-81 | definition; see Newsletter.GetPublishedBlogs |
| Newsletter.GetPublishedBlogs | scripts/send-newsletter.ts:57-81 | the published set is empty when the feed cannot be fetched or parsed; otherwise it holds the slugs of the items before the first unparsable link. Every slug is non-empty and slash-free |
| Newsletter.Admit | scripts/send-newsletter.ts:90-109 | an entry is admitted iff its name does not start with `.`, it is a directory, it is not published and its metadata exists; it is admitted under its own name with that metadata |
| Newsletter.Admitted | scripts/send-newsletter.ts:90-110 | there are no more candidates than directory entries; see Newsletter.AdmittedOnce |
| Newsletter.AdmittedOnce | scripts/send-newsletter.ts:90-110 | with distinct directory names, a candidate occurs once in the list iff some entry passes every check, and otherwise not at all |
| Newsletter.GetNewBlogs | scripts/send-newsletter.ts:83-115 | the result is the admitted list stable-sorted by publication time: ascending, and a permutation of the admitted entries |
| Newsletter.SiteUrl | scripts/send-newsletter.ts:13 | the site URL is `PUBLIC_SITE_URL` when it is set and non-empty, otherwise the default site address |
| Newsletter.TrimTrailingSlash | scripts/send-newsletter.ts:124 | exactly one trailing `/` is removed, and only when there is one |
| Newsletter.BroadcastFor | scripts/send-newsletter.ts:117-125 | no broadcast is requested iff the API key or the segment id is missing or empty |
| Newsletter.BroadcastFields | scripts/send-newsletter.ts:157-164 | a broadcast goes to the blog segment from the fixed sender, with the title plus an en dash and the site name as subject, and is sent at once. The post URL is the site URL followed by `/blog/` and the slug, without doubling a trailing `/` of the site URL |
| Newsletter.SendResultFor | scripts/send-newsletter.ts:117-121 | a post is skipped iff configuration is missing, and sent iff configured and the provider accepts it |
| Newsletter.RequestAt | scripts/send-newsletter.ts:198-205 | the i-th broadcast requested is the broadcast of the i-th post |
| Newsletter.Results | scripts/send-newsletter.ts:198-205 | there is one outcome per post, in order, each decided by that post alone |
| Newsletter.SendAll | scripts/send-newsletter.ts:198-205 | every post gets its outcome whatever happened to earlier ones; when configured, one broadcast per post is requested in order, otherwise none |
| Newsletter.Announce | scripts/send-newsletter.ts:171-210 | when the blog directory cannot be read nothing is found or sent; otherwise the posts found are the new ones in date order. Outside production nothing is sent; in production every new post is attempted, and broadcasts are requested only when configured |
| Sorting.SortBy | scripts/send-newsletter.ts:112-114 | the sort's result is ascending by key and a permutation of its input |
| Sorting.SortByIsStable | scripts/send-newsletter.ts:112-114 | among elements with equal keys the sorted order is the input order |
| Seo.BaseUrl | src/utils/seo.ts:37 | the base is the site when it is given and non-empty, otherwise the site-wide URL |
| Seo.ResolveAgainstSite | src/utils/seo.ts:33-50 | a path is resolved against the given site when it is present and non-empty, and against the site-wide URL otherwise |
| Seo.TitleFor | src/utils/seo.ts:64-68 | the title is the frontmatter title or the site name. When pubDate is truthy it is the text of that title (a non-string title through `String`) followed by the literal mis-encoded suffix, and it gets the suffix only then |
| Seo.FieldOr | src/utils/seo.ts:70-76 | a truthy frontmatter field is kept; otherwise its default is used (for description, tags and noIndex) |
| Seo.CanonicalFor | src/utils/seo.ts:72-74 | a truthy `url` is the canonical URL; otherwise the pathname is resolved against the site. Only that resolution can fail |
| Seo.PageTypeFor | src/utils/seo.ts:79-80 | an explicit type wins; otherwise the type is `article` iff pubDate is truthy, and `website` iff it is not |
| Seo.ImageUrlFor | src/utils/seo.ts:83-94 | precedence: the cover image, then `image` (verbatim when it starts with `http`, otherwise resolved), then the resolved default image; a truthy non-string `image` throws |
| Seo.AuthorFor | src/utils/seo.ts:97 | the author is set, to the author name, exactly when pubDate is truthy |
| Seo.BuildSeoMetadata | src/utils/seo.ts:55-110 | the call throws iff the canonical or image URL cannot be resolved; otherwise every field is its decision above, and pubDate is passed through |
| Seo.TotalWhenResolvable | src/utils/seo.ts:55-110 | when URLs always resolve and `image` is a string or falsy, metadata is always produced |
| Seo.EmptyFrontmatterDefaults | src/utils/seo.ts:61-110 | a page without frontmatter gets the site name, the default description, the resolved pathname and default image, type `website`, no author and no tags |
| Cookies.Serialize | src/scripts/crtPreference.ts:7 | definition; see Cookies.FindInSerialized |
| Cookies.Upsert | src/scripts/crtPreference.ts:17 | storing keeps the jar well formed, gives the stored name the new value and leaves every other name's value as it was |
| Cookies.Remove | src/scripts/crtPreference.ts:17 | deleting keeps the jar well formed, leaves the name without a value and every other name's value as it was |
| Cookies.Lookup | src/scripts/crtPreference.ts:7 | the jar has a value for a name iff it holds a cookie of that name, and that value is the cookie's |
| Cookies.StoreCookie | src/scripts/crtPreference.ts:17 | an assignment keeps the jar well formed. A positive max-age stores the value, any other removes the cookie, and every other name is untouched |
| Cookies.FirstPairFrom | src/scripts/crtPreference.ts:7 | the position found is the leftmost where `key=` opens the string or follows `; ` and a non-`;` character follows |
| Cookies.FindCookieValue | src/scripts/crtPreference.ts:7 | a found value is non-empty and holds no `;`; nothing is found iff the pattern matches nowhere |
| Cookies.FindInSerialized | src/scripts/crtPreference.ts:7 | on a well-formed jar, the pattern run over `document.cookie` finds exactly the jar's value for the key, unless that value is empty |
| Cookies.StoreThenFind | src/scripts/crtPreference.ts:14-17 | right after a cookie is stored with a positive max-age and a non-empty value, the pattern finds that value; otherwise it finds nothing |
| UriComponent.Encode | src/scripts/crtPreference.ts:17 | the encoding holds only unreserved characters and `%` escapes, and is at least as long as its input |
| UriComponent.Decode | src/scripts/crtPreference.ts:8 | a decoding is never longer than its input |
| UriComponent.DecodeOneEncodeChar | src/scripts/crtPreference.ts:8 | decoding the encoding of one character, whatever follows it, gives that character and consumes exactly its encoding |
| UriComponent.DecodeEncode | src/scripts/crtPreference.ts:8 | decoding an encoding gives back the original string |
| UriComponent.DecodeWithoutEscapes | src/scripts/crtPreference.ts:8 | text without `%` decodes to itself |
| CrtPreference.MaxAge | src/scripts/crtPreference.ts:16 | the cookie lives 86400 seconds per day, and a positive number of days gives a positive max-age |
| CrtPreference.CookieAssignment | src/scripts/crtPreference.ts:17 | definition; see CrtPreference.AssignmentNameValue |
| CrtPreference.AssignmentNameValue | src/scripts/crtPreference.ts:17 | parsed as section 5.2 of RFC 6265 prescribes, the assignment's name-value pair ends at its first `;` and splits at its first `=` into the key and the encoded value |
| CrtPreference.StoredValueReadsBack | src/scripts/crtPreference.ts:5-21 | a value stored through `setCookie` with positive lifetime is read back by `getCookie` as itself (an empty value reads back as nothing) |
| CrtPreference.Page.GetCookie | src/scripts/crtPreference.ts:5-12 | when reading `document.cookie` throws, the answer is null |
| CrtPreference.Page.GetCookieReadsJar | src/scripts/crtPreference.ts:7-8 | on a readable, well-formed jar, `getCookie` is the decoded value the jar shows for the key |
| CrtPreference.Page.GetPreference | src/scripts/crtPreference.ts:23-31 | a stored value wins whenever storage can be read and holds one; only otherwise is the cookie consulted |
| CrtPreference.Page.SetCookie | src/scripts/crtPreference.ts:14-21 | the jar becomes the stored cookie when cookies are accessible and is unchanged otherwise, and nothing else changes. With a positive lifetime, `getCookie` then returns the value |
| CrtPreference.Page.SetPreference | src/scripts/crtPreference.ts:33-40 | storage takes the value when writable, and the cookie is written in any case. With working storage, or with a cookie fallback that storage does not shadow, `getPreference` then returns the value |
| CrtPreference.Page.SetCrtPreference | src/scripts/crtPreference.ts:49-62 | true stores `1` and false stores `0`; the body class follows, and so does the overlay class when the overlay exists |
| CrtPreference.Page.OnLoad | src/scripts/crtPreference.ts:64-80 | a stored `1` switches the classes on, or leaves a pending listener when there is no overlay yet; `0` switches them off. Any other value, or none, changes nothing, and the stores are untouched |
| CrtPreference.Page.DomContentLoaded | src/scripts/crtPreference.ts:71-73 | a pending listener enables the overlay when the loaded document has one |
| CrtPreference.ReloadRestores | src/scripts/crtPreference.ts:49-80 | with working storage, a choice made through `__setCrtPreference` is restored on the next page load, whatever classes the new page starts with |
| Rss.ChannelFor | src/pages/rss.xml.ts:26-32 | the channel has the fixed title, description and `en-us` language; the site is the context's, or the default URL when it has none |
| Rss.TimeValue | src/pages/rss.xml.js:24 | definition; see Rss.CompareIsKeyDifference |
| Rss.CompareByPubDate | src/pages/rss.xml.js:24 | definition; see Rss.CompareIsKeyDifference and RssFeedJs.SortedAgreesWithComparator |
| Rss.CompareIsKeyDifference | src/pages/rss.xml.js:24 | the comparator `b.pubDate - a.pubDate` is the difference of the negated-time keys of `a` and `b`, and ranks `a` first exactly when `a` is no older than `b` |
| RssFeedJs.StripMarkdownExtension | src/pages/rss.xml.js:8 | a single trailing `.mdx` or `.md` is removed, and nothing else |
| RssFeedJs.BlogSegment | src/pages/rss.xml.js:9 | there is no segment iff the path has no `/blog/`; the segment is the text after the first `/blog/`, up to the next one or the end |
| RssFeedJs.StripIndex | src/pages/rss.xml.js:10 | a trailing `/index` is removed, and nothing else |
| RssFeedJs.SlugOf | src/pages/rss.xml.js:7-10 | the slug is the blog segment of the extension-less path without `/index`, or empty when there is no `/blog/` |
| RssFeedJs.SlugHasNoBlogMarker | src/pages/rss.xml.js:7-10 | no slug contains `/blog/` |
| RssFeedJs.SlugOfIndexPage | src/pages/rss.xml.js:7-10 | `/blog/hi/index.mdx` has the slug `hi` |
| RssFeedJs.SlugOfPlainPost | src/pages/rss.xml.js:7-10 | `/blog/hi.md` has the slug `hi` |
| RssFeedJs.SlugOutsideBlog | src/pages/rss.xml.js:7-10 | a path outside the blog has the empty slug |
| RssFeedJs.ComputedFields | src/pages/rss.xml.js:12-19 | the defaults a post has before its frontmatter is spread over them, each field stated on its own. The link is `/blog/` plus the slug, and the title is the slug when none is given. The date is the parsed pubDate when truthy and valid, else now, and the description is the frontmatter's |
| RssFeedJs.PostOf | src/pages/rss.xml.js:15-21 | a post holds every frontmatter key with the frontmatter's value, and the four computed fields wherever the frontmatter lacks them |
| RssFeedJs.PubDateOfPost | src/pages/rss.xml.js:13-20 | a post's date is the frontmatter's raw pubDate whenever that key is present; the parsed date never survives the spread, and "now" fills in only when the key is absent |
| RssFeedJs.FrontmatterOverrides | src/pages/rss.xml.js:20 | every frontmatter key, `link` and `title` included, overrides the computed value |
| RssFeedJs.DefaultLink | src/pages/rss.xml.js:16 | without a frontmatter link, the link is `/blog/` followed by the slug |
| RssFeedJs.Posts | src/pages/rss.xml.js:6-22 | there is one post per module, in module order |
| RssFeedJs.WithPubDate | src/pages/rss.xml.js:23 | the filter keeps exactly the posts whose pubDate is truthy, and no others, each as many times as it occurs in the input |
| RssFeedJs.WithPubDateAppend | src/pages/rss.xml.js:23 | the filter distributes over concatenation, so the kept posts stay in their input order |
| RssFeedJs.DroppedOnlyByFalsyFrontmatterDate | src/pages/rss.xml.js:12-23 | a post is dropped only when its frontmatter itself carries a falsy pubDate |
| RssFeedJs.SortedPosts | src/pages/rss.xml.js:23-24 | the surviving posts, newest first, are a permutation of the filtered posts |
| RssFeedJs.SortedAgreesWithComparator | src/pages/rss.xml.js:24 | no two sorted posts are in an order the comparator would swap |
| RssFeedJs.EqualDatesKeepOrder | src/pages/rss.xml.js:24 | posts with the same date keep their order after the filter, which is their module order |
| RssFeedJs.ItemOf | src/pages/rss.xml.js:30-35 | an output item carries exactly title, pubDate, description and link, each the post's value |
| RssFeedJs.Items | src/pages/rss.xml.js:30-35 | there is one output item per sorted post, in order |
| RssFeedJs.BuildFeed | src/pages/rss.xml.js:3-38 | the feed has the shared channel and the projected items of the sorted, filtered posts, at most one per module |
| RssFeedJs.ItemsNewestFirst | src/pages/rss.xml.js:23-35 | the feed's item dates are in descending order |
| RssFeedTs.ComparePosts | src/pages/rss.xml.ts:12 | definition; see RssFeedTs.ComparePostsIsKeyDifference and RssFeedTs.SortedAgreesWithComparator |
| RssFeedTs.ComparePostsIsKeyDifference | src/pages/rss.xml.ts:12 | the comparator `b.data.pubDate - a.data.pubDate` is the difference of the negated-time keys of `a` and `b`, and ranks `a` first exactly when `a` is no older than `b` |
| RssFeedTs.SortedAgreesWithComparator | src/pages/rss.xml.ts:11-12 | no two sorted posts are in an order the comparator would swap |
| RssFeedTs.SortedPosts | src/pages/rss.xml.ts:11-12 | the posts, newest first, are a permutation of the collection |
| RssFeedTs.ItemFor | src/pages/rss.xml.ts:18-23 | definition; see RssFeedTs.ItemForFields |
| RssFeedTs.ItemForFields | src/pages/rss.xml.ts:18-23 | an item holds every field of the post's data, except that link, content and pubDate are set by the route: the link to `/blog/` plus the slug, the rendered content, and the data's own pubDate |
| RssFeedTs.BuildItems | src/pages/rss.xml.ts:15-24 | the loop pushes exactly one item per sorted post, in sorted order |
| RssFeedTs.FeedFor | src/pages/rss.xml.ts:8-33 | the feed has the shared channel and one item per post, in sorted order |
| RssFeedTs.EveryPostHasItem | src/pages/rss.xml.ts:15-24 | every post of the collection has its item in the feed |
| RssFeedTs.ItemsNewestFirst | src/pages/rss.xml.ts:11-24 | the items' dates are in descending order |
| ImageOptimizer.OutcomeOf | scripts/optimize-images.ts:21-51 | definition; see ImageOptimizer.OutcomeCases |
| ImageOptimizer.Step | scripts/optimize-images.ts:20-52 | definition; see ImageOptimizer.StepEffects |
| ImageOptimizer.Run | scripts/optimize-images.ts:16-52 | definition; see ImageOptimizer.RunTally and ImageOptimizer.RunLeavesOthers |
| ImageOptimizer.OutcomeCases | scripts/optimize-images.ts:20-52 | a file is resized and written iff it is readable with both dimensions known, one of them over 1280, and the resize and write succeed; the written bytes are the resize's output. It is skipped iff neither dimension exceeds 1280; a read failure or a missing or zero dimension is an error |
| ImageOptimizer.AtLimitIsSkipped | scripts/optimize-images.ts:31-47 | an image of exactly 1280 by 1280 is skipped |
| ImageOptimizer.OverLimitIsResized | scripts/optimize-images.ts:31-44 | an image 1281 pixels wide is resized with the 1280 by 1280 `inside` options, and that output is written |
| ImageOptimizer.ZeroWidthIsError | scripts/optimize-images.ts:25-29 | a zero width is an error whatever the height |
| ImageOptimizer.StepEffects | scripts/optimize-images.ts:20-52 | each file moves exactly one counter up by one (the one of its outcome); only a processed file is overwritten, with the resized bytes, and no other file changes |
| ImageOptimizer.RunTally | scripts/optimize-images.ts:16-52 | the counters add up to the number of files processed, and none ever goes down |
| ImageOptimizer.RunLeavesOthers | scripts/optimize-images.ts:20-52 | files outside the batch are untouched, and no file appears or disappears |
| ImageOptimizer.NothingOversizedWritesNothing | scripts/optimize-images.ts:31-47 | when no image is over the limit, no file is written and the processed count stays put |
| ImageOptimizer.OptimizeImages | scripts/optimize-images.ts:7-58 | the loop leaves the disk and counters that the batch specification gives from zero counters; processed, skipped and errors add up to the file count; only batch files can change |
| Subscribe.SiteUrl | src/pages/api/subscribe.ts:8 | the site URL is `PUBLIC_SITE_URL` when it is set and non-empty, otherwise the default site address |
| Subscribe.MatchesEmailPattern | src/pages/api/subscribe.ts:18 | definition; see Subscribe.EmailShapedIffPattern |
| Subscribe.ValidEmail | src/pages/api/subscribe.ts:18 | definition; see Subscribe.HandlePost and Subscribe.BadRequestSendsNothing |
| Subscribe.EmailShapedIffPattern | src/pages/api/subscribe.ts:18 | the direct check accepts exactly the strings `^\S+@\S+\.\S+$` matches: no whitespace, an `@` after at least one character, one more character, a `.`, and at least one final character |
| Subscribe.TwoAtSignsAccepted | src/pages/api/subscribe.ts:18 | `a@b@c.d` is accepted |
| Subscribe.MalformedRejected | src/pages/api/subscribe.ts:18 | an empty local part, nothing between `@` and `.`, or a space is rejected |
| Subscribe.VerifyUrl | src/pages/api/subscribe.ts:29 | the link is the site URL, then `/api/verify?token=`, then the token unencoded |
| Subscribe.HandlePost | src/pages/api/subscribe.ts:10-67 | the decision sequence, ending at 200, 400 or 500. Missing configuration gives 500 before the body is read, an unparsable body 500, and a falsy or malformed email 400. An email is sent iff a token was signed for a valid email. A returned provider error gives a 500 failure message; a signing or sending call that throws gives 500 "Internal server error"; and 200 means the provider accepted the email |
| Subscribe.ConfigurationCheckedFirst | src/pages/api/subscribe.ts:11-16 | without configuration, the body does not matter |
| Subscribe.BadRequestSendsNothing | src/pages/api/subscribe.ts:18-20 | a 400 means the email was rejected and nothing was sent |
| Verify.HandleGet | src/pages/api/verify.ts:9-44 | the decision sequence. A missing token gives 400, missing configuration 500, and a failed verification 400 with "Invalid or expired token". A contact is requested iff the token verifies, for the payload's email. The visitor is redirected to `/verify-success` iff the contact call returns, even with an error |
| Verify.TokenCheckedFirst | src/pages/api/verify.ts:13-20 | a missing or empty token is reported whatever the configuration |
| Verify.ContactErrorOnlyLogged | src/pages/api/verify.ts:30-38 | an error returned by the contact call still redirects to the success page |
| Verify.ThrownContactCallLooksLikeBadToken | src/pages/api/verify.ts:22-43 | a contact call that throws is answered as an invalid token |
| VerifyBlogSubscription.Secret | src/pages/api/verify-blog-subscription.ts:20 | definition; see VerifyBlogSubscription.HandleGet and VerifyBlogSubscription.NoConfigurationCheck |
| VerifyBlogSubscription.HandleGet | src/pages/api/verify-blog-subscription.ts:7-43 | a missing token gives 400, and every later failure gives 500. A contact is created iff the token verifies. The segment call is made iff a contact was returned without error, with its id and the segment id. The redirect happens iff that call succeeds too |
| VerifyBlogSubscription.NoConfigurationCheck | src/pages/api/verify-blog-subscription.ts:10-24 | the handler makes no configuration check of its own: with no environment variable set, the provider calls alone decide, so calls that succeed still redirect |
| VerifyBlogSubscription.MissingContactStops | src/pages/api/verify-blog-subscription.ts:26-30 | a contact call that returns no contact, even without error, gives 500 before any segment call |

## Left out

- The Resend client is not modelled. `emails.send`, `contacts.create`, `contacts.segments.add` and `broadcasts.create` are parameters that say how each call ends. A client constructor that throws is folded into those outcomes.
- JWT signing and verification (HS256) are not modelled. They are parameters: signing gives a token or throws, and verification gives a payload or throws. So token expiry is whatever the verifier answers.
- Fetching and parsing the feed with rss-parser is not modelled; the feed is given as its list of item links, or as a failure. The XML output of the feed library is not modelled either; a feed is its channel and its item objects.
- The pixels and the resizing done by the image library are not modelled; they are a metadata function and a resize function. File discovery by glob is not modelled; the batch is given as a list of paths. A read failure is a missing file, and a write failure is a per-file flag.
- Reading the blog directory is not modelled. `readdir`, `stat` and `readFile` are given as directory entries, a directory flag and the optional `index.mdx` content. A `readdir` that fails is `None`: nothing in `main` catches it, so the script only logs the error and announces nothing.
- MDX rendering in the typed feed route is a parameter (`contentOf`), and it is assumed never to fail. In the source, `render(post)` or `renderToString` can reject, and then the whole request fails.
- JavaScript date parsing is not modelled. `new Date(...)`, `getTime` and `valueOf` are the parameters `timeOf`, `dateOf` and `numberOf`, all on integers.
- The WHATWG URL parser is not modelled. Resolution is the `resolve` parameter, and a link's pathname is `pathnameOf`; either one can throw.
- `String(v)` for values that are not strings is a parameter (`toText`, `otherText`). In JSON request bodies only the `email` field is modelled.
- The DOM is not modelled beyond two things: whether the overlay container exists, and whether the two CSS classes are set. A call that throws inside the script's top-level try (a missing `document.body`) is not modelled.
- The HTML bodies of the emails and all console output are not modelled. They do not change any outcome.
- `async`/`await` is not modelled: every step runs in sequence, as the code awaits each call in turn.
- Numbers: there is no floating point, and all numbers are integers. Cookie lifetimes are therefore exact for integer day counts.
- The `RESEND_UNSUBSCRIBE_URL` placeholder and `RSS_URL` are not modelled: the first is only template text, and the second only feeds the fetcher.
- Configuration and type-declaration files are not part of this model: `astro.config.mjs`, `src/env.d.ts`, and the schema in `src/content/config.ts`.
- Newsletter.SendAll: the message "Sent" that the loop logs even when sending was skipped is not modelled; the model records the skip as `SkippedNoConfig`.
- CrtPreference.Page.GetCookie: its own contract states only the throwing case. That the value read is the jar's decoded value is stated by `CrtPreference.Page.GetCookieReadsJar`, on well-formed jars.
- Cookies.StoreCookie: only cookies written by this script are modelled. Their names contain no `;` or `=`, and their values are percent-encoded. Path, expiry time and the `samesite` attribute are not modelled, since they do not change what this page reads.
- Rss.TimeValue: a pubDate whose numeric conversion is NaN (a date kept as a string by the frontmatter spread, say) is not modelled. The comparator then answers NaN, which `sort` reads as "equal", and the resulting order is the engine's; the model gives every value an integer.
- ImageOptimizer.StepEffects: a write that fails after opening the file may leave it truncated. The model counts the error and keeps the old contents.
- RssFeedJs.ComputedFields: each post's fallback date is one `new Date()` taken while that post is mapped; the model uses a single `now` for every post, so it does not capture that two posts without a date may get slightly different times.
- Newsletter.GetNewBlogs: a pubDate that does not parse as a date (such as `15/01/2024`, which the frontmatter parser still accepts) is not modelled. In the source its time is NaN, the comparator answers NaN, `sort` reads that as "equal", and the order is then the engine's. The ascending order proved here assumes every captured date parses, since `timeOf` gives every date an integer.
