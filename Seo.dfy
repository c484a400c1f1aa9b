/**
 * The page metadata builder of the site layout: title, description,
 * canonical URL, Open Graph type and image, and author, chosen from the
 * (untyped) frontmatter of a page with site-wide defaults.
 *
 * `new URL(path, base).toString()` is given as `resolve(path, base)`, which
 * is `None` when the constructor throws; a thrown error makes the whole call
 * throw, modelled as a `None` result.
 */
module Seo {
  import opened Wrappers
  import opened Strings
  import opened JsValues

  const SiteName := "Sun Envidiado"
  const AuthorName := "Sun Envidiado"
  const DefaultDescription := "Personal website where I share my thoughts about anything and everything."
  const DefaultImage := "/default.png"
  const SiteUrl := "https://sun-envidiado.com"

  /** The suffix of a dated page's title, character for character: a space,
      U+00E2 U+20AC U+201D (an em dash decoded with the wrong character set),
      a space and the site name. */
  const TitleSuffix := " \U{E2}\U{20AC}\U{201D} Sun Envidiado"

  type Resolver = (string, string) -> Option<string>

  datatype SeoMetadata = SeoMetadata(
    title: JsValue,
    description: JsValue,
    canonical: JsValue,
    imageUrl: string,
    pageType: JsValue,
    noIndex: JsValue,
    author: Option<string>,
    pubDate: JsValue,
    tags: JsValue)

  /** `site || SITE_CONFIG.siteUrl`; a `URL` object stands here as its string form. */
  function BaseUrl(site: Option<string>): (r: string)
    ensures site.Some? && site.value != "" ==> r == site.value
    ensures site.None? || site == Some("") ==> r == SiteUrl
  {
    if site.Some? && site.value != "" then site.value else SiteUrl
  }

  /** `generateCanonicalUrl` and `generateImageUrl`, which have the same body:
      the path resolved against the site, or against the site's default URL
      when no site is given. */
  function ResolveAgainstSite(path: string, site: Option<string>, resolve: Resolver): (r: Option<string>)
    ensures !(site.Some? && site.value != "") ==> r == resolve(path, SiteUrl)
    ensures site.Some? && site.value != "" ==> r == resolve(path, site.value)
  {
    resolve(path, BaseUrl(site))
  }

  /** The image URL by precedence: cover image, then `frontmatter.image`
      (verbatim when it starts with `http`), then the default image. A
      truthy `image` that is not a string has no `startsWith` and throws. */
  function ImageUrlFor(frontmatter: JsObject, site: Option<string>, coverSrc: Option<string>,
                       resolve: Resolver): (r: Option<string>)
    ensures coverSrc.Some? ==> r == ResolveAgainstSite(coverSrc.value, site, resolve)
    ensures coverSrc.None? && Get(frontmatter, "image").Str? && StartsWith(Get(frontmatter, "image").s, "http")
            ==> r == Some(Get(frontmatter, "image").s)
    ensures coverSrc.None? && Truthy(Get(frontmatter, "image")) && Get(frontmatter, "image").Str?
            && !StartsWith(Get(frontmatter, "image").s, "http")
            ==> r == ResolveAgainstSite(Get(frontmatter, "image").s, site, resolve)
    ensures coverSrc.None? && Truthy(Get(frontmatter, "image")) && !Get(frontmatter, "image").Str? ==> r.None?
    ensures coverSrc.None? && !Truthy(Get(frontmatter, "image")) ==> r == ResolveAgainstSite(DefaultImage, site, resolve)
  {
    var image := Get(frontmatter, "image");
    if coverSrc.Some? then ResolveAgainstSite(coverSrc.value, site, resolve)
    else if Truthy(image) then
      if !image.Str? then None
      else if StartsWith(image.s, "http") then Some(image.s)
      else ResolveAgainstSite(image.s, site, resolve)
    else ResolveAgainstSite(DefaultImage, site, resolve)
  }

  /** The title: the frontmatter title or the site name, with the suffix exactly on dated pages. */
  function TitleFor(frontmatter: JsObject, toText: JsValue -> string): (r: JsValue)
    ensures !Truthy(Get(frontmatter, "pubDate")) && Truthy(Get(frontmatter, "title")) ==> r == Get(frontmatter, "title")
    ensures !Truthy(Get(frontmatter, "pubDate")) && !Truthy(Get(frontmatter, "title")) ==> r == Str(SiteName)
    ensures Truthy(Get(frontmatter, "pubDate")) ==> r.Str? && EndsWith(r.s, TitleSuffix)
    ensures Truthy(Get(frontmatter, "pubDate")) && Truthy(Get(frontmatter, "title")) && Get(frontmatter, "title").Str?
            ==> r == Str(Get(frontmatter, "title").s + TitleSuffix)
    ensures Truthy(Get(frontmatter, "pubDate")) && Truthy(Get(frontmatter, "title"))
            ==> r == Str(ToText(Get(frontmatter, "title"), toText) + TitleSuffix)
    ensures Truthy(Get(frontmatter, "pubDate")) && !Truthy(Get(frontmatter, "title")) ==> r == Str(SiteName + TitleSuffix)
  {
    var rawTitle := if Truthy(Get(frontmatter, "title")) then Get(frontmatter, "title") else Str(SiteName);
    if Truthy(Get(frontmatter, "pubDate")) then Str(ToText(rawTitle, toText) + TitleSuffix) else rawTitle
  }

  /** `v || fallback` on one frontmatter field. */
  function FieldOr(frontmatter: JsObject, key: string, fallback: JsValue): (r: JsValue)
    ensures Truthy(Get(frontmatter, key)) ==> r == Get(frontmatter, key)
    ensures !Truthy(Get(frontmatter, key)) ==> r == fallback
  {
    if Truthy(Get(frontmatter, key)) then Get(frontmatter, key) else fallback
  }

  /** The canonical URL: the frontmatter `url` when truthy, otherwise the resolved pathname. */
  function CanonicalFor(frontmatter: JsObject, pathname: string, site: Option<string>, resolve: Resolver)
    : (r: Option<JsValue>)
    ensures Truthy(Get(frontmatter, "url")) ==> r == Some(Get(frontmatter, "url"))
    ensures !Truthy(Get(frontmatter, "url")) && ResolveAgainstSite(pathname, site, resolve).Some?
            ==> r == Some(Str(ResolveAgainstSite(pathname, site, resolve).value))
    ensures r.None? <==> !Truthy(Get(frontmatter, "url")) && ResolveAgainstSite(pathname, site, resolve).None?
  {
    if Truthy(Get(frontmatter, "url")) then Some(Get(frontmatter, "url"))
    else match ResolveAgainstSite(pathname, site, resolve)
      case None => None
      case Some(u) => Some(Str(u))
  }

  /** The Open Graph type: explicit, else `article` exactly for dated pages. */
  function PageTypeFor(frontmatter: JsObject): (r: JsValue)
    ensures Truthy(Get(frontmatter, "type")) ==> r == Get(frontmatter, "type")
    ensures !Truthy(Get(frontmatter, "type")) ==> (r == Str("article") <==> Truthy(Get(frontmatter, "pubDate")))
    ensures !Truthy(Get(frontmatter, "type")) ==> (r == Str("website") <==> !Truthy(Get(frontmatter, "pubDate")))
  {
    FieldOr(frontmatter, "type", Str(if Truthy(Get(frontmatter, "pubDate")) then "article" else "website"))
  }

  /** The author: set, to the author's name, exactly on dated pages. */
  function AuthorFor(frontmatter: JsObject): (r: Option<string>)
    ensures r.Some? <==> Truthy(Get(frontmatter, "pubDate"))
    ensures r.Some? ==> r.value == AuthorName
  {
    if Truthy(Get(frontmatter, "pubDate")) then Some(AuthorName) else None
  }

  /** `buildSEOMetadata`: `coverSrc` is the cover image's `src` when a cover image is passed. */
  function BuildSeoMetadata(frontmatter: JsObject, pathname: string, site: Option<string>,
                            coverSrc: Option<string>, resolve: Resolver, toText: JsValue -> string)
    : (r: Option<SeoMetadata>)
    ensures r.None? <==> CanonicalFor(frontmatter, pathname, site, resolve).None?
                         || ImageUrlFor(frontmatter, site, coverSrc, resolve).None?
    ensures r.Some? ==> && r.value.title == TitleFor(frontmatter, toText)
                        && r.value.description == FieldOr(frontmatter, "description", Str(DefaultDescription))
                        && Some(r.value.canonical) == CanonicalFor(frontmatter, pathname, site, resolve)
                        && Some(r.value.imageUrl) == ImageUrlFor(frontmatter, site, coverSrc, resolve)
                        && r.value.pageType == PageTypeFor(frontmatter)
                        && r.value.noIndex == FieldOr(frontmatter, "noIndex", Bool(false))
                        && r.value.author == AuthorFor(frontmatter)
                        && r.value.pubDate == Get(frontmatter, "pubDate")
                        && r.value.tags == FieldOr(frontmatter, "tags", Array([]))
  {
    var canonical := CanonicalFor(frontmatter, pathname, site, resolve);
    var imageUrl := ImageUrlFor(frontmatter, site, coverSrc, resolve);
    if canonical.None? || imageUrl.None? then None
    else Some(SeoMetadata(
      TitleFor(frontmatter, toText),
      FieldOr(frontmatter, "description", Str(DefaultDescription)),
      canonical.value,
      imageUrl.value,
      PageTypeFor(frontmatter),
      FieldOr(frontmatter, "noIndex", Bool(false)),
      AuthorFor(frontmatter),
      Get(frontmatter, "pubDate"),
      FieldOr(frontmatter, "tags", Array([]))))
  }

  /** With a resolver that always succeeds, metadata is always produced for
      frontmatter whose image is a string or absent. */
  lemma TotalWhenResolvable(frontmatter: JsObject, pathname: string, site: Option<string>,
                            coverSrc: Option<string>, resolve: Resolver, toText: JsValue -> string)
    requires forall path, base :: resolve(path, base).Some?
    requires Get(frontmatter, "image").Str? || !Truthy(Get(frontmatter, "image"))
    ensures BuildSeoMetadata(frontmatter, pathname, site, coverSrc, resolve, toText).Some?
  {
    assert ResolveAgainstSite(pathname, site, resolve).Some?;
    assert CanonicalFor(frontmatter, pathname, site, resolve).Some?;
    assert ImageUrlFor(frontmatter, site, coverSrc, resolve).Some?;
  }

  /** A page without frontmatter gets exactly the site defaults. */
  lemma EmptyFrontmatterDefaults(pathname: string, site: Option<string>, resolve: Resolver,
                                 toText: JsValue -> string)
    requires ResolveAgainstSite(pathname, site, resolve).Some?
    requires ResolveAgainstSite(DefaultImage, site, resolve).Some?
    ensures BuildSeoMetadata(map[], pathname, site, None, resolve, toText) == Some(SeoMetadata(
      Str(SiteName), Str(DefaultDescription), Str(ResolveAgainstSite(pathname, site, resolve).value),
      ResolveAgainstSite(DefaultImage, site, resolve).value, Str("website"), Bool(false),
      None, Undefined, Array([])))
  {
    var m := BuildSeoMetadata(map[], pathname, site, None, resolve, toText);
    assert m.Some?;
  }
}
