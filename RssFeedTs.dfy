/**
 * The feed route built from the typed blog collection: the posts sorted
 * newest first, then one item per post, pushed in that order, carrying the
 * post's data with its link, rendered content and date.
 */
module RssFeedTs {
  import opened Wrappers
  import opened JsValues
  import opened Rss
  import Sorting

  /** An entry of the `blog` collection: its slug and its validated `data`. */
  datatype Post = Post(slug: string, data: JsObject)

  /** The sort key on posts: the negated time value of `data.pubDate`.
      `ComparePostsIsKeyDifference` ties the source's comparator to it. */
  function ByPubDate(numberOf: JsValue -> int): (key: Post -> int)
    ensures forall p :: key(p) == -TimeValue(Get(p.data, "pubDate"), numberOf)
  {
    (p: Post) => -TimeValue(Get(p.data, "pubDate"), numberOf)
  }

  /** `(a, b) => b.data.pubDate.valueOf() - a.data.pubDate.valueOf()`. */
  function ComparePosts(a: Post, b: Post, numberOf: JsValue -> int): int {
    TimeValue(Get(b.data, "pubDate"), numberOf) - TimeValue(Get(a.data, "pubDate"), numberOf)
  }

  /** The comparator is the difference of the two keys, so a sort by it is the
      ascending sort by `ByPubDate`, and it ranks `a` first exactly when `a` is no
      older than `b`. */
  lemma ComparePostsIsKeyDifference(a: Post, b: Post, numberOf: JsValue -> int)
    ensures ComparePosts(a, b, numberOf) == ByPubDate(numberOf)(a) - ByPubDate(numberOf)(b)
    ensures ComparePosts(a, b, numberOf) <= 0
            <==> TimeValue(Get(b.data, "pubDate"), numberOf) <= TimeValue(Get(a.data, "pubDate"), numberOf)
  {
  }

  /** The sorted posts never have a pair the comparator would swap. */
  lemma SortedAgreesWithComparator(posts: seq<Post>, numberOf: JsValue -> int, i: nat, j: nat)
    requires i < j < |posts|
    ensures var sorted := SortedPosts(posts, numberOf);
            ComparePosts(sorted[i], sorted[j], numberOf) <= 0
  {
    var sorted := SortedPosts(posts, numberOf);
    assert ByPubDate(numberOf)(sorted[i]) <= ByPubDate(numberOf)(sorted[j]);
    ComparePostsIsKeyDifference(sorted[i], sorted[j], numberOf);
  }

  /** `getCollection('blog').sort(...)`: newest first, equal dates in collection order. */
  function SortedPosts(posts: seq<Post>, numberOf: JsValue -> int): (r: seq<Post>)
    ensures |r| == |posts|
    ensures Sorting.SortedBy(r, ByPubDate(numberOf))
    ensures multiset(r) == multiset(posts)
  {
    Sorting.SortBy(posts, ByPubDate(numberOf))
  }

  const ItemKeys: set<string> := {"link", "content", "pubDate"}

  /** `{...post.data, link, content, pubDate: post.data.pubDate}`. */
  function ItemFor(post: Post, content: string): JsObject {
    post.data + map["link" := Str("/blog/" + post.slug), "content" := Str(content),
                    "pubDate" := Get(post.data, "pubDate")]
  }

  /** An item holds the post's data with the three item fields added; the later keys win. */
  lemma ItemForFields(post: Post, content: string)
    ensures var r := ItemFor(post, content);
            && r.Keys == post.data.Keys + ItemKeys
            && r["link"] == Str("/blog/" + post.slug)
            && r["content"] == Str(content)
            && r["pubDate"] == Get(post.data, "pubDate")
            && forall k :: k in post.data && k !in ItemKeys ==> r[k] == post.data[k]
  {
  }

  /** The loop over the sorted posts. `contentOf` stands for rendering a post's body to HTML. */
  method BuildItems(posts: seq<Post>, numberOf: JsValue -> int, contentOf: Post -> string)
    returns (items: seq<JsObject>)
    ensures var sorted := SortedPosts(posts, numberOf);
            |items| == |sorted| && forall i :: 0 <= i < |sorted| ==> items[i] == ItemFor(sorted[i], contentOf(sorted[i]))
  {
    var sorted := SortedPosts(posts, numberOf);
    items := [];
    for i := 0 to |sorted|
      invariant |items| == i
      invariant forall j :: 0 <= j < i ==> items[j] == ItemFor(sorted[j], contentOf(sorted[j]))
    {
      var content := contentOf(sorted[i]);
      var item := ItemFor(sorted[i], content);
      items := items + [item];
      assert items[i] == item;
    }
  }

  /** `GET`: `site` is `context.site?.toString()`. */
  method FeedFor(posts: seq<Post>, site: Option<string>, numberOf: JsValue -> int, contentOf: Post -> string)
    returns (feed: Feed)
    ensures feed.channel == ChannelFor(site)
    ensures var sorted := SortedPosts(posts, numberOf);
            |feed.items| == |posts| && forall i :: 0 <= i < |sorted| ==> feed.items[i] == ItemFor(sorted[i], contentOf(sorted[i]))
  {
    var items := BuildItems(posts, numberOf, contentOf);
    feed := Feed(ChannelFor(site), items);
  }

  /** Every post of the collection has its item in the feed. */
  lemma EveryPostHasItem(posts: seq<Post>, numberOf: JsValue -> int, items: seq<JsObject>,
                         contentOf: Post -> string, p: Post)
    requires var sorted := SortedPosts(posts, numberOf);
             |items| == |sorted| && forall i :: 0 <= i < |sorted| ==> items[i] == ItemFor(sorted[i], contentOf(sorted[i]))
    requires p in posts
    ensures ItemFor(p, contentOf(p)) in items
  {
    var sorted := SortedPosts(posts, numberOf);
    assert p in multiset(posts);
    assert p in sorted by { assert p in multiset(sorted); }
    var i :| 0 <= i < |sorted| && sorted[i] == p;
    assert items[i] == ItemFor(p, contentOf(p));
  }

  /** The items come newest first: their dates are those of the posts, which are sorted. */
  lemma ItemsNewestFirst(posts: seq<Post>, numberOf: JsValue -> int, items: seq<JsObject>,
                         contentOf: Post -> string, i: nat, j: nat)
    requires var sorted := SortedPosts(posts, numberOf);
             |items| == |sorted| && forall i :: 0 <= i < |sorted| ==> items[i] == ItemFor(sorted[i], contentOf(sorted[i]))
    requires i < j < |items|
    ensures TimeValue(items[j]["pubDate"], numberOf) <= TimeValue(items[i]["pubDate"], numberOf)
  {
    var sorted := SortedPosts(posts, numberOf);
    var key := ByPubDate(numberOf);
    assert key(sorted[i]) <= key(sorted[j]);
    ItemForFields(sorted[i], contentOf(sorted[i]));
    ItemForFields(sorted[j], contentOf(sorted[j]));
  }
}
