/**
 * What the two feed routes share: the channel they describe and the
 * newest-first order of their items.
 */
module Rss {
  import opened Wrappers
  import opened JsValues

  const ChannelTitle := "Sun Envidiado Blog"
  const ChannelDescription :=
    "Random thoughts from Sun about coding, gaming, life updates, and whatever else crosses my mind."
  const DefaultSite := "https://sun-envidiado.com"
  const CustomData := "<language>en-us</language>"

  /** The options handed to the feed library, items aside. */
  datatype Channel = Channel(title: string, description: string, site: string, customData: string)

  /** What the feed library renders: the channel and its items. */
  datatype Feed = Feed(channel: Channel, items: seq<JsObject>)

  /** The channel for a request: `site` is the configured site URL, if any, as a string. */
  function ChannelFor(site: Option<string>): (r: Channel)
    ensures r.title == ChannelTitle && r.description == ChannelDescription && r.customData == CustomData
    ensures site.Some? && site.value != "" ==> r.site == site.value
    ensures site.None? || site == Some("") ==> r.site == DefaultSite
  {
    Channel(ChannelTitle, ChannelDescription,
            if site.Some? && site.value != "" then site.value else DefaultSite,
            CustomData)
  }

  /** `v.valueOf()` as the comparator subtracts it: a date's time value, and for
      any other value its numeric conversion, given as `numberOf`, on integers
      only. A value whose conversion is NaN, such as a date written as a string,
      makes the comparator answer NaN, which `sort` reads as "equal"; that case
      is not modelled. */
  function TimeValue(v: JsValue, numberOf: JsValue -> int): int {
    if v.Date? then v.time else numberOf(v)
  }

  /** The sort key: the negated time value of `pubDate`. `CompareIsKeyDifference`
      ties the source's comparator to it. */
  function NewestFirst(numberOf: JsValue -> int): (key: JsObject -> int)
    ensures forall item :: key(item) == -TimeValue(Get(item, "pubDate"), numberOf)
  {
    (item: JsObject) => -TimeValue(Get(item, "pubDate"), numberOf)
  }

  /** `(a, b) => b.pubDate - a.pubDate`: negative when `a` belongs before `b`. */
  function CompareByPubDate(a: JsObject, b: JsObject, numberOf: JsValue -> int): int {
    TimeValue(Get(b, "pubDate"), numberOf) - TimeValue(Get(a, "pubDate"), numberOf)
  }

  /** The comparator is the difference of the two keys, so a sort by it is the
      ascending sort by `NewestFirst`, and it ranks `a` first exactly when `a` is
      no older than `b`. */
  lemma CompareIsKeyDifference(a: JsObject, b: JsObject, numberOf: JsValue -> int)
    ensures CompareByPubDate(a, b, numberOf) == NewestFirst(numberOf)(a) - NewestFirst(numberOf)(b)
    ensures CompareByPubDate(a, b, numberOf) <= 0
            <==> TimeValue(Get(b, "pubDate"), numberOf) <= TimeValue(Get(a, "pubDate"), numberOf)
  {
  }
}
