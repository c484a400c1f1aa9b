/**
 * The CRT-effect preference script of the site: the preference lives in
 * `localStorage` under `crt-enabled`, mirrored in a cookie of the same
 * name, and decides whether the page's body carries the `crt-text-ca` class
 * and the overlay container the `crt-enabled` class.
 *
 * A page is a class whose fields are the two stores and the two class
 * flags; the ways the browser can refuse access (storage blocked, quota
 * exceeded, cookies unavailable) are flags that decide which calls throw.
 */
module CrtPreference {
  import opened Wrappers
  import opened Strings
  import opened Cookies
  import UriComponent

  const PreferenceKey: CookieName := "crt-enabled"
  const EnabledValue := "1"
  const DisabledValue := "0"
  const DefaultDays := 365
  const SecondsPerDay := 60 * 60 * 24

  /** The cookie's lifetime in seconds. */
  function MaxAge(days: int): (r: int)
    ensures r == 86400 * days
    ensures days > 0 ==> r > 0
  {
    SecondsPerDay * days
  }

  /** The attributes `setCookie` appends to the name-value pair. */
  function CookieAttributes(days: int): string {
    "; path=/; max-age=" + IntToDecimal(MaxAge(days)) + "; samesite=lax"
  }

  /** The string `setCookie` assigns to `document.cookie`. */
  function CookieAssignment(key: string, value: string, days: int): string {
    key + "=" + UriComponent.Encode(value) + CookieAttributes(days)
  }

  /** The first `c` in `a + b` is the first character of `b` when `a` has none. */
  lemma FirstAtJoin(a: string, b: string, c: char)
    requires forall k :: 0 <= k < |a| ==> a[k] != c
    requires b != [] && b[0] == c
    ensures FirstIndexIn(a + b, c, 0, |a + b|) == Some(|a|)
  {
    var s := a + b;
    assert s[|a|] == c;
    assert forall k :: 0 <= k < |a| ==> s[k] == a[k];
  }

  lemma PairWithoutSemicolon(key: string, enc: string)
    requires IsCookieName(key) && IsCookieValue(enc)
    ensures forall k :: 0 <= k < |key + "=" + enc| ==> (key + "=" + enc)[k] != ';'
  {
    var pair := key + "=" + enc;
    forall k | 0 <= k < |pair| ensures pair[k] != ';' {
      if k > |key| { assert pair[k] == enc[k - |key| - 1]; }
    }
  }

  /** A name-value pair followed by attributes that open with `;`: the first
      `;` ends the pair and the pair's first `=` ends the name. */
  lemma PairThenAttributes(key: string, enc: string, attributes: string)
    requires IsCookieName(key) && IsCookieValue(enc)
    requires attributes != [] && attributes[0] == ';'
    ensures var pair := key + "=" + enc;
            && FirstIndexIn(pair + attributes, ';', 0, |pair + attributes|) == Some(|pair|)
            && FirstIndexIn(pair, '=', 0, |pair|) == Some(|key|)
  {
    var pair := key + "=" + enc;
    PairWithoutSemicolon(key, enc);
    FirstAtJoin(pair, attributes, ';');
    assert pair == key + ("=" + enc);
    FirstAtJoin(key, "=" + enc, '=');
  }

  /** Parsed as section 5.2 of RFC 6265 prescribes, the assignment's
      name-value pair (the text before its first `;`) splits at its first `=`
      into the key and the encoded value; so the jar stores exactly that pair. */
  lemma AssignmentNameValue(key: string, value: string, days: int)
    requires IsCookieName(key)
    ensures var text := CookieAssignment(key, value, days);
            var pair := key + "=" + UriComponent.Encode(value);
            && FirstIndexIn(text, ';', 0, |text|) == Some(|pair|)
            && FirstIndexIn(pair, '=', 0, |pair|) == Some(|key|)
  {
    var attributes := CookieAttributes(days);
    assert attributes[0] == ';';
    PairThenAttributes(key, UriComponent.Encode(value), attributes);
  }

  /** A value stored with a positive lifetime reads back, decoded, as itself. */
  lemma StoredValueReadsBack(jar: seq<Cookie>, key: string, value: string, maxAge: int)
    requires WellFormedJar(jar) && IsCookieName(key) && maxAge > 0
    ensures var stored := StoreCookie(jar, key, UriComponent.Encode(value), maxAge);
            (match VisibleValue(stored, key) case None => None case Some(t) => UriComponent.Decode(t))
            == if value == "" then None else Some(value)
  {
    var encoded := UriComponent.Encode(value);
    UriComponent.DecodeEncode(value);
    assert encoded == [] <==> value == [];
  }

  class Page {
    /** `localStorage`. */
    var storage: map<string, string>
    /** `localStorage.getItem` does not throw. */
    var storageReadable: bool
    /** `localStorage.setItem` does not throw. */
    var storageWritable: bool
    /** The cookie jar, in the order `document.cookie` lists it. */
    var cookies: seq<Cookie>
    /** Reading and assigning `document.cookie` do not throw. */
    var cookiesAccessible: bool
    /** The body has the class `crt-text-ca`. */
    var crtText: bool
    /** The element `#crt-overlay-container` is in the document. */
    var overlayPresent: bool
    /** That element has the class `crt-enabled`. */
    var overlayEnabled: bool
    /** A `DOMContentLoaded` listener is waiting to enable the overlay. */
    var overlayPending: bool

    ghost predicate Valid()
      reads this
    {
      WellFormedJar(cookies)
    }

    constructor(storage: map<string, string>, storageReadable: bool, storageWritable: bool,
                cookies: seq<Cookie>, cookiesAccessible: bool,
                crtText: bool, overlayPresent: bool, overlayEnabled: bool)
      requires WellFormedJar(cookies)
      ensures Valid()
      ensures this.storage == storage && this.storageReadable == storageReadable
      ensures this.storageWritable == storageWritable
      ensures this.cookies == cookies && this.cookiesAccessible == cookiesAccessible
      ensures this.crtText == crtText && this.overlayPresent == overlayPresent
      ensures this.overlayEnabled == overlayEnabled && !overlayPending
    {
      this.storage, this.storageReadable, this.storageWritable := storage, storageReadable, storageWritable;
      this.cookies, this.cookiesAccessible := cookies, cookiesAccessible;
      this.crtText, this.overlayPresent, this.overlayEnabled := crtText, overlayPresent, overlayEnabled;
      overlayPending := false;
    }

    /** `document.cookie` as read. */
    function DocumentCookie(): string
      reads this
    {
      Serialize(cookies)
    }

    /** `getCookie`: the decoded value of the first `key=` pair; `None` for no match,
        for a malformed escape, or when the cookie cannot be read. */
    function GetCookie(key: string): (r: Option<string>)
      reads this
      ensures !cookiesAccessible ==> r.None?
    {
      if !cookiesAccessible then None
      else
        match FindCookieValue(DocumentCookie(), key)
        case None => None
        case Some(t) => UriComponent.Decode(t)
    }

    /** On a well-formed jar, `getCookie` reads the value the jar shows for the key. */
    lemma GetCookieReadsJar(key: string)
      requires cookiesAccessible && WellFormedJar(cookies) && IsCookieName(key)
      ensures GetCookie(key) == match VisibleValue(cookies, key) case None => None case Some(t) => UriComponent.Decode(t)
    {
      FindInSerialized(cookies, key);
    }

    /** `getPreference`: the stored value whenever storage can be read and holds one,
        otherwise the cookie. */
    function GetPreference(): (r: Option<string>)
      reads this
      ensures storageReadable && PreferenceKey in storage ==> r == Some(storage[PreferenceKey])
      ensures !(storageReadable && PreferenceKey in storage) ==> r == GetCookie(PreferenceKey)
    {
      if storageReadable && PreferenceKey in storage then Some(storage[PreferenceKey])
      else GetCookie(PreferenceKey)
    }

    /** `setCookie`: a cookie that reads back as the value it was given (an empty value reads back as none). */
    method SetCookie(key: string, value: string, days: int)
      requires Valid() && IsCookieName(key)
      modifies this
      ensures Valid()
      ensures cookies == if old(cookiesAccessible)
                         then StoreCookie(old(cookies), key, UriComponent.Encode(value), MaxAge(days))
                         else old(cookies)
      ensures storage == old(storage) && storageReadable == old(storageReadable)
      ensures storageWritable == old(storageWritable) && cookiesAccessible == old(cookiesAccessible)
      ensures crtText == old(crtText) && overlayPresent == old(overlayPresent)
      ensures overlayEnabled == old(overlayEnabled) && overlayPending == old(overlayPending)
      ensures cookiesAccessible && days > 0 ==> GetCookie(key) == if value == "" then None else Some(value)
    {
      if cookiesAccessible {
        if days > 0 {
          StoredValueReadsBack(cookies, key, value, MaxAge(days));
        }
        cookies := StoreCookie(cookies, key, UriComponent.Encode(value), MaxAge(days));
        GetCookieReadsJar(key);
      }
    }

    /** `setPreference`: written to storage when it accepts it, and to the cookie in any case. */
    method SetPreference(val: string)
      requires Valid()
      modifies this
      ensures Valid()
      ensures storage == if old(storageWritable) then old(storage)[PreferenceKey := val] else old(storage)
      ensures cookies == if old(cookiesAccessible)
                         then StoreCookie(old(cookies), PreferenceKey, UriComponent.Encode(val), MaxAge(DefaultDays))
                         else old(cookies)
      ensures storageReadable == old(storageReadable) && storageWritable == old(storageWritable)
      ensures cookiesAccessible == old(cookiesAccessible)
      ensures crtText == old(crtText) && overlayPresent == old(overlayPresent)
      ensures overlayEnabled == old(overlayEnabled) && overlayPending == old(overlayPending)
      ensures storageReadable && storageWritable ==> GetPreference() == Some(val)
      ensures cookiesAccessible && val != "" && !(storageReadable && PreferenceKey in storage)
              ==> GetPreference() == Some(val)
    {
      if storageWritable {
        storage := storage[PreferenceKey := val];
      }
      SetCookie(PreferenceKey, val, DefaultDays);
    }

    /** `window.__setCrtPreference`: store "1" or "0" and switch both classes. */
    method SetCrtPreference(enabled: bool)
      requires Valid()
      modifies this
      ensures Valid()
      ensures storage == if old(storageWritable)
                         then old(storage)[PreferenceKey := if enabled then EnabledValue else DisabledValue]
                         else old(storage)
      ensures cookies == if old(cookiesAccessible)
                         then StoreCookie(old(cookies), PreferenceKey,
                                          UriComponent.Encode(if enabled then EnabledValue else DisabledValue),
                                          MaxAge(DefaultDays))
                         else old(cookies)
      ensures storageReadable == old(storageReadable) && storageWritable == old(storageWritable)
      ensures cookiesAccessible == old(cookiesAccessible) && overlayPresent == old(overlayPresent)
      ensures crtText == enabled
      ensures overlayEnabled == if overlayPresent then enabled else old(overlayEnabled)
      ensures overlayPending == old(overlayPending)
      ensures (storageReadable && storageWritable)
              || (cookiesAccessible && !(storageReadable && PreferenceKey in storage))
              ==> GetPreference() == Some(if enabled then EnabledValue else DisabledValue)
    {
      SetPreference(if enabled then EnabledValue else DisabledValue);
      crtText := enabled;
      if overlayPresent {
        overlayEnabled := enabled;
      }
    }

    /** The script's top level: "1" switches the classes on (the overlay's once the
        document has loaded, if it is not there yet), "0" switches them off, and any
        other value, or none, changes nothing. */
    method OnLoad()
      requires Valid()
      modifies this
      ensures Valid()
      ensures storage == old(storage) && cookies == old(cookies)
      ensures storageReadable == old(storageReadable) && storageWritable == old(storageWritable)
      ensures cookiesAccessible == old(cookiesAccessible) && overlayPresent == old(overlayPresent)
      ensures old(GetPreference()) == Some(EnabledValue) ==>
        && crtText
        && overlayEnabled == (overlayPresent || old(overlayEnabled))
        && overlayPending == (!overlayPresent || old(overlayPending))
      ensures old(GetPreference()) == Some(DisabledValue) ==>
        && !crtText
        && overlayEnabled == (!overlayPresent && old(overlayEnabled))
        && overlayPending == old(overlayPending)
      ensures old(GetPreference()) != Some(EnabledValue) && old(GetPreference()) != Some(DisabledValue) ==>
        && crtText == old(crtText) && overlayEnabled == old(overlayEnabled)
        && overlayPending == old(overlayPending)
    {
      var v := GetPreference();
      assert EnabledValue != DisabledValue by { assert EnabledValue[0] != DisabledValue[0]; }
      if v == Some(EnabledValue) {
        crtText := true;
        if overlayPresent {
          overlayEnabled := true;
        } else {
          overlayPending := true;
        }
      } else if v == Some(DisabledValue) {
        crtText := false;
        if overlayPresent {
          overlayEnabled := false;
        }
      }
    }

    /** The `DOMContentLoaded` listener, when one was added: the parsed document
        may now hold the overlay container, which then gets `crt-enabled`. */
    method DomContentLoaded(containerPresent: bool)
      requires Valid()
      modifies this
      ensures Valid()
      ensures overlayPresent == containerPresent && !overlayPending
      ensures overlayEnabled == (old(overlayEnabled) || (old(overlayPending) && containerPresent))
      ensures storage == old(storage) && cookies == old(cookies) && crtText == old(crtText)
      ensures storageReadable == old(storageReadable) && storageWritable == old(storageWritable)
      ensures cookiesAccessible == old(cookiesAccessible)
    {
      overlayPresent := containerPresent;
      if overlayPending && overlayPresent {
        overlayEnabled := true;
      }
      overlayPending := false;
    }
  }

  /** Choosing the effect and loading the page again restores it whenever storage
      works, whatever classes the new page's markup starts with. */
  method ReloadRestores(page: Page, enabled: bool, crtText: bool, overlayEnabled: bool)
    returns (reloaded: Page)
    requires page.Valid() && page.storageReadable && page.storageWritable
    modifies page
    ensures reloaded.crtText == enabled
    ensures reloaded.overlayPresent ==> reloaded.overlayEnabled == enabled
    ensures !reloaded.overlayPresent ==> reloaded.overlayPending == enabled
  {
    page.SetCrtPreference(enabled);
    reloaded := new Page(page.storage, page.storageReadable, page.storageWritable,
                         page.cookies, page.cookiesAccessible, crtText, page.overlayPresent, overlayEnabled);
    reloaded.OnLoad();
  }
}
