/**
 * The cookie side of the CRT preference script: the browser's cookie jar as
 * it appears through `document.cookie` (name=value pairs joined by "; ", as
 * section 5.4 of RFC 6265 prescribes), the jar update an assignment makes,
 * and the `getCookie` lookup, which runs the regular expression
 * `(?:^|; )key=([^;]+)` over that string.
 */
module Cookies {
  import opened Wrappers
  import opened Strings

  datatype Cookie = Cookie(name: string, value: string)

  /** A cookie name as this script writes it: non-empty, without `;` or `=`. */
  predicate IsCookieName(n: string) {
    n != [] && forall k :: 0 <= k < |n| ==> n[k] != ';' && n[k] != '='
  }

  /** A name already known to be well formed. */
  type CookieName = n: string | IsCookieName(n) witness "n"

  predicate IsCookieValue(v: string) {
    forall k :: 0 <= k < |v| ==> v[k] != ';'
  }

  /** Names are well formed and unique, values hold no `;`. */
  predicate WellFormedJar(jar: seq<Cookie>) {
    && (forall i :: 0 <= i < |jar| ==> IsCookieName(jar[i].name) && IsCookieValue(jar[i].value))
    && (forall i, j :: 0 <= i < j < |jar| ==> jar[i].name != jar[j].name)
  }

  function PairText(c: Cookie): string {
    c.name + "=" + c.value
  }

  /** `document.cookie` as the page reads it. */
  function Serialize(jar: seq<Cookie>): string {
    if jar == [] then "" else PairText(jar[0]) + (if |jar| == 1 then "" else "; " + Serialize(jar[1..]))
  }

  /** What follows the first pair. */
  function Tail(rest: seq<Cookie>): string {
    if rest == [] then "" else "; " + Serialize(rest)
  }

  /** The jar's value for a name. */
  function Lookup(jar: seq<Cookie>, name: string): (r: Option<string>)
    ensures r.Some? <==> exists i :: 0 <= i < |jar| && jar[i].name == name
    ensures r.Some? ==> exists i :: 0 <= i < |jar| && jar[i] == Cookie(name, r.value)
  {
    if jar == [] then None
    else if jar[0].name == name then Some(jar[0].value)
    else
      assert forall i :: 1 <= i < |jar| ==> jar[i] == jar[1..][i - 1];
      Lookup(jar[1..], name)
  }

  /** Storing a cookie: an existing one of that name keeps its place and takes the new value;
      otherwise the cookie is added last. */
  function Upsert(jar: seq<Cookie>, name: string, value: string): (r: seq<Cookie>)
    requires WellFormedJar(jar) && IsCookieName(name) && IsCookieValue(value)
    ensures WellFormedJar(r)
    ensures forall m :: Lookup(r, m) == if m == name then Some(value) else Lookup(jar, m)
  {
    if jar == [] then [Cookie(name, value)]
    else if jar[0].name == name then
      assert Lookup(jar[1..], name).None?;
      [Cookie(name, value)] + jar[1..]
    else
      var r' := Upsert(jar[1..], name, value);
      FirstNameNotInRest(jar);
      assert Lookup(r', jar[0].name).None?;
      ConsWellFormed(jar[0], r');
      [jar[0]] + r'
  }

  /** A cookie whose name is not in a well-formed jar can go in front of it. */
  lemma ConsWellFormed(c: Cookie, jar: seq<Cookie>)
    requires WellFormedJar(jar) && IsCookieName(c.name) && IsCookieValue(c.value)
    requires Lookup(jar, c.name).None?
    ensures WellFormedJar([c] + jar)
  {
    var r := [c] + jar;
    forall i, j | 0 <= i < j < |r| ensures r[i].name != r[j].name {
      if i == 0 {
        assert r[j] == jar[j - 1];
      } else {
        assert r[i] == jar[i - 1] && r[j] == jar[j - 1];
      }
    }
  }

  /** The rest of a well-formed jar does not hold its first cookie's name. */
  lemma FirstNameNotInRest(jar: seq<Cookie>)
    requires WellFormedJar(jar) && jar != []
    ensures Lookup(jar[1..], jar[0].name).None?
  {
    forall i | 1 <= i < |jar| ensures jar[i].name != jar[0].name { }
    assert forall i :: 0 <= i < |jar[1..]| ==> jar[1..][i] == jar[i + 1];
  }

  /** Deleting a cookie (an assignment whose max-age is not positive). */
  function Remove(jar: seq<Cookie>, name: string): (r: seq<Cookie>)
    requires WellFormedJar(jar)
    ensures WellFormedJar(r)
    ensures forall m :: Lookup(r, m) == if m == name then None else Lookup(jar, m)
  {
    if jar == [] then []
    else if jar[0].name == name then
      assert Lookup(jar[1..], name).None?;
      jar[1..]
    else
      var r' := Remove(jar[1..], name);
      FirstNameNotInRest(jar);
      assert Lookup(r', jar[0].name).None?;
      ConsWellFormed(jar[0], r');
      [jar[0]] + r'
  }

  /** The jar after assigning `name=value; max-age=maxAge` (RFC 6265 section 5.3). */
  function StoreCookie(jar: seq<Cookie>, name: string, value: string, maxAge: int): (r: seq<Cookie>)
    requires WellFormedJar(jar) && IsCookieName(name) && IsCookieValue(value)
    ensures WellFormedJar(r)
    ensures Lookup(r, name) == if maxAge > 0 then Some(value) else None
    ensures forall m :: m != name ==> Lookup(r, m) == Lookup(jar, m)
  {
    if maxAge <= 0 then Remove(jar, name) else Upsert(jar, name, value)
  }

  // ---------------------------------------------------------------------
  // Reading: (?:^|; )key=([^;]+)
  // ---------------------------------------------------------------------

  /** The regular expression can match with `key=` starting at index p. */
  predicate PairStartsAt(s: string, key: string, p: nat) {
    && (p == 0 || (2 <= p <= |s| && s[p - 2] == ';' && s[p - 1] == ' '))
    && OccursAt(s, key + "=", p)
    && p + |key| + 1 < |s| && s[p + |key| + 1] != ';'
  }

  /** Where `[^;]+` stops: the next `;` at or after i, or the end. */
  function ValueEnd(s: string, i: nat): (r: nat)
    requires i <= |s|
    ensures i <= r <= |s|
    ensures r < |s| ==> s[r] == ';'
    ensures forall k :: i <= k < r ==> s[k] != ';'
  {
    match FirstIndexIn(s, ';', i, |s|)
    case None => |s|
    case Some(k) => k
  }

  function ValueAt(s: string, key: string, p: nat): string
    requires p + |key| + 1 <= |s|
  {
    s[p + |key| + 1..ValueEnd(s, p + |key| + 1)]
  }

  /** The leftmost match position at or after `from`. */
  function FirstPairFrom(s: string, key: string, from: nat): (r: Option<nat>)
    ensures r.Some? ==> from <= r.value && PairStartsAt(s, key, r.value)
    ensures r.Some? ==> forall q :: from <= q < r.value ==> !PairStartsAt(s, key, q)
    ensures r.None? ==> forall q :: from <= q ==> !PairStartsAt(s, key, q)
    decreases |s| - from
  {
    if from >= |s| then None
    else if PairStartsAt(s, key, from) then Some(from)
    else FirstPairFrom(s, key, from + 1)
  }

  /** The text `getCookie` hands to `decodeURIComponent`: the non-empty run up to the next `;`
      of the first matching pair. */
  function FindCookieValue(s: string, key: string): (r: Option<string>)
    ensures r.Some? ==> r.value != [] && IsCookieValue(r.value)
    ensures r.None? <==> forall q :: !PairStartsAt(s, key, q)
  {
    match FirstPairFrom(s, key, 0)
    case None => None
    case Some(p) => Some(ValueAt(s, key, p))
  }

  /** A match at the start of a pair names that pair's cookie. */
  lemma NameOfMatch(c: Cookie, t: string, key: string)
    requires IsCookieName(c.name) && IsCookieName(key)
    requires OccursAt(PairText(c) + t, key + "=", 0)
    ensures c.name == key
  {
    var s := PairText(c) + t;
    var n := |c.name|;
    assert s[..|key| + 1] == key + "=";
    assert s[|key|] == '=' && s[n] == '=';
    // Neither name holds `=`, so the first `=` ends both.
    assert |key| == n;
    assert s[..n] == c.name;
    assert s[..n] == key;
  }

  /** Where the serialised jar can match: at its first pair exactly when that pair is the key's. */
  lemma PairAtHead(c: Cookie, t: string, key: string)
    requires IsCookieName(c.name) && IsCookieValue(c.value) && IsCookieName(key)
    requires t == "" || t[0] == ';'
    ensures PairStartsAt(PairText(c) + t, key, 0) <==> c.name == key && c.value != ""
    ensures c.name == key && c.value != "" ==> ValueAt(PairText(c) + t, key, 0) == c.value
  {
    var s := PairText(c) + t;
    var n := |c.name|;
    if OccursAt(s, key + "=", 0) {
      NameOfMatch(c, t, key);
    }
    if c.name == key {
      assert OccursAt(s, key + "=", 0) by { assert s[..|key| + 1] == key + "="; }
      if c.value != "" {
        assert s[n + 1] == c.value[0];
        var e := ValueEnd(s, n + 1);
        assert forall k :: n + 1 <= k < |PairText(c)| ==> s[k] == c.value[k - n - 1];
        assert |PairText(c)| < |s| ==> s[|PairText(c)|] == ';';
        assert e == |PairText(c)|;
        assert s[n + 1..e] == c.value;
      } else {
        assert n + 1 == |PairText(c)|;
      }
    }
  }

  lemma NoPairInside(a: string, t: string, key: string, p: nat)
    requires forall k :: 0 <= k < |a| ==> a[k] != ';'
    requires t == "" || (|t| >= 2 && t[..2] == "; ")
    requires 0 < p < |a| + 2
    ensures !PairStartsAt(a + t, key, p)
  {
  }

  lemma PairShift(a: string, b: string, key: string, q: nat)
    ensures PairStartsAt(a + "; " + b, key, |a| + 2 + q) <==> PairStartsAt(b, key, q)
  {
    var s := a + "; " + b;
    var d := |a| + 2;
    assert s[d..] == b;
    assert s[d - 2] == ';' && s[d - 1] == ' ';
    if 2 <= q <= |b| {
      assert s[d + q - 2] == b[q - 2] && s[d + q - 1] == b[q - 1];
    }
    if d + q + |key| + 1 <= |s| {
      assert s[d + q..d + q + |key| + 1] == b[q..q + |key| + 1];
    }
    if d + q + |key| + 1 < |s| {
      assert s[d + q + |key| + 1] == b[q + |key| + 1];
    }
  }

  /** The end of a value is the first `;` from where it starts, or the end of the text. */
  lemma ValueEndUnique(s: string, i: nat, e: nat)
    requires i <= e <= |s|
    requires forall k :: i <= k < e ==> s[k] != ';'
    requires e < |s| ==> s[e] == ';'
    ensures ValueEnd(s, i) == e
  {
  }

  /** Behind any prefix, a value reads as it does in the text that follows. */
  lemma ValueBehindPrefix(pre: string, b: string, key: string, q: nat)
    requires q + |key| + 1 <= |b|
    ensures ValueAt(pre + b, key, |pre| + q) == ValueAt(b, key, q)
  {
    var s := pre + b;
    var d := |pre|;
    var i := q + |key| + 1;
    var e := ValueEnd(b, i);
    forall k | d + i <= k < d + e ensures s[k] != ';' {
      assert s[k] == b[k - d];
    }
    if d + e < |s| {
      assert s[d + e] == b[e];
    }
    ValueEndUnique(s, d + i, d + e);
    assert s[d + i..d + e] == b[i..e];
  }

  lemma ValueShift(a: string, b: string, key: string, q: nat)
    requires q + |key| + 1 <= |b|
    ensures ValueAt(a + "; " + b, key, |a| + 2 + q) == ValueAt(b, key, q)
  {
    ValueBehindPrefix(a + "; ", b, key, q);
  }

  /** Positions where nothing matches can be skipped. */
  lemma {:induction false} SkipNonPairs(s: string, key: string, lo: nat, hi: nat)
    requires lo <= hi
    requires forall q :: lo <= q < hi ==> !PairStartsAt(s, key, q)
    ensures FirstPairFrom(s, key, lo) == FirstPairFrom(s, key, hi)
    decreases hi
  {
    if lo < hi {
      SkipNonPairs(s, key, lo, hi - 1);
      if hi - 1 < |s| {
        assert !PairStartsAt(s, key, hi - 1);
      }
    }
  }

  /** Searching after the first pair is searching the rest of the jar. */
  lemma {:induction false} FirstPairShift(a: string, b: string, key: string, q: nat)
    ensures FirstPairFrom(a + "; " + b, key, |a| + 2 + q)
         == match FirstPairFrom(b, key, q) case None => None case Some(p) => Some(|a| + 2 + p)
    decreases |b| - q
  {
    PairShift(a, b, key, q);
    if q < |b| && !PairStartsAt(b, key, q) {
      FirstPairShift(a, b, key, q + 1);
    }
  }

  /** The jar's value for `key` as the lookup sees it through the regular
      expression: an empty value does not match `[^;]+`. */
  function VisibleValue(jar: seq<Cookie>, key: string): Option<string> {
    match Lookup(jar, key)
    case Some(v) => if v == "" then None else Some(v)
    case None => None
  }

  lemma SerializeHead(jar: seq<Cookie>)
    requires jar != []
    ensures Serialize(jar) == PairText(jar[0]) + Tail(jar[1..])
  {
  }

  /** A well-formed cookie's pair text holds no `;`. */
  lemma PairTextAvoidsSemicolon(c: Cookie)
    requires IsCookieName(c.name) && IsCookieValue(c.value)
    ensures forall k :: 0 <= k < |PairText(c)| ==> PairText(c)[k] != ';'
  {
    var a := PairText(c);
    forall k | 0 <= k < |a| ensures a[k] != ';' {
      if k < |c.name| { assert a[k] == c.name[k]; }
      else if k > |c.name| { assert a[k] == c.value[k - |c.name| - 1]; }
    }
  }

  /** The rest of a well-formed jar is well formed and does not repeat the first name. */
  lemma RestWellFormed(jar: seq<Cookie>)
    requires WellFormedJar(jar) && jar != []
    ensures WellFormedJar(jar[1..])
    ensures forall i :: 0 <= i < |jar[1..]| ==> jar[1..][i].name != jar[0].name
  {
    assert forall i :: 0 <= i < |jar[1..]| ==> jar[1..][i] == jar[i + 1];
  }

  lemma HeadFacts(jar: seq<Cookie>)
    requires WellFormedJar(jar) && jar != []
    ensures Serialize(jar) == PairText(jar[0]) + Tail(jar[1..])
    ensures forall k :: 0 <= k < |PairText(jar[0])| ==> PairText(jar[0])[k] != ';'
    ensures WellFormedJar(jar[1..])
    ensures forall i :: 0 <= i < |jar[1..]| ==> jar[1..][i].name != jar[0].name
  {
    SerializeHead(jar);
    assert IsCookieName(jar[0].name) && IsCookieValue(jar[0].value);
    PairTextAvoidsSemicolon(jar[0]);
    RestWellFormed(jar);
  }

  /** A `;`-free text without a match at its start has no match at all. */
  lemma FindInSinglePair(a: string, key: string)
    requires forall k :: 0 <= k < |a| ==> a[k] != ';'
    requires !PairStartsAt(a, key, 0)
    ensures FindCookieValue(a, key).None?
  {
    forall p | 0 < p < |a| + 2 ensures !PairStartsAt(a, key, p) {
      NoPairInside(a, "", key, p);
      assert a + "" == a;
    }
    SkipNonPairs(a, key, 0, |a| + 2);
  }

  /** Inside a `;`-free first pair and its separator nothing matches. */
  lemma NoPairBeforeRest(a: string, b: string, key: string)
    requires forall k :: 0 <= k < |a| ==> a[k] != ';'
    ensures forall p :: 0 < p < |a| + 2 ==> !PairStartsAt(a + "; " + b, key, p)
  {
    forall p | 0 < p < |a| + 2 ensures !PairStartsAt(a + "; " + b, key, p) {
      NoPairInside(a, "; " + b, key, p);
      assert a + ("; " + b) == a + "; " + b;
    }
  }

  /** Past a `;`-free first pair that does not match, the first match is the rest's, shifted. */
  lemma FirstPairPastPair(a: string, b: string, key: string)
    requires forall k :: 0 <= k < |a| ==> a[k] != ';'
    requires !PairStartsAt(a + "; " + b, key, 0)
    ensures FirstPairFrom(a + "; " + b, key, 0)
         == match FirstPairFrom(b, key, 0) case None => None case Some(p) => Some(|a| + 2 + p)
  {
    NoPairBeforeRest(a, b, key);
    SkipNonPairs(a + "; " + b, key, 0, |a| + 2);
    FirstPairShift(a, b, key, 0);
  }

  lemma FindPastPair(a: string, b: string, key: string)
    requires forall k :: 0 <= k < |a| ==> a[k] != ';'
    requires !PairStartsAt(a + "; " + b, key, 0)
    ensures FindCookieValue(a + "; " + b, key) == FindCookieValue(b, key)
  {
    var s := a + "; " + b;
    FirstPairPastPair(a, b, key);
    match FirstPairFrom(b, key, 0)
    case None =>
      assert FirstPairFrom(s, key, 0) == None;
    case Some(p) =>
      assert FirstPairFrom(s, key, 0) == Some(|a| + 2 + p);
      assert p + |key| + 1 <= |b| by { assert PairStartsAt(b, key, p); }
      ValueShift(a, b, key, p);
  }

  /** When the first pair does not match, the search goes on in the rest of the jar. */
  lemma FindAfterHead(jar: seq<Cookie>, key: string)
    requires WellFormedJar(jar) && IsCookieName(key) && jar != []
    requires !(jar[0].name == key && jar[0].value != "")
    ensures FindCookieValue(Serialize(jar), key)
         == if |jar| == 1 then None else FindCookieValue(Serialize(jar[1..]), key)
  {
    HeadFacts(jar);
    if |jar| == 1 {
      FindAfterOnlyPair(jar, key);
    } else {
      FindAfterFirstPair(jar, key);
    }
  }

  lemma FindAfterOnlyPair(jar: seq<Cookie>, key: string)
    requires WellFormedJar(jar) && IsCookieName(key) && |jar| == 1
    requires !(jar[0].name == key && jar[0].value != "")
    ensures FindCookieValue(Serialize(jar), key).None?
  {
    var c := jar[0];
    var a := PairText(c);
    HeadFacts(jar);
    assert IsCookieName(c.name) && IsCookieValue(c.value);
    PairAtHead(c, "", key);
    assert Serialize(jar) == a + "" == a;
    FindInSinglePair(a, key);
  }

  lemma FindAfterFirstPair(jar: seq<Cookie>, key: string)
    requires WellFormedJar(jar) && IsCookieName(key) && |jar| > 1
    requires !(jar[0].name == key && jar[0].value != "")
    ensures FindCookieValue(Serialize(jar), key) == FindCookieValue(Serialize(jar[1..]), key)
  {
    var c, rest := jar[0], jar[1..];
    var a, b := PairText(c), Serialize(rest);
    HeadFacts(jar);
    assert IsCookieName(c.name) && IsCookieValue(c.value);
    assert Tail(rest) == "; " + b;
    PairAtHead(c, "; " + b, key);
    assert Serialize(jar) == a + "; " + b;
    FindPastPair(a, b, key);
  }

  /** `getCookie`'s match on `document.cookie` finds exactly the jar's non-empty value for the key. */
  lemma {:induction false} FindInSerialized(jar: seq<Cookie>, key: string)
    requires WellFormedJar(jar) && IsCookieName(key)
    ensures FindCookieValue(Serialize(jar), key) == VisibleValue(jar, key)
  {
    if jar == [] {
      assert FirstPairFrom(Serialize(jar), key, 0).None?;
    } else {
      var c, rest := jar[0], jar[1..];
      HeadFacts(jar);
      if c.name == key && c.value != "" {
        PairAtHead(c, Tail(rest), key);
        assert FirstPairFrom(Serialize(jar), key, 0) == Some(0);
      } else {
        FindAfterHead(jar, key);
        if rest != [] {
          FindInSerialized(rest, key);
        }
        if c.name == key {
          assert Lookup(rest, key).None?;
        } else {
          assert Lookup(jar, key) == Lookup(rest, key);
        }
      }
    }
  }

  /** Reading a cookie back right after storing it with a positive max-age. */
  lemma StoreThenFind(jar: seq<Cookie>, name: string, value: string, maxAge: int)
    requires WellFormedJar(jar) && IsCookieName(name) && IsCookieValue(value)
    ensures FindCookieValue(Serialize(StoreCookie(jar, name, value, maxAge)), name)
         == if maxAge > 0 && value != "" then Some(value) else None
  {
    FindInSerialized(StoreCookie(jar, name, value, maxAge), name);
  }
}
