/**
 * `POST /api/subscribe`: check the configuration, read the email from the
 * JSON body, check its shape, sign a token carrying it and mail a link that
 * confirms the subscription.
 */
module Subscribe {
  import opened Wrappers
  import opened Strings
  import opened JsValues
  import opened Http

  const DefaultSiteUrl := "https://sun-envidiado.com"
  const Sender := "Sun Envidiado's Blogs <blogs@sun-envidiado.com>"
  const Subject := "Confirm your subscription \U{2013} Sun Envidiado's Blogs"
  const VerifyPath := "/api/verify?token="

  /** The strings `^\S+@\S+\.\S+$` matches: no whitespace anywhere (every character is
      matched by `\S` or a literal), an `@` after at least one character, then a `.`
      after at least one more, then at least one character. */
  predicate MatchesEmailPattern(s: string) {
    && (forall k :: 0 <= k < |s| ==> !IsWhitespace(s[k]))
    && exists i, j :: 0 < i && i + 1 < j && j + 1 < |s| && s[i] == '@' && s[j] == '.'
  }

  /** A direct check: the first `@` past the start, then a `.` somewhere after the
      character that follows it and before the last character. */
  predicate IsEmailShaped(s: string) {
    && (forall k :: 0 <= k < |s| ==> !IsWhitespace(s[k]))
    && |s| >= 1
    && var at := FirstIndexIn(s, '@', 1, |s|);
       && at.Some?
       && at.value + 2 <= |s| - 1
       && LastIndexIn(s, '.', at.value + 2, |s| - 1).Some?
  }

  /** The direct check accepts exactly what the pattern matches. */
  lemma EmailShapedIffPattern(s: string)
    ensures IsEmailShaped(s) <==> MatchesEmailPattern(s)
  {
    if IsEmailShaped(s) {
      var i := FirstIndexIn(s, '@', 1, |s|).value;
      var j := LastIndexIn(s, '.', i + 2, |s| - 1).value;
      assert 0 < i && i + 1 < j && j + 1 < |s| && s[i] == '@' && s[j] == '.';
    }
    if MatchesEmailPattern(s) {
      var i, j :| 0 < i && i + 1 < j && j + 1 < |s| && s[i] == '@' && s[j] == '.';
      var at := FirstIndexIn(s, '@', 1, |s|);
      assert at.Some? && at.value <= i;
      assert LastIndexIn(s, '.', at.value + 2, |s| - 1).Some?;
    }
  }

  /** A second `@` is accepted, as \S matches it. */
  lemma TwoAtSignsAccepted()
    ensures MatchesEmailPattern("a@b@c.d")
  {
    var s := "a@b@c.d";
    assert 0 < 1 && 1 + 1 < 5 && 5 + 1 < |s| && s[1] == '@' && s[5] == '.';
  }

  /** Nothing before the `@`, nothing between `@` and `.`, or a space: rejected. */
  lemma MalformedRejected()
    ensures !MatchesEmailPattern("@b.c")
    ensures !MatchesEmailPattern("a@.c")
    ensures !MatchesEmailPattern("a b@c.d")
  {
    assert "a b@c.d"[1] == ' ';
  }

  datatype Config = Config(resendApiKey: Option<string>, jwtSecret: Option<string>, publicSiteUrl: Option<string>)

  predicate Configured(c: Config) {
    IsSet(c.resendApiKey) && IsSet(c.jwtSecret)
  }

  /** `PUBLIC_SITE_URL || 'https://sun-envidiado.com'`. */
  function SiteUrl(c: Config): (r: string)
    ensures IsSet(c.publicSiteUrl) ==> r == c.publicSiteUrl.value
    ensures !IsSet(c.publicSiteUrl) ==> r == DefaultSiteUrl
  {
    if IsSet(c.publicSiteUrl) then c.publicSiteUrl.value else DefaultSiteUrl
  }

  /** `await request.json()` then `const { email } = ...`: the body does not parse, or
      parses to `null` (destructuring throws), or has the `email` property given
      (`Undefined` when absent). */
  datatype JsonBody = Malformed | JsonNull | JsonValue(email: JsValue)

  /** The message handed to the provider; the HTML around the link is left out. */
  datatype VerificationEmail = VerificationEmail(from: string, to: JsValue, subject: string, verifyUrl: string)

  /** The foreign calls: signing a 24-hour HS256 token for `{ email }` with the
      secret (`None`: it throws), sending with the API key, and `String(v)` for
      a non-string email. */
  datatype Providers = Providers(
    sign: (JsValue, string) -> Option<string>,
    send: (string, VerificationEmail) -> Call<string>,
    otherText: JsValue -> string)

  /** `email && /^\S+@\S+\.\S+$/.test(email)`. */
  predicate ValidEmail(email: JsValue, otherText: JsValue -> string) {
    Truthy(email) && MatchesEmailPattern(ToText(email, otherText))
  }

  /** The link in the email: the token is appended as it is, without encoding. */
  function VerifyUrl(site: string, token: string): (r: string)
    ensures StartsWith(r, site) && EndsWith(r, token)
    ensures |r| == |site| + |VerifyPath| + |token|
    ensures r[|site|..|site| + |VerifyPath|] == VerifyPath
  {
    site + VerifyPath + token
  }

  /** The response, and the email handed to the provider if any. */
  datatype Outcome = Outcome(response: Response, sent: Option<VerificationEmail>)

  const InternalError := Reply(500, JsonMessage("Internal server error"))

  function HandlePost(config: Config, body: JsonBody, p: Providers): (r: Outcome)
    ensures !Configured(config) ==> r == Outcome(Reply(500, JsonMessage("Server configuration error")), None)
    ensures Configured(config) && !body.JsonValue? ==> r == Outcome(InternalError, None)
    ensures Configured(config) && body.JsonValue? && !ValidEmail(body.email, p.otherText) ==>
            r == Outcome(Reply(400, JsonMessage("Invalid email address")), None)
    ensures r.sent.Some? <==>
            Configured(config) && body.JsonValue? && ValidEmail(body.email, p.otherText)
            && p.sign(body.email, config.jwtSecret.value).Some?
    ensures r.sent.Some? ==>
            r.sent.value == VerificationEmail(Sender, body.email, Subject,
                              VerifyUrl(SiteUrl(config), p.sign(body.email, config.jwtSecret.value).value))
    ensures StatusOf(r.response) == 200 <==>
            r.sent.Some? && p.send(config.resendApiKey.value, r.sent.value).Returned?
            && !p.send(config.resendApiKey.value, r.sent.value).failed
    ensures r.sent.Some? && p.send(config.resendApiKey.value, r.sent.value).Returned?
            && p.send(config.resendApiKey.value, r.sent.value).failed ==>
            r.response == Reply(500, JsonMessage("Failed to send verification email"))
    ensures Configured(config) && body.JsonValue? && ValidEmail(body.email, p.otherText)
            && p.sign(body.email, config.jwtSecret.value).None? ==>
            r == Outcome(InternalError, None)
    ensures r.sent.Some? && p.send(config.resendApiKey.value, r.sent.value).Threw? ==> r.response == InternalError
    ensures StatusOf(r.response) == 200 ==> r.response == Reply(200, JsonMessage("Verification email sent"))
    ensures StatusOf(r.response) in {200, 400, 500}
  {
    if !Configured(config) then Outcome(Reply(500, JsonMessage("Server configuration error")), None)
    else match body
      case Malformed => Outcome(InternalError, None)
      case JsonNull => Outcome(InternalError, None)
      case JsonValue(email) =>
        if !ValidEmail(email, p.otherText) then Outcome(Reply(400, JsonMessage("Invalid email address")), None)
        else match p.sign(email, config.jwtSecret.value)
          case None => Outcome(InternalError, None)
          case Some(token) =>
            var message := VerificationEmail(Sender, email, Subject, VerifyUrl(SiteUrl(config), token));
            var response :=
              match p.send(config.resendApiKey.value, message)
              case Threw => InternalError
              case Returned(_, failed) =>
                if failed then Reply(500, JsonMessage("Failed to send verification email"))
                else Reply(200, JsonMessage("Verification email sent"));
            Outcome(response, Some(message))
  }

  /** The configuration is checked before the body is read: without it, the body does not matter. */
  lemma ConfigurationCheckedFirst(config: Config, b1: JsonBody, b2: JsonBody, p: Providers)
    requires !Configured(config)
    ensures HandlePost(config, b1, p) == HandlePost(config, b2, p)
  {
  }

  /** An answer of 400 means the email was rejected and nothing was sent. */
  lemma BadRequestSendsNothing(config: Config, body: JsonBody, p: Providers)
    requires StatusOf(HandlePost(config, body, p).response) == 400
    ensures HandlePost(config, body, p).sent.None?
    ensures body.JsonValue? && !ValidEmail(body.email, p.otherText)
  {
  }
}
