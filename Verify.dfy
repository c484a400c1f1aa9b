/**
 * `GET /api/verify`: check the confirmation token, add its email as a
 * contact and send the visitor to the success page.
 */
module Verify {
  import opened Wrappers
  import opened JsValues
  import opened Http

  const SuccessPage := "/verify-success"

  datatype Config = Config(resendApiKey: Option<string>, jwtSecret: Option<string>)

  predicate Configured(c: Config) {
    IsSet(c.resendApiKey) && IsSet(c.jwtSecret)
  }

  /** The foreign calls: verifying a token with the secret (its payload, or `None`
      when it is invalid or expired and `jwtVerify` throws), and creating a
      contact with the API key. */
  datatype Providers = Providers(
    verify: (string, string) -> Option<JsObject>,
    createContact: (string, JsValue) -> Call<string>)

  /** The response, and the email a contact was requested for, if any. */
  datatype Outcome = Outcome(response: Response, contactFor: Option<JsValue>)

  const InvalidToken := Reply(400, "Invalid or expired token")

  /** `token` is the `token` query parameter, `None` when it is absent. */
  function HandleGet(token: Option<string>, config: Config, p: Providers): (r: Outcome)
    ensures !IsSet(token) ==> r == Outcome(Reply(400, "Missing token"), None)
    ensures IsSet(token) && !Configured(config) ==> r == Outcome(Reply(500, "Server configuration error"), None)
    ensures IsSet(token) && Configured(config) && p.verify(token.value, config.jwtSecret.value).None? ==>
            r == Outcome(InvalidToken, None)
    ensures r.contactFor.Some? <==>
            IsSet(token) && Configured(config) && p.verify(token.value, config.jwtSecret.value).Some?
    ensures r.contactFor.Some? ==>
            r.contactFor.value == Get(p.verify(token.value, config.jwtSecret.value).value, "email")
    ensures r.response.Redirect? <==>
            r.contactFor.Some? && p.createContact(config.resendApiKey.value, r.contactFor.value).Returned?
    ensures r.response.Redirect? ==> r.response.location == SuccessPage
    ensures r.response.Reply? ==> r.response.status in {400, 500}
  {
    if !IsSet(token) then Outcome(Reply(400, "Missing token"), None)
    else if !Configured(config) then Outcome(Reply(500, "Server configuration error"), None)
    else match p.verify(token.value, config.jwtSecret.value)
      case None => Outcome(InvalidToken, None)
      case Some(payload) =>
        var email := Get(payload, "email");
        match p.createContact(config.resendApiKey.value, email)
        case Threw => Outcome(InvalidToken, Some(email))
        case Returned(_, _) => Outcome(Redirect(SuccessPage), Some(email))
  }

  /** A missing token is reported before the configuration is looked at. */
  lemma TokenCheckedFirst(c1: Config, c2: Config, p: Providers)
    ensures HandleGet(None, c1, p) == HandleGet(None, c2, p)
    ensures HandleGet(Some(""), c1, p) == HandleGet(None, c2, p)
  {
  }

  /** An error returned by the contact call is only logged: the visitor is still redirected. */
  lemma ContactErrorOnlyLogged(token: string, config: Config, p: Providers, payload: JsObject)
    requires token != "" && Configured(config)
    requires p.verify(token, config.jwtSecret.value) == Some(payload)
    requires p.createContact(config.resendApiKey.value, Get(payload, "email")).Returned?
    ensures HandleGet(Some(token), config, p) == Outcome(Redirect(SuccessPage), Some(Get(payload, "email")))
  {
  }

  /** A contact call that throws lands in the same handler as a bad token. */
  lemma ThrownContactCallLooksLikeBadToken(token: string, config: Config, p: Providers, payload: JsObject)
    requires token != "" && Configured(config)
    requires p.verify(token, config.jwtSecret.value) == Some(payload)
    requires p.createContact(config.resendApiKey.value, Get(payload, "email")).Threw?
    ensures HandleGet(Some(token), config, p).response == InvalidToken
  {
  }
}
