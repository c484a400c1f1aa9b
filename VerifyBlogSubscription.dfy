/**
 * `GET /api/verify-blog-subscription`: check the token, create a contact
 * for its email, add the contact to the blog segment and send the visitor
 * to the success page; any failure after the token check is a 500.
 */
module VerifyBlogSubscription {
  import opened Wrappers
  import opened JsValues
  import opened Http

  const SuccessPage := "/blog-subscription-success"
  const Failure := Reply(500, "Something went wrong: ")

  /** The request's runtime environment; nothing in it is checked up front. */
  datatype Env = Env(resendApiKey: Option<string>, jwtSecret: Option<string>, blogSegmentId: Option<string>)

  /** `contacts.segments.add({ contactId, segmentId })`. */
  datatype SegmentAdd = SegmentAdd(contactId: string, segmentId: Option<string>)

  /** The foreign calls; the API key goes to the provider as it is, possibly undefined,
      and a created contact's data is its id. */
  datatype Providers = Providers(
    verify: (string, string) -> Option<JsObject>,
    createContact: (Option<string>, JsValue) -> Call<string>,
    addToSegment: (Option<string>, SegmentAdd) -> Call<string>)

  /** The response, the email a contact was requested for, and the segment call made. */
  datatype Outcome = Outcome(response: Response, contactFor: Option<JsValue>, segmentCall: Option<SegmentAdd>)

  /** The secret `new TextEncoder().encode(JWT_SECRET)` sees: an undefined one encodes as empty. */
  function Secret(env: Env): string {
    env.jwtSecret.GetOr("")
  }

  predicate ContactCreated(c: Call<string>) {
    c.Returned? && !c.failed && c.data.Some?
  }

  function HandleGet(token: Option<string>, env: Env, p: Providers): (r: Outcome)
    ensures !IsSet(token) ==> r == Outcome(Reply(400, "Missing token"), None, None)
    ensures IsSet(token) && p.verify(token.value, Secret(env)).None? ==> r == Outcome(Failure, None, None)
    ensures r.contactFor.Some? <==> IsSet(token) && p.verify(token.value, Secret(env)).Some?
    ensures r.contactFor.Some? ==> r.contactFor.value == Get(p.verify(token.value, Secret(env)).value, "email")
    ensures r.segmentCall.Some? <==>
            r.contactFor.Some? && ContactCreated(p.createContact(env.resendApiKey, r.contactFor.value))
    ensures r.segmentCall.Some? ==>
            r.segmentCall.value ==
            SegmentAdd(p.createContact(env.resendApiKey, r.contactFor.value).data.value, env.blogSegmentId)
    ensures r.response.Redirect? <==>
            r.segmentCall.Some? && p.addToSegment(env.resendApiKey, r.segmentCall.value).Returned?
            && !p.addToSegment(env.resendApiKey, r.segmentCall.value).failed
    ensures r.response.Redirect? ==> r.response.location == SuccessPage
    ensures r.response.Reply? && IsSet(token) ==> r.response == Failure
  {
    if !IsSet(token) then Outcome(Reply(400, "Missing token"), None, None)
    else match p.verify(token.value, Secret(env))
      case None => Outcome(Failure, None, None)
      case Some(payload) =>
        var email := Get(payload, "email");
        var created := p.createContact(env.resendApiKey, email);
        if !ContactCreated(created) then Outcome(Failure, Some(email), None)
        else
          var call := SegmentAdd(created.data.value, env.blogSegmentId);
          var added := p.addToSegment(env.resendApiKey, call);
          if added.Returned? && !added.failed then Outcome(Redirect(SuccessPage), Some(email), Some(call))
          else Outcome(Failure, Some(email), Some(call))
  }

  /** The handler makes no configuration check of its own: with every variable unset
      the answer is decided by the provider calls alone, so calls that succeed still
      redirect. (The Resend client itself may refuse a missing key; that refusal is
      one of the call outcomes.) */
  lemma NoConfigurationCheck(token: string, p: Providers, payload: JsObject, id: string)
    requires token != ""
    requires p.verify(token, "") == Some(payload)
    requires p.createContact(None, Get(payload, "email")) == Returned(Some(id), false)
    requires p.addToSegment(None, SegmentAdd(id, None)).Returned?
    requires !p.addToSegment(None, SegmentAdd(id, None)).failed
    ensures HandleGet(Some(token), Env(None, None, None), p).response == Redirect(SuccessPage)
  {
  }

  /** A contact call that returns no contact, even without an error, stops before the segment. */
  lemma MissingContactStops(token: string, env: Env, p: Providers, payload: JsObject)
    requires token != ""
    requires p.verify(token, Secret(env)) == Some(payload)
    requires p.createContact(env.resendApiKey, Get(payload, "email")) == Returned(None, false)
    ensures HandleGet(Some(token), env, p) == Outcome(Failure, Some(Get(payload, "email")), None)
  {
  }
}
