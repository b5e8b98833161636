/** The shared-secret guard `requireApiKey` (middleware.js; server.js holds an
    identical copy). It sits in front of the mutating routes and either passes
    the request on (`next()`) or answers it. */
module Middleware {
  import opened JsValues
  import opened Http

  /** Where a caller may present a key: the `x-api-key` header and the
      `api_key` query parameter, each possibly absent. */
  datatype Credentials = Credentials(header: Option<string>, query: Option<string>)

  datatype GuardOutcome = Next | Deny(response: HttpResponse)

  const NotConfigured: HttpResponse := HttpResponse(500, Error("Server configuration error: API key not set"))
  const KeyRequired: HttpResponse := HttpResponse(401, Error("API key required"))
  const KeyInvalid: HttpResponse := HttpResponse(403, Error("Invalid API key"))

  /** `req.headers['x-api-key'] || req.query.api_key`. */
  function PresentedKey(c: Credentials): Option<string> {
    OrElse(c.header, c.query)
  }

  /** `requireApiKey`, with `secret` standing for `process.env.API_KEY`. */
  function RequireApiKey(c: Credentials, secret: Option<string>): (g: GuardOutcome)
    ensures g == Next <==> Present(secret) && PresentedKey(c) == secret
    ensures !Present(secret) ==> g == Deny(NotConfigured)
    ensures Present(secret) && !Present(PresentedKey(c)) ==> g == Deny(KeyRequired)
    ensures Present(secret) && Present(PresentedKey(c)) && PresentedKey(c) != secret ==> g == Deny(KeyInvalid)
  {
    if !Present(secret) then Deny(NotConfigured)
    else if !Present(PresentedKey(c)) then Deny(KeyRequired)
    else if PresentedKey(c) != secret then Deny(KeyInvalid)
    else Next
  }

  /** The configuration check comes first: with no usable secret the answer is
      500 whatever the caller sends, even a key equal to the empty secret. */
  lemma ConfigurationCheckedFirst(c: Credentials, c': Credentials, secret: Option<string>)
    requires !Present(secret)
    ensures RequireApiKey(c, secret) == RequireApiKey(c', secret) == Deny(NotConfigured)
  {
  }

  /** A non-empty header wins over the query parameter; an empty or absent
      header falls back to it. */
  lemma HeaderTakesPrecedence(c: Credentials, secret: Option<string>)
    ensures Present(c.header) ==> RequireApiKey(c, secret) == RequireApiKey(Credentials(c.header, None), secret)
    ensures !Present(c.header) ==> RequireApiKey(c, secret) == RequireApiKey(Credentials(None, c.query), secret)
  {
  }

  /** The three refusals are told apart by their status alone. */
  lemma DenialStatus(c: Credentials, secret: Option<string>)
    ensures RequireApiKey(c, secret).Deny? ==>
      var s := RequireApiKey(c, secret).response.status;
      (s == 500 <==> !Present(secret)) &&
      (s == 401 <==> Present(secret) && !Present(PresentedKey(c))) &&
      (s == 403 <==> Present(secret) && Present(PresentedKey(c)) && PresentedKey(c) != secret)
  {
  }
}
