/**
 * Client construction and request building: the validation NewClient performs
 * on its token and base URL, and the headers NewRequest sets.
 */
module OktaClient {
  import opened Wrappers
  import opened GoStrings
  import opened RateLimit
  import opened Http

  /** The User-Agent a new client sends. */
  const DefaultUserAgent: string := "go-okta"

  /**
   * An Okta API client: its static token, its (caller-adjustable) User-Agent,
   * the base URL every path is resolved against, and its rate-limit table.
   */
  datatype Client = Client(apiToken: string, userAgent: string, baseUrl: Url, rateLimits: RateTable)

  datatype ClientError =
    | TokenMissing
    | BaseUrlMissing
    | BaseUrlUnparsable
    | NoTrailingSlash(baseUrl: Url)
  {
    /** The error text; `%q` of the URL is shown as its text in double quotes, without Go's escaping. */
    function Message(): string {
      match this
      case TokenMissing => "API Token is not present"
      case BaseUrlMissing => "Base URL is not present"
      case BaseUrlUnparsable => "Base URL is not a valid URL"
      case NoTrailingSlash(u) => "BaseURL must have a trailing slash, but \"" + u.text + "\" does not"
    }
  }

  /**
   * NewClient as written. `parsed` is the outcome of url.Parse on the base URL;
   * the code discards the parse error and then reads the path of the nil URL.
   */
  datatype Construction = Built(client: Client) | Rejected(error: ClientError) | NilDereference

  function NewClientAsWritten(apiToken: string, paramBaseUrl: string, parsed: Option<Url>): Construction {
    if |apiToken| == 0 then Rejected(TokenMissing)
    else if |paramBaseUrl| == 0 then Rejected(BaseUrlMissing)
    else
      match parsed
      case None => NilDereference
      case Some(baseUrl) =>
        if !HasSuffix(baseUrl.path, "/") then Rejected(NoTrailingSlash(baseUrl))
        else Built(Client(apiToken, DefaultUserAgent, baseUrl, InitialTable()))
  }

  /**
   * NewClient, with an unparsable base URL reported as an error. A client is
   * built exactly when the token and base URL are present and the parsed path
   * ends in "/"; it then has the default User-Agent and an all-zero rate table.
   */
  function NewClient(apiToken: string, paramBaseUrl: string, parsed: Option<Url>): (r: Result<Client, ClientError>)
    ensures r.Ok? <==> |apiToken| > 0 && |paramBaseUrl| > 0 && parsed.Some? && HasSuffix(parsed.value.path, "/")
    ensures r.Ok? ==> && r.value.apiToken == apiToken
                      && r.value.userAgent == "go-okta"
                      && r.value.baseUrl == parsed.value
                      && forall c :: RateLimit.Get(r.value.rateLimits, c) == ZeroRate
    ensures |apiToken| == 0 ==> r == Err(TokenMissing)
    ensures |apiToken| > 0 && |paramBaseUrl| == 0 ==> r == Err(BaseUrlMissing)
  {
    if |apiToken| == 0 then Err(TokenMissing)
    else if |paramBaseUrl| == 0 then Err(BaseUrlMissing)
    else
      match parsed
      case None => Err(BaseUrlUnparsable)
      case Some(baseUrl) =>
        if !HasSuffix(baseUrl.path, "/") then Err(NoTrailingSlash(baseUrl))
        else Ok(Client(apiToken, DefaultUserAgent, baseUrl, InitialTable()))
  }

  /** The code dereferences nil whenever the token and base URL are present but the URL does not parse. */
  lemma NewClientAsWrittenNilDereference(apiToken: string, paramBaseUrl: string)
    requires |apiToken| > 0 && |paramBaseUrl| > 0
    ensures NewClientAsWritten(apiToken, paramBaseUrl, None) == NilDereference
    ensures NewClient(apiToken, paramBaseUrl, None) == Err(BaseUrlUnparsable)
  {
  }

  /** On every input the code handles, the corrected NewClient decides the same way. */
  lemma NewClientAgrees(apiToken: string, paramBaseUrl: string, parsed: Option<Url>)
    requires NewClientAsWritten(apiToken, paramBaseUrl, parsed) != NilDereference
    ensures NewClientAsWritten(apiToken, paramBaseUrl, parsed)
         == match NewClient(apiToken, paramBaseUrl, parsed)
            case Ok(c) => Built(c)
            case Err(e) => Rejected(e)
  {
  }

  /** The request-side failure: the relative URL does not resolve against the base URL. */
  datatype RequestError = UnresolvableUrl(urlStr: string)

  /** The headers NewRequest sets: Content-Type only with a body, always Accept, User-Agent when non-empty. */
  function RequestHeaders(hasBody: bool, userAgent: string): map<string, string> {
    var h0: map<string, string> := map[];
    var h1 := if hasBody then h0["Content-Type" := "application/json"] else h0;
    var h2 := h1["Accept" := "application/json"];
    if userAgent != "" then h2["User-Agent" := userAgent] else h2
  }

  /**
   * NewRequest: resolves `urlStr` against the base URL and sets the JSON
   * headers. `resolve` stands for BaseURL.Parse followed by String().
   */
  function NewRequest<B>(c: Client, verb: Method, urlStr: string, body: Option<B>, resolve: UrlResolver)
    : (r: Result<Request<B>, RequestError>)
    ensures r.Err? <==> resolve(c.baseUrl, urlStr).None?
    ensures r.Ok? ==> && r.value.url == resolve(c.baseUrl, urlStr).value
                      && r.value.verb == verb
                      && r.value.body == body
    ensures r.Ok? ==> var h := r.value.header;
      && ("Content-Type" in h <==> body.Some?)
      && ("Content-Type" in h ==> h["Content-Type"] == "application/json")
      && "Accept" in h && h["Accept"] == "application/json"
      && ("User-Agent" in h <==> c.userAgent != "")
      && ("User-Agent" in h ==> h["User-Agent"] == c.userAgent)
      && h.Keys <= {"Content-Type", "Accept", "User-Agent"}
  {
    match resolve(c.baseUrl, urlStr)
    case None => Err(UnresolvableUrl(urlStr))
    case Some(u) => Ok(Request(verb, u, RequestHeaders(body.Some?, c.userAgent), body))
  }
}
