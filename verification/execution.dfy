/**
 * Executing a request: the rate-limit bookkeeping around one exchange, the
 * classification of the reply, and the decoding of a successful body.
 *
 * `Do` is a pure step from the client's rate table to the next one. The
 * network exchange, the clock and the url/json library calls are parameters.
 */
module Execution {
  import opened Wrappers
  import opened GoStrings
  import opened GoTime
  import opened RateLimit
  import opened Http
  import opened Errors
  import opened Paging
  import opened OktaClient

  const HeaderRateLimit: string := "X-Rate-Limit-Limit"
  const HeaderRateRemaining: string := "X-Rate-Limit-Remaining"
  const HeaderRateReset: string := "X-Rate-Limit-Reset"
  const HeaderRequestId: string := "X-Okta-Request-Id"

  /** The library calls `Do` makes, as functions of their input. */
  datatype Library = Library(
    parseUrl: UrlParser,                // url.Parse(...).String(), for Link targets
    resolveUrl: UrlResolver,            // BaseURL.Parse(...).String(), for request paths
    decodeJson: string -> Option<string>, // json.Decoder.Decode on a non-blank body: the error text, if any
    unmarshalError: string -> ErrorBody   // json.Unmarshal of a non-empty error body into ErrorResponse
  )

  /** The client's Response: the raw response plus what was parsed out of its headers. */
  datatype Response = Response(raw: HttpResponse, pagination: Pagination, rate: Rate, requestId: string)

  /** Every error `Do` (or the request construction before it) can return. */
  datatype DoError =
    | RateLimited(rateLimit: RateLimitError)
    | Api(errorResponse: ErrorResponse)
    | Transport(message: string)
    | Decode(message: string)
    | InvalidRequest(cause: RequestError)

  /**
   * What httpClient.Do produced: a response, or an error together with the
   * context's error when the context was already done at that point.
   */
  datatype Exchange = Delivered(response: HttpResponse) | Failed(error: string, contextError: Option<string>)

  /** The `v` argument of Do: nil, an io.Writer, or a value to decode JSON into. */
  datatype Target = NoTarget | WriterTarget | ValueTarget

  /**
   * The result of one call: the client's rate table afterwards, the request
   * handed to the transport (None when none was sent), the Response returned
   * (None when Do returns a nil *Response) and the error returned.
   */
  datatype Outcome<B> = Outcome(table: RateTable, sent: Option<Request<B>>, response: Option<Response>, error: Option<DoError>)

  // ---------------------------------------------------------------------------
  // parseRate
  // ---------------------------------------------------------------------------

  /** strconv.Atoi of a header's first value with the error discarded, skipped when the header is empty. */
  function HeaderInt(h: Header, key: string): int {
    var text := HeaderGet(h, key);
    if text != "" then ParseInt(text).value else 0
  }

  /**
   * parseRate: limit and remaining as Atoi reads them (0 when absent or not a
   * number), and the reset as the Unix second the header names, left at the
   * zero time when the header is absent or reads as 0.
   */
  function ParseRate(h: Header): (r: Rate)
    ensures InInt64(r.limit) && InInt64(r.remaining)
    ensures r.limit == ParseIntValue(HeaderGet(h, HeaderRateLimit))
    ensures r.remaining == ParseIntValue(HeaderGet(h, HeaderRateRemaining))
    ensures var v := ParseIntValue(HeaderGet(h, HeaderRateReset));
      r.reset == if v == 0 then ZeroTime else Unix(v)
    ensures r.reset.unixNano % NanosPerSecond == 0
  {
    var resetText := HeaderGet(h, HeaderRateReset);
    var v := ParseInt(resetText).value;
    var reset := if resetText != "" && v != 0 then Unix(v) else ZeroTime;
    Rate(HeaderInt(h, HeaderRateLimit), HeaderInt(h, HeaderRateRemaining), reset)
  }

  /** The headers of a response reporting a rate limit, written the way %d writes integers. */
  function RateHeaders(limit: int, remaining: int, resetSeconds: int): Header {
    map[HeaderRateLimit := [Itoa(limit)], HeaderRateRemaining := [Itoa(remaining)], HeaderRateReset := [Itoa(resetSeconds)]]
  }

  /** The Rate a response reports, reset 0 standing for "no reset time". */
  function ReportedRate(limit: int, remaining: int, resetSeconds: int): Rate
    requires InInt64(resetSeconds)
  {
    Rate(limit, remaining, if resetSeconds == 0 then ZeroTime else Unix(resetSeconds))
  }

  /** parseRate recovers every int64 triple from the headers that carry it. */
  lemma ParseRateRoundTrip(h: Header, limit: int, remaining: int, resetSeconds: int)
    requires InInt64(limit) && InInt64(remaining) && InInt64(resetSeconds)
    requires HeaderGet(h, HeaderRateLimit) == Itoa(limit)
    requires HeaderGet(h, HeaderRateRemaining) == Itoa(remaining)
    requires HeaderGet(h, HeaderRateReset) == Itoa(resetSeconds)
    ensures ParseRate(h) == ReportedRate(limit, remaining, resetSeconds)
  {
    ParseItoa(limit);
    ParseItoa(remaining);
    ParseItoa(resetSeconds);
  }

  /** A response without rate headers yields the zero Rate. */
  lemma ParseRateAbsent(h: Header)
    requires HeaderRateLimit !in h && HeaderRateRemaining !in h && HeaderRateReset !in h
    ensures ParseRate(h) == ZeroRate
  {
  }

  // ---------------------------------------------------------------------------
  // checkRateLimitBeforeDo
  // ---------------------------------------------------------------------------

  /** The response synthesised for a request refused locally: 403, no headers, empty body. */
  function SyntheticForbidden<B>(req: Request<B>): HttpResponse {
    HttpResponse("Forbidden", StatusForbidden, map[], "", req.verb, req.url)
  }

  /**
   * checkRateLimitBeforeDo: refuses the request exactly when the category's
   * last known rate has nothing remaining and its reset lies in the future.
   */
  function CheckRateLimitBeforeDo<B>(t: RateTable, req: Request<B>, category: Category, now: Timestamp)
    : (r: Option<RateLimitError>)
    ensures r.Some? <==> RateLimit.Get(t, category).remaining == 0 && now.unixNano < RateLimit.Get(t, category).reset.unixNano
    ensures r.Some? ==> && r.value.rate == RateLimit.Get(t, category)
                        && r.value.response.statusCode == 403
                        && r.value.response.header == map[]
                        && r.value.response.body == ""
                        && r.value.response.verb == req.verb
                        && r.value.response.url == req.url
                        && r.value.message == StillExceeded(r.value.rate.limit, r.value.rate.reset)
  {
    var rate := RateLimit.Get(t, category);
    if rate.remaining == 0 && Before(now, rate.reset) then
      Some(RateLimitError(rate, SyntheticForbidden(req), StillExceeded(rate.limit, rate.reset)))
    else None
  }

  /** A rate slot that was never filled never blocks once the clock is past the zero time. */
  lemma ZeroRateNeverBlocks<B>(t: RateTable, req: Request<B>, category: Category, now: Timestamp)
    requires RateLimit.Get(t, category) == ZeroRate
    requires !Before(now, ZeroTime)
    ensures CheckRateLimitBeforeDo(t, req, category, now).None?
  {
  }

  /** A refusal at one instant is a refusal at every earlier instant, for the same table. */
  lemma BlockingIsAntitone<B>(t: RateTable, req: Request<B>, category: Category, now: Timestamp, earlier: Timestamp)
    requires CheckRateLimitBeforeDo(t, req, category, now).Some?
    requires earlier.unixNano <= now.unixNano
    ensures CheckRateLimitBeforeDo(t, req, category, earlier).Some?
  {
  }

  // ---------------------------------------------------------------------------
  // checkResponseForErrors
  // ---------------------------------------------------------------------------

  /** The error body json.Unmarshal leaves behind: nothing is filled in from an empty body. */
  function ErrorBodyOf(body: string, unmarshal: string -> ErrorBody): ErrorBody {
    if body == "" then EmptyErrorBody else unmarshal(body)
  }

  /**
   * checkResponseForErrors: any 2xx status (202 included) is a success; a 403
   * whose remaining header is literally "0" is a rate-limit error; every other
   * status is an API error carrying the decoded error body.
   */
  function CheckResponseForErrors(resp: HttpResponse, unmarshal: string -> ErrorBody): (r: Option<DoError>)
    ensures r.None? <==> 200 <= resp.statusCode <= 299
    ensures r.Some? ==> (r.value.RateLimited? || r.value.Api?)
    ensures (r.Some? && r.value.RateLimited?)
        <==> resp.statusCode == 403 && HeaderGet(resp.header, HeaderRateRemaining) == "0"
    ensures r.Some? && r.value.RateLimited? ==>
              r.value.rateLimit == RateLimitError(ParseRate(resp.header), resp, NoMessage)
    ensures r.Some? && r.value.Api? ==>
              r.value.errorResponse == ErrorResponse(resp, ErrorBodyOf(resp.body, unmarshal))
  {
    if 200 <= resp.statusCode <= 299 then None
    else if resp.statusCode == StatusForbidden && HeaderGet(resp.header, HeaderRateRemaining) == "0" then
      Some(RateLimited(RateLimitError(ParseRate(resp.header), resp, NoMessage)))
    else Some(Api(ErrorResponse(resp, ErrorBodyOf(resp.body, unmarshal))))
  }

  /**
   * The remaining-header test is textual: a 403 whose header reads "00" parses
   * to 0 remaining, yet is classified as an API error, not a rate-limit error.
   */
  lemma PaddedRemainingIsApiError(resp: HttpResponse, unmarshal: string -> ErrorBody)
    requires resp.statusCode == 403 && HeaderGet(resp.header, HeaderRateRemaining) == "00"
    ensures ParseRate(resp.header).remaining == 0
    ensures CheckResponseForErrors(resp, unmarshal).value.Api?
  {
    assert Unsigned("00") == "00";
    assert DecimalValue("00") == 0;
  }

  // ---------------------------------------------------------------------------
  // Decoding the body of a success
  // ---------------------------------------------------------------------------

  predicate IsJsonSpace(ch: char) {
    ch == ' ' || ch == '\t' || ch == '\n' || ch == '\r'
  }

  /** A body json.Decoder reads as io.EOF: nothing but JSON whitespace. */
  predicate JsonBlank(s: string) {
    forall i :: 0 <= i < |s| ==> IsJsonSpace(s[i])
  }

  /**
   * The decoding step: nothing for a nil target, a copy (whose error is
   * ignored) for a writer, and a JSON decode for a value, where an empty body's
   * io.EOF is not an error.
   */
  function DecodeBody(body: string, target: Target, decode: string -> Option<string>): (r: Option<DoError>)
    ensures r.Some? <==> target == ValueTarget && !JsonBlank(body) && decode(body).Some?
    ensures r.Some? ==> r == Some(Decode(decode(body).value))
  {
    match target
    case NoTarget => None
    case WriterTarget => None
    case ValueTarget =>
      if JsonBlank(body) then None
      else match decode(body)
        case None => None
        case Some(message) => Some(Decode(message))
  }

  // ---------------------------------------------------------------------------
  // Do
  // ---------------------------------------------------------------------------

  /** The request with the SSWS authorization header set. */
  function Authorize<B>(req: Request<B>, apiToken: string): Request<B> {
    req.(header := req.header["Authorization" := "SSWS " + apiToken])
  }

  /**
   * Client.Do for one exchange. The Authorization header is set first; a
   * category whose limit is known to be exhausted gets a local 403 and nothing
   * is sent; otherwise the reply's rate replaces that category's slot, the
   * Response is assembled, and the reply is classified and decoded.
   */
  function Do<B>(c: Client, req: Request<B>, category: Category, now: Timestamp,
                 exchange: Exchange, target: Target, lib: Library): (o: Outcome<B>)
    // The request is sent unless the category is known to be exhausted.
    ensures o.sent.None? <==> CheckRateLimitBeforeDo(c.rateLimits, req, category, now).Some?
    // What is sent is the caller's request plus the SSWS authorization and nothing else.
    ensures o.sent.Some? ==>
      && o.sent.value.verb == req.verb && o.sent.value.url == req.url && o.sent.value.body == req.body
      && "Authorization" in o.sent.value.header
      && o.sent.value.header["Authorization"] == "SSWS " + c.apiToken
      && forall k :: k != "Authorization" ==>
           (k in o.sent.value.header <==> k in req.header)
           && (k in req.header ==> o.sent.value.header[k] == req.header[k])
    // A refused request leaves the table alone and reports the stored rate.
    ensures o.sent.None? ==>
      && o.table == c.rateLimits
      && o.error.Some? && o.error.value.RateLimited?
      && o.response.Some? && o.response.value.pagination == EmptyPagination
      && o.response.value.raw.statusCode == 403
    // Only the category's slot can change, and a returned Response carries that slot's rate.
    ensures forall d :: d != category ==> RateLimit.Get(o.table, d) == RateLimit.Get(c.rateLimits, d)
    ensures o.response.Some? ==> o.response.value.rate == RateLimit.Get(o.table, category)
    // A transport failure returns no Response and records nothing.
    ensures o.sent.Some? && exchange.Failed? ==>
      && o.table == c.rateLimits && o.response.None?
      && o.error == Some(Transport(if exchange.contextError.Some? then exchange.contextError.value else exchange.error))
    // A delivered reply is recorded and returned even when it is classified as an error.
    ensures o.sent.Some? && exchange.Delivered? ==>
      && RateLimit.Get(o.table, category) == ParseRate(exchange.response.header)
      && o.response.Some? && o.response.value.raw == exchange.response
      && o.response.value.pagination == PopulatePageValues(exchange.response.header, lib.parseUrl)
      && o.response.value.requestId == HeaderGet(exchange.response.header, HeaderRequestId)
    // A refusal reports the pre-check's error; a delivered reply reports its classification,
    // and a success reports the outcome of decoding its body.
    ensures o.sent.None? ==> o.error == Some(RateLimited(CheckRateLimitBeforeDo(c.rateLimits, req, category, now).value))
    ensures o.sent.Some? && exchange.Delivered? ==>
      o.error == if CheckResponseForErrors(exchange.response, lib.unmarshalError).Some?
                 then CheckResponseForErrors(exchange.response, lib.unmarshalError)
                 else DecodeBody(exchange.response.body, target, lib.decodeJson)
    // No error means a reply was delivered with a 2xx status.
    ensures o.error.None? ==> o.response.Some? && 200 <= o.response.value.raw.statusCode <= 299
  {
    var authorized := Authorize(req, c.apiToken);
    match CheckRateLimitBeforeDo(c.rateLimits, authorized, category, now)
    case Some(refusal) =>
      Outcome(c.rateLimits, None, Some(Response(refusal.response, EmptyPagination, refusal.rate, "")),
              Some(RateLimited(refusal)))
    case None =>
      match exchange
      case Failed(error, contextError) =>
        var message := if contextError.Some? then contextError.value else error;
        Outcome(c.rateLimits, Some(authorized), None, Some(Transport(message)))
      case Delivered(resp) =>
        var rate := ParseRate(resp.header);
        var table := Set(c.rateLimits, category, rate);
        var response :=
          Response(resp, PopulatePageValues(resp.header, lib.parseUrl), rate, HeaderGet(resp.header, HeaderRequestId));
        match CheckResponseForErrors(resp, lib.unmarshalError)
        case Some(e) => Outcome(table, Some(authorized), Some(response), Some(e))
        case None => Outcome(table, Some(authorized), Some(response), DecodeBody(resp.body, target, lib.decodeJson))
  }

  /** A refused call does not depend on the network: the exchange is never consulted. */
  lemma RefusalIgnoresExchange<B>(c: Client, req: Request<B>, category: Category, now: Timestamp,
                                      e1: Exchange, e2: Exchange, target: Target, lib: Library)
    requires CheckRateLimitBeforeDo(c.rateLimits, req, category, now).Some?
    ensures Do(c, req, category, now, e1, target, lib) == Do(c, req, category, now, e2, target, lib)
  {
  }

  /** A freshly built client sends its first request in every category. */
  lemma NewClientNeverRefuses<B>(apiToken: string, paramBaseUrl: string, parsed: Option<Url>,
                                 req: Request<B>, category: Category, now: Timestamp,
                                 exchange: Exchange, target: Target, lib: Library)
    requires NewClient(apiToken, paramBaseUrl, parsed).Ok?
    requires !Before(now, ZeroTime)
    ensures Do(NewClient(apiToken, paramBaseUrl, parsed).value, req, category, now, exchange, target, lib).sent.Some?
  {
    var c := NewClient(apiToken, paramBaseUrl, parsed).value;
    ZeroRateNeverBlocks(c.rateLimits, req, category, now);
  }

  /** The rate headers of a delivered reply are what the table then holds for the category. */
  lemma DoRecordsReportedRate<B>(c: Client, req: Request<B>, category: Category, now: Timestamp,
                                 resp: HttpResponse, target: Target, lib: Library,
                                 limit: int, remaining: int, resetSeconds: int)
    requires CheckRateLimitBeforeDo(c.rateLimits, req, category, now).None?
    requires InInt64(limit) && InInt64(remaining) && InInt64(resetSeconds)
    requires resp.header == RateHeaders(limit, remaining, resetSeconds)
    ensures RateLimit.Get(Do(c, req, category, now, Delivered(resp), target, lib).table, category)
         == ReportedRate(limit, remaining, resetSeconds)
  {
    ParseRateRoundTrip(resp.header, limit, remaining, resetSeconds);
  }

  /**
   * A reply reporting nothing remaining until reset second `s` makes the next
   * call in that category be refused exactly while the clock is before `s`;
   * a second so large that time.Unix wraps around refuses nothing.
   */
  lemma ExhaustedUntilReset<B>(c: Client, req: Request<B>, category: Category, now: Timestamp,
                               resp: HttpResponse, target: Target, lib: Library,
                               limit: int, resetSeconds: int,
                               next: Request<B>, later: Timestamp)
    requires CheckRateLimitBeforeDo(c.rateLimits, req, category, now).None?
    requires InInt64(limit) && InInt64(resetSeconds) && resetSeconds != 0
    requires resp.header == RateHeaders(limit, 0, resetSeconds)
    ensures var t := Do(c, req, category, now, Delivered(resp), target, lib).table;
            resetSeconds <= MaxInt64 - UnixToInternal ==>
              (CheckRateLimitBeforeDo(t, next, category, later).Some? <==> later.unixNano < resetSeconds * NanosPerSecond)
    ensures var t := Do(c, req, category, now, Delivered(resp), target, lib).table;
            resetSeconds > MaxInt64 - UnixToInternal && !Before(later, ZeroTime) ==>
              CheckRateLimitBeforeDo(t, next, category, later).None?
  {
    DoRecordsReportedRate(c, req, category, now, resp, target, lib, limit, 0, resetSeconds);
    var t := Do(c, req, category, now, Delivered(resp), target, lib).table;
    assert RateLimit.Get(t, category) == Rate(limit, 0, Unix(resetSeconds));
  }

  /** A success with an empty (or all-whitespace) body is not an error, whatever the target. */
  lemma BlankSuccessIsNotAnError<B>(c: Client, req: Request<B>, category: Category, now: Timestamp,
                                    resp: HttpResponse, target: Target, lib: Library)
    requires CheckRateLimitBeforeDo(c.rateLimits, req, category, now).None?
    requires 200 <= resp.statusCode <= 299 && JsonBlank(resp.body)
    ensures Do(c, req, category, now, Delivered(resp), target, lib).error.None?
  {
  }

  // ---------------------------------------------------------------------------
  // A service call: build the request, then Do it
  // ---------------------------------------------------------------------------

  /** What a service method asks for: a method, a path relative to the base URL, a body and a category. */
  datatype Call<B> = Call(verb: Method, path: string, body: Option<B>, category: Category)

  /** NewRequest followed by Do, as every service method does; a path that does not resolve sends nothing. */
  function Execute<B>(c: Client, call: Call<B>, now: Timestamp, exchange: Exchange, target: Target, lib: Library)
    : (o: Outcome<B>)
    ensures lib.resolveUrl(c.baseUrl, call.path).None? ==>
      && o.table == c.rateLimits && o.sent.None? && o.response.None?
      && o.error == Some(InvalidRequest(UnresolvableUrl(call.path)))
    ensures o.sent.Some? ==>
      && lib.resolveUrl(c.baseUrl, call.path).Some?
      && o.sent.value.url == lib.resolveUrl(c.baseUrl, call.path).value
      && o.sent.value.verb == call.verb
      && o.sent.value.body == call.body
      && ("Content-Type" in o.sent.value.header <==> call.body.Some?)
      && "Accept" in o.sent.value.header && o.sent.value.header["Accept"] == "application/json"
      && "Authorization" in o.sent.value.header
      && o.sent.value.header["Authorization"] == "SSWS " + c.apiToken
    ensures forall d :: d != call.category ==> RateLimit.Get(o.table, d) == RateLimit.Get(c.rateLimits, d)
  {
    match NewRequest(c, call.verb, call.path, call.body, lib.resolveUrl)
    case Err(e) => Outcome(c.rateLimits, None, None, Some(InvalidRequest(e)))
    case Ok(req) => Do(c, req, call.category, now, exchange, target, lib)
  }
}
