# go-okta request core, modelled in Dafny

This project models the request/response core of the `okta` Go package, a small client for the Okta management API. It covers the following parts.

- **Client construction.** `NewClient` validates the API token and base URL. `NewRequest` resolves a path against the base URL and sets the JSON headers.
- **Rate-limit bookkeeping.** The client keeps one `Rate` per rate-limit category (`[categories]Rate`).
  - `parseRate` reads the three `X-Rate-Limit-*` headers.
  - `checkRateLimitBeforeDo` refuses a request locally, with a synthetic 403, while a category is known to be exhausted.
  - `Do` overwrites exactly the caller's category slot after a real reply.
- **`Do` as a pure step.** It takes the client's table, the category, the clock reading and the outcome of the network exchange, and returns the next table, the request handed to the transport, the `Response` and the error. It covers the `SSWS` authorization header, the classification of the reply, and the decoding of a successful body.
- **Link-header pagination** (`populatePageValues`):
  - one link per header value, split on `;`;
  - the target must sit in `<…>`;
  - `rel="next"`, `rel="prev"` and `rel="self"` are matched exactly after trimming;
  - malformed values are skipped, and later values overwrite earlier ones.
- **Error classification** (`checkResponseForErrors`):
  - every 2xx status is a success;
  - a 403 whose `X-Rate-Limit-Remaining` is the text `"0"` is a rate-limit error;
  - every other status is an API error.
- **Error messages.** `ErrorResponse.Error`, `RateLimitError.Error` and `formatRateReset`, which renders the time until (or since) a rate-limit reset.
- **The apps service.** The requests `GetByID`, `Add` and `AddBookmarkApp` issue, and the validation and parameter defaulting of `AddSAMLApp`.

## Modules

- `wrappers.dfy` defines `Option` and `Result`.
- `gostrings.dfy` models the Go library behaviour the core depends on:
  - `strings.TrimSpace` with Go's white-space set;
  - `strings.Split` on a one-character separator, with `Join` as its inverse;
  - `strconv.ParseInt`/`Atoi`, which scan the digits left to right, return 0 on a syntax error, and clamp to the int64 bound on a range error, which is reported as soon as the digits read so far overflow, even if junk follows;
  - `%d`/`%02d`.
- `gotime.dfy` models instants as integer nanoseconds. `Time.Sub` saturates to the int64 range of `time.Duration`. `time.Unix` keeps its seconds since year 1 in an int64, so a second count within 62135596800 of MaxInt64 wraps around to an instant before year 1.
- `ratelimit.dfy` holds `Rate`, the twelve categories, and the rate table as a 12-element sequence.
- `http.dfy` holds the shapes of requests and responses. URLs are opaque texts; parsing and resolution are function parameters.
- `client.dfy` holds `NewClient` and `NewRequest`.
- `errors.dfy` holds the error values, their messages, and `formatRateReset`.
- `paging.dfy` holds `populatePageValues` and its declarative reading: the last well-formed declaration of each relation wins.
- `execution.dfy` holds `parseRate`, `checkRateLimitBeforeDo`, `checkResponseForErrors`, body decoding, `Do`, and `Execute`. `Execute` is `NewRequest` followed by `Do`, as every service method does it.
- `apps.dfy` holds the apps service.

### Library calls and the clock

The model takes these as parameters:

- `url.Parse(...).String()` and `BaseURL.Parse(...).String()`;
- the JSON decoder's verdict on a non-blank body;
- `json.Unmarshal` of a non-empty error body;
- the result of `httpClient.Do`, either a reply or an error together with the context's error;
- `time.Now()`.

### Where the code and its comments disagree

The model follows the code in both cases.

- The comment above `checkResponseForErrors` calls 202 Accepted an error. The code accepts every status from 200 to 299.
- Link values are never split on commas. The value `<a>; rel="next", <b>; rel="prev"` therefore sets `Prev` to `a` and leaves `Next` empty (`Paging.CommaJoinedValue`).

### Findings

Each finding (see "## Findings") has a member for the code as written and a corrected member. Where the code as written can be computed, the composite operations model it: `Errors.RateLimitErrorText` renders with the as-written `formatRateReset`, and `Apps.AddSamlAppAsWritten` runs the as-written cascade and namespace loop. The corrected variants sit beside them (`Errors.FormatRateReset`, `Apps.AddSamlApp`, `Apps.ApplyDefaults`, `Apps.NormaliseStatements`), and a lemma states where the two agree. `OktaClient.NewClient` is the corrected constructor, because the code as written panics.

## Model

| member | source | states |
|---|---|---|
| RateLimit.CategoriesAreConsecutive | okta/ratelimit.go:16-30 | the category constants are 0, 1, 2, … in declaration order, starting with the core category at 0; the `categories` sentinel equals their number, 12; every category is an in-bounds slot |
| RateLimit.IndexInjective | okta/ratelimit.go:16-28 | two categories share a table slot only if they are the same category |
| RateLimit.InitialTable | okta/okta.go:45 | a new client's table holds the zero Rate in every category |
| RateLimit.Set | okta/okta.go:187 | storing a rate for one category makes that slot read back the new rate and leaves every other category's slot unchanged |
| GoTime.Sub | okta/errors.go:44 | the time from `now` to the reset is the exact nanosecond difference when it fits in a Duration, and otherwise the int64 bound on the side of its sign |
| GoTime.Unix | okta/okta.go:265 | a second count up to MaxInt64 − 62135596800 gives that many whole seconds after the Unix epoch; a larger count wraps the int64 seconds field and gives an instant earlier than MinInt64 nanoseconds; the instant is always a whole second |
| GoStrings.TrimSpace | okta/okta.go:222 | the trimmed value begins and ends with a non-space; a value already without surrounding space is unchanged |
| GoStrings.TrimSpaceSlice | okta/okta.go:222 | the trimmed value is a contiguous slice of the input with only white space before and after it, and it neither starts nor ends with white space: it is the input without its leading and trailing white space |
| GoStrings.TrimSpaceAfterSpace | okta/okta.go:241 | leading white space has no effect on the trimmed text of a segment |
| GoStrings.SplitSpec | okta/okta.go:222 | the `;` pieces contain no `;`, joining them with `;` gives the value back, and there is exactly one piece iff the value has no `;` |
| GoStrings.SplitJoin | okta/okta.go:222 | splitting a `;`-joined list of `;`-free pieces returns exactly those pieces |
| GoStrings.NatText | okta/errors.go:63-65 | `%d` of a natural number is a non-empty run of digits with no leading zero that reads back as the number |
| GoStrings.CanonicalNatText | okta/errors.go:63-65 | a non-empty run of digits with no leading zero, except `0` itself, is the `%d` text of its value, so `%d` is the only text of that shape for its number |
| GoStrings.ParseInt | okta/okta.go:257-265 | the value is always within int64. A well-formed optionally signed run of digits reads as its value clamped to int64, without an error iff no clamping was needed. Otherwise, when the leading digits after the sign already exceed uint64, the value is the int64 bound on the side of the sign, whatever follows. Any other text reads as 0 with an error |
| GoStrings.ParseUint | okta/okta.go:264 | the unsigned digit scan succeeds iff the text is a non-empty run of digits whose value fits in uint64, and then yields that value; it reports a range error iff some prefix of digits already exceeds uint64, before any later non-digit is seen |
| GoStrings.RangeErrorBeforeJunk | okta/okta.go:257-265 | digits whose value exceeds uint64, followed by any text at all, read as MaxInt64 with an error, and as MinInt64 with an error after a `-` |
| GoStrings.ParseItoa | okta/okta.go:257-265 | reading the `%d` text of any int64 gives that integer back, without an error |
| OktaClient.NewClient | okta/okta.go:68-90 | a client is built iff the token is non-empty, the base URL is non-empty, it parses, and its path ends in `/`; the client then has the token, User-Agent `go-okta`, the parsed base URL and an all-zero rate table; an empty token is reported before an empty URL |
| OktaClient.NewClientAsWrittenNilDereference | okta/okta.go:75-77 | with a token and a base URL present, a base URL that fails to parse makes the code dereference a nil URL, where the corrected constructor reports an error |
| OktaClient.NewClientAgrees | okta/okta.go:68-79 | on every input where the code does not dereference nil, it builds or rejects exactly as the corrected constructor does |
| OktaClient.NewRequest | okta/okta.go:100-131 | a request is built iff the path resolves against the base URL; it has the resolved URL, the method and the body; Content-Type `application/json` iff there is a body; Accept `application/json` always; User-Agent iff the client's User-Agent is non-empty, with that value; no other header |
| Execution.ParseRate | okta/okta.go:255-269 | limit and remaining are the int64 value `Atoi` gives their header text: 0 when absent or not a number, the int64 bound for digits that overflow; the reset is the zero time when its header text reads as 0, and otherwise `time.Unix` of the value read, with its wrap-around; the reset is always a whole second |
| Execution.ParseRateRoundTrip | okta/okta.go:255-269 | for any int64 limit, remaining and reset second written as decimal headers, parseRate recovers them; a reset of 0 stands for the zero time and any other value `v` for Unix second `v` |
| Execution.ParseRateAbsent | okta/okta.go:255-268 | a reply without rate headers yields the zero Rate |
| Execution.CheckRateLimitBeforeDo | okta/okta.go:275-296 | refuses iff the category's stored rate has 0 remaining and `now` is before its reset; the refusal carries the stored rate, a 403 with no headers and an empty body for the request's method and URL, and the "still exceeded" message with the stored limit and reset |
| Execution.ZeroRateNeverBlocks | okta/okta.go:279 | a slot holding the zero Rate never refuses at any instant after the zero time |
| Execution.BlockingIsAntitone | okta/okta.go:279 | a refusal at some instant is also a refusal at every earlier instant |
| Execution.CheckResponseForErrors | okta/okta.go:308-326 | no error iff the status is 200..299, including 202; a rate-limit error iff the status is 403 and the remaining header is exactly `"0"`, carrying the parsed rate and the response; otherwise an API error carrying the response and the decoded error body |
| Execution.PaddedRemainingIsApiError | okta/okta.go:318 | a 403 whose remaining header is `"00"` parses to 0 remaining but is classified as an API error, because the test compares text |
| Execution.DecodeBody | okta/okta.go:203-212 | a decode error is reported iff the target is a value, the body is not blank, and the decoder fails; a blank body is the swallowed io.EOF |
| Execution.Do | okta/okta.go:135-215 | the request goes out iff the pre-check does not refuse; what goes out is the caller's request plus `Authorization: SSWS <token>` and nothing else; a refusal leaves the table unchanged and returns the stored rate with empty pagination; only the category's slot can change; a returned Response's rate equals the stored slot; a transport failure returns no Response, reports the context's error when there is one, and records nothing; a delivered reply is recorded (its parsed rate, its pagination and its request id) even when it is classified as an error; no error implies a 2xx reply; a refusal's error is the rate-limit error of the pre-check; for a delivered reply the error is the one `checkResponseForErrors` reports, and when it reports none, the body decoder's |
| Execution.RefusalIgnoresExchange | okta/okta.go:148-157 | when the pre-check refuses, the outcome is the same whatever the network would have done |
| Execution.NewClientNeverRefuses | okta/okta.go:148-154 | a freshly built client sends its first request in every category |
| Execution.DoRecordsReportedRate | okta/okta.go:185-188 | after a delivered reply with rate headers, the category's slot holds exactly the limit, remaining and reset the headers report |
| Execution.ExhaustedUntilReset | okta/okta.go:185-188 | after a reply reporting 0 remaining until reset second `s`, if `s` is at most MaxInt64 − 62135596800, the next call in that category is refused iff the clock is before `s`; for a larger `s` the stored reset wraps to before year 1, so no call after year 1 is refused |
| Execution.BlankSuccessIsNotAnError | okta/okta.go:203-214 | a 2xx reply with an empty or all-white-space body is not an error, whatever the decode target |
| Execution.Execute | okta/apps.go:134-148 | a path that does not resolve sends nothing, records nothing, and reports the resolution error; a sent request has the resolved URL, method and body, the JSON headers and the SSWS authorization; only the call's category slot can change |
| Paging.WithField | okta/okta.go:242-247 | setting one relation's field leaves the other two fields unchanged |
| Paging.TokensDistinct | okta/okta.go:241-248 | the three `rel` tokens are pairwise distinct |
| Paging.RelationOf | okta/okta.go:241-248 | a segment names a relation iff its trimmed text equals that relation's token exactly |
| Paging.ApplySegmentsField | okta/okta.go:240-249 | the segment loop sets a field to the URL iff some segment names its relation, and otherwise leaves it |
| Paging.ApplyLinkField | okta/okta.go:221-250 | one header value sets a field to its target iff it has at least two segments, a `<…>` first segment whose inner text parses, and a later segment naming the relation, and otherwise leaves it |
| Paging.ApplyLinksField | okta/okta.go:221-251 | each field ends as the target of the last well-formed header value that declares its relation, or keeps its previous value when none does |
| Paging.PopulatePageValuesFields | okta/okta.go:219-253 | starting from empty pagination, each field is the target of the last value declaring it, and `""` when no value does |
| Paging.SkippedValueIsInert | okta/okta.go:224-238 | a skipped header value changes nothing, so removing it from the list leaves the result of the others intact |
| Paging.ApplyLinksConcat | okta/okta.go:221-251 | processing two lists of values in sequence equals processing their concatenation |
| Paging.LinkValueApplies | okta/okta.go:222-249 | a value `<u>; rel="r"` with a parsable `u` sets exactly relation `r` to the parsed URL |
| Paging.SeparateValues | okta/okta.go:220-251 | two header values `<a>; rel="next"` and `<b>; rel="prev"` give Next = a, Prev = b and an empty Self |
| Paging.CommaJoinedValue | okta/okta.go:222 | the single comma-joined value `<a>; rel="next", <b>; rel="prev"` gives Prev = a and leaves Next and Self empty |
| Paging.SpaceBeforeSemicolon | okta/okta.go:229-232 | the value `<u> ; rel="next"` is skipped, because its first segment does not end with `>` |
| Errors.FormatPlacesArgs | okta/errors.go:20-22 | each argument of the message format appears verbatim at its position, and after every earlier argument |
| Errors.ErrorResponseTextInOrder | okta/errors.go:19-23 | the ErrorResponse message contains the method, URL, status code, error code, summary, id and causes, each verbatim and in that order |
| Errors.RateLimitErrorText | okta/errors.go:41-45 | the RateLimitError message ends with the as-written `formatRateReset` text for the time from `now` to the stored reset; for every such time except the most negative Duration, that is also the corrected reset text |
| Errors.RateLimitErrorTextInOrder | okta/errors.go:41-45 | the method, URL, status code, message and reset text each appear verbatim in the RateLimitError message, in that order |
| Errors.RoundedSeconds | okta/errors.go:57 | the total is the whole number of seconds nearest to the magnitude of the duration, halves rounding up |
| Errors.TimeTextShape | okta/errors.go:58-66 | the time text consists only of digits, `m` and `s`, and contains an `m` iff the total is at least a minute |
| Errors.TimeTextRoundTrip | okta/errors.go:58-66 | the time text reads back as the total number of seconds: `<m>m<ss>s` with two-digit seconds when there is at least a minute, `<s>s` otherwise |
| Errors.ParseTimeTextCanonical | okta/errors.go:58-66 | every text the reader accepts, either `<s>s` below a minute or `<m>m<ss>s` with at least one minute and two-digit seconds, both without leading zeros, is exactly the time text of its value; with the round trip, the time text and its reader are inverse on all inputs |
| Errors.FormatRateReset | okta/errors.go:52-72 | as corrected (the code as written differs only at the most negative Duration, see `Errors.AsWrittenMinDuration`): a negative duration renders as `[rate limit was reset T ago]` and any other as `[rate reset in T]`, where T reads back as the duration's magnitude rounded to whole seconds; the reader accepts only one text per value, so T is determined |
| Errors.FormatRateResetWrapper | okta/errors.go:68-71 | the message starts with the "was reset" wrapper iff the duration is negative, and with the "reset in" wrapper iff it is not; zero counts as not negative |
| Errors.FormatRateResetSymmetric | okta/errors.go:53-56 | a negative duration and its negation render the same time text inside the two different wrappers |
| Errors.AsWrittenAgrees | okta/errors.go:52-72 | on every Duration except the most negative, the code's int64 computation renders exactly the corrected text |
| Errors.AsWrittenMinDuration | okta/errors.go:53-57 | on the most negative Duration the negation overflows and the code renders `[rate limit was reset -16s ago]` |
| Errors.ZeroResetRendersNegativeSeconds | okta/errors.go:41-57 | for a stored reset at the zero time and any `now` after 1970, the time to reset saturates to the most negative Duration, which the code renders as `-16s ago` |
| Errors.ZeroResetMessage | okta/errors.go:41-57 | a RateLimitError whose stored reset is the zero time, rendered at any instant after 1970, ends with `[rate limit was reset -16s ago]` |
| Apps.GetById | okta/apps.go:15-18 | a GET with no body to `apps/` followed by the id, under the apps get/update/delete category |
| Apps.GetByIdInjective | okta/apps.go:17 | the id can be recovered from the path, so distinct ids give distinct paths |
| Apps.Add | okta/apps.go:134-137 | a POST of the app under the apps create/list category, to `apps?activate=true` iff `activate`, and to `apps?activate=false` otherwise |
| Apps.AddBookmarkApp | okta/apps.go:35-48 | posts through Add, with the same `activate`, a bookmark app with the given label whose only settings are `app.requestIntegration = false` and `app.url` set to the URL's text |
| Apps.FirstEmpty | okta/apps.go:69-87 | the index of the case the switch selects: the first empty field among the six it tests, or 6 when none is empty |
| Apps.FallThroughFields | okta/apps.go:69-89 | falling through from case `k` assigns its default to field `k` and every later field, keeps earlier fields, and touches no other parameter |
| Apps.DefaultsCascade | okta/apps.go:69-89 | as written, fields before the first empty one keep their value, and that field and every later one get their fixed default even if set; nothing changes when no field is empty |
| Apps.CascadeOverwritesChosenDigest | okta/apps.go:70-75 | with the signature algorithm empty, a digest algorithm of `SHA1` is replaced by `SHA256` as written and kept by the corrected defaults |
| Apps.ApplyDefaults | okta/apps.go:69-89 | as corrected, each of the six fields gets its default iff it is empty, and nothing else changes |
| Apps.DefaultsFillEveryField | okta/apps.go:69-89 | after defaulting, as written or as corrected, all six fields are non-empty |
| Apps.DefaultsIdempotent | okta/apps.go:69-89 | defaulting twice equals defaulting once, for both versions |
| Apps.DefaultsAgreeIff | okta/apps.go:69-89 | the two versions agree iff every field after the first empty one is empty or already holds its default |
| Apps.AsWrittenKeepsEmptyNamespace | okta/apps.go:92-97 | as written, an attribute statement with an empty namespace keeps it; as corrected, it gets the unspecified attribute-name format |
| Apps.NormaliseStatements | okta/apps.go:92-100 | as corrected (the code as written never rewrites a namespace, see `Apps.AsWrittenKeepsEmptyNamespace`): a nil list becomes an empty list; otherwise the list keeps its length and every statement's name and values, and each empty namespace becomes the unspecified attribute-name format |
| Apps.StatementsAgreeWhenNamespaced | okta/apps.go:92-100 | when every statement already has a namespace, both versions leave the list as it is |
| Apps.AddSamlApp | okta/apps.go:56-129 | the corrected AddSAMLApp: rejected with the fixed message iff neither signing flag is set; otherwise the caller's parameters are left with all six fields non-empty, every field the caller set is kept, no other parameter changes, and attribute statements are normalised; a nameless `SAML_2_0` app with the label, default visibility and exactly the `signOn` settings built from those parameters is posted through Add |
| Apps.AddSamlAppAsWritten | okta/apps.go:56-129 | AddSAMLApp as written: rejected with the fixed message iff neither signing flag is set; otherwise each of the six fields from the first empty one onward gets its default, even if set, and earlier fields keep their value; no other parameter changes; the attribute statements are the caller's list unchanged when non-empty and an empty list otherwise; the app posted through Add is built from those parameters as in the corrected version |
| Apps.AddSamlAppAgrees | okta/apps.go:69-100 | when every field after the first empty one is empty or already holds its default, and every attribute statement has a namespace, the code as written and the corrected version produce the same outcome |
| Apps.AddSamlAppOverwritesDigest | okta/apps.go:70-75 | with the response signed, the signature algorithm empty and the digest algorithm `SHA1`, the app as written is posted with digest `SHA256`, and the corrected one keeps `SHA1` |

## Left out

- The network transport is the `Exchange` parameter. The model does not cover context propagation, the `select` on `ctx.Done()` (only its result is a parameter), the rewriting of `*url.Error` URLs, or closing the body.
- The `GO_OKTA_DEBUG` request and response dumps are not modelled. This includes dumping a nil response after a transport error.
- The `rateMu` mutex is not modelled. Table access is a sequential state update.
- The rate-limit category normally travels in the context. In the model it is an explicit argument, so the panic on a missing context value is not modelled.
- URL parsing, resolution and `String()` normalisation are function parameters. The `Url` value keeps only its text and path.
- JSON encoding of request bodies is not modelled:
  - the encoder's error path in `NewRequest` (okta/okta.go:112-115);
  - `http.NewRequest`'s method validation. Methods are a fixed enumeration here.
- JSON decoding is reduced to two things: the decoder's verdict on a non-blank body, and the fields `json.Unmarshal` fills from an error body. The decoded `App` returned by `GetByID` and `Add` is not carried in the outcome.
- Header keys are looked up exactly. net/http's canonicalisation of header names is not modelled.
- Execution.CheckResponseForErrors: an error body is assumed to have no `Response` key. In the code, `json.Unmarshal` fills an `ErrorResponse` whose untagged `Response` field already points at the reply, before the status test. A body key `response` holding `null` would leave the error with a nil Response, whose `Error()` then panics. A key holding an object would decode into the reply in place, so it could change the status code or add headers before the 403 and `"0"` test and before `parseRate`. The unmarshal parameter returns only the error body's own fields, so the contract's "rate-limited iff the status is 403 and the remaining header is `"0"`" and "carries the response" hold only for bodies without that key.
- Go's `int` is taken to be 64 bits wide: `Rate.Limit`, `Rate.Remaining`, the results of `strconv.Atoi`, and `int(0.5 + d.Seconds())` all use the int64 range. On a 32-bit platform `Atoi` would clamp to the int32 range, and the seconds conversion would overflow sooner.
- Execution.Do: the synthetic refusal's `Status` is `"Forbidden"`, as `http.StatusText` gives. Real replies keep whatever status text the transport delivered.
- Errors.MessageText: `%v` of a Timestamp is the `showTime` parameter. The `Timestamp` type is declared elsewhere in the package and not modelled here. Instants are integer nanoseconds since the Unix epoch.
- OktaClient.ClientError.Message: `%q` quoting of the base URL is shown as plain double quotes, without Go's escaping. The message for an unparsable base URL belongs to the corrected constructor.
- Errors.FormatRateResetAsWritten computes `0.5 + d.Seconds()` exactly instead of in float64. For durations above 2^53 nanoseconds (about 104 days) float rounding could differ in the last second.
- `ErrorCause.Error` returns the summary verbatim. It has no contract of its own.
- The apps service depends on declarations made elsewhere in the package and not modelled here: `AppNameBookmark`, `AppSignOnModeBookmark`, `AppSignOnModeSAML2`, `AppAddSAMLAppParams`, `AppSAMLAttributeStatement` and `App.Visibility`.
  - The sign-on modes use the `Bookmark` and `SAML2` values from okta/app_models.go.
  - The bookmark app name is taken to be `bookmark`.
  - An attribute statement is modelled with a name, a namespace and values.
  - The visibility is `DefaultVisibility`, standing for the all-false value of `NewAppVisability`.
- A nil `params` pointer, or a nil URL inside it, makes `AddSAMLApp` panic. Parameters here are values.
- okta/users.go, okta/groups.go, okta/user_models.go, okta/app_models.go and okta/app_helpers.go are type declarations or thin wrappers. Only the constants named above are used.

## Findings

| source | as written | input that shows it | evidently intended | confidence | as-written member | corrected member |
|---|---|---|---|---|---|---|
| okta/errors.go:53-57 | `d *= -1` negates a `time.Duration`, which overflows at the most negative value, so the text shows negative seconds | a RateLimitError whose stored reset is the zero time (a 403 with remaining `"0"` and no reset header), rendered at any instant after 1970: `Reset.Sub(now)` saturates to -9223372036854775808 ns and the message ends `[rate limit was reset -16s ago]` | the magnitude of the duration, about 2562047 hours | high; not executed | Errors.AsWrittenMinDuration | Errors.FormatRateReset |
| okta/okta.go:75-77 | the error from `url.Parse` is discarded, and `baseURL.Path` is then read through a nil pointer | `NewClient("token", "%zz/", nil)`: the invalid escape makes `url.Parse` fail, and the next line panics | return an error for an unparsable base URL | high; not executed | OktaClient.NewClientAsWrittenNilDereference | OktaClient.NewClient |
| okta/apps.go:69-89 | each `fallthrough` runs the next case body without testing its condition, so every field after the first empty one is overwritten | SignatureAlgorithm `""` and DigestAlgorithm `"SHA1"`: DigestAlgorithm becomes `"SHA256"` | give a default only to the fields that are empty | medium; not executed | Apps.CascadeOverwritesChosenDigest | Apps.ApplyDefaults |
| okta/apps.go:93-96 | the loop assigns the namespace to `elem`, the range variable's copy, so the list is unchanged | AttributeStatements with one statement whose Namespace is `""`: it is sent with an empty namespace | set each empty namespace to the unspecified attribute-name format | medium (the element type is declared elsewhere in the package and not modelled here); not executed | Apps.AsWrittenKeepsEmptyNamespace | Apps.NormaliseStatements |
