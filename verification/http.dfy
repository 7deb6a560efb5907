/**
 * The shapes of net/http and net/url values the client reads and writes.
 * URLs are opaque: parsing and resolution are library calls passed in as
 * function values.
 */
module Http {
  import opened Wrappers

  /** The request methods the client issues. */
  datatype Method = Get | Post | Put | Delete {
    function Name(): string {
      match this
      case Get => "GET"
      case Post => "POST"
      case Put => "PUT"
      case Delete => "DELETE"
    }
  }

  /** A multi-valued header map whose keys are already in canonical form, as net/http delivers them. */
  type Header = map<string, seq<string>>

  /** Header.Get: the first value stored under the key, or "" when there is none. */
  function HeaderGet(h: Header, key: string): string {
    if key in h && |h[key]| > 0 then h[key][0] else ""
  }

  /** A parsed URL, reduced to its String() form and its decoded path. */
  datatype Url = Url(text: string, path: string)

  /** url.Parse(s) followed by String(): the normalised text, or None when parsing fails. */
  type UrlParser = string -> Option<string>

  /** base.Parse(ref) followed by String(): the resolved URL, or None when `ref` does not parse. */
  type UrlResolver = (Url, string) -> Option<string>

  /** An outbound request; header values are single because the client only ever calls Header.Set. */
  datatype Request<B> = Request(verb: Method, url: string, header: map<string, string>, body: Option<B>)

  /** A received (or synthesised) response and the method and URL of the request it answers. */
  datatype HttpResponse = HttpResponse(
    status: string,
    statusCode: int,
    header: Header,
    body: string,
    verb: Method,
    url: string
  )

  const StatusForbidden: int := 403
}
