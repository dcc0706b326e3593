/** parse_url: turn the fields that urllib.parse.urlparse extracted from a
    URL into the (hostname, path, port, scheme) target the downloader
    connects to. urlparse itself is not modelled; its fields are the input. */
module Url {
  import opened Wrappers
  import opened PyText

  /** What reading urlparse(url).port meets in the URL: no port (none, or
      nothing after the ':'), a port of ASCII digits with its value, or
      anything else, which makes the attribute raise ValueError. */
  datatype PortField = NoPort | Port(value: nat) | NotDigits

  /** The urlparse(url) fields that parse_url reads. hostname is None when
      the URL has none; urlparse never leaves a '?' in path. */
  datatype ParsedUrl = ParsedUrl(
    scheme: string,
    hostname: Option<string>,
    port: PortField,
    path: string,
    query: string)

  /** The tuple parse_url returns. */
  datatype Target = Target(hostname: string, path: string, port: nat, scheme: string)

  /** The ValueErrors raised while parse_url runs: its own for a URL without
      a hostname, and the one urlparse's port attribute raises for a port
      that is not all digits or lies outside 0-65535. */
  datatype UrlError = InvalidUrl | InvalidPort

  /** The largest port urlparse accepts. */
  const MaxPort: nat := 65535

  /** Python truthiness of the optional fields: None and "" / 0 are false. */
  predicate HasHostname(u: ParsedUrl)
  {
    u.hostname.Some? && u.hostname.value != ""
  }

  /** Reading the port attribute does not raise. */
  predicate PortReadable(u: ParsedUrl)
  {
    match u.port
    case NoPort => true
    case Port(n) => n <= MaxPort
    case NotDigits => false
  }

  predicate HasPort(u: ParsedUrl)
  {
    u.port.Port? && u.port.value != 0
  }

  function ParseUrl(u: ParsedUrl): (r: Result<Target, UrlError>)
    // the hostname is checked first, then the port is read
    ensures r == Err(InvalidUrl) <==> !HasHostname(u)
    ensures r == Err(InvalidPort) <==> HasHostname(u) && !PortReadable(u)
    ensures r.Ok? <==> HasHostname(u) && PortReadable(u)
    ensures r.Ok? ==> 0 < r.value.port <= MaxPort
    ensures r.Ok? ==> r.value.hostname == u.hostname.value
    // the path is never empty: "/" stands in for an empty one, and the query
    // follows after '?' exactly when there is one
    ensures r.Ok? ==> r.value.path != []
    ensures r.Ok? ==> StartsWith(r.value.path, if u.path == "" then "/" else u.path)
    ensures r.Ok? ==> (|r.value.path| == |if u.path == "" then "/" else u.path| <==> u.query == "")
    // an explicit port is kept; otherwise 80 for a raw "http" scheme and 443
    // for anything else, the empty scheme included
    ensures r.Ok? && HasPort(u) ==> r.value.port == u.port.value
    ensures r.Ok? && !HasPort(u) ==> (r.value.port == 80 <==> u.scheme == "http")
    ensures r.Ok? && !HasPort(u) ==> r.value.port in {80, 443}
    // the scheme is never empty: "" becomes "http", chosen after the port
    ensures r.Ok? ==> r.value.scheme != []
    ensures r.Ok? ==> (r.value.scheme == "http" <==> u.scheme in {"http", ""})
    ensures r.Ok? && u.scheme == "" && !HasPort(u) ==> r.value.scheme == "http" && r.value.port == 443
  {
    if !HasHostname(u) then Err(InvalidUrl)
    else if !PortReadable(u) then Err(InvalidPort)
    else
      var path := if u.path == "" then "/" else u.path;
      var path := if u.query != "" then path + "?" + u.query else path;
      var port := if HasPort(u) then u.port.value else if u.scheme == "http" then 80 else 443;
      var scheme := if u.scheme == "" then "http" else u.scheme;
      Ok(Target(u.hostname.value, path, port, scheme))
  }

  /** Splitting a path at its first '?' into the path proper and the query,
      the inverse of how parse_url appends the query. */
  function SplitQuery(p: string): (string, string)
  {
    var k := Find(p, "?");
    if k == -1 then (p, "") else (p[..k], p[k + 1..])
  }

  /** parse_url loses nothing of path and query: splitting the returned path
      at its first '?' gives back the path (or "/") and the query. */
  lemma PathQueryRoundTrip(u: ParsedUrl)
    requires HasHostname(u) && PortReadable(u)
    requires '?' !in u.path
    ensures SplitQuery(ParseUrl(u).value.path) == (if u.path == "" then "/" else u.path, u.query)
  {
    var base := if u.path == "" then "/" else u.path;
    var p := ParseUrl(u).value.path;
    FindChar(base, '?', u.query);
    if u.query != "" {
      assert p == base + ['?'] + u.query;
      assert p[|base| + 1..] == u.query;
    }
  }
}
