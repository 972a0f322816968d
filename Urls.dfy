/** web_server.py:140-238: the redirect-target guard and the URLs the
    listing and login servers redirect to. */
module Urls {
  import opened Common
  import opened PyStrings

  // ---------------------------------------------------------------------------
  // sanitize_next (web_server.py:140-151)
  // ---------------------------------------------------------------------------

  /** A path on the current origin: it starts with `/` but not with `//`,
      which a browser would read as another host. */
  predicate IsLocalPath(p: string)
  {
    StartsWith(p, "/") && !StartsWith(p, "//")
  }

  /** `sanitize_next(target)`. `unquote` is `urllib.parse.unquote`, `None`
      where it raises. */
  function SanitizeNext(target: Option<string>, unquote: string -> Option<string>): (r: string)
    ensures IsLocalPath(r)
    ensures !Truthy(target) ==> r == "/"
    ensures Truthy(target) ==>
              var candidate := if unquote(target.value).Some? then unquote(target.value).value else target.value;
              r == (if IsLocalPath(candidate) then candidate else "/")
  {
    if !Truthy(target) then "/"
    else
      var candidate := match unquote(target.value) case Some(c) => c case None => target.value;
      if !StartsWith(candidate, "/") then "/"
      else if StartsWith(candidate, "//") then "/"
      else candidate
  }

  /** A local path that decodes to itself passes unchanged. */
  lemma LocalPathKept(target: string, unquote: string -> Option<string>)
    requires IsLocalPath(target) && unquote(target) == Some(target)
    ensures SanitizeNext(Some(target), unquote) == target
  {
  }

  /** Decoding comes first: a target that does not start with `/` is still
      accepted when it decodes to a local path (`%2Fx` becomes `/x`), and
      one that decodes to `//host` is refused. */
  lemma DecodingDecides(unquote: string -> Option<string>)
    requires unquote("%2Fx") == Some("/x")
    requires unquote("/%2Fevil") == Some("//evil")
    ensures SanitizeNext(Some("%2Fx"), unquote) == "/x"
    ensures SanitizeNext(Some("/%2Fevil"), unquote) == "/"
  {
    assert "/x"[..1] == "/" && "/x"[..2][1] != "//"[1];
    assert "//evil"[..2] == "//";
  }

  // ---------------------------------------------------------------------------
  // _normalize_host, _build_origin (web_server.py:158-159, 197-210)
  // ---------------------------------------------------------------------------

  /** `_normalize_host`: an IPv6 literal is enclosed in brackets (section
      3.2.2 of RFC 3986). The host is kept or bracketed, a result with a
      colon is always bracketed, and a host that is already bracketed or
      has no colon is kept. */
  function NormalizeHost(hostname: string): (r: string)
    ensures r == hostname || r == "[" + hostname + "]"
    ensures ':' in r ==> StartsWith(r, "[")
    ensures StartsWith(hostname, "[") || ':' !in hostname ==> r == hostname
  {
    if ':' in hostname && !StartsWith(hostname, "[") then
      var r := "[" + hostname + "]";
      assert r[..1] == "[";
      r
    else hostname
  }

  /** Normalizing twice changes nothing, and a normalized host with a colon
      is bracketed. */
  lemma NormalizeHostIdempotent(hostname: string)
    ensures NormalizeHost(NormalizeHost(hostname)) == NormalizeHost(hostname)
    ensures ':' in NormalizeHost(hostname) ==> StartsWith(NormalizeHost(hostname), "[")
  {
    var r := NormalizeHost(hostname);
    if r != hostname {
      assert r[..1] == "[";
    }
  }

  /** `_forwarded_proto`: the `X-Forwarded-Proto` header, else the request's
      own scheme. */
  function ForwardedProto(forwardedProto: Option<string>, scheme: string): (r: string)
    ensures Truthy(forwardedProto) ==> r == forwardedProto.value
    ensures !Truthy(forwardedProto) ==> r == scheme
  {
    if Truthy(forwardedProto) then forwardedProto.value else scheme
  }

  function DefaultPort(scheme: string): int
  {
    if scheme == "https" then 443 else 80
  }

  /** `_build_origin(request, port)`. `hostname` is what `_request_host`
      found in the request and `httpHost` the configured `HTTP_HOST`. The
      origin starts with the forwarded scheme and the normalized host, the
      request's own host winning over the configured one. */
  function BuildOrigin(forwardedProto: Option<string>, scheme: string, hostname: string,
                       httpHost: string, port: int): (origin: string)
    ensures StartsWith(origin, ForwardedProto(forwardedProto, scheme) + "://"
                               + NormalizeHost(if hostname == "" then httpHost else hostname))
  {
    var proto := ForwardedProto(forwardedProto, scheme);
    var host := if hostname == "" then httpHost else hostname;
    var portPart := if port == DefaultPort(proto) then "" else ":" + IntToString(port);
    var prefix := proto + "://" + NormalizeHost(host);
    assert (prefix + portPart)[..|prefix|] == prefix;
    prefix + portPart
  }

  /** The port is left out of the origin exactly when it is the scheme's
      default. */
  lemma DefaultPortElided(forwardedProto: Option<string>, scheme: string, hostname: string,
                          httpHost: string, port: int)
    ensures var proto := ForwardedProto(forwardedProto, scheme);
            var host := if hostname == "" then httpHost else hostname;
            (BuildOrigin(forwardedProto, scheme, hostname, httpHost, port) == proto + "://" + NormalizeHost(host))
            <==> port == DefaultPort(proto)
  {
    var proto := ForwardedProto(forwardedProto, scheme);
    var host := if hostname == "" then httpHost else hostname;
    var prefix := proto + "://" + NormalizeHost(host);
    if port != DefaultPort(proto) {
      assert |BuildOrigin(forwardedProto, scheme, hostname, httpHost, port)| > |prefix|;
    }
  }

  /** A port that is not the default one can be read back from the origin:
      it is the numeral after the last `:`. */
  lemma PortRecoverable(forwardedProto: Option<string>, scheme: string, hostname: string,
                        httpHost: string, port: int)
    requires port != DefaultPort(ForwardedProto(forwardedProto, scheme))
    ensures var parts := SplitOn(BuildOrigin(forwardedProto, scheme, hostname, httpHost, port), ":");
            ParseInt(parts[|parts| - 1]) == Some(port)
  {
    var proto := ForwardedProto(forwardedProto, scheme);
    var host := if hostname == "" then httpHost else hostname;
    var prefix := proto + "://" + NormalizeHost(host);
    NumeralAvoids(port, ':');
    assert BuildOrigin(forwardedProto, scheme, hostname, httpHost, port) == prefix + [':'] + IntToString(port);
    SplitOnCharLast(prefix, ':', IntToString(port));
    ParseIntToString(port);
  }

  // ---------------------------------------------------------------------------
  // build_login_url, build_listing_url (web_server.py:221-238)
  // ---------------------------------------------------------------------------

  /** The query parameters of a login URL, in order. */
  function LoginParams(nextPath: string, error: bool): (params: seq<(string, string)>)
    ensures ("next", nextPath) in params <==> nextPath != "" && nextPath != "/"
    ensures ("error", "1") in params <==> error
    ensures |params| == (if nextPath != "" && nextPath != "/" then 1 else 0) + (if error then 1 else 0)
    ensures |params| == 2 ==> params == [("next", nextPath), ("error", "1")]
  {
    (if nextPath != "" && nextPath != "/" then [("next", nextPath)] else [])
    + (if error then [("error", "1")] else [])
  }

  /** `build_login_url` with the login origin `origin`; `urlencode` is
      `urllib.parse.urlencode`. */
  function BuildLoginUrl(origin: string, nextPath: string, error: bool,
                         urlencode: seq<(string, string)> -> string): (url: string)
    ensures StartsWith(url, origin + "/")
  {
    var params := LoginParams(nextPath, error);
    var base := origin + "/";
    var url := if |params| > 0 then base + ("?" + urlencode(params)) else base;
    assert url[..|base|] == base;
    url
  }

  /** The login URL carries a query exactly when there is a target other
      than the root or an error to report; the query is the encoding of
      those parameters. */
  lemma LoginUrlQuery(origin: string, nextPath: string, error: bool,
                      urlencode: seq<(string, string)> -> string)
    ensures (BuildLoginUrl(origin, nextPath, error, urlencode) == origin + "/")
            <==> (nextPath == "" || nextPath == "/") && !error
    ensures (nextPath != "" && nextPath != "/") || error ==>
              BuildLoginUrl(origin, nextPath, error, urlencode)
              == origin + "/?" + urlencode(LoginParams(nextPath, error))
  {
    var params := LoginParams(nextPath, error);
    if |params| > 0 {
      assert |BuildLoginUrl(origin, nextPath, error, urlencode)| > |origin + "/"|;
      assert params[0] in params;
    }
  }

  /** `build_listing_url` with the listing origin `base`. */
  function BuildListingUrl(base: string, nextPath: string): (url: string)
    ensures StartsWith(url, base)
    ensures url[|base|..] == if nextPath == "" || nextPath == "/" then "/" else nextPath
  {
    var url := if nextPath == "" || nextPath == "/" then base + "/" else base + nextPath;
    assert url[..|base|] == base;
    url
  }

  /** After a login the browser is sent to a local path of the listing
      origin, whatever target it asked for. */
  lemma ListingRedirectStaysOnOrigin(base: string, target: Option<string>, unquote: string -> Option<string>)
    ensures var url := BuildListingUrl(base, SanitizeNext(target, unquote));
            StartsWith(url, base) && IsLocalPath(url[|base|..])
  {
    var p := SanitizeNext(target, unquote);
    if p == "/" {
      assert "/"[..1] == "/";
    }
  }
}
