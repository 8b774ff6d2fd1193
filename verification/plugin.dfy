/** The `Redirect` middleware of plugin.go: construction from its
    configuration (`New`) and the per-request decision (`Redirect.ServeHTTP`).

    The Go library calls the middleware makes are outside this model and
    enter as function-valued parameters: `RegexEngine` stands for package
    `regexp`, `UrlLib` for package `net/url`. */
module Plugin {
  import opened Wrappers
  import RawUrl
  import MoveHandler

  /** The user configuration (`Config`). */
  datatype Config = Config(regex: string, replacement: string, statusCode: int)

  /** `regexp.Compile`, `(*Regexp).MatchString` and
      `(*Regexp).ReplaceAllString` over compiled expressions of type `R`. */
  datatype RegexEngine<!R> = RegexEngine(
    compile: string -> Result<R, string>,
    matchString: (R, string) -> bool,
    replaceAllString: (R, string, string) -> string)

  /** `url.Parse` (its error reduced to `None`) and `(*URL).RequestURI`
      over parsed URLs of type `U`. */
  datatype UrlLib<!U> = UrlLib(
    parse: string -> Option<U>,
    requestURI: U -> string)

  /** The constructed middleware: the compiled pattern, the replacement
      template and the configured status code. */
  datatype Redirect<R> = Redirect(regex: R, replacement: string, statusCode: int)

  /** What the middleware needs of an inbound request. */
  datatype Request = Request(httpMethod: string, host: string, requestURI: string, tls: bool)

  /** The one terminal action taken for a request. */
  datatype Outcome<U> =
    | ForwardUnchanged
      // the request goes to the next handler with `URL` set and
      // `RequestURI` recomputed from it
    | ForwardRewritten(url: U, requestURI: string)
      // a redirect response with this `Location` and status
    | Moved(location: U, status: int)

  /** `New`: construction fails exactly when the pattern does not compile,
      with the compiler's error; otherwise the middleware keeps the
      compiled pattern, the replacement and the status code as given. */
  function New<R>(engine: RegexEngine<R>, config: Config): (r: Result<Redirect<R>, string>)
    ensures r.Failure? <==> engine.compile(config.regex).Failure?
    ensures r.Failure? ==> r.error == engine.compile(config.regex).error
    ensures r.Success? ==>
              && r.value.regex == engine.compile(config.regex).value
              && r.value.replacement == config.replacement
              && r.value.statusCode == config.statusCode
  {
    match engine.compile(config.regex)
    case Failure(e) => Failure(e)
    case Success(rxp) => Success(Redirect(rxp, config.replacement, config.statusCode))
  }

  /** The URL the pattern is matched against. */
  function OldURL(req: Request): string {
    RawUrl.RawURL(req.requestURI, req.host, req.tls)
  }

  /** `Redirect.ServeHTTP`: match the canonical URL, rewrite it with the
      replacement template, parse the result; redirect when the rewrite
      changed the URL, forward with the parsed URL when it did not, and
      forward untouched when there was no match or the result does not
      parse. */
  function ServeHTTP<R, U>(r: Redirect<R>, engine: RegexEngine<R>, urls: UrlLib<U>, req: Request): (o: Outcome<U>)
    ensures var oldURL := OldURL(req);
            var newURL := engine.replaceAllString(r.regex, oldURL, r.replacement);
            && (o.ForwardUnchanged? <==> !engine.matchString(r.regex, oldURL) || urls.parse(newURL).None?)
            && (o.Moved? <==> engine.matchString(r.regex, oldURL) && urls.parse(newURL).Some? && newURL != oldURL)
            && (o.ForwardRewritten? <==> engine.matchString(r.regex, oldURL) && urls.parse(newURL).Some? && newURL == oldURL)
            && (o.Moved? ==> o.location == urls.parse(newURL).value)
            && (o.ForwardRewritten? ==> o.url == urls.parse(oldURL).value)
            && (o.ForwardRewritten? ==> o.requestURI == urls.requestURI(o.url))
            && (o.Moved? ==> o.status == MoveHandler.ResolveStatus(r.statusCode, req.httpMethod))
  {
    var oldURL := OldURL(req);
    if !engine.matchString(r.regex, oldURL) then ForwardUnchanged
    else
      var newURL := engine.replaceAllString(r.regex, oldURL, r.replacement);
      match urls.parse(newURL)
      case None => ForwardUnchanged
      case Some(parsedURL) =>
        if newURL != oldURL then Moved(parsedURL, MoveHandler.ResolveStatus(r.statusCode, req.httpMethod))
        else ForwardRewritten(parsedURL, urls.requestURI(parsedURL))
  }

  /** A request the pattern does not match reaches the next handler as it
      came: the first clause of `ServeHTTP`'s contract, as a named
      corollary. */
  lemma NoMatchPassesThrough<R, U>(r: Redirect<R>, engine: RegexEngine<R>, urls: UrlLib<U>, req: Request)
    requires !engine.matchString(r.regex, OldURL(req))
    ensures ServeHTTP(r, engine, urls, req) == ForwardUnchanged
  {
  }

  /** A replacement that leaves every URL as it is never produces a
      redirect, so it can only rewrite the request in place. */
  lemma IdentityReplacementNeverRedirects<R, U>(r: Redirect<R>, engine: RegexEngine<R>, urls: UrlLib<U>, req: Request)
    requires forall u :: engine.replaceAllString(r.regex, u, r.replacement) == u
    ensures !ServeHTTP(r, engine, urls, req).Moved?
  {
  }

  /** A redirect sent to a non-GET request keeps the client on the same
      method: it is never a 301, and it is a 307 or 308 when the
      configuration asked for the default or for 301. */
  lemma RedirectKeepsMethod<R, U>(r: Redirect<R>, engine: RegexEngine<R>, urls: UrlLib<U>, req: Request)
    requires req.httpMethod != MoveHandler.MethodGet
    requires ServeHTTP(r, engine, urls, req).Moved?
    ensures ServeHTTP(r, engine, urls, req).status != MoveHandler.StatusMovedPermanently
    ensures r.statusCode == 0 || r.statusCode == MoveHandler.StatusMovedPermanently ==>
              ServeHTTP(r, engine, urls, req).status
                in {MoveHandler.StatusTemporaryRedirect, MoveHandler.StatusPermanentRedirect}
  {
    MoveHandler.NonGetNeverMovedPermanently(r.statusCode, req.httpMethod);
  }

  /** Sending the canonical URL itself as the request target, with any Host
      header, leads to the same decision as the original request, provided
      the original target and Host header hold no newline and the original
      Host header begins with a host. */
  lemma CanonicalTargetSameDecision<R, U>(r: Redirect<R>, engine: RegexEngine<R>, urls: UrlLib<U>, req: Request, host2: string)
    requires '\n' !in req.requestURI && '\n' !in req.host
    requires RawUrl.BeginsWithHost(req.host)
    ensures ServeHTTP(r, engine, urls, req.(requestURI := OldURL(req), host := host2))
            == ServeHTTP(r, engine, urls, req)
  {
    RawUrl.RawURLIdempotent(req.requestURI, req.host, host2, req.tls);
  }

  /** A middleware built from a configuration redirects with the status
      the configuration names, corrected for the request method. */
  lemma ConfiguredStatusReachesResponse<R, U>(engine: RegexEngine<R>, urls: UrlLib<U>, config: Config, req: Request)
    requires New(engine, config).Success?
    requires ServeHTTP(New(engine, config).value, engine, urls, req).Moved?
    ensures ServeHTTP(New(engine, config).value, engine, urls, req).status
            == MoveHandler.ResolveStatus(config.statusCode, req.httpMethod)
  {
  }
}
