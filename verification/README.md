# traefik-plugin-redirect in Dafny

A model of the `Redirect` middleware of the Traefik redirect plugin
(`plugin.go`). For each request the middleware rebuilds the request's
canonical URL (`rawURL`). It matches that URL against one configured regular
expression and rewrites it with a replacement template. Then it does exactly
one of three things:

- it forwards the request unchanged;
- it forwards the request with its URL replaced by the rewritten one;
- it answers with a redirect, whose status it derives from the configured
  code and the request method (`moveHandler`).

Modules:

- `Wrappers` (wrappers.dfy): `Option` and `Result`.
- `CharClass` (charclass.dfy): the ASCII classes `\w`, `\d`, `[\w:.]`,
  `[\w\._-]` of Go's RE2 syntax. It also holds `Span`, the length of a
  maximal run of one class.
- `RawUrl` (rawurl.dfy): `rawURL`. The scheme expression
  `^(https?):\/\/(\[[\w:.]+\]|[\w\._-]+)?(:\d+)?(.*)$` is written as a prefix
  parser, `ParseTarget`. It is also written as a declarative reference:
  `Accepts` says which submatches the expression admits, and `LeftmostFirst`
  says which of them Go's leftmost-first matching reports. Lemmas prove that
  the parser and the reference agree in both directions. Go's `.` does not
  match a newline and `$` matches only at the end of the text, so a target
  that contains a newline never matches. Such a target falls back to the
  Host header followed by the whole target, and the model keeps that
  behaviour exactly.
- `MoveHandler` (movehandler.dfy): the redirect status.
- `Plugin` (plugin.go's `New` and `Redirect.ServeHTTP`): construction and
  the per-request decision, as an `Outcome`: `ForwardUnchanged`,
  `ForwardRewritten(url, requestURI)` or `Moved(location, status)`.

The Go libraries the middleware calls are parameters of the model, not part
of it:

- `RegexEngine<R>` stands for `regexp.Compile`, `MatchString` and
  `ReplaceAllString`.
- `UrlLib<U>` stands for `url.Parse` and `URL.RequestURI`.

A statement about `ServeHTTP` therefore holds for every behaviour those
libraries could have.

## Model

| member | source | states |
|---|---|---|
| CharClass.Span | plugin.go:124 | a greedy class repetition consumes a prefix made only of class characters, and the next character (if any) is outside the class |
| RawUrl.SchemeOf | plugin.go:124-128 | the scheme group `(https?)://` matches exactly when the target starts with `http://` or `https://`, and reports `http` or `https` as written in the target |
| RawUrl.BracketLen | plugin.go:124 | the bracketed-host alternative `\[[\w:.]+\]` matches at most one prefix of the text, and the length it reports is that prefix |
| RawUrl.HostLen | plugin.go:124 | the optional host group reports a bracketed host or a host name; it is empty only when neither alternative can match; a host name it reports cannot be extended |
| RawUrl.PortLen | plugin.go:124 | the optional port group is `:` plus a digit run that cannot be extended; it is empty only when no `:digit` follows |
| RawUrl.ParseTarget | plugin.go:124-139 | the model of `re.Match` followed by `FindStringSubmatch`: the four submatches, or `None` when the scheme expression does not match; its own contract only says a match has an `http(s)://` prefix, and its meaning is carried by RawUrl.ParseTargetSound, RawUrl.ParseTargetComplete, RawUrl.ParseTargetRejects and RawUrl.ParseTargetMatchesIff |
| RawUrl.ParseAuthority | plugin.go:124-139 | the host, port and rest groups matched after `scheme://`; its own contract only says it keeps the scheme, and its meaning is carried by RawUrl.ParseAuthoritySound and RawUrl.ParseAuthorityExact |
| RawUrl.ParseAuthoritySound | plugin.go:124-139 | the split of the text after `scheme://` is a host (or nothing), a port (or nothing) and a newline-free rest that concatenate back to the text, and it is the leftmost-first choice |
| RawUrl.ParseAuthorityExact | plugin.go:124-139 | on a leftmost-first host/port/rest split, the authority parser returns exactly that split |
| RawUrl.ParseTargetSound | plugin.go:124-139 | every split the parser reports is accepted by the scheme expression and is the leftmost-first choice among accepted splits |
| RawUrl.ParseTargetRejects | plugin.go:124-126 | when the parser reports no match, the scheme expression matches no split at all, which covers a target with a newline and a target with no `http(s)://` prefix |
| RawUrl.ParseTargetComplete | plugin.go:124-139 | an accepted, leftmost-first split is exactly what the parser reports; with ParseTargetSound, this is an if-and-only-if between the parser and the reference |
| RawUrl.AcceptedHasNoNewline | plugin.go:124-126 | a target the scheme expression accepts starts with `http(s)://` and contains no newline |
| RawUrl.PrefixedIsParsed | plugin.go:124-126 | conversely, every newline-free target that starts with `http://` or `https://` is matched, including `http:///p` and `http://:8080/p`, where the Host header supplies the host |
| RawUrl.ParseTargetMatchesIff | plugin.go:124-126 | the scheme expression matches a target if and only if the target starts with `http://` or `https://` and contains no newline |
| RawUrl.RawURL | plugin.go:118-146 | the rebuilt URL always starts with `http://` or `https://`, and with `https://` whenever the connection has TLS |
| RawUrl.RawURLOriginForm | plugin.go:119-122 | a target without an `http(s)://` prefix, or containing a newline, yields `scheme://` + Host header + the whole target; the scheme is `https` with TLS and `http` without |
| RawUrl.RawURLAbsoluteForm | plugin.go:126-145 | an absolute-form target yields the scheme (or `https` under TLS), then the target's host if it names one and the Host header otherwise, then the port only if present, then the rest verbatim |
| RawUrl.RawURLKeepsAbsoluteTarget | plugin.go:126-145 | an absolute-form target that names its own host comes back verbatim, whatever the Host header says; TLS only replaces the scheme with `https` |
| RawUrl.RawURLIdempotent | plugin.go:118-146 | rebuilding the URL from an already rebuilt URL, with any Host header, gives the same URL, when the first Host header begins with a host (a host-name character or a bracketed host such as `[::1]`) and neither the target nor that Host header contains a newline |
| MoveHandler.ResolveStatus | plugin.go:99-109 | an unset code gives 302 for GET and 307 for any other method; 301 stays 301 for GET and becomes 308 otherwise; every other code passes through unchanged |
| MoveHandler.ResolvedIsSet | plugin.go:99-105 | the resolved status is never the unset code 0 |
| MoveHandler.NonGetNeverMovedPermanently | plugin.go:107-109 | a non-GET request is never answered with 301 |
| MoveHandler.NonGetPreservesMethod | plugin.go:99-109 | for a non-GET request, an unset code or 301 becomes 307 or 308, both of which keep the method |
| MoveHandler.GetKeepsExplicitStatus | plugin.go:99-109 | for GET, every explicitly configured code is sent as configured |
| MoveHandler.ResolveIdempotent | plugin.go:99-109 | resolving an already resolved status changes nothing |
| Plugin.New | plugin.go:43-57 | construction fails exactly when the pattern does not compile, returning the compiler's error; otherwise it keeps the compiled pattern, the replacement and the status code |
| Plugin.ServeHTTP | plugin.go:59-89 | forward unchanged if and only if the URL does not match or the replacement does not parse; redirect if and only if it matched, parsed and differs from the old URL, with the parsed replacement as location and the resolved status; forward rewritten if and only if it matched, parsed and equals the old URL, carrying the parsed URL and its request URI |
| Plugin.NoMatchPassesThrough | plugin.go:60-66 | a request whose canonical URL does not match is forwarded unchanged |
| Plugin.IdentityReplacementNeverRedirects | plugin.go:78-88 | when the replacement leaves every URL unchanged, no request is ever redirected |
| Plugin.RedirectKeepsMethod | plugin.go:78-82 | a redirect sent to a non-GET request is never 301, and is 307 or 308 when the configured code is unset or 301 |
| Plugin.CanonicalTargetSameDecision | plugin.go:59-89 | re-sending a request with its canonical URL as the target and any Host header gives the same decision as the original, when the original Host header begins with a host and neither it nor the original target contains a newline |
| Plugin.ConfiguredStatusReachesResponse | plugin.go:43-57 | a middleware built from a configuration redirects with the configured code, after the method correction |

## Left out

- Package `regexp` (compiling, matching and `ReplaceAllString` with its `$1` template expansion) is a foreign library. It enters only as the `RegexEngine` parameter. The fixed scheme expression inside `rawURL` is the exception and is modelled by hand.
- Package `net/url` (`url.Parse`, `URL.RequestURI`, `URL.String`) is a foreign library. It enters only as the `UrlLib` parameter. The `Location` header is the parsed URL itself rather than its `String()` form.
- The `http.ResponseWriter` effects are I/O: setting the header, `WriteHeader`, and the body of `http.StatusText`. So are the 500 `http.Error` fallback on a failed body write (plugin.go:111-115) and Go's panic on a status outside 100-999 inside `WriteHeader`.
- Calls to the next handler, the `context` argument, the middleware `name`, and `CreateConfig` with its JSON configuration plumbing are host-pipeline I/O. The struct's injectable `rawURL` field is fixed to `RawUrl.RawURL`, the function `New` always stores in it (plugin.go:39, 55).
- Request targets are Dafny strings of characters, not Go byte strings. Invalid UTF-8 in a target is not modelled. It makes no difference to the scheme expression, whose classes are all ASCII.
- RawUrl.RawURLIdempotent: only stated when the first Host header begins with a host and neither it nor the target contains a newline. An empty Host header, or one such as `[fe80::1%25eth0]`, leaves no host for the second pass to find; a newline makes the second pass fall back to its own Host header. In those cases the property fails, so it does not hold in general.
- Plugin.CanonicalTargetSameDecision: carries the same conditions as RawUrl.RawURLIdempotent, for the same reason.
