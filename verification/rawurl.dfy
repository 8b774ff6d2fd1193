/** The canonical URL of a request, as `rawURL` in plugin.go rebuilds it
    from the request target, the Host header and the presence of TLS.

    The scheme regular expression `^(https?):\/\/(\[[\w:.]+\]|[\w\._-]+)?(:\d+)?(.*)$`
    is modelled twice: `ParseTarget` is a prefix parser that computes the
    four submatches, and `Accepts` / `LeftmostFirst` say declaratively which
    submatches the expression admits and which of them Go's leftmost-first
    matching reports. The lemmas `ParseTargetSound`, `ParseTargetRejects` and
    `ParseTargetComplete` show the two agree. */
module RawUrl {
  import opened Wrappers
  import opened CharClass

  const SchemeHttp := "http"
  const SchemeHttps := "https"

  /** The four submatches of the scheme regular expression. */
  datatype Target = Target(scheme: string, host: string, port: string, rest: string)

  /** The first `j` characters of `s` are what the alternative `\[[\w:.]+\]` matches. */
  predicate BracketHostAt(s: string, j: int) {
    && 3 <= j <= |s|
    && s[0] == '['
    && s[j - 1] == ']'
    && forall i :: 1 <= i < j - 1 ==> IsBracketChar(s[i])
  }

  /** The first `j` characters of `s` are what the alternative `[\w\._-]+` matches. */
  predicate NameHostAt(s: string, j: int) {
    1 <= j <= |s| && forall i :: 0 <= i < j ==> IsNameChar(s[i])
  }

  /** The first `j` characters of `s` are what the group `(:\d+)` matches. */
  predicate PortAt(s: string, j: int) {
    2 <= j <= |s| && s[0] == ':' && forall i :: 1 <= i < j ==> IsDigit(s[i])
  }

  predicate IsBracketHost(h: string) { BracketHostAt(h, |h|) }

  predicate IsNameHost(h: string) { NameHostAt(h, |h|) }

  predicate IsPort(p: string) { PortAt(p, |p|) }

  /** The regular expression matches `uri` with `t` as its submatches
      (an absent optional group is the empty string). */
  ghost predicate Accepts(uri: string, t: Target) {
    && (t.scheme == SchemeHttp || t.scheme == SchemeHttps)
    && (t.host == "" || IsBracketHost(t.host) || IsNameHost(t.host))
    && (t.port == "" || IsPort(t.port))
    && '\n' !in t.rest
    && uri == t.scheme + "://" + t.host + t.port + t.rest
  }

  /** Among accepted submatches, the ones leftmost-first matching reports:
      an optional group is skipped only when it cannot match at that point,
      the bracketed alternative is preferred to the plain one, and every
      repetition runs as far as it can (the trailing `(.*)$` never forces a
      shorter choice). */
  ghost predicate LeftmostFirst(t: Target) {
    var after := t.port + t.rest;
    && (t.host == "" ==>
          && (forall j :: !BracketHostAt(after, j))
          && !NameHostAt(after, 1))
    && (IsNameHost(t.host) ==> !NameHostAt(after, 1))
    && (t.port == "" ==> !PortAt(t.rest, 2))
    && (t.port != "" ==> !(|t.rest| > 0 && IsDigit(t.rest[0])))
  }

  /** The target is in absolute form with an `http` or `https` scheme. */
  predicate HasHttpPrefix(uri: string) {
    "http://" <= uri || "https://" <= uri
  }

  /** The scheme group `(https?)` followed by `://`. */
  function SchemeOf(uri: string): (r: Option<string>)
    ensures r.Some? <==> HasHttpPrefix(uri)
    ensures r.Some? ==> (r.value == SchemeHttp || r.value == SchemeHttps) && r.value + "://" <= uri
  {
    if |uri| >= 8 && uri[..8] == "https://" then Some(SchemeHttps)
    else if |uri| >= 7 && uri[..7] == "http://" then Some(SchemeHttp)
    else None
  }

  /** Length of the bracketed host at the start of `a`, 0 when there is none;
      a bracketed host, when present, is unique. */
  function BracketLen(a: string): (n: nat)
    ensures n <= |a|
    ensures n > 0 ==> BracketHostAt(a, n)
    ensures forall j :: BracketHostAt(a, j) ==> j == n
  {
    if |a| >= 1 && a[0] == '[' then
      var k := Span(a[1..], IsBracketChar);
      BracketPrefixExact(a, k);
      if 0 < k && k + 1 < |a| && a[k + 1] == ']' then k + 2 else 0
    else 0
  }

  /** Every bracketed host at the start of `a` closes right after the span
      of bracket characters that follows the `[`. */
  lemma BracketPrefixExact(a: string, k: nat)
    requires |a| >= 1 && a[0] == '['
    requires k == Span(a[1..], IsBracketChar)
    ensures forall j :: BracketHostAt(a, j) ==>
              j == k + 2 && 0 < k && k + 1 < |a| && a[k + 1] == ']'
  {
    forall j | BracketHostAt(a, j)
      ensures j == k + 2 && 0 < k && k + 1 < |a| && a[k + 1] == ']'
    {
      assert forall i :: 0 <= i < j - 2 ==> IsBracketChar(a[1..][i]) by {
        forall i | 0 <= i < j - 2 ensures IsBracketChar(a[1..][i]) {
          assert a[1..][i] == a[i + 1];
        }
      }
      assert a[1..][j - 2] == ']';
      SpanUnique(a[1..], IsBracketChar, j - 2);
    }
  }

  /** Length of the host group `(\[[\w:.]+\]|[\w\._-]+)?` at the start of `a`. */
  function HostLen(a: string): (n: nat)
    ensures n <= |a|
    ensures n == 0 || BracketHostAt(a, n) || NameHostAt(a, n)
    ensures n == 0 ==> (forall j :: !BracketHostAt(a, j)) && !NameHostAt(a, 1)
    ensures NameHostAt(a, n) ==> !NameHostAt(a, n + 1)
  {
    var b := BracketLen(a);
    if b > 0 then
      assert !NameHostAt(a, b) by { assert !IsNameChar(a[0]); }
      b
    else Span(a, IsNameChar)
  }

  /** Length of the port group `(:\d+)?` at the start of `a`. */
  function PortLen(a: string): (n: nat)
    ensures n <= |a|
    ensures n == 0 || PortAt(a, n)
    ensures n == 0 ==> !PortAt(a, 2)
    ensures 0 < n < |a| ==> !IsDigit(a[n])
  {
    if |a| >= 1 && a[0] == ':' then
      var d := Span(a[1..], IsDigit);
      assert forall i :: 1 <= i <= d ==> IsDigit(a[i]) by {
        forall i | 1 <= i <= d ensures IsDigit(a[i]) {
          assert a[1..][i - 1] == a[i];
        }
      }
      assert |a| >= 2 ==> a[1] == a[1..][0];
      assert d + 1 < |a| ==> a[d + 1] == a[1..][d];
      if d > 0 then d + 1 else 0
    else 0
  }

  /** The host, port and rest groups matched on the text `a` after `scheme://`. */
  function ParseAuthority(scheme: string, a: string): (r: Option<Target>)
    ensures r.Some? ==> r.value.scheme == scheme
  {
    var h := HostLen(a);
    var p := PortLen(a[h..]);
    var rest := a[h..][p..];
    if '\n' in rest then None
    else Some(Target(scheme, a[..h], a[h..][..p], rest))
  }

  /** The submatches of the scheme regular expression on `uri`, or `None`
      when it does not match. */
  function ParseTarget(uri: string): (r: Option<Target>)
    ensures r.Some? ==> HasHttpPrefix(uri)
  {
    match SchemeOf(uri)
    case None => None
    case Some(scheme) => ParseAuthority(scheme, uri[|scheme| + 3..])
  }

  lemma BracketHostPrefix(a: string, n: int)
    requires 0 <= n <= |a|
    ensures BracketHostAt(a, n) <==> IsBracketHost(a[..n])
  {
    assert forall i :: 0 <= i < n ==> a[..n][i] == a[i];
  }

  lemma NameHostPrefix(a: string, n: int)
    requires 0 <= n <= |a|
    ensures NameHostAt(a, n) <==> IsNameHost(a[..n])
  {
    assert forall i :: 0 <= i < n ==> a[..n][i] == a[i];
  }

  lemma PortPrefix(a: string, n: int)
    requires 0 <= n <= |a|
    ensures PortAt(a, n) <==> IsPort(a[..n])
  {
    assert forall i :: 0 <= i < n ==> a[..n][i] == a[i];
  }

  /** The host group consumes exactly a host that leftmost-first matching
      would report in front of `after`. */
  lemma HostLenExact(host: string, after: string)
    requires host == "" || IsBracketHost(host) || IsNameHost(host)
    requires host == "" ==> (forall j :: !BracketHostAt(after, j)) && !NameHostAt(after, 1)
    requires IsNameHost(host) ==> !NameHostAt(after, 1)
    ensures HostLen(host + after) == |host|
  {
    var a := host + after;
    assert a[..|host|] == host;
    if host == "" {
      assert a == after;
    } else if IsBracketHost(host) {
      BracketHostPrefix(a, |host|);
    } else {
      assert host[0] != '[' by { assert IsNameChar(host[0]); }
      assert BracketLen(a) == 0;
      assert forall i :: 0 <= i < |host| ==> a[i] == host[i];
      assert |host| < |a| ==> a[|host|] == after[0];
      SpanUnique(a, IsNameChar, |host|);
    }
  }

  /** The port group consumes exactly a port that leftmost-first matching
      would report in front of `rest`. */
  lemma PortLenExact(port: string, rest: string)
    requires port == "" || IsPort(port)
    requires port == "" ==> !PortAt(rest, 2)
    requires port != "" ==> !(|rest| > 0 && IsDigit(rest[0]))
    ensures PortLen(port + rest) == |port|
  {
    var a := port + rest;
    if port == "" {
      assert a == rest;
    } else {
      assert a[0] == ':';
      assert forall i :: 0 <= i < |port| - 1 ==> a[1..][i] == port[i + 1];
      assert |port| - 1 < |a[1..]| ==> a[1..][|port| - 1] == rest[0];
      SpanUnique(a[1..], IsDigit, |port| - 1);
    }
  }

  lemma NoNewlineInHost(host: string)
    requires host == "" || IsBracketHost(host) || IsNameHost(host)
    ensures '\n' !in host
  {
  }

  lemma NoNewlineInPort(port: string)
    requires port == "" || IsPort(port)
    ensures '\n' !in port
  {
  }

  lemma HostGroupShape(a: string)
    ensures var h := HostLen(a); a[..h] == "" || IsBracketHost(a[..h]) || IsNameHost(a[..h])
  {
    var h := HostLen(a);
    BracketHostPrefix(a, h);
    NameHostPrefix(a, h);
  }

  lemma PortGroupShape(b: string)
    ensures var p := PortLen(b); b[..p] == "" || IsPort(b[..p])
  {
    PortPrefix(b, PortLen(b));
  }

  lemma AuthorityConcat(a: string)
    ensures var h := HostLen(a); var b := a[h..]; var p := PortLen(b);
            a == a[..h] + b[..p] + b[p..]
  {
    var h := HostLen(a);
    var b := a[h..];
    var p := PortLen(b);
    assert a == a[..h] + b;
    assert b == b[..p] + b[p..];
  }

  lemma AuthorityLeftmostFirst(scheme: string, a: string)
    ensures var h := HostLen(a); var b := a[h..]; var p := PortLen(b);
            LeftmostFirst(Target(scheme, a[..h], b[..p], b[p..]))
  {
    var h := HostLen(a);
    var b := a[h..];
    var p := PortLen(b);
    var t := Target(scheme, a[..h], b[..p], b[p..]);
    NameHostPrefix(a, h);
    assert t.port + t.rest == b;
    assert h == 0 ==> b == a;
    assert |b| > 0 ==> b[0] == a[h];
    assert p < |b| ==> b[p..][0] == b[p];
  }

  /** `ParseAuthority` reports a host/port/rest split of `a` that the
      regular expression accepts and leftmost-first matching picks. */
  lemma ParseAuthoritySound(scheme: string, a: string)
    requires ParseAuthority(scheme, a).Some?
    ensures var t := ParseAuthority(scheme, a).value;
            && (t.host == "" || IsBracketHost(t.host) || IsNameHost(t.host))
            && (t.port == "" || IsPort(t.port))
            && '\n' !in t.rest
            && a == t.host + t.port + t.rest
            && LeftmostFirst(t)
  {
    HostGroupShape(a);
    PortGroupShape(a[HostLen(a)..]);
    AuthorityConcat(a);
    AuthorityLeftmostFirst(scheme, a);
  }

  /** The scheme group reads back the scheme of an accepted target. */
  lemma SchemeOfAccepted(uri: string, t: Target)
    requires Accepts(uri, t)
    ensures SchemeOf(uri) == Some(t.scheme)
    ensures uri[|t.scheme| + 3..] == t.host + t.port + t.rest
  {
    var k := |t.scheme| + 3;
    var a := t.host + t.port + t.rest;
    assert uri == (t.scheme + "://") + a;
    assert uri[..k] == t.scheme + "://";
    if t.scheme == SchemeHttp {
      assert uri[..7] == "http://";
      assert |uri| >= 8 ==> uri[..8] != "https://" by {
        if |uri| >= 8 { assert uri[..8][4] == ':'; }
      }
    } else {
      assert uri[..8] == "https://";
    }
  }

  /** The text after `scheme://` splits without a newline when it has none. */
  lemma ParseAuthorityNewlineFree(scheme: string, a: string)
    requires '\n' !in a
    ensures ParseAuthority(scheme, a).Some?
  {
    var b := a[HostLen(a)..];
    assert forall c :: c in b[PortLen(b)..] ==> c in a;
  }

  lemma ConcatAssoc(s: string, h: string, p: string, r: string)
    ensures s + (h + p + r) == s + h + p + r
  {
  }

  /** Whatever `ParseTarget` reports is a match of the regular expression,
      and the one leftmost-first matching picks. */
  lemma ParseTargetSound(uri: string)
    ensures ParseTarget(uri).Some? ==>
              Accepts(uri, ParseTarget(uri).value) && LeftmostFirst(ParseTarget(uri).value)
  {
    if ParseTarget(uri).Some? {
      var scheme := SchemeOf(uri).value;
      var a := uri[|scheme| + 3..];
      assert ParseTarget(uri) == ParseAuthority(scheme, a);
      ParseAuthoritySound(scheme, a);
      var t := ParseAuthority(scheme, a).value;
      SchemeSplit(uri, scheme);
      ConcatAssoc(scheme + "://", t.host, t.port, t.rest);
      AcceptsParts(uri, t);
    }
  }

  lemma SchemeSplit(uri: string, scheme: string)
    requires scheme + "://" <= uri
    ensures uri == scheme + "://" + uri[|scheme| + 3..]
  {
    assert uri == uri[..|scheme| + 3] + uri[|scheme| + 3..];
  }

  lemma AcceptsParts(uri: string, t: Target)
    requires t.scheme == SchemeHttp || t.scheme == SchemeHttps
    requires t.host == "" || IsBracketHost(t.host) || IsNameHost(t.host)
    requires t.port == "" || IsPort(t.port)
    requires '\n' !in t.rest
    requires uri == t.scheme + "://" + t.host + t.port + t.rest
    ensures Accepts(uri, t)
  {
  }

  /** A target the regular expression accepts at all is parsed. */
  lemma AcceptedIsParsed(uri: string, t: Target)
    requires Accepts(uri, t)
    ensures ParseTarget(uri).Some?
  {
    SchemeOfAccepted(uri, t);
    NoNewlineInHost(t.host);
    NoNewlineInPort(t.port);
    ParseAuthorityNewlineFree(t.scheme, t.host + t.port + t.rest);
  }

  /** When `ParseTarget` finds no match, the regular expression has none. */
  lemma ParseTargetRejects(uri: string)
    ensures ParseTarget(uri).None? ==> forall t :: !Accepts(uri, t)
  {
    if ParseTarget(uri).None? {
      forall t | Accepts(uri, t) ensures false {
        AcceptedIsParsed(uri, t);
      }
    }
  }

  /** On the leftmost-first split of the text after `scheme://`,
      `ParseAuthority` gives back exactly that split. */
  lemma ParseAuthorityExact(t: Target)
    requires t.host == "" || IsBracketHost(t.host) || IsNameHost(t.host)
    requires t.port == "" || IsPort(t.port)
    requires '\n' !in t.rest
    requires LeftmostFirst(t)
    ensures ParseAuthority(t.scheme, t.host + t.port + t.rest) == Some(t)
  {
    var after := t.port + t.rest;
    var a := t.host + after;
    assert a == t.host + t.port + t.rest;
    HostLenExact(t.host, after);
    PortLenExact(t.port, t.rest);
    assert a[..|t.host|] == t.host && a[|t.host|..] == after;
    assert after[..|t.port|] == t.port && after[|t.port|..] == t.rest;
    ParseAuthorityUnfold(t.scheme, a);
  }

  lemma ParseAuthorityUnfold(scheme: string, a: string)
    ensures var h := HostLen(a); var b := a[h..]; var p := PortLen(b);
            ParseAuthority(scheme, a) ==
              if '\n' in b[p..] then None else Some(Target(scheme, a[..h], b[..p], b[p..]))
  {
  }

  /** The leftmost-first submatches of an accepted target are exactly what
      `ParseTarget` reports. */
  lemma ParseTargetComplete(uri: string, t: Target)
    requires Accepts(uri, t) && LeftmostFirst(t)
    ensures ParseTarget(uri) == Some(t)
  {
    SchemeOfAccepted(uri, t);
    ParseAuthorityExact(t);
  }

  /** The canonical absolute URL of a request (`rawURL`): scheme, host and
      port come from an absolute-form target when the scheme expression
      matches it, otherwise the scheme is `http`, the host is the Host
      header and the whole target is the rest; TLS forces `https`. */
  function RawURL(requestURI: string, host: string, tls: bool): (r: string)
    ensures tls ==> "https://" <= r
    ensures HasHttpPrefix(r)
  {
    var parsed := ParseTarget(requestURI);
    var scheme := if parsed.Some? then parsed.value.scheme else SchemeHttp;
    var authority := if parsed.Some? && |parsed.value.host| > 0 then parsed.value.host else host;
    var port := if parsed.Some? then parsed.value.port else "";
    var rest := if parsed.Some? then parsed.value.rest else requestURI;
    Assemble(if tls then SchemeHttps else scheme, authority, port, rest)
  }

  /** `scheme://` followed by the authority, port and rest, as the final
      `strings.Join` of `rawURL` writes it. */
  function Assemble(scheme: string, authority: string, port: string, rest: string): (r: string)
    ensures scheme + "://" <= r
  {
    var r := scheme + "://" + authority + port + rest;
    assert r == (scheme + "://") + (authority + port + rest);
    r
  }

  /** An accepted target carries no newline: the regular expression's `.`
      stops at one and `$` only matches at the end of the text. */
  lemma AcceptedHasNoNewline(uri: string, t: Target)
    requires Accepts(uri, t)
    ensures '\n' !in uri && HasHttpPrefix(uri)
  {
    NoNewlineInHost(t.host);
    NoNewlineInPort(t.port);
    JoinNoNewline(t.scheme, t.host, t.port, t.rest, uri);
  }

  lemma JoinNoNewline(scheme: string, host: string, port: string, rest: string, uri: string)
    requires scheme == SchemeHttp || scheme == SchemeHttps
    requires '\n' !in host && '\n' !in port && '\n' !in rest
    requires uri == scheme + "://" + host + port + rest
    ensures '\n' !in uri && HasHttpPrefix(uri)
  {
  }

  /** A target that is not in absolute `http(s)://` form, or that holds a
      newline, is all path: the Host header supplies the authority. */
  lemma RawURLOriginForm(uri: string, host: string, tls: bool)
    requires !HasHttpPrefix(uri) || '\n' in uri
    ensures RawURL(uri, host, tls) == (if tls then SchemeHttps else SchemeHttp) + "://" + host + uri
  {
    ParseTargetSound(uri);
    if ParseTarget(uri).Some? {
      AcceptedHasNoNewline(uri, ParseTarget(uri).value);
    }
  }

  /** For an absolute-form target, the URL is assembled from the submatches
      leftmost-first matching reports: the target's host when it names one,
      else the Host header, then the port if any and the rest verbatim. */
  lemma RawURLAbsoluteForm(uri: string, host: string, tls: bool, t: Target)
    requires Accepts(uri, t) && LeftmostFirst(t)
    ensures RawURL(uri, host, tls) ==
              (if tls then SchemeHttps else t.scheme) + "://"
              + (if t.host == "" then host else t.host) + t.port + t.rest
  {
    ParseTargetComplete(uri, t);
  }

  /** The text after `scheme://` starts with something the host group
      matches. */
  ghost predicate BeginsWithHost(x: string) {
    NameHostAt(x, 1) || exists j :: BracketHostAt(x, j)
  }

  /** An absolute target that names its own host is reproduced verbatim,
      whatever the Host header says, except that TLS upgrades the scheme. */
  lemma RawURLKeepsAbsoluteTarget(scheme: string, x: string, host: string, tls: bool)
    requires scheme == SchemeHttp || scheme == SchemeHttps
    requires '\n' !in x && BeginsWithHost(x)
    ensures RawURL(scheme + "://" + x, host, tls) == (if tls then SchemeHttps else scheme) + "://" + x
  {
    var uri := scheme + "://" + x;
    var t0 := Target(scheme, "", "", x);
    assert uri == t0.scheme + "://" + t0.host + t0.port + t0.rest;
    AcceptsParts(uri, t0);
    AcceptedIsParsed(uri, t0);
    ParseTargetSound(uri);
    var t := ParseTarget(uri).value;
    SchemeOfAccepted(uri, t);
    SchemeOfAccepted(uri, t0);
    LeftmostFirstTakesHost(t, x);
    RawURLAbsoluteForm(uri, host, tls, t);
    ConcatAssoc((if tls then SchemeHttps else scheme) + "://", t.host, t.port, t.rest);
  }

  /** When the text after `scheme://` begins with a host, leftmost-first
      matching does not skip the optional host group. */
  lemma LeftmostFirstTakesHost(t: Target, x: string)
    requires LeftmostFirst(t)
    requires x == t.host + t.port + t.rest
    requires BeginsWithHost(x)
    ensures t.host != ""
  {
    assert t.host == "" ==> x == t.port + t.rest;
  }

  lemma RawURLUnparsed(uri: string, host: string, tls: bool)
    requires ParseTarget(uri).None?
    ensures RawURL(uri, host, tls) == (if tls then SchemeHttps else SchemeHttp) + "://" + (host + uri)
  {
  }

  /** The URL built for a newline-free target whose Host header starts like
      a host name is `scheme://` followed by text that begins with a host. */
  lemma CanonicalSplit(uri: string, host: string, tls: bool) returns (s: string, x: string)
    requires '\n' !in uri && '\n' !in host
    requires BeginsWithHost(host)
    ensures s == SchemeHttp || s == SchemeHttps
    ensures tls ==> s == SchemeHttps
    ensures '\n' !in x && BeginsWithHost(x)
    ensures RawURL(uri, host, tls) == s + "://" + x
  {
    ParseTargetSound(uri);
    if ParseTarget(uri).None? {
      s := if tls then SchemeHttps else SchemeHttp;
      x := host + uri;
      HostStartsText(host, uri);
      RawURLUnparsed(uri, host, tls);
    } else {
      var t := ParseTarget(uri).value;
      s := if tls then SchemeHttps else t.scheme;
      x := CanonicalSplitParsed(uri, host, tls, t);
    }
  }

  lemma CanonicalSplitParsed(uri: string, host: string, tls: bool, t: Target) returns (x: string)
    requires '\n' !in host
    requires BeginsWithHost(host)
    requires Accepts(uri, t) && LeftmostFirst(t)
    ensures '\n' !in x && BeginsWithHost(x)
    ensures RawURL(uri, host, tls) == (if tls then SchemeHttps else t.scheme) + "://" + x
  {
    var h := if t.host == "" then host else t.host;
    NoNewlineInHost(t.host);
    if t.host != "" {
      HostIsHostStart(t.host);
    }
    x := AuthorityText(h, t.port, t.rest);
    RawURLAbsoluteForm(uri, host, tls, t);
    ConcatAssoc((if tls then SchemeHttps else t.scheme) + "://", h, t.port, t.rest);
  }

  /** A whole bracketed host or host name begins with a host. */
  lemma HostIsHostStart(h: string)
    requires IsBracketHost(h) || IsNameHost(h)
    ensures BeginsWithHost(h)
  {
    if IsBracketHost(h) {
      assert BracketHostAt(h, |h|);
    } else {
      assert NameHostAt(h, 1);
    }
  }

  /** The text after `scheme://` of a URL whose authority is a host. */
  lemma AuthorityText(h: string, port: string, rest: string) returns (x: string)
    requires BeginsWithHost(h)
    requires '\n' !in h
    requires port == "" || IsPort(port)
    requires '\n' !in rest
    ensures x == h + port + rest
    ensures '\n' !in x && BeginsWithHost(x)
  {
    x := h + port + rest;
    HostStartsText(h, port + rest);
    assert x == h + (port + rest);
    NoNewlineInPort(port);
  }

  /** Text that begins with a host still begins with one when more text
      follows it. */
  lemma HostStartsText(h: string, after: string)
    requires BeginsWithHost(h)
    ensures BeginsWithHost(h + after)
  {
    var x := h + after;
    assert forall i :: 0 <= i < |h| ==> x[i] == h[i];
    if NameHostAt(h, 1) {
      assert NameHostAt(x, 1);
    } else {
      var j :| BracketHostAt(h, j);
      assert BracketHostAt(x, j);
    }
  }

  /** Rebuilding the URL from an already canonical URL, with any Host
      header, changes nothing, so long as the Host header the first pass
      used begins with a host and nothing holds a newline. */
  lemma RawURLIdempotent(uri: string, host: string, host2: string, tls: bool)
    requires '\n' !in uri && '\n' !in host
    requires BeginsWithHost(host)
    ensures RawURL(RawURL(uri, host, tls), host2, tls) == RawURL(uri, host, tls)
  {
    var s, x := CanonicalSplit(uri, host, tls);
    RawURLKeepsAbsoluteTarget(s, x, host2, tls);
  }

  /** Every newline-free target with an `http://` or `https://` prefix is
      matched by the scheme expression. */
  lemma PrefixedIsParsed(uri: string)
    requires HasHttpPrefix(uri) && '\n' !in uri
    ensures ParseTarget(uri).Some?
  {
    var s := SchemeOf(uri).value;
    var a := uri[|s| + 3..];
    assert forall c :: c in a ==> c in uri;
    ParseAuthorityNewlineFree(s, a);
  }

  /** The scheme expression matches a target exactly when the target starts
      with `http://` or `https://` and holds no newline. */
  lemma ParseTargetMatchesIff(uri: string)
    ensures ParseTarget(uri).Some? <==> HasHttpPrefix(uri) && '\n' !in uri
  {
    if HasHttpPrefix(uri) && '\n' !in uri {
      PrefixedIsParsed(uri);
    }
    if ParseTarget(uri).Some? {
      ParseTargetSound(uri);
      AcceptedHasNoNewline(uri, ParseTarget(uri).value);
    }
  }
}
