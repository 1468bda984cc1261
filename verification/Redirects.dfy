/**
 Redirects: how the options of a request become those of the request it is redirected to, and what holds over whole chains.
 URL parsing is a parameter.
 */
module Redirects {
  import opened Wrappers

  /** A parsed URL. The port is empty when it is the default of the scheme, as the URL parser leaves it. */
  datatype Url = Url(protocol: string, hostname: string, port: string, path: string)

  /** Headers that have a value, by name as written. */
  type Headers = map<string, string>

  datatype Options = Options(
    protocol: Option<string>, hostname: Option<string>, port: Option<string>, host: Option<string>, path: Option<string>,
    headers: Headers, ownHeaders: Headers, auth: Option<string>, redirectedFromNonLoopback: bool)

  /**
   What the URL parser does: `parse` resolves a location against an origin (None when it throws), `hostnameOf` reads the hostname
   of a `host` option, `isIPv4` is net.isIPv4.
   */
  datatype Net = Net(parse: (string, Url) -> Option<Url>, hostnameOf: string -> Option<string>, isIPv4: string -> bool)

  const MAX_REDIRECTS := 10
  const USER_AGENT := "User-Agent"
  const CACHE_CONTROL := "Cache-Control"
  const DEFAULT_USER_AGENT := "electron-builder"
  const NO_CACHE := "no-cache"

  // ---- names

  function LowerChar(c: char): char {
    if 'A' <= c <= 'Z' then (c as int + 32) as char else c
  }

  function Lower(s: string): (r: string)
    ensures |r| == |s|
  {
    seq(|s|, k requires 0 <= k < |s| => LowerChar(s[k]))
  }

  function WithoutSeparators(s: string): string {
    if s == "" then "" else (if s[0] == '-' || s[0] == '_' then "" else [s[0]]) + WithoutSeparators(s[1..])
  }

  /** normalizeName. */
  function NormalName(name: string): string {
    WithoutSeparators(Lower(name))
  }

  /** The names withheld from other origins by default. */
  const SENSITIVE_REDIRECT_HEADERS: set<string> := {
    "authorization", "proxyauthorization", "privatetoken", "xapikey", "xauthtoken", "xaccesstoken", "xgitlabtoken", "cookie", "xcsrftoken"
  }

  /** addSensitiveRedirectHeader adds names to them. */
  function Listed(registered: seq<string>): set<string> {
    if registered == [] then SENSITIVE_REDIRECT_HEADERS else Listed(registered[1..]) + {NormalName(registered[0])}
  }

  lemma {:induction false} DefaultsAreListed(registered: seq<string>)
    ensures SENSITIVE_REDIRECT_HEADERS <= Listed(registered)
  {
    hide NormalName;
    if registered != [] {
      DefaultsAreListed(registered[1..]);
    }
  }

  lemma {:induction false} WithoutSeparatorsAppend(a: string, b: string)
    ensures WithoutSeparators(a + b) == WithoutSeparators(a) + WithoutSeparators(b)
  {
    if a == "" {
      assert a + b == b;
    } else {
      assert (a + b)[1..] == a[1..] + b;
      WithoutSeparatorsAppend(a[1..], b);
    }
  }

  lemma LowerAppend(a: string, b: string)
    ensures Lower(a + b) == Lower(a) + Lower(b)
  {
  }

  lemma NormalNameAppend(a: string, b: string)
    ensures NormalName(a + b) == NormalName(a) + NormalName(b)
  {
    LowerAppend(a, b);
    WithoutSeparatorsAppend(Lower(a), Lower(b));
  }

  lemma NormalNameOfOne(c: char)
    ensures NormalName([c]) == if c == '-' || c == '_' then "" else if 'A' <= c <= 'Z' then [(c as int + 32) as char] else [c]
  {
    var lower := Lower([c]);
    assert lower == [LowerChar(c)] && lower[1..] == "";
    assert WithoutSeparators(lower) == (if lower[0] == '-' || lower[0] == '_' then "" else [lower[0]]) + WithoutSeparators("");
  }

  /** Names are compared without dashes, underscores and ASCII case, wherever these stand. */
  lemma NormalNameIs(a: string, c: char, b: string)
    ensures NormalName("") == ""
    ensures NormalName(a + [c] + b) ==
            if c == '-' || c == '_' then NormalName(a + b)
            else NormalName(a) + [if 'A' <= c <= 'Z' then (c as int + 32) as char else c] + NormalName(b)
  {
    hide NormalName;
    EmptyName();
    NormalNameAppend(a + [c], b);
    NormalNameAppend(a, [c]);
    NormalNameAppend(a, b);
    NormalNameOfOne(c);
    assert NormalName(a) + "" == NormalName(a);
  }

  lemma EmptyName()
    ensures NormalName("") == ""
  {
    assert Lower("") == "";
  }

  predicate IsWord(s: string) {
    forall k :: 0 <= k < |s| ==> s[k] != '-' && s[k] != '_'
  }

  lemma OneWord(name: string, a: string)
    requires Lower(name) == a && IsWord(a)
    ensures NormalName(name) == a
  {
    NoSeparators(a);
  }

  lemma TwoWords(name: string, a: string, c: char, b: string)
    requires Lower(name) == a + [c] + b && (c == '-' || c == '_') && IsWord(a) && IsWord(b)
    ensures NormalName(name) == a + b
  {
    Joined(a, c, b);
    NoSeparators(b);
  }

  lemma ThreeWords(name: string, a: string, c: char, b: string, d: char, e: string)
    requires Lower(name) == a + [c] + (b + [d] + e) && (c == '-' || c == '_') && (d == '-' || d == '_') && IsWord(a) && IsWord(b) && IsWord(e)
    ensures NormalName(name) == a + (b + e)
  {
    Joined(a, c, b + [d] + e);
    Joined(b, d, e);
    NoSeparators(e);
  }

  lemma {:induction false} NoSeparators(s: string)
    requires IsWord(s)
    ensures WithoutSeparators(s) == s
  {
    if s != "" {
      NoSeparators(s[1..]);
      assert s == [s[0]] + s[1..];
    }
  }

  lemma Joined(a: string, c: char, b: string)
    requires (c == '-' || c == '_') && IsWord(a)
    ensures WithoutSeparators(a + [c] + b) == a + WithoutSeparators(b)
  {
    WithoutSeparatorsAppend(a + [c], b);
    WithoutSeparatorsAppend(a, [c]);
    NoSeparators(a);
    assert [c][1..] == "" && WithoutSeparators([c]) == "" + WithoutSeparators("");
    assert a + "" == a;
  }

  lemma AuthorizationNames()
    ensures NormalName("Authorization") == "authorization" && NormalName("Cookie") == "cookie"
  {
    hide NormalName;
    OneWord("Authorization", "authorization");
    OneWord("Cookie", "cookie");
  }

  lemma ProxyName()
    ensures NormalName("Proxy-Authorization") == "proxyauthorization"
  {
    hide NormalName;
    TwoWords("Proxy-Authorization", "proxy", '-', "authorization");
  }

  lemma PrivateName()
    ensures NormalName("PRIVATE-TOKEN") == "privatetoken"
  {
    hide NormalName;
    TwoWords("PRIVATE-TOKEN", "private", '-', "token");
  }

  lemma ApiName()
    ensures NormalName("X-API-Key") == "xapikey"
  {
    hide NormalName;
    ThreeWords("X-API-Key", "x", '-', "api", '-', "key");
  }

  lemma AuthName()
    ensures NormalName("x_auth_token") == "xauthtoken"
  {
    hide NormalName;
    ThreeWords("x_auth_token", "x", '_', "auth", '_', "token");
  }

  lemma AccessName()
    ensures NormalName("X-Access-Token") == "xaccesstoken"
  {
    hide NormalName;
    ThreeWords("X-Access-Token", "x", '-', "access", '-', "token");
  }

  lemma GitlabName()
    ensures NormalName("X-Gitlab-Token") == "xgitlabtoken"
  {
    hide NormalName;
    ThreeWords("X-Gitlab-Token", "x", '-', "gitlab", '-', "token");
  }

  lemma CsrfName()
    ensures NormalName("X-CSRF-Token") == "xcsrftoken"
  {
    hide NormalName;
    ThreeWords("X-CSRF-Token", "x", '-', "csrf", '-', "token");
  }

  /** The headers credentials are sent in, as they are commonly spelled, are all withheld. */
  lemma CredentialsAreListed(registered: seq<string>)
    ensures NormalName("Authorization") in Listed(registered) && NormalName("Proxy-Authorization") in Listed(registered)
    ensures NormalName("PRIVATE-TOKEN") in Listed(registered) && NormalName("X-API-Key") in Listed(registered)
    ensures NormalName("x_auth_token") in Listed(registered) && NormalName("X-Access-Token") in Listed(registered)
    ensures NormalName("X-Gitlab-Token") in Listed(registered) && NormalName("Cookie") in Listed(registered)
    ensures NormalName("X-CSRF-Token") in Listed(registered)
  {
    hide NormalName, Listed;
    AuthorizationNames();
    ProxyName();
    PrivateName();
    ApiName();
    AuthName();
    AccessName();
    GitlabName();
    CsrfName();
    DefaultsAreListed(registered);
  }

  /** Withheld are the default names and the registered ones, and no other. */
  lemma {:induction false} ListedIff(registered: seq<string>, name: string)
    ensures name in Listed(registered) <==>
              || name in {"authorization", "proxyauthorization", "privatetoken", "xapikey", "xauthtoken", "xaccesstoken", "xgitlabtoken", "cookie", "xcsrftoken"}
              || exists k :: 0 <= k < |registered| && name == NormalName(registered[k])
  {
    hide NormalName;
    if registered != [] {
      ListedIff(registered[1..], name);
      if k :| 0 <= k < |registered[1..]| && name == NormalName(registered[1..][k]) {
        assert name == NormalName(registered[k + 1]);
      }
      if k :| 0 <= k < |registered| && name == NormalName(registered[k]) && k > 0 {
        assert name == NormalName(registered[1..][k - 1]);
      }
    }
  }

  predicate IsHost(name: string) {
    Lower(name) == "host"
  }

  /** Names that filtering never copies. */
  predicate IsProtected(name: string) {
    name == "__proto__" || name == "prototype" || name == "constructor"
  }

  // ---- origins

  function DefaultPort(protocol: string): string {
    if protocol == "http:" then "80" else if protocol == "https:" then "443" else ""
  }

  /** A URL as the URL parser returns it for a hierarchical scheme. */
  predicate IsNormal(url: Url) {
    && url.protocol != "" && url.hostname != "" && Lower(url.hostname) == url.hostname
    && (url.port == "" || url.port != DefaultPort(url.protocol)) && url.path != ""
  }

  /** reconstructOriginalUrl: the URL of a request from its options; None (a throw) without a hostname. */
  function OriginalUrl(options: Options): Option<Url> {
    if options.hostname.None? || options.hostname.value == "" then None
    else
      var protocol := if options.protocol.Some? && options.protocol.value != "" then options.protocol.value else "https:";
      var port := if options.port.Some? then options.port.value else "";
      var path := if options.path.Some? && options.path.value != "" then options.path.value else "/";
      Some(Url(protocol, Lower(options.hostname.value), if port == DefaultPort(protocol) then "" else port, path))
  }

  /** What a request leaves out: the scheme is https, the path the root, and a default port is as good as none. */
  lemma UrlDefaults(options: Options)
    requires options.hostname.Some? && options.hostname.value != ""
    ensures OriginalUrl(options).Some? && OriginalUrl(options).value.hostname == Lower(options.hostname.value)
    ensures options.protocol in {None, Some("")} ==> OriginalUrl(options) == OriginalUrl(options.(protocol := Some("https:")))
    ensures options.path in {None, Some("")} ==> OriginalUrl(options) == OriginalUrl(options.(path := Some("/")))
    ensures options.port == None ==>
              && OriginalUrl(options.(protocol := Some("http:"), port := Some("80"))) == OriginalUrl(options.(protocol := Some("http:")))
              && OriginalUrl(options.(protocol := Some("https:"), port := Some("443"))) == OriginalUrl(options.(protocol := Some("https:")))
    ensures options.port == Some("443") && options.protocol == Some("ftp:") ==> OriginalUrl(options).value.port == "443"
  {
    hide Lower;
  }

  /** isCrossOriginRedirect. */
  predicate IsCrossOrigin(from: Url, to: Url) {
    if Lower(from.hostname) != Lower(to.hostname) then true
    else if from.protocol == "http:" && (from.port == "80" || from.port == "") && to.protocol == "https:" && (to.port == "443" || to.port == "") then false
    else if from.protocol != to.protocol then true
    else from.port != to.port
  }

  function Unbracketed(s: string): string {
    if |s| >= 2 && s[0] == '[' && s[|s| - 1] == ']' then s[1..|s| - 1] else s
  }

  predicate IsLoopback(net: Net, hostname: string) {
    var host := Unbracketed(Lower(hostname));
    host == "localhost" || host == "::1" || (net.isIPv4(host) && |host| >= 4 && host[..4] == "127.")
  }

  lemma BracketStays(c: char)
    ensures LowerChar(c) == '[' <==> c == '['
  {
  }

  /** Loopback is localhost, ::1 and 127.x.x.x, in any case and in brackets or not. */
  lemma LoopbackIff(net: Net, name: string)
    ensures (name == "" || name[0] != '[') ==>
              (IsLoopback(net, name) <==> Lower(name) == "localhost" || Lower(name) == "::1" || ("127." <= Lower(name) && net.isIPv4(Lower(name))))
    ensures (name == "" || name[0] != '[') ==> (IsLoopback(net, "[" + name + "]") <==> IsLoopback(net, name))
  {
    LowerAppend("[", name + "]");
    LowerAppend(name, "]");
    var lower := Lower(name);
    assert "[" + (name + "]") == "[" + name + "]";
    assert Lower("[" + name + "]") == "[" + (lower + "]");
    assert ("[" + (lower + "]"))[1..|lower| + 1] == lower;
    if name != "" {
      BracketStays(name[0]);
    }
  }

  /** For parsed URLs: the same origin is the same scheme, host and port, or the upgrade to https on the default ports. */
  lemma SameOriginIff(from: Url, to: Url)
    requires IsNormal(from) && IsNormal(to)
    ensures !IsCrossOrigin(from, to) <==>
              && from.hostname == to.hostname
              && ((from.protocol == to.protocol && from.port == to.port)
                  || (from.protocol == "http:" && to.protocol == "https:" && from.port == "" && to.port == ""))
  {
    hide Lower;
  }

  // ---- headers sent to another origin

  function Keep(headers: Headers, keep: string -> bool): Headers {
    map name | name in headers && keep(name) && !IsProtected(name) :: headers[name]
  }

  /** dropSensitiveHeaders, the policy of an executor without its own. */
  function DropSensitive(listed: set<string>, headers: Headers): Headers {
    Keep(headers, name => NormalName(name) !in listed)
  }

  predicate HasName(headers: Headers, lower: string) {
    exists name :: name in headers && Lower(name) == lower
  }

  /** What the policy leaves of the headers; Host is removed before the policy is asked, and after. */
  function PolicyHeaders(listed: set<string>, headers: Headers): Headers {
    Keep(DropSensitive(listed, Keep(headers, name => !IsHost(name))), name => !IsHost(name))
  }

  /** crossOriginHeaders on another origin: what the policy leaves of the headers, and the request's own ones it left out. */
  function CrossOriginHeaders(listed: set<string>, headers: Headers, own: Headers): Headers {
    var sent := PolicyHeaders(listed, headers);
    sent + Keep(own, name => !HasName(sent, Lower(name)))
  }

  /** configureRequestOptions without token and method: the executor's own two headers. */
  function WithDefaults(headers: Headers): Headers {
    var named := if USER_AGENT in headers then headers else headers[USER_AGENT := DEFAULT_USER_AGENT];
    named[CACHE_CONTROL := NO_CACHE]
  }

  // ---- one redirect

  function HostnameConnected(net: Net, options: Options, original: Url): string {
    if options.host.Some? && options.host.value != "" then
      var parsed := net.hostnameOf(options.host.value);
      if parsed.Some? then parsed.value else options.host.value
    else original.hostname
  }

  /** Does this request connect to a host that is not loopback? */
  predicate LeavesMachine(net: Net, options: Options)
    requires OriginalUrl(options).Some?
  {
    !IsLoopback(net, HostnameConnected(net, options, OriginalUrl(options).value))
  }

  /** The URL a location leads to; None when the options or the location cannot be parsed (a throw). */
  function Target(net: Net, location: string, options: Options): Option<Url> {
    var original := OriginalUrl(options);
    if original.None? then None else net.parse(location, original.value)
  }

  /** prepareRedirectUrlOptions with the default policy; None when it throws. */
  function Redirected(net: Net, listed: set<string>, location: string, options: Options): Option<Options> {
    var target := Target(net, location, options);
    if target.None? then None
    else
      var from, to := OriginalUrl(options).value, target.value;
      var crossed := IsCrossOrigin(from, to);
      Some(Options(
        Some(to.protocol), Some(to.hostname), if to.port != "" then Some(to.port) else None, None, Some(to.path),
        WithDefaults(if crossed then CrossOriginHeaders(listed, options.headers, options.ownHeaders) else options.headers),
        options.ownHeaders,
        if crossed then None else options.auth,
        options.redirectedFromNonLoopback || LeavesMachine(net, options)))
  }

  /** A redirect can be followed exactly when the request has a hostname and the location parses against its URL. */
  lemma RedirectedIff(net: Net, listed: set<string>, location: string, options: Options)
    ensures Redirected(net, listed, location, options).Some? <==>
              options.hostname.Some? && options.hostname.value != "" && net.parse(location, OriginalUrl(options).value).Some?
    ensures Redirected(net, listed, location, options).Some? ==> Target(net, location, options) == net.parse(location, OriginalUrl(options).value)
  {
    hide IsCrossOrigin, CrossOriginHeaders, LeavesMachine, WithDefaults, Lower, DefaultPort;
  }

  /**
   The request connects to its `host` option if it has one - to the hostname in it, or to all of it when it does not parse -
   and to its hostname otherwise.
   */
  lemma LeavesIff(net: Net, options: Options, host: string)
    requires OriginalUrl(options).Some?
    ensures options.host == None || options.host == Some("") ==> (LeavesMachine(net, options) <==> !IsLoopback(net, Lower(options.hostname.value)))
    ensures options.host == Some(host) && host != "" ==>
              (LeavesMachine(net, options) <==>
               && (net.hostnameOf(host) == None ==> !IsLoopback(net, host))
               && (net.hostnameOf(host) != None ==> !IsLoopback(net, net.hostnameOf(host).value)))
  {
    hide IsLoopback, Lower, DefaultPort;
  }

  /** Every redirected request has the executor's Cache-Control, and its User-Agent unless there is one. */
  lemma DefaultsAreSet(net: Net, listed: set<string>, location: string, options: Options)
    requires Redirected(net, listed, location, options).Some?
    ensures var headers := Redirected(net, listed, location, options).value.headers;
            && "Cache-Control" in headers && headers["Cache-Control"] == "no-cache"
            && "User-Agent" in headers
            && ("User-Agent" !in options.headers && "User-Agent" !in options.ownHeaders ==> headers["User-Agent"] == "electron-builder")
  {
    hide OriginalUrl, IsCrossOrigin, LeavesMachine, Target, CrossOriginHeaders;
    CrossingAddsNone(listed, options.headers, options.ownHeaders, "User-Agent");
  }

  /** What is sent to another origin was a header of the request or is its own; protected names never are. */
  lemma CrossingAddsNone(listed: set<string>, headers: Headers, own: Headers, name: string)
    ensures name in CrossOriginHeaders(listed, headers, own) ==> name in headers || name in own
    ensures name in {"__proto__", "prototype", "constructor"} ==> name !in CrossOriginHeaders(listed, headers, own)
  {
    hide NormalName, HasName, Lower;
  }

  /** The request's own listed headers do go to another origin, with their values: the policy has left none of their names. */
  lemma OwnCredentialsGo(listed: set<string>, headers: Headers, own: Headers, name: string)
    requires name in own && NormalName(name) in listed && name !in {"__proto__", "prototype", "constructor"}
    ensures name in CrossOriginHeaders(listed, headers, own) && CrossOriginHeaders(listed, headers, own)[name] == own[name]
  {
    hide IsHost, Lower, WithoutSeparators, HasName;
    NoListedName(listed, headers, name);
    assert name in Keep(own, n => !HasName(PolicyHeaders(listed, headers), Lower(n)));
  }

  lemma NoListedName(listed: set<string>, headers: Headers, name: string)
    requires NormalName(name) in listed
    ensures !HasName(PolicyHeaders(listed, headers), Lower(name))
  {
    hide IsHost, IsProtected, Lower, WithoutSeparators;
  }

  /** The steps of prepareRedirectUrlOptions on a copy of the options. */
  method PrepareRedirectUrlOptions(net: Net, listed: set<string>, redirectUrl: string, options: Options) returns (r: Option<Options>)
    ensures r == Redirected(net, listed, redirectUrl, options)
  {
    hide OriginalUrl, IsCrossOrigin, CrossOriginHeaders, IsLoopback, WithDefaults, HostnameConnected;
    var originalUrl := OriginalUrl(options);
    if originalUrl.None? {
      return None;
    }
    var parsedRedirectUrl := net.parse(redirectUrl, originalUrl.value);
    if parsedRedirectUrl.None? {
      return None;
    }
    var url := parsedRedirectUrl.value;
    var newOptions := options;
    if options.redirectedFromNonLoopback || !IsLoopback(net, HostnameConnected(net, options, originalUrl.value)) {
      newOptions := newOptions.(redirectedFromNonLoopback := true);
    }
    newOptions := newOptions.(host := None);
    if IsCrossOrigin(originalUrl.value, url) {
      newOptions := newOptions.(auth := None);
      newOptions := newOptions.(headers := CrossOriginHeaders(listed, options.headers, options.ownHeaders));
    }
    newOptions := newOptions.(headers := WithDefaults(newOptions.headers));
    newOptions := ConfigureUrl(url, newOptions);
    r := Some(newOptions);
  }

  /** configureRequestUrl: the port of an earlier hop does not stay. */
  function ConfigureUrl(url: Url, options: Options): Options {
    options.(protocol := Some(url.protocol), hostname := Some(url.hostname),
             port := if url.port != "" then Some(url.port) else None, path := Some(url.path))
  }

  /** The URL rebuilt from a hop's options is the one the hop was redirected to. */
  lemma RebuiltIsTarget(net: Net, listed: set<string>, location: string, options: Options)
    requires Redirected(net, listed, location, options).Some? && IsNormal(Target(net, location, options).value)
    ensures OriginalUrl(Redirected(net, listed, location, options).value) == Target(net, location, options)
  {
    hide OriginalUrl, IsCrossOrigin, CrossOriginHeaders, LeavesMachine, WithDefaults, Target, IsNormal;
    AddressedTo(Target(net, location, options).value, Redirected(net, listed, location, options).value);
  }

  lemma AddressedTo(url: Url, options: Options)
    requires IsNormal(url) && options.protocol == Some(url.protocol) && options.hostname == Some(url.hostname)
    requires options.port == (if url.port != "" then Some(url.port) else None) && options.path == Some(url.path)
    ensures OriginalUrl(options) == Some(url)
  {
    hide Lower;
  }

  /** On the same origin nothing is taken away: credentials and headers go on, the two defaults are set. */
  lemma SameOriginKeeps(net: Net, listed: set<string>, location: string, options: Options)
    requires Redirected(net, listed, location, options).Some?
    requires !IsCrossOrigin(OriginalUrl(options).value, Target(net, location, options).value)
    ensures var next := Redirected(net, listed, location, options).value;
            && next.auth == options.auth
            && forall name :: name in options.headers && name != CACHE_CONTROL ==> name in next.headers && next.headers[name] == options.headers[name]
  {
    hide OriginalUrl, IsCrossOrigin, CrossOriginHeaders, LeavesMachine, Target;
  }

  /** Whatever the redirect leads to, a header that is not listed goes on with its value; Host and the protected names aside. */
  lemma HarmlessHeadersStay(net: Net, listed: set<string>, location: string, options: Options, name: string)
    requires Redirected(net, listed, location, options).Some? && name in options.headers
    requires NormalName(name) !in listed && Lower(name) != "host" && name !in {"__proto__", "prototype", "constructor", "Cache-Control"}
    ensures var next := Redirected(net, listed, location, options).value;
            name in next.headers && next.headers[name] == options.headers[name]
  {
    hide OriginalUrl, IsCrossOrigin, LeavesMachine, Target, NormalName, CrossOriginHeaders, WithDefaults;
    CrossingKeeps(listed, options.headers, options.ownHeaders, name);
    AlwaysKept(options.headers, name);
    AlwaysKept(CrossOriginHeaders(listed, options.headers, options.ownHeaders), name);
  }

  lemma CrossingKeeps(listed: set<string>, headers: Headers, own: Headers, name: string)
    requires name in headers && NormalName(name) !in listed && !IsHost(name) && !IsProtected(name)
    ensures name in CrossOriginHeaders(listed, headers, own) && CrossOriginHeaders(listed, headers, own)[name] == headers[name]
  {
    hide NormalName, HasName, IsHost, IsProtected, PolicyHeaders, Lower, DropSensitive;
    PolicyKeeps(listed, headers, name);
    HasItsName(PolicyHeaders(listed, headers), name);
  }

  lemma PolicyKeeps(listed: set<string>, headers: Headers, name: string)
    requires name in headers && NormalName(name) !in listed && !IsHost(name) && !IsProtected(name)
    ensures name in PolicyHeaders(listed, headers) && PolicyHeaders(listed, headers)[name] == headers[name]
  {
    hide NormalName, IsHost, IsProtected;
  }

  lemma HasItsName(headers: Headers, name: string)
    requires name in headers
    ensures HasName(headers, Lower(name))
  {
  }

  lemma AlwaysKept(headers: Headers, name: string)
    requires name in headers
    ensures name in WithDefaults(headers) && (name != CACHE_CONTROL ==> WithDefaults(headers)[name] == headers[name])
  {
  }

  // ---- chains

  datatype Response = Response(status: int, location: Option<string>)

  predicate IsRedirect(response: Response) {
    300 <= response.status < 400 && response.location.Some?
  }

  datatype End = Answered | TooManyRedirects | CannotFollow | Unanswered

  /** The requests a chain sends when the servers answer with `responses`, and how it ends; `count` redirects were followed. */
  datatype Chain = Chain(sent: seq<Options>, end: End)

  /**
   doApiRequest and handleResponse. `http` is doDownload: it follows a redirect to the http and https protocols only.
   */
  function Follow(net: Net, listed: set<string>, http: bool, options: Options, responses: seq<Response>, count: nat): (chain: Chain)
    ensures chain.sent != [] && chain.sent[0] == options
    decreases |responses|
  {
    if responses == [] then Chain([options], Unanswered)
    else if !IsRedirect(responses[0]) then Chain([options], Answered)
    else if count >= MAX_REDIRECTS then Chain([options], TooManyRedirects)
    else
      var next := Redirected(net, listed, responses[0].location.value, options);
      if next.None? || (http && next.value.protocol != Some("http:") && next.value.protocol != Some("https:")) then Chain([options], CannotFollow)
      else
        var rest := Follow(net, listed, http, next.value, responses[1..], count + 1);
        Chain([options] + rest.sent, rest.end)
  }

  /** Request k + 1 of a chain is what response k makes of request k. */
  ghost predicate Hops(net: Net, listed: set<string>, responses: seq<Response>, sent: seq<Options>) {
    && |sent| <= |responses| + 1
    && forall k :: 0 <= k < |sent| - 1 ==> HopAt(net, listed, responses, sent, k)
  }

  ghost predicate HopAt(net: Net, listed: set<string>, responses: seq<Response>, sent: seq<Options>, k: nat) {
    && k + 1 < |sent| && k < |responses| && IsRedirect(responses[k])
    && Redirected(net, listed, responses[k].location.value, sent[k]) == Some(sent[k + 1])
  }

  /** A chain sends at most as many requests as redirects it may still follow, and one; each is a hop from the one before. */
  lemma {:induction false} ChainHops(net: Net, listed: set<string>, http: bool, options: Options, responses: seq<Response>, count: nat)
    requires count <= MAX_REDIRECTS
    ensures var chain := Follow(net, listed, http, options, responses, count);
            && |chain.sent| <= MAX_REDIRECTS - count + 1
            && Hops(net, listed, responses, chain.sent)
            && (chain.end == TooManyRedirects ==> |chain.sent| == MAX_REDIRECTS - count + 1)
    decreases |responses|
  {
    hide Redirected;
    var chain := Follow(net, listed, http, options, responses, count);
    if |chain.sent| > 1 {
      var next := chain.sent[1];
      var rest := Follow(net, listed, http, next, responses[1..], count + 1);
      ChainHops(net, listed, http, next, responses[1..], count + 1);
      assert chain.sent == [options] + rest.sent;
      forall k | 0 <= k < |chain.sent| - 1 ensures HopAt(net, listed, responses, chain.sent, k) {
        if k > 0 {
          assert HopAt(net, listed, responses[1..], rest.sent, k - 1);
          assert chain.sent[k] == rest.sent[k - 1] && chain.sent[k + 1] == rest.sent[k] && responses[k] == responses[1..][k - 1];
        }
      }
    }
  }

  /** What made request `options` the last of its chain, when it was answered. */
  ghost predicate EndsWith(net: Net, listed: set<string>, http: bool, options: Options, response: Response, followed: nat, end: End) {
    var redirect := 300 <= response.status <= 399 && response.location.Some?;
    match end
    case Unanswered => false
    case Answered => !redirect
    case TooManyRedirects => redirect && followed == 10
    case CannotFollow => redirect && followed < 10 && !CanGo(http, Redirected(net, listed, response.location.value, options))
  }

  /** Downloads follow a redirect to http and https only. */
  predicate CanGo(http: bool, next: Option<Options>) {
    next.Some? && (http ==> next.value.protocol in {Some("http:"), Some("https:")})
  }

  /**
   A chain goes on as long as redirects it may follow keep coming: it ends unanswered exactly when all responses were used up, and
   else for the reason the response to its last request gives. No request after the first goes by a protocol that may not be used.
   */
  lemma {:induction false} ChainEnds(net: Net, listed: set<string>, http: bool, options: Options, responses: seq<Response>, count: nat)
    requires count <= 10
    ensures var chain := Follow(net, listed, http, options, responses, count);
            var last := |chain.sent| - 1;
            && last <= |responses|
            && (chain.end == Unanswered <==> last == |responses|)
            && (last < |responses| ==> EndsWith(net, listed, http, chain.sent[last], responses[last], count + last, chain.end))
            && forall k :: 0 < k <= last ==> CanGo(http, Some(chain.sent[k]))
    decreases |responses|
  {
    hide Redirected;
    var chain := Follow(net, listed, http, options, responses, count);
    if |chain.sent| > 1 {
      var next := chain.sent[1];
      ChainEnds(net, listed, http, next, responses[1..], count + 1);
      var rest := Follow(net, listed, http, next, responses[1..], count + 1);
      assert chain.sent == [options] + rest.sent;
    }
  }

  /** No chain, however the servers answer, sends more than 11 requests. */
  lemma AtMostElevenRequests(net: Net, listed: set<string>, http: bool, options: Options, responses: seq<Response>)
    ensures |Follow(net, listed, http, options, responses, 0).sent| <= 11
  {
    ChainHops(net, listed, http, options, responses, 0);
  }

  // ---- what another origin gets

  /** One of the executor's two headers, with the executor's value. */
  predicate IsDefault(headers: Headers, name: string)
    requires name in headers
  {
    (name == USER_AGENT && headers[name] == DEFAULT_USER_AGENT) || (name == CACHE_CONTROL && headers[name] == NO_CACHE)
  }

  /** Of the listed headers only the request's own ones and the executor's two defaults, and no credentials option. */
  predicate IsStripped(listed: set<string>, options: Options) {
    && options.auth.None?
    && forall name :: name in options.headers && NormalName(name) in listed ==>
         IsDefault(options.headers, name) || (name in options.ownHeaders && options.headers[name] == options.ownHeaders[name])
  }

  /** Request k crosses to another origin. */
  ghost predicate CrossesAt(net: Net, responses: seq<Response>, sent: seq<Options>, k: nat) {
    && k < |sent| && k < |responses| && IsRedirect(responses[k])
    && OriginalUrl(sent[k]).Some? && Target(net, responses[k].location.value, sent[k]).Some?
    && IsCrossOrigin(OriginalUrl(sent[k]).value, Target(net, responses[k].location.value, sent[k]).value)
  }

  /** What is sent to another origin is stripped. */
  lemma CrossOriginIsStripped(listed: set<string>, headers: Headers, own: Headers, name: string)
    requires name in CrossOriginHeaders(listed, headers, own) && NormalName(name) in listed
    ensures name in own && CrossOriginHeaders(listed, headers, own)[name] == own[name]
  {
    hide NormalName, IsHost, HasName, IsProtected, Lower;
  }

  lemma DefaultsAddTwo(headers: Headers, name: string)
    requires name in WithDefaults(headers)
    ensures IsDefault(WithDefaults(headers), name) || (name in headers && WithDefaults(headers)[name] == headers[name])
  {
  }

  lemma SameDefault(a: Headers, b: Headers, name: string)
    requires name in a && name in b && a[name] == b[name]
    ensures IsDefault(a, name) <==> IsDefault(b, name)
  {
  }

  lemma CrossingStrips(net: Net, listed: set<string>, responses: seq<Response>, sent: seq<Options>, k: nat)
    requires HopAt(net, listed, responses, sent, k)
    ensures CrossesAt(net, responses, sent, k) || IsStripped(listed, sent[k]) ==> IsStripped(listed, sent[k + 1])
    ensures sent[k + 1].ownHeaders == sent[k].ownHeaders
  {
    hide OriginalUrl, IsCrossOrigin, CrossOriginHeaders, LeavesMachine, WithDefaults, NormalName, IsDefault;
    var before, after := sent[k], sent[k + 1];
    if CrossesAt(net, responses, sent, k) || IsStripped(listed, before) {
      forall name | name in after.headers && NormalName(name) in listed && !IsDefault(after.headers, name)
        ensures name in after.ownHeaders && after.headers[name] == after.ownHeaders[name]
      {
        if IsCrossOrigin(OriginalUrl(before).value, Target(net, responses[k].location.value, before).value) {
          DefaultsAddTwo(CrossOriginHeaders(listed, before.headers, before.ownHeaders), name);
          CrossOriginIsStripped(listed, before.headers, before.ownHeaders, name);
        } else {
          DefaultsAddTwo(before.headers, name);
          SameDefault(before.headers, after.headers, name);
        }
      }
    }
  }

  /**
   After the first hop to another origin no later request carries a listed header that is not its own, nor the credentials
   option - also when the chain comes back to the first origin.
   */
  lemma {:induction false} StrippedAfterCrossing(net: Net, listed: set<string>, responses: seq<Response>, sent: seq<Options>, k: nat, j: nat)
    requires Hops(net, listed, responses, sent) && CrossesAt(net, responses, sent, k) && k < j < |sent|
    ensures IsStripped(listed, sent[j]) && sent[j].ownHeaders == sent[k].ownHeaders
    decreases j
  {
    hide IsStripped, Redirected, CrossesAt;
    assert HopAt(net, listed, responses, sent, j - 1);
    CrossingStrips(net, listed, responses, sent, j - 1);
    if j > k + 1 {
      StrippedAfterCrossing(net, listed, responses, sent, k, j - 1);
    }
  }

  /** The same on the chain the executor follows. */
  lemma ChainStripsCredentials(net: Net, registered: seq<string>, http: bool, options: Options, responses: seq<Response>, k: nat, j: nat)
    requires var sent := Follow(net, Listed(registered), http, options, responses, 0).sent; k < j < |sent| && CrossesAt(net, responses, sent, k)
    ensures IsStripped(Listed(registered), Follow(net, Listed(registered), http, options, responses, 0).sent[j])
    ensures SENSITIVE_REDIRECT_HEADERS <= Listed(registered)
  {
    hide Follow, IsStripped, CrossesAt, Listed;
    var listed := Listed(registered);
    DefaultsAreListed(registered);
    ChainHops(net, listed, http, options, responses, 0);
    StrippedAfterCrossing(net, listed, responses, Follow(net, listed, http, options, responses, 0).sent, k, j);
  }

  /** A Host header reaches another origin exactly when it is one of the request's own headers. */
  lemma HostSentIffOwn(listed: set<string>, headers: Headers, own: Headers)
    ensures HasName(WithDefaults(CrossOriginHeaders(listed, headers, own)), "host") <==> HasName(own, "host")
  {
    hide WithDefaults, CrossOriginHeaders, IsHost;
    var result := CrossOriginHeaders(listed, headers, own);
    if HasName(own, "host") {
      var name :| name in own && Lower(name) == "host";
      OwnHostIsKept(listed, headers, own, name);
      AlwaysKept(result, name);
    }
    if HasName(WithDefaults(result), "host") {
      var name :| name in WithDefaults(result) && Lower(name) == "host";
      HostIsNoDefault(name);
      DefaultsAddTwo(result, name);
      OnlyOwnHost(listed, headers, own, name);
    }
  }

  lemma HostIsNoDefault(name: string)
    requires Lower(name) == "host"
    ensures name != USER_AGENT && name != CACHE_CONTROL && !IsProtected(name)
  {
    assert |name| == 4;
  }

  lemma OnlyOwnHost(listed: set<string>, headers: Headers, own: Headers, name: string)
    requires name in CrossOriginHeaders(listed, headers, own) && Lower(name) == "host"
    ensures name in own
  {
    hide NormalName, HasName, IsProtected, Lower;
  }

  lemma OwnHostIsKept(listed: set<string>, headers: Headers, own: Headers, name: string)
    requires name in own && Lower(name) == "host"
    ensures name in CrossOriginHeaders(listed, headers, own)
  {
    hide NormalName, Lower, IsProtected;
    HostIsNoDefault(name);
    var sent := PolicyHeaders(listed, headers);
    assert !HasName(sent, "host");
    assert name in Keep(own, n => !HasName(sent, Lower(n)));
  }

  lemma DefaultsAddNoHost(headers: Headers)
    ensures HasName(WithDefaults(headers), "host") <==> HasName(headers, "host")
  {
    hide WithDefaults;
    if HasName(headers, "host") {
      var name :| name in headers && Lower(name) == "host";
      AlwaysKept(headers, name);
    }
    if HasName(WithDefaults(headers), "host") {
      var name :| name in WithDefaults(headers) && Lower(name) == "host";
      HostIsNoDefault(name);
      DefaultsAddTwo(headers, name);
    }
  }

  /** After the first hop to another origin every later request carries a Host header exactly when the request has its own. */
  lemma {:induction false} HostAfterCrossing(net: Net, listed: set<string>, responses: seq<Response>, sent: seq<Options>, k: nat, j: nat)
    requires Hops(net, listed, responses, sent) && CrossesAt(net, responses, sent, k) && k < j < |sent|
    ensures HasName(sent[j].headers, "host") <==> HasName(sent[k].ownHeaders, "host")
    ensures sent[j].ownHeaders == sent[k].ownHeaders
    decreases j
  {
    hide OriginalUrl, IsCrossOrigin, LeavesMachine, Target, CrossOriginHeaders, WithDefaults, HasName;
    assert HopAt(net, listed, responses, sent, j - 1);
    var before := sent[j - 1];
    HostSentIffOwn(listed, before.headers, before.ownHeaders);
    DefaultsAddNoHost(before.headers);
    if j > k + 1 {
      HostAfterCrossing(net, listed, responses, sent, k, j - 1);
    }
  }

  // ---- leaving the machine

  /** Once a chain has been off the machine, its requests say so. */
  lemma {:induction false} RedirectedFlag(net: Net, listed: set<string>, responses: seq<Response>, sent: seq<Options>, j: nat)
    requires Hops(net, listed, responses, sent) && j < |sent|
    ensures sent[j].redirectedFromNonLoopback <==>
              sent[0].redirectedFromNonLoopback || exists i: nat :: i < j && LeftAt(net, sent, i)
    decreases j
  {
    hide IsLoopback, OriginalUrl, IsCrossOrigin, CrossOriginHeaders, WithDefaults, LeavesMachine;
    if j > 0 {
      assert HopAt(net, listed, responses, sent, j - 1);
      RedirectedFlag(net, listed, responses, sent, j - 1);
      assert sent[j].redirectedFromNonLoopback <==> sent[j - 1].redirectedFromNonLoopback || LeftAt(net, sent, j - 1);
    }
  }

  ghost predicate LeftAt(net: Net, sent: seq<Options>, i: nat) {
    i < |sent| && OriginalUrl(sent[i]).Some? && LeavesMachine(net, sent[i])
  }

  /** Later requests of a chain connect by hostname and port: no `host` option and no port of an earlier hop is left. */
  lemma HopsAddressTarget(net: Net, listed: set<string>, responses: seq<Response>, sent: seq<Options>, k: nat)
    requires HopAt(net, listed, responses, sent, k)
    requires IsNormal(Target(net, responses[k].location.value, sent[k]).value)
    ensures sent[k + 1].host.None? && OriginalUrl(sent[k + 1]) == Target(net, responses[k].location.value, sent[k])
  {
    hide OriginalUrl, IsCrossOrigin, CrossOriginHeaders, LeavesMachine, WithDefaults, Target, IsNormal;
    RebuiltIsTarget(net, listed, responses[k].location.value, sent[k]);
  }
}
