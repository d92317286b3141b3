/**
 * The agent's HTTP session state (OKHttp.kt): the cookie jar that keeps
 * Maximo's session cookies, the authenticator that answers a 401 with one
 * credentialed retry, and the interceptor that switches to HTTP Basic
 * credentials once an OpenID Connect login redirect has been seen.
 *
 * Base64, OkHttp's URL parser, the clock and the network are parameters.
 */
module HttpSession {
  import opened Wrappers
  import opened KotlinText
  import ConfigurationRules

  /** The parts of an OkHttp `HttpUrl` the agent reads; OkHttp always gives at least one path segment. */
  datatype HttpUrl = HttpUrl(scheme: string, host: string, port: int, pathSegments: seq<string>)

  predicate IsHttps(url: HttpUrl) {
    url.scheme == "https"
  }

  function JoinSegments(segments: seq<string>): string {
    if |segments| == 0 then ""
    else if |segments| == 1 then segments[0]
    else segments[0] + "/" + JoinSegments(segments[1..])
  }

  /** `"/" + url.pathSegments.joinToString("/")`. */
  function RequestPath(url: HttpUrl): string {
    "/" + JoinSegments(url.pathSegments)
  }

  // ----- MaximoCookieJar -----

  datatype Cookie = Cookie(name: string, value: string, expiresAt: int, domain: string, path: string, secure: bool)

  /**
   * The filter of `saveFromResponse`: a positive expiry (a cookie sent with
   * `Max-Age` of zero or less, which deletes it, is dropped), not expired,
   * and a value that is not blank.
   */
  predicate Saveable(c: Cookie, now: int)
    ensures Saveable(c, now) ==> 0 < c.expiresAt && now <= c.expiresAt && |c.value| > 0
  {
    !(c.expiresAt <= 0 || c.expiresAt < now || IsBlank(c.value))
  }

  /**
   * `appliesToRequestUri`. The domain test is written `domain.isBlank() && ...`,
   * so it can only reject a domain made of whitespace.
   */
  predicate AppliesToRequestUri(url: HttpUrl, c: Cookie, now: int)
    ensures AppliesToRequestUri(url, c, now) ==>
              && c.expiresAt >= now
              && (!IsBlank(c.domain) || EndsWith(url.host, c.domain))
              && StartsWith(RequestPath(url), c.path)
              && (c.secure ==> IsHttps(url))
  {
    if c.expiresAt < now then false
    else if IsBlank(c.domain) && !EndsWith(url.host, c.domain) then false
    else if !StartsWith(RequestPath(url), c.path) then false
    else if c.secure && !IsHttps(url) then false
    else true
  }

  /**
   * For every real cookie domain (empty, or not blank) the host is never
   * compared: a cookie applies iff it is unexpired, its path is a prefix of
   * the request path, and it is not a secure cookie on a plain-http URL.
   */
  lemma AppliesIgnoresDomain(url: HttpUrl, c: Cookie, now: int, otherHost: string)
    requires c.domain == "" || !IsBlank(c.domain)
    ensures AppliesToRequestUri(url, c, now) <==>
              c.expiresAt >= now && StartsWith(RequestPath(url), c.path) && !(c.secure && !IsHttps(url))
    ensures AppliesToRequestUri(url, c, now) == AppliesToRequestUri(url.(host := otherHost), c, now)
  {
    assert EndsWith(url.host, "") by { assert url.host[|url.host|..] == ""; }
    assert EndsWith(otherHost, "") by { assert otherHost[|otherHost|..] == ""; }
  }

  /** Cookie names in a store. */
  function Names(entries: seq<Cookie>): set<string> {
    if entries == [] then {} else {entries[0].name} + Names(entries[1..])
  }

  /** The jar's map has one entry per name. */
  predicate DistinctNames(entries: seq<Cookie>) {
    entries == [] || (entries[0].name !in Names(entries[1..]) && DistinctNames(entries[1..]))
  }

  /** `cookies[name]`. */
  function Get(entries: seq<Cookie>, name: string): (r: Option<Cookie>)
    ensures r.Some? ==> r.value in entries && r.value.name == name
    ensures r.None? <==> name !in Names(entries)
  {
    if entries == [] then None
    else if entries[0].name == name then Some(entries[0])
    else Get(entries[1..], name)
  }

  /**
   * `cookies[c.name] = c` on the insertion-ordered map Kotlin's
   * `mutableMapOf` builds: an existing entry is replaced where it stands,
   * a new name goes at the end.
   */
  function Put(entries: seq<Cookie>, c: Cookie): (r: seq<Cookie>)
    ensures forall n :: Get(r, n) == if n == c.name then Some(c) else Get(entries, n)
    ensures c.name !in Names(entries) ==> r == entries + [c]
    ensures c.name in Names(entries) ==> |r| == |entries| && forall i :: 0 <= i < |r| ==> r[i].name == entries[i].name
    ensures |entries| <= |r| <= |entries| + 1
  {
    if entries == [] then [c]
    else if entries[0].name == c.name then [c] + entries[1..]
    else
      var rest := Put(entries[1..], c);
      assert entries == [entries[0]] + entries[1..];
      assert Names(entries) == {entries[0].name} + Names(entries[1..]);
      [entries[0]] + rest
  }

  /** Putting adds the cookie's name and no other, keeps one entry per name, and stores the cookie. */
  lemma {:induction false} PutNames(entries: seq<Cookie>, c: Cookie)
    ensures Names(Put(entries, c)) == Names(entries) + {c.name}
    ensures c in Put(entries, c)
    ensures DistinctNames(entries) ==> DistinctNames(Put(entries, c))
  {
    if entries != [] && entries[0].name != c.name {
      PutNames(entries[1..], c);
      var r := Put(entries, c);
      assert r[1..] == Put(entries[1..], c);
    }
  }

  /** The store after `saveFromResponse` has put every saveable incoming cookie, in order. */
  function SaveAll(entries: seq<Cookie>, incoming: seq<Cookie>, now: int): (r: seq<Cookie>)
    ensures |entries| <= |r| <= |entries| + |incoming|
    decreases |incoming|
  {
    if incoming == [] then entries
    else
      var before := SaveAll(entries, incoming[..|incoming| - 1], now);
      var c := incoming[|incoming| - 1];
      if Saveable(c, now) then Put(before, c) else before
  }

  /** `incoming[i]` is saveable and has this name, and no later incoming cookie of the name is saveable. */
  predicate IsLastSaveableAt(incoming: seq<Cookie>, name: string, now: int, i: int) {
    && 0 <= i < |incoming|
    && incoming[i].name == name && Saveable(incoming[i], now)
    && forall j :: i < j < |incoming| && incoming[j].name == name ==> !Saveable(incoming[j], now)
  }

  /** The last saveable incoming cookie with this name, if any. */
  function LastSaveable(incoming: seq<Cookie>, name: string, now: int): (r: Option<Cookie>)
    ensures r.Some? ==> r.value in incoming && r.value.name == name && Saveable(r.value, now)
    ensures r.Some? ==> exists i :: IsLastSaveableAt(incoming, name, now, i) && incoming[i] == r.value
    ensures r.None? ==> forall c :: c in incoming && c.name == name ==> !Saveable(c, now)
    decreases |incoming|
  {
    if incoming == [] then None
    else
      var c := incoming[|incoming| - 1];
      if c.name == name && Saveable(c, now) then Some(c)
      else
        var prefix := incoming[..|incoming| - 1];
        var r := LastSaveable(prefix, name, now);
        assert incoming == prefix + [c];
        assert r.Some? ==> exists i :: IsLastSaveableAt(incoming, name, now, i) && incoming[i] == r.value by {
          if r.Some? {
            var i :| IsLastSaveableAt(prefix, name, now, i) && prefix[i] == r.value;
            assert IsLastSaveableAt(incoming, name, now, i);
          }
        }
        r
  }

  /**
   * Keyed by name: after saving, a name holds the last saveable incoming
   * cookie of that name; every other name keeps its old entry.
   */
  lemma {:induction false} SaveAllGet(entries: seq<Cookie>, incoming: seq<Cookie>, now: int, name: string)
    ensures Get(SaveAll(entries, incoming, now), name) ==
              match LastSaveable(incoming, name, now)
              case Some(c) => Some(c)
              case None => Get(entries, name)
    decreases |incoming|
  {
    if incoming != [] {
      SaveAllGet(entries, incoming[..|incoming| - 1], now, name);
    }
  }

  /** The names of the saveable incoming cookies. */
  function SaveableNames(incoming: seq<Cookie>, now: int): set<string>
    decreases |incoming|
  {
    if incoming == [] then {}
    else
      var c := incoming[|incoming| - 1];
      SaveableNames(incoming[..|incoming| - 1], now) + (if Saveable(c, now) then {c.name} else {})
  }

  /** Saving keeps one entry per name and adds exactly the names of the saveable incoming cookies. */
  lemma {:induction false} SaveAllNames(entries: seq<Cookie>, incoming: seq<Cookie>, now: int)
    requires DistinctNames(entries)
    ensures DistinctNames(SaveAll(entries, incoming, now))
    ensures Names(SaveAll(entries, incoming, now)) == Names(entries) + SaveableNames(incoming, now)
    decreases |incoming|
  {
    if incoming != [] {
      var prefix := incoming[..|incoming| - 1];
      SaveAllNames(entries, prefix, now);
      PutNames(SaveAll(entries, prefix, now), incoming[|incoming| - 1]);
    }
  }

  /** The cookies of a store that apply to a request, in store order. */
  function Applicable(entries: seq<Cookie>, url: HttpUrl, now: int): (r: seq<Cookie>)
    ensures |r| <= |entries|
    ensures forall c :: c in r <==> c in entries && AppliesToRequestUri(url, c, now)
  {
    if entries == [] then []
    else
      var rest := Applicable(entries[1..], url, now);
      assert entries == [entries[0]] + entries[1..];
      if AppliesToRequestUri(url, entries[0], now) then [entries[0]] + rest else rest
  }

  /** The filter works store piece by store piece, so it keeps the store's order. */
  lemma {:induction false} ApplicableAppend(e1: seq<Cookie>, e2: seq<Cookie>, url: HttpUrl, now: int)
    ensures Applicable(e1 + e2, url, now) == Applicable(e1, url, now) + Applicable(e2, url, now)
    decreases |e1|
  {
    if e1 != [] {
      assert (e1 + e2)[0] == e1[0];
      assert (e1 + e2)[1..] == e1[1..] + e2;
      ApplicableAppend(e1[1..], e2, url, now);
    } else {
      assert e1 + e2 == e2;
    }
  }

  /**
   * A cookie saved at time `now` is sent with a request at the same time
   * exactly when its domain, path and secure flag allow it.
   */
  lemma SavedCookieIsLoaded(entries: seq<Cookie>, c: Cookie, url: HttpUrl, now: int)
    requires Saveable(c, now)
    ensures c in Applicable(SaveAll(entries, [c], now), url, now) <==>
              (!IsBlank(c.domain) || EndsWith(url.host, c.domain))
              && StartsWith(RequestPath(url), c.path) && !(c.secure && !IsHttps(url))
  {
    assert [c][..0] == [];
    PutNames(entries, c);
  }

  /** `MaximoCookieJar`: the session cookies, keyed by name, in insertion order. */
  class MaximoCookieJar {
    var cookies: seq<Cookie>

    ghost predicate Valid()
      reads this
    {
      DistinctNames(cookies)
    }

    constructor ()
      ensures Valid() && cookies == []
    {
      cookies := [];
    }

    /** `loadForRequest`: exactly the stored cookies that apply to the request; the store is only read. */
    function LoadForRequest(url: HttpUrl, now: int): (r: seq<Cookie>)
      reads this
      ensures forall c :: c in r <==> c in cookies && AppliesToRequestUri(url, c, now)
    {
      Applicable(cookies, url, now)
    }

    /** `saveFromResponse`: puts each saveable cookie under its name; the response URL is not consulted. */
    method SaveFromResponse(url: HttpUrl, incoming: seq<Cookie>, now: int)
      requires Valid()
      modifies this
      ensures Valid()
      ensures cookies == SaveAll(old(cookies), incoming, now)
    {
      var i := 0;
      while i < |incoming|
        invariant 0 <= i <= |incoming|
        invariant DistinctNames(cookies)
        invariant cookies == SaveAll(old(cookies), incoming[..i], now)
      {
        var c := incoming[i];
        assert incoming[..i + 1][..i] == incoming[..i];
        if Saveable(c, now) {
          PutNames(cookies, c);
          cookies := Put(cookies, c);
        }
        i := i + 1;
      }
      assert incoming[..i] == incoming;
    }
  }

  // ----- MaximoAuthenticator -----

  datatype Body = Body(mediaType: string, content: string)

  datatype Request = Request(verb: string, url: HttpUrl, headers: map<string, string>, body: Option<Body>)

  /** The request already carried credentials (`Authorization` or `MAXAUTH`). */
  predicate HasCredentialHeader(r: Request) {
    "Authorization" in r.headers || "MAXAUTH" in r.headers
  }

  /** `username + ":" + password` as a string template renders it (a null renders as `null`). */
  function Credentials(m: ConfigurationRules.MaximoConfiguration): string {
    ShowNullable(m.username) + ":" + ShowNullable(m.password)
  }

  /** `scheme://host:port/<first segment>`, the start of both login URLs. */
  function Origin(url: HttpUrl): string
    requires |url.pathSegments| >= 1
  {
    url.scheme + "://" + url.host + ":" + Decimal(url.port) + "/" + url.pathSegments[0]
  }

  function ApiKeyLoginUrl(url: HttpUrl, apikey: string): string
    requires |url.pathSegments| >= 1
  {
    Origin(url) + "/oslc/login?apikey=" + apikey + "&lean=1"
  }

  function FormLoginUrl(url: HttpUrl): string
    requires |url.pathSegments| >= 1
  {
    Origin(url) + "/oslc/j_security_check"
  }

  const FormMediaType: string := "application/x-www-form-urlencoded"

  /**
   * The retry request `authenticate` builds from the failed one: an API-key
   * login when any API key is configured, otherwise by the lower-cased auth
   * type (`encodedCreds` is the Base64 of the credentials).
   */
  function RetryRequest(
    m: ConfigurationRules.MaximoConfiguration,
    encodedCreds: string,
    failed: Request,
    parseUrl: string -> HttpUrl): (r: Request)
    requires |failed.url.pathSegments| >= 1
    ensures m.apikey.Some? ==> r == failed.(url := parseUrl(ApiKeyLoginUrl(failed.url, m.apikey.value)))
    ensures m.apikey.None? && LowerAscii(m.authType) == "basic" ==>
              r == failed.(headers := failed.headers["Authorization" := "Basic " + encodedCreds])
    ensures m.apikey.None? && LowerAscii(m.authType) == "form" ==>
              && r.url == parseUrl(FormLoginUrl(failed.url))
              && r.verb == "POST" && r.headers == failed.headers
              && r.body == Some(Body(FormMediaType, "j_username=" + ShowNullable(m.username) + "&j_password=" + ShowNullable(m.password)))
    ensures m.apikey.None? && LowerAscii(m.authType) != "basic" && LowerAscii(m.authType) != "form" ==>
              r == failed.(headers := failed.headers["MAXAUTH" := encodedCreds])
  {
    if m.apikey.Some? then
      failed.(url := parseUrl(ApiKeyLoginUrl(failed.url, m.apikey.value)))
    else
      var authType := LowerAscii(m.authType);
      if authType == "basic" then failed.(headers := failed.headers["Authorization" := "Basic " + encodedCreds])
      else if authType == "maxauth" then failed.(headers := failed.headers["MAXAUTH" := encodedCreds])
      else if authType == "form" then
        failed.(url := parseUrl(FormLoginUrl(failed.url)), verb := "POST",
                body := Some(Body(FormMediaType, "j_username=" + ShowNullable(m.username) + "&j_password=" + ShowNullable(m.password))))
      else failed.(headers := failed.headers["MAXAUTH" := encodedCreds])
  }

  /** One call of `authenticate` on the `invalidated` flag: the retry (None gives up) and the new flag. */
  function AuthenticateStep(
    invalidated: bool,
    m: ConfigurationRules.MaximoConfiguration,
    encodedCreds: string,
    failed: Request,
    parseUrl: string -> HttpUrl): (r: (Option<Request>, bool))
    requires |failed.url.pathSegments| >= 1
    ensures r.1 <==> invalidated || HasCredentialHeader(failed)
    ensures r.0.None? <==> r.1
    ensures r.0.Some? ==> r.0.value == RetryRequest(m, encodedCreds, failed, parseUrl)
  {
    if HasCredentialHeader(failed) then (None, true)
    else if invalidated then (None, invalidated)
    else (Some(RetryRequest(m, encodedCreds, failed, parseUrl)), invalidated)
  }

  /**
   * Without an API key and with any auth type but `form`, the retry carries
   * credentials, so a second 401 on it makes the authenticator give up.
   */
  lemma CredentialedRetryIsFinal(
    m: ConfigurationRules.MaximoConfiguration, encodedCreds: string, failed: Request, parseUrl: string -> HttpUrl)
    requires |failed.url.pathSegments| >= 1
    requires m.apikey.None? && LowerAscii(m.authType) != "form"
    ensures var retry := RetryRequest(m, encodedCreds, failed, parseUrl);
            AuthenticateStep(false, m, encodedCreds, retry, parseUrl) == (None, true)
  {
  }

  /**
   * The API-key login request carries no credential header, so a 401 on it
   * is answered with another login request, not with giving up.
   */
  lemma ApiKeyRetryIsRepeated(
    m: ConfigurationRules.MaximoConfiguration, encodedCreds: string, failed: Request, parseUrl: string -> HttpUrl)
    requires |failed.url.pathSegments| >= 1
    requires m.apikey.Some? && !HasCredentialHeader(failed)
    requires |parseUrl(ApiKeyLoginUrl(failed.url, m.apikey.value)).pathSegments| >= 1
    ensures var retry := RetryRequest(m, encodedCreds, failed, parseUrl);
            AuthenticateStep(false, m, encodedCreds, retry, parseUrl).0.Some?
  {
  }

  predicate AllHaveSegments(failures: seq<Request>) {
    forall i :: 0 <= i < |failures| ==> |failures[i].url.pathSegments| >= 1
  }

  /** The answers of one authenticator to a series of failed requests, and its final flag. */
  function AuthenticateRun(
    invalidated: bool,
    m: ConfigurationRules.MaximoConfiguration,
    encodedCreds: string,
    failures: seq<Request>,
    parseUrl: string -> HttpUrl): (r: (seq<Option<Request>>, bool))
    requires AllHaveSegments(failures)
    ensures |r.0| == |failures|
    decreases |failures|
  {
    if failures == [] then ([], invalidated)
    else
      var step := AuthenticateStep(invalidated, m, encodedCreds, failures[0], parseUrl);
      var rest := AuthenticateRun(step.1, m, encodedCreds, failures[1..], parseUrl);
      ([step.0] + rest.0, rest.1)
  }

  /**
   * The flag is sticky: the i-th failure gets a retry exactly when the
   * authenticator started valid and none of the failures so far carried
   * credentials; afterwards it only ever gives up.
   */
  lemma {:induction false} AuthenticateRunSticky(
    invalidated: bool,
    m: ConfigurationRules.MaximoConfiguration,
    encodedCreds: string,
    failures: seq<Request>,
    parseUrl: string -> HttpUrl)
    requires AllHaveSegments(failures)
    ensures var r := AuthenticateRun(invalidated, m, encodedCreds, failures, parseUrl);
            && (forall i :: 0 <= i < |failures| ==>
                  (r.0[i].Some? <==> !invalidated && forall j :: 0 <= j <= i ==> !HasCredentialHeader(failures[j])))
            && (r.1 <==> invalidated || exists j :: 0 <= j < |failures| && HasCredentialHeader(failures[j]))
    decreases |failures|
  {
    if failures != [] {
      var step := AuthenticateStep(invalidated, m, encodedCreds, failures[0], parseUrl);
      AuthenticateRunSticky(step.1, m, encodedCreds, failures[1..], parseUrl);
      var r := AuthenticateRun(invalidated, m, encodedCreds, failures, parseUrl);
      var rest := AuthenticateRun(step.1, m, encodedCreds, failures[1..], parseUrl);
      forall i | 0 <= i < |failures|
        ensures r.0[i].Some? <==> !invalidated && forall j :: 0 <= j <= i ==> !HasCredentialHeader(failures[j])
      {
        if i > 0 {
          assert r.0[i] == rest.0[i - 1];
          assert forall j :: 0 <= j <= i - 1 ==> failures[1..][j] == failures[j + 1];
        }
      }
      if exists j :: 0 <= j < |failures| && HasCredentialHeader(failures[j]) {
        var j :| 0 <= j < |failures| && HasCredentialHeader(failures[j]);
        if j > 0 {
          assert failures[1..][j - 1] == failures[j];
        }
      }
    }
  }

  /** `MaximoAuthenticator`: answers 401 responses; gives up for good once credentials were refused. */
  class MaximoAuthenticator {
    const configuration: ConfigurationRules.MaximoConfiguration
    const encodedCreds: string
    var invalidated: bool

    constructor (configuration: ConfigurationRules.MaximoConfiguration, base64: string -> string)
      ensures this.configuration == configuration
      ensures encodedCreds == base64(Credentials(configuration))
      ensures !invalidated
    {
      this.configuration := configuration;
      encodedCreds := base64(Credentials(configuration));
      invalidated := false;
    }

    /** `authenticate(route, response)` for the request of the failed response. */
    method Authenticate(failed: Request, parseUrl: string -> HttpUrl) returns (retry: Option<Request>)
      requires |failed.url.pathSegments| >= 1
      modifies this
      ensures (retry, invalidated) == AuthenticateStep(old(invalidated), configuration, encodedCreds, failed, parseUrl)
    {
      if HasCredentialHeader(failed) {
        invalidated := true;
        retry := None;
      } else if invalidated {
        retry := None;
      } else {
        retry := Some(RetryRequest(configuration, encodedCreds, failed, parseUrl));
      }
    }
  }

  // ----- MASAuthenticationInterceptor -----

  /**
   * What the interceptor reads from the response: whether it is a redirect,
   * whether a `Set-Cookie` names a `WASOidcState*` cookie, and whether one
   * names the `WASReqURLOidc*` cookie derived from it.
   */
  datatype OidcSignals = OidcSignals(isRedirect: bool, hasStateCookie: bool, hasRequestUrlCookie: bool)

  function WithBasicAuth(request: Request, encodedCreds: string): Request {
    request.(headers := request.headers["Authorization" := "Basic " + encodedCreds])
  }

  /** One `intercept`: the request actually sent and the new `isOidcRequest` flag. */
  function InterceptStep(isOidcRequest: bool, authAttempted: bool, encodedCreds: string, request: Request, response: OidcSignals): (r: (Request, bool))
    ensures isOidcRequest && !authAttempted ==> r == (WithBasicAuth(request, encodedCreds), true)
    ensures !isOidcRequest ==> r.0 == request
    ensures !authAttempted && isOidcRequest ==> r.1
    ensures !isOidcRequest ==> r.1 == (response.isRedirect && response.hasStateCookie && response.hasRequestUrlCookie)
  {
    if isOidcRequest && !authAttempted then (WithBasicAuth(request, encodedCreds), isOidcRequest)
    else if response.isRedirect && response.hasStateCookie then (request, response.hasRequestUrlCookie)
    else (request, isOidcRequest)
  }

  /** The requests a fresh-or-running interceptor sends for a series of exchanges, and its final flag. */
  function InterceptRun(isOidcRequest: bool, encodedCreds: string, exchanges: seq<(Request, OidcSignals)>): (r: (seq<Request>, bool))
    ensures |r.0| == |exchanges|
    decreases |exchanges|
  {
    if exchanges == [] then ([], isOidcRequest)
    else
      var step := InterceptStep(isOidcRequest, false, encodedCreds, exchanges[0].0, exchanges[0].1);
      var rest := InterceptRun(step.1, encodedCreds, exchanges[1..]);
      ([step.0] + rest.0, rest.1)
  }

  /**
   * Once the OIDC flag is set it is never cleared, and from then on every
   * request is sent with the Basic credentials.
   */
  lemma {:induction false} OidcIsSticky(encodedCreds: string, exchanges: seq<(Request, OidcSignals)>)
    ensures var r := InterceptRun(true, encodedCreds, exchanges);
            && r.1
            && forall i :: 0 <= i < |exchanges| ==> r.0[i] == WithBasicAuth(exchanges[i].0, encodedCreds)
    decreases |exchanges|
  {
    if exchanges != [] {
      OidcIsSticky(encodedCreds, exchanges[1..]);
      var r := InterceptRun(true, encodedCreds, exchanges);
      var rest := InterceptRun(true, encodedCreds, exchanges[1..]);
      forall i | 0 < i < |exchanges| ensures r.0[i] == WithBasicAuth(exchanges[i].0, encodedCreds) {
        assert r.0[i] == rest.0[i - 1];
        assert exchanges[1..][i - 1] == exchanges[i];
      }
    }
  }

  /** Until the flag is set, requests go out unchanged. */
  lemma {:induction false} RequestsUnchangedUntilOidc(encodedCreds: string, exchanges: seq<(Request, OidcSignals)>, i: nat)
    requires i < |exchanges|
    requires !InterceptRun(false, encodedCreds, exchanges[..i]).1
    ensures InterceptRun(false, encodedCreds, exchanges).0[i] == exchanges[i].0
    decreases i
  {
    if i == 0 {
    } else {
      var step := InterceptStep(false, false, encodedCreds, exchanges[0].0, exchanges[0].1);
      assert exchanges[..i][0] == exchanges[0];
      assert exchanges[..i][1..] == exchanges[1..][..i - 1];
      if step.1 {
        OidcIsSticky(encodedCreds, exchanges[1..][..i - 1]);
      } else {
        RequestsUnchangedUntilOidc(encodedCreds, exchanges[1..], i - 1);
      }
    }
  }

  /** `MASAuthenticationInterceptor`: `authAttempted` is never assigned, so it stays false. */
  class MASAuthenticationInterceptor {
    var isOidcRequest: bool
    var authAttempted: bool
    const encodedCreds: string

    ghost predicate Valid()
      reads this
    {
      !authAttempted
    }

    constructor (configuration: ConfigurationRules.MaximoConfiguration, base64: string -> string)
      ensures Valid() && !isOidcRequest
      ensures encodedCreds == base64(Credentials(configuration))
    {
      isOidcRequest := false;
      authAttempted := false;
      encodedCreds := base64(Credentials(configuration));
    }

    /** `intercept(chain)`: `response` is what the server answered to the request sent. */
    method Intercept(request: Request, response: OidcSignals) returns (sent: Request)
      requires Valid()
      modifies this
      ensures Valid()
      ensures (sent, isOidcRequest) == InterceptStep(old(isOidcRequest), false, encodedCreds, request, response)
      ensures old(isOidcRequest) ==> isOidcRequest
    {
      if isOidcRequest && !authAttempted {
        sent := WithBasicAuth(request, encodedCreds);
      } else {
        sent := request;
        if response.isRedirect {
          if response.hasStateCookie {
            isOidcRequest := response.hasRequestUrlCookie;
          }
        }
      }
    }
  }
}
