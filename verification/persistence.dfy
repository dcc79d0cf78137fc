/**
 * `PhpSessionPersistence`: reads the session id from the request's Cookie
 * header, builds the session, and at the end of the request writes the
 * data back through the session extension and adds the Set-Cookie and
 * cache headers to the response.
 *
 * The clock, the random source, the date formatter and the modification
 * times of the running script and of the class file are parameters.
 */
module Persistence {
  import opened Wrappers
  import opened AssocLists
  import opened Containers
  import opened PhpStrings
  import opened Http
  import opened SessionExt
  import opened ContainerFactory
  import opened Sessions

  /** `CACHE_PAST_DATE`, the date PHP itself sends to expire pages at once. */
  const CachePastDate := "Thu, 19 Nov 1981 08:52:00 GMT"

  // ------------------------------------------------- the request cookie

  /** The url-decoded text before the first `=` of a cookie string (all of
      it when there is no `=`). */
  function CookieName(cookie: string): (r: string)
    ensures r == UrlDecode(cookie[..FirstIndex(cookie, '=')])
  {
    SplitFirst(cookie, '=');
    assert cookie[..|cookie|] == cookie;
    UrlDecode(Split(cookie, '=')[0])
  }

  /** The url-decoded text between the first and the second `=` (or the end),
      or "" when there is no `=`. */
  function CookieValue(cookie: string): (r: string)
    ensures FirstIndex(cookie, '=') == |cookie| ==> r == ""
    ensures FirstIndex(cookie, '=') < |cookie| ==>
              var rest := cookie[FirstIndex(cookie, '=') + 1..];
              r == UrlDecode(rest[..FirstIndex(rest, '=')])
  {
    var parts := Split(cookie, '=');
    SplitSecond(cookie, '=');
    if |parts| > 1 then UrlDecode(parts[1]) else ""
  }

  /** The value of the first cookie called `name`. */
  function FirstCookie(cookies: seq<string>, name: string): (r: Option<string>)
    ensures r.None? <==> forall i | 0 <= i < |cookies| :: CookieName(cookies[i]) != name
    ensures r.Some? ==> exists i | 0 <= i < |cookies| ::
              && CookieName(cookies[i]) == name && r.value == CookieValue(cookies[i])
              && forall j | 0 <= j < i :: CookieName(cookies[j]) != name
  {
    if cookies == [] then None
    else if CookieName(cookies[0]) == name then Some(CookieValue(cookies[0]))
    else
      var r := FirstCookie(cookies[1..], name);
      assert forall i | 1 <= i < |cookies| :: cookies[1..][i - 1] == cookies[i];
      r
  }

  /** The session id a request carries: the value of the first cookie
      called `name` in its Cookie header, or "" when the header is missing
      or empty or no cookie has that name. */
  function RequestSessionId(request: Message, name: string): (r: string)
    ensures var line := GetHeaderLine(request, "Cookie");
            var cookies := SplitCookies(line);
            var sent := HasHeader(request, "Cookie") && line != "";
            && (!sent || (forall i | 0 <= i < |cookies| :: CookieName(cookies[i]) != name) ==> r == "")
            && (sent ==> forall i | 0 <= i < |cookies| && CookieName(cookies[i]) == name
                           && (forall j | 0 <= j < i :: CookieName(cookies[j]) != name) :: r == CookieValue(cookies[i]))
  {
    var line := GetHeaderLine(request, "Cookie");
    if !HasHeader(request, "Cookie") || line == "" then ""
    else
      var cookies := SplitCookies(line);
      var found := FirstCookie(cookies, name);
      assert found.Some? ==> forall i | 0 <= i < |cookies| && CookieName(cookies[i]) == name
               && (forall j | 0 <= j < i :: CookieName(cookies[j]) != name) :: found.value == CookieValue(cookies[i]);
      found.GetOr("")
  }

  /** A cookie value stops at the second `=`. */
  lemma CookieValueStopsAtEquals(n: string, v: string, w: string)
    requires forall j | 0 <= j < |n| :: n[j] != '='
    requires forall j | 0 <= j < |v| :: v[j] != '='
    ensures CookieName(n + "=" + v + "=" + w) == UrlDecode(n)
    ensures CookieValue(n + "=" + v + "=" + w) == UrlDecode(v)
  {
    SplitAt(v, '=', w);
    SplitAt(n, '=', v + "=" + w);
    assert n + "=" + v + "=" + w == n + ['='] + (v + ['='] + w);
  }

  /** A cookie without `=` has an empty value, so it starts a new session. */
  lemma CookieWithoutValue(cookie: string)
    requires forall j | 0 <= j < |cookie| :: cookie[j] != '='
    ensures CookieName(cookie) == UrlDecode(cookie)
    ensures CookieValue(cookie) == "" && !Truthy(CookieValue(cookie))
  {
    SplitWithoutSeparator(cookie, '=');
  }

  // ------------------------------------------------------ generated ids

  /** `generateId()`: 16 random bytes in lower-case hex. */
  function GenerateId(random: seq<byte>): (r: string)
    requires |random| == 16
    ensures |r| == 32 && Truthy(r)
    ensures forall i | 0 <= i < |r| :: IsLowerHex(r[i])
    ensures UrlEncode(r) == r
  {
    var r := Bin2Hex(random);
    UrlEncodeUnreserved(r);
    r
  }

  /** Different random bytes give different ids. */
  lemma GenerateIdInjective(a: seq<byte>, b: seq<byte>)
    requires |a| == 16 && |b| == 16 && GenerateId(a) == GenerateId(b)
    ensures a == b
  {
    Bin2HexInjective(a, b);
  }

  // --------------------------------------------------------- write back

  /** `toArray()` in `writeAndClose` as a transition of the extension: the
      contents of an existing container, or those of the container a lazy
      session's factory creates from the session opened for `requestId`. */
  function ToArraySpec(s: ExtState, rejected: set<string>, loaded: Option<Data>, requestId: string, nonLocking: bool): (r: (Result<Data, Error>, ExtState))
    requires Consistent(s, rejected)
    requires loaded.Some? ==> Distinct(loaded.value)
    ensures Consistent(r.1, rejected)
    ensures r.0.Success? ==> Distinct(r.0.value)
    ensures loaded.Some? ==> r == (Success(loaded.value), s)
    ensures r.0.Failure? ==> r.0.error == SessionsDisabled && s.status == SessionDisabled && r.1 == s
    ensures Keeps(Flushed(s), Flushed(r.1), requestId)
  {
    if loaded.Some? then (Success(loaded.value), s)
    else
      var (o, next) := OpenForRead(s, rejected, requestId, nonLocking);
      if o.Failure? then (Failure(o.error), next)
      else (Success(next.superglobal.GetOr([])), next)
  }

  /** The write of `writeAndClose`: `$_SESSION = $data` once `startSession($id)`
      succeeds, then `session_write_close()`. */
  function WriteBackSpec(s: ExtState, rejected: set<string>, id: string, d: Data): (r: (Result<(), Error>, ExtState))
    requires Consistent(s, rejected) && Distinct(d)
    ensures Consistent(r.1, rejected)
    ensures r.0.Failure? <==> s.status == SessionDisabled
    ensures r.0.Failure? ==> r.0.error == SessionsDisabled && r.1 == s
    ensures r.0.Success? ==> r.1.status == SessionNone
    // the data is stored under `id` unless the handler refuses that id
    ensures r.0.Success? ==> r.1.files == if id in rejected then Flushed(s) else Flushed(s)[id := d]
  {
    var (started, next) := StartSessionSpec(s, rejected, id, false);
    if started.Failure? then (Failure(started.error), next)
    else if started.value then (Success(()), WriteClose(next.(superglobal := Some(d))))
    else (Success(()), WriteClose(next))
  }

  /** Whether `writeAndClose` writes: the data changed, or the session was
      regenerated and has data to carry over to the new id. */
  function ShouldWrite(hasChanged: bool, isRegenerated: bool, d: Data): (r: bool)
    ensures r <==> hasChanged || (isRegenerated && d != [])
  {
    (hasChanged || isRegenerated) && (hasChanged || d != [])
  }

  /** `writeAndClose($id, $session)` as a transition of the extension. */
  function WriteAndCloseSpec(
    s: ExtState, rejected: set<string>, id: string,
    hasChanged: bool, isRegenerated: bool, loaded: Option<Data>, requestId: string, nonLocking: bool)
    : (r: (Result<(), Error>, ExtState))
    requires Consistent(s, rejected)
    requires loaded.Some? ==> Distinct(loaded.value)
    ensures Consistent(r.1, rejected)
    // the only failure: sessions are disabled and the store had to be opened
    ensures r.0.Failure? ==> r.0.error == SessionsDisabled && s.status == SessionDisabled && r.1 == s
    ensures s.status != SessionDisabled ==> r.0.Success?
    // no session is left open
    ensures r.0.Success? ==> r.1.status != SessionActive
    // an unchanged, unregenerated session is only closed
    ensures !(hasChanged || isRegenerated) ==> r == (Success(()), WriteClose(s))
    ensures (hasChanged || isRegenerated) && r.0.Success? ==>
              var (d, read) := ToArraySpec(s, rejected, loaded, requestId, nonLocking);
              && d.Success?
              && r.1.files == if ShouldWrite(hasChanged, isRegenerated, d.value) && id !in rejected
                              then Flushed(read)[id := d.value] else Flushed(read)
  {
    if !(hasChanged || isRegenerated) then (Success(()), WriteClose(s))
    else
      var (d, read) := ToArraySpec(s, rejected, loaded, requestId, nonLocking);
      if d.Failure? then (Failure(d.error), read)
      else if hasChanged || d.value != [] then WriteBackSpec(read, rejected, id, d.value)
      else (Success(()), WriteClose(read))
  }

  /** Writing back never loses another session: every id the store held,
      other than the one written, keeps its contents. */
  lemma WriteAndCloseKeepsOtherSessions(
    s: ExtState, rejected: set<string>, id: string,
    hasChanged: bool, isRegenerated: bool, loaded: Option<Data>, requestId: string, nonLocking: bool)
    requires Consistent(s, rejected)
    requires loaded.Some? ==> Distinct(loaded.value)
    ensures var r := WriteAndCloseSpec(s, rejected, id, hasChanged, isRegenerated, loaded, requestId, nonLocking);
            r.0.Success? ==> forall k | k in Flushed(s) && k != id :: k in r.1.files && r.1.files[k] == Flushed(s)[k]
  {
    var r := WriteAndCloseSpec(s, rejected, id, hasChanged, isRegenerated, loaded, requestId, nonLocking);
    if r.0.Success? && (hasChanged || isRegenerated) {
      var (d, read) := ToArraySpec(s, rejected, loaded, requestId, nonLocking);
      assert Keeps(Flushed(s), Flushed(read), requestId);
    }
  }

  /** A regenerated session that is not otherwise changed carries its data
      to the new id, whether its container was loaded during the request or
      is created by `toArray()` now, and whatever session is open: every
      other id, the old one included, keeps what the store would hold for
      it once closed, and without data nothing is written. */
  lemma RegeneratedDataMovesToNewId(
    s: ExtState, rejected: set<string>, oldId: string, newId: string, loaded: Option<Data>, nonLocking: bool)
    requires Consistent(s, rejected) && (loaded.Some? ==> Distinct(loaded.value))
    requires s.status != SessionDisabled && newId !in rejected
    ensures var r := WriteAndCloseSpec(s, rejected, newId, false, true, loaded, oldId, nonLocking);
            var (d, read) := ToArraySpec(s, rejected, loaded, oldId, nonLocking);
            && r.0.Success? && d.Success?
            && (loaded.Some? ==> d.value == loaded.value)
            && (forall k | k in Flushed(s) && k != newId :: k in r.1.files && r.1.files[k] == Flushed(s)[k])
            && (d.value != [] ==> newId in r.1.files && r.1.files[newId] == d.value)
            && (d.value == [] ==> r.1.files == Flushed(read) && Keeps(Flushed(s), r.1.files, oldId))
  {
    var (d, read) := ToArraySpec(s, rejected, loaded, oldId, nonLocking);
    assert Keeps(Flushed(s), Flushed(read), oldId);
  }

  // ------------------------------------------------- the Set-Cookie line

  /** Whether `addSessionCookie` adds a cookie: a lifetime was set, or the
      id is not the one the request sent. */
  predicate EmitsCookie(lifetime: Option<int>, isNew: bool, isRegenerated: bool) {
    lifetime.Some? || isNew || isRegenerated
  }

  /** When no cookie is sent, the client already holds the id the session
      is persisted under and no lifetime was asked for. */
  lemma NoCookieKeepsClientId(id: string, lifetime: Option<int>, isNew: bool, isRegenerated: bool, random: seq<byte>)
    requires |random| == 16
    ensures !EmitsCookie(lifetime, isNew, isRegenerated) ==> PersistedId(id, isRegenerated, random) == id && lifetime.None?
    ensures isRegenerated ==> EmitsCookie(lifetime, isNew, isRegenerated) && PersistedId(id, isRegenerated, random) == GenerateId(random)
  {
  }

  /** The `name=value` pair of the Set-Cookie line. */
  function CookiePair(name: string, id: string): string {
    UrlEncode(name) + "=" + UrlEncode(id)
  }

  /** Every part is non-empty and starts with the letter `c`. */
  predicate AllStartWith(parts: seq<string>, c: char) {
    forall i | 0 <= i < |parts| :: |parts[i]| > 0 && parts[i][0] == c
  }

  /** No part is empty or starts with the letter `c`. */
  predicate NoneStartsWith(parts: seq<string>, c: char) {
    forall i | 0 <= i < |parts| :: |parts[i]| > 0 && parts[i][0] != c
  }

  /** A string is none of the parts that start with another letter. */
  lemma NotAmongByInitial(x: string, parts: seq<string>)
    requires |x| > 0 && NoneStartsWith(parts, x[0])
    ensures x !in parts
  {
    forall k | 0 <= k < |parts| ensures parts[k] != x {
      assert parts[k][0] != x[0];
    }
  }

  /** `Expires` and `Max-Age`, for a positive lifetime. */
  function ExpiryParts(seconds: int, now: int, httpDate: int -> string): (r: seq<string>)
    ensures NoneStartsWith(r, 'D') && NoneStartsWith(r, 'P') && NoneStartsWith(r, 'S') && NoneStartsWith(r, 'H')
  {
    if seconds > 0 then ["Expires=" + httpDate(now + seconds), "Max-Age=" + IntToString(seconds)] else []
  }

  /** `name=value`, sent when the setting is truthy (`Domain`, `Path`). */
  function ValuedAttribute(name: string, value: string): (r: seq<string>)
    requires |name| > 0
    ensures AllStartWith(r, name[0])
  {
    if Truthy(value) then [name + "=" + value] else []
  }

  /** The bare `name`, sent when the setting passes `FILTER_VALIDATE_BOOLEAN`
      (`Secure`, `HttpOnly`). */
  function FlagAttribute(name: string, setting: string): (r: seq<string>)
    requires |name| > 0
    ensures AllStartWith(r, name[0])
  {
    if FilterBool(setting) == Some(true) then [name] else []
  }

  /** The attributes after the pair, in the order `createSetCookieHeaderLine`
      appends them. */
  function CookieAttributes(ini: Ini, lifetime: Option<int>, now: int, httpDate: int -> string): seq<string> {
    ExpiryParts(lifetime.GetOr(ini.cookieLifetime), now, httpDate)
    + ValuedAttribute("Domain", ini.cookieDomain) + ValuedAttribute("Path", ini.cookiePath)
    + FlagAttribute("Secure", ini.cookieSecure) + FlagAttribute("HttpOnly", ini.cookieHttpOnly)
  }

  /** The parts of `createSetCookieHeaderLine($id, $lifetime)`, reading the
      cookie ini settings given. */
  function SetCookieParts(ini: Ini, id: string, lifetime: Option<int>, now: int, httpDate: int -> string): (r: seq<string>)
    ensures |r| >= 1 && r[0] == CookiePair(ini.name, id)
    ensures r[1..] == CookieAttributes(ini, lifetime, now, httpDate)
  {
    var r := [CookiePair(ini.name, id)] + CookieAttributes(ini, lifetime, now, httpDate);
    assert r[1..] == CookieAttributes(ini, lifetime, now, httpDate);
    r
  }

  /** `Expires` and `Max-Age` are sent exactly when the lifetime (the one
      given, else `session.cookie_lifetime`) is positive. */
  lemma SetCookieExpiry(ini: Ini, id: string, lifetime: Option<int>, now: int, httpDate: int -> string)
    ensures var seconds := lifetime.GetOr(ini.cookieLifetime);
            var attributes := SetCookieParts(ini, id, lifetime, now, httpDate)[1..];
            && (("Expires=" + httpDate(now + seconds)) in attributes <==> seconds > 0)
            && (("Max-Age=" + IntToString(seconds)) in attributes <==> seconds > 0)
  {
    var seconds := lifetime.GetOr(ini.cookieLifetime);
    var expires, maxAge := "Expires=" + httpDate(now + seconds), "Max-Age=" + IntToString(seconds);
    var domain, path := ValuedAttribute("Domain", ini.cookieDomain), ValuedAttribute("Path", ini.cookiePath);
    var secure, httpOnly := FlagAttribute("Secure", ini.cookieSecure), FlagAttribute("HttpOnly", ini.cookieHttpOnly);
    assert expires[0] == 'E' && maxAge[0] == 'M';
    NotAmongByInitial(expires, domain);
    NotAmongByInitial(expires, path);
    NotAmongByInitial(expires, secure);
    NotAmongByInitial(expires, httpOnly);
    NotAmongByInitial(maxAge, domain);
    NotAmongByInitial(maxAge, path);
    NotAmongByInitial(maxAge, secure);
    NotAmongByInitial(maxAge, httpOnly);
  }

  /** `Domain` and `Path` are sent exactly when their settings are truthy. */
  lemma SetCookieDomainAndPath(ini: Ini, id: string, lifetime: Option<int>, now: int, httpDate: int -> string)
    ensures var attributes := SetCookieParts(ini, id, lifetime, now, httpDate)[1..];
            && (("Domain" + "=" + ini.cookieDomain) in attributes <==> Truthy(ini.cookieDomain))
            && (("Path" + "=" + ini.cookiePath) in attributes <==> Truthy(ini.cookiePath))
  {
    var domainPart, pathPart := "Domain" + "=" + ini.cookieDomain, "Path" + "=" + ini.cookiePath;
    var expiry := ExpiryParts(lifetime.GetOr(ini.cookieLifetime), now, httpDate);
    var domain, path := ValuedAttribute("Domain", ini.cookieDomain), ValuedAttribute("Path", ini.cookiePath);
    var secure, httpOnly := FlagAttribute("Secure", ini.cookieSecure), FlagAttribute("HttpOnly", ini.cookieHttpOnly);
    assert domainPart[0] == 'D' && pathPart[0] == 'P';
    NotAmongByInitial(domainPart, expiry);
    NotAmongByInitial(domainPart, path);
    NotAmongByInitial(domainPart, secure);
    NotAmongByInitial(domainPart, httpOnly);
    NotAmongByInitial(pathPart, expiry);
    NotAmongByInitial(pathPart, domain);
    NotAmongByInitial(pathPart, secure);
    NotAmongByInitial(pathPart, httpOnly);
  }

  /** `Secure` and `HttpOnly` are sent exactly when their settings read as
      true for `FILTER_VALIDATE_BOOLEAN`. */
  lemma SetCookieFlags(ini: Ini, id: string, lifetime: Option<int>, now: int, httpDate: int -> string)
    ensures var attributes := SetCookieParts(ini, id, lifetime, now, httpDate)[1..];
            && ("Secure" in attributes <==> FilterBool(ini.cookieSecure) == Some(true))
            && ("HttpOnly" in attributes <==> FilterBool(ini.cookieHttpOnly) == Some(true))
  {
    var expiry := ExpiryParts(lifetime.GetOr(ini.cookieLifetime), now, httpDate);
    var domain, path := ValuedAttribute("Domain", ini.cookieDomain), ValuedAttribute("Path", ini.cookiePath);
    var secure, httpOnly := FlagAttribute("Secure", ini.cookieSecure), FlagAttribute("HttpOnly", ini.cookieHttpOnly);
    NotAmongByInitial("Secure", expiry);
    NotAmongByInitial("Secure", domain);
    NotAmongByInitial("Secure", path);
    NotAmongByInitial("Secure", httpOnly);
    NotAmongByInitial("HttpOnly", expiry);
    NotAmongByInitial("HttpOnly", domain);
    NotAmongByInitial("HttpOnly", path);
    NotAmongByInitial("HttpOnly", secure);
  }

  /** `createSetCookieHeaderLine`: the parts joined by "; ". */
  function SetCookieLine(ini: Ini, id: string, lifetime: Option<int>, now: int, httpDate: int -> string): string {
    Join("; ", SetCookieParts(ini, id, lifetime, now, httpDate))
  }

  /** The url-encoded pair has no `;`, no `=` on either side and no blank. */
  lemma UrlEncodedPlain(s: string)
    ensures forall j | 0 <= j < |UrlEncode(s)| ::
              UrlEncode(s)[j] != ';' && UrlEncode(s)[j] != '=' && !IsSpace(UrlEncode(s)[j])
  {
  }

  /** The pair of the Set-Cookie line reads back as the session name and id. */
  lemma PairReadsBack(name: string, id: string)
    requires IsBytes(name) && IsBytes(id)
    ensures CookieName(CookiePair(name, id)) == name && CookieValue(CookiePair(name, id)) == id
  {
    var a, b := UrlEncode(name), UrlEncode(id);
    var pair := CookiePair(name, id);
    UrlEncodedPlain(name);
    UrlEncodedPlain(id);
    assert pair == a + ['='] + b;
    SplitAt(a, '=', b);
    SplitWithoutSeparator(b, '=');
    SplitFirst(pair, '=');
    SplitSecond(pair, '=');
    UrlDecodeEncode(name);
    UrlDecodeEncode(id);
  }

  /** A Cookie header that starts with a pair free of `;` and white space
      has that pair as its first cookie. */
  lemma FirstCookieOfLine(pair: string, others: seq<string>)
    requires |pair| > 0
    requires forall j | 0 <= j < |pair| :: pair[j] != ';' && !IsSpace(pair[j])
    ensures Join("; ", [pair] + others) != ""
    ensures SplitCookies(Join("; ", [pair] + others))[0] == pair
  {
    var line := Join("; ", [pair] + others);
    assert "; " == [';'] + " ";
    SplitJoinFirst([pair] + others, ';');
    if others == [] { assert line == pair; } else { assert line == pair + "; " + Join("; ", others); }
  }

  /** The cookie a client keeps from the Set-Cookie line (the text before
      its first `;`), sent back first in a Cookie header, gives the session
      id back, whatever cookies follow it. */
  lemma {:induction false} CookieRoundTrip(
    ini: Ini, id: string, lifetime: Option<int>, now: int, httpDate: int -> string, others: seq<string>)
    requires IsBytes(ini.name) && IsBytes(id)
    ensures var pair := Split(SetCookieLine(ini, id, lifetime, now, httpDate), ';')[0];
            && pair == CookiePair(ini.name, id)
            && RequestSessionId(Message(map[Lower("Cookie") := [Join("; ", [pair] + others)]]), ini.name) == id
  {
    var pair := CookiePair(ini.name, id);
    UrlEncodedPlain(ini.name);
    UrlEncodedPlain(id);
    assert forall j | 0 <= j < |pair| :: pair[j] != ';' && !IsSpace(pair[j]);
    assert "; " == [';'] + " ";
    SplitJoinFirst(SetCookieParts(ini, id, lifetime, now, httpDate), ';');
    FirstCookieOfLine(pair, others);
    var line := Join("; ", [pair] + others);
    var request := Message(map[Lower("Cookie") := [line]]);
    assert GetHeaderLine(request, "Cookie") == line;
    PairReadsBack(ini.name, id);
  }

  /** `addSessionCookie`: one more Set-Cookie value when a cookie is due. */
  function AddSessionCookie(
    response: Message, ini: Ini, id: string, lifetime: Option<int>, isNew: bool, isRegenerated: bool,
    now: int, httpDate: int -> string): (r: Message)
    ensures !EmitsCookie(lifetime, isNew, isRegenerated) ==> r == response
    ensures EmitsCookie(lifetime, isNew, isRegenerated) ==>
              && HasHeader(r, "Set-Cookie")
              && r.headers[Lower("Set-Cookie")] ==
                   (if HasHeader(response, "Set-Cookie") then response.headers[Lower("Set-Cookie")] else [])
                   + [SetCookieLine(ini, id, lifetime, now, httpDate)]
    ensures forall n | n != Lower("Set-Cookie") :: n in r.headers <==> n in response.headers
    ensures forall n | n != Lower("Set-Cookie") && n in response.headers :: r.headers[n] == response.headers[n]
  {
    if EmitsCookie(lifetime, isNew, isRegenerated) then
      WithAddedHeader(response, "Set-Cookie", SetCookieLine(ini, id, lifetime, now, httpDate))
    else response
  }

  // -------------------------------------------------------- cache headers

  predicate SupportedLimiter(limiter: string) {
    limiter in {"nocache", "public", "private", "private_no_expire"}
  }

  /** The headers the cache limiters set. */
  predicate IsCacheHeader(name: string) {
    name in {"Expires", "Cache-Control", "Pragma", "Last-Modified"}
  }

  /** `getLastModified()`: the script's modification time, else the class
      file's; 0 stands for PHP's false. None stands for false. */
  function LastModified(scriptMtime: int, classMtime: int, httpDate: int -> string): (r: Option<string>)
    ensures r.None? <==> scriptMtime == 0 && classMtime == 0
    ensures scriptMtime != 0 ==> r == Some(httpDate(scriptMtime))
    ensures scriptMtime == 0 && classMtime != 0 ==> r == Some(httpDate(classMtime))
  {
    var lastmod := if scriptMtime != 0 then scriptMtime else classMtime;
    if lastmod != 0 then Some(httpDate(lastmod)) else None
  }

  /** The Cache-Control value of a supported limiter. */
  function CacheControl(limiter: string, expire: int): string {
    if limiter == "nocache" then "no-store, no-cache, must-revalidate"
    else (if limiter == "public" then "public" else "private") + ", max-age=" + IntToString(60 * expire)
  }

  /** `createCacheHeaders()`: name and value pairs in order; a None value is
      PHP's false and is not sent. */
  function CacheHeaders(limiter: string, expire: int, now: int, httpDate: int -> string, lastModified: Option<string>)
    : (r: seq<(string, Option<string>)>)
    ensures !SupportedLimiter(limiter) ==> r == []
    ensures forall i | 0 <= i < |r| :: IsCacheHeader(r[i].0)
    ensures forall i, j | 0 <= i < j < |r| :: r[i].0 != r[j].0
    // every supported limiter sends Cache-Control
    ensures SupportedLimiter(limiter) ==> ("Cache-Control", Some(CacheControl(limiter, expire))) in r
    ensures SupportedLimiter(limiter) && limiter != "nocache" ==> ("Last-Modified", lastModified) in r
    ensures limiter == "public" ==> ("Expires", Some(httpDate(now + 60 * expire))) in r
    ensures limiter == "nocache" || limiter == "private" ==> ("Expires", Some(CachePastDate)) in r
    ensures limiter == "private_no_expire" ==> forall i | 0 <= i < |r| :: r[i].0 != "Expires"
    ensures limiter == "nocache" ==> ("Pragma", Some("no-cache")) in r
    ensures limiter != "nocache" ==> forall i | 0 <= i < |r| :: r[i].0 != "Pragma"
    ensures limiter == "nocache" ==> forall i | 0 <= i < |r| :: r[i].0 != "Last-Modified"
  {
    if !SupportedLimiter(limiter) then []
    else if limiter == "nocache" then
      [("Expires", Some(CachePastDate)),
       ("Cache-Control", Some(CacheControl(limiter, expire))),
       ("Pragma", Some("no-cache"))]
    else if limiter == "public" then
      [("Expires", Some(httpDate(now + 60 * expire))),
       ("Cache-Control", Some(CacheControl(limiter, expire))),
       ("Last-Modified", lastModified)]
    else if limiter == "private" then
      [("Expires", Some(CachePastDate)),
       ("Cache-Control", Some(CacheControl(limiter, expire))),
       ("Last-Modified", lastModified)]
    else
      [("Cache-Control", Some(CacheControl(limiter, expire))),
       ("Last-Modified", lastModified)]
  }

  /** The `nocache` headers depend on nothing but the limiter. */
  lemma NocacheIgnoresExpire(
    e1: int, n1: int, d1: int -> string, m1: Option<string>,
    e2: int, n2: int, d2: int -> string, m2: Option<string>)
    ensures CacheHeaders("nocache", e1, n1, d1, m1) == CacheHeaders("nocache", e2, n2, d2, m2)
  {
  }

  /** `responseAlreadyHasCacheHeaders($response)`. */
  predicate HasCacheHeaders(m: Message) {
    HasHeader(m, "Expires") || HasHeader(m, "Last-Modified") || HasHeader(m, "Cache-Control") || HasHeader(m, "Pragma")
  }

  /** A response has cache headers exactly when it carries one of the four
      cache headers, under any spelling of its name. */
  lemma HasCacheHeadersMeans(m: Message)
    ensures HasCacheHeaders(m) <==> exists c | IsCacheHeader(c) :: HasHeader(m, c)
  {
    assert IsCacheHeader("Expires") && IsCacheHeader("Last-Modified") && IsCacheHeader("Cache-Control") && IsCacheHeader("Pragma");
  }

  /** The value the last header in `hs` with a name matching `n` (lower
      case) sets, if any sets one. */
  function LastValue(hs: seq<(string, Option<string>)>, n: string): (r: Option<string>)
    ensures r.Some? ==> exists i | 0 <= i < |hs| :: Lower(hs[i].0) == n && hs[i].1 == r
    ensures (exists i | 0 <= i < |hs| :: Lower(hs[i].0) == n && hs[i].1.Some?) ==> r.Some?
  {
    if hs == [] then None
    else
      var last := hs[|hs| - 1];
      var r := if Lower(last.0) == n && last.1.Some? then last.1 else LastValue(hs[..|hs| - 1], n);
      assert forall i | 0 <= i < |hs| - 1 :: hs[..|hs| - 1][i] == hs[i];
      r
  }

  /** The `withHeader` calls of the loop in `addCacheHeaders`, skipping the
      false values. */
  function ApplyHeaders(m: Message, hs: seq<(string, Option<string>)>): (r: Message)
    ensures forall n :: LastValue(hs, n).Some? ==> n in r.headers && r.headers[n] == [LastValue(hs, n).value]
    ensures forall n :: LastValue(hs, n).None? ==> (n in r.headers <==> n in m.headers)
    ensures forall n | LastValue(hs, n).None? && n in m.headers :: r.headers[n] == m.headers[n]
  {
    if hs == [] then m
    else
      var before := ApplyHeaders(m, hs[..|hs| - 1]);
      var (name, value) := hs[|hs| - 1];
      if value.Some? then WithHeader(before, name, value.value) else before
  }

  /** What `addCacheHeaders` returns: the response as it is when no limiter
      is set or it already has a cache header; otherwise with the limiter's
      headers. */
  function WithCacheHeaders(
    response: Message, limiter: string, expire: int, now: int, httpDate: int -> string, lastModified: Option<string>)
    : (r: Message)
    ensures !Truthy(limiter) || !SupportedLimiter(limiter) || HasCacheHeaders(response) ==> r == response
    ensures SupportedLimiter(limiter) && !HasCacheHeaders(response) ==> HasHeader(r, "Cache-Control")
  {
    if !Truthy(limiter) || HasCacheHeaders(response) then response
    else ApplyHeaders(response, CacheHeaders(limiter, expire, now, httpDate, lastModified))
  }

  /** Adding the cache headers twice adds them once: the first call leaves a
      Cache-Control header whenever it changes anything. */
  lemma CacheHeadersIdempotent(
    response: Message, limiter: string, expire: int, now: int, httpDate: int -> string, lastModified: Option<string>)
    ensures var once := WithCacheHeaders(response, limiter, expire, now, httpDate, lastModified);
            WithCacheHeaders(once, limiter, expire, now, httpDate, lastModified) == once
  {
    var once := WithCacheHeaders(response, limiter, expire, now, httpDate, lastModified);
    if Truthy(limiter) && !HasCacheHeaders(response) {
      var hs := CacheHeaders(limiter, expire, now, httpDate, lastModified);
      if SupportedLimiter(limiter) {
        assert HasHeader(once, "Cache-Control");
      }
    }
  }

  /** The cache headers change no header outside the four cache headers. */
  lemma CacheHeadersKeepOtherHeaders(
    response: Message, limiter: string, expire: int, now: int, httpDate: int -> string, lastModified: Option<string>, n: string)
    requires forall c | IsCacheHeader(c) :: n != Lower(c)
    ensures var r := WithCacheHeaders(response, limiter, expire, now, httpDate, lastModified);
            && (n in r.headers <==> n in response.headers)
            && (n in response.headers ==> r.headers[n] == response.headers[n])
  {
    var hs := CacheHeaders(limiter, expire, now, httpDate, lastModified);
    forall i | 0 <= i < |hs| ensures Lower(hs[i].0) != n {
      assert IsCacheHeader(hs[i].0);
    }
  }

  // ----------------------------------------------------- the persistence

  /** The id the session is persisted under: a new one once regenerated. */
  function PersistedId(id: string, isRegenerated: bool, random: seq<byte>): (r: string)
    requires |random| == 16
    ensures !isRegenerated ==> r == id
    ensures isRegenerated ==> |r| == 32 && Truthy(r) && UrlEncode(r) == r && forall i | 0 <= i < |r| :: IsLowerHex(r[i])
  {
    if isRegenerated then GenerateId(random) else id
  }

  /** `$parts[] = $part` when `cond` holds; `attributes` tracks the parts
      after the first. */
  method AppendWhen(parts: seq<string>, cond: bool, part: string, ghost first: string, ghost attributes: seq<string>)
    returns (r: seq<string>, ghost rest: seq<string>)
    requires parts == [first] + attributes
    ensures r == parts + (if cond then [part] else [])
    ensures r == [first] + rest
    ensures rest == attributes + (if cond then [part] else [])
  {
    r := parts;
    rest := attributes;
    if cond {
      r := r + [part];
      rest := rest + [part];
    }
  }

  class PhpSessionPersistence {
    /** The process's session extension. */
    const ext: SessionExtension
    const useLazySession: bool
    const nonLocking: bool
    /** `session.cache_limiter` and `session.cache_expire` as they were when
        the object was built. */
    const cacheLimiter: string
    const cacheExpire: int

    constructor (ext: SessionExtension, useLazySession: bool, nonLocking: bool)
      ensures this.ext == ext && this.useLazySession == useLazySession && this.nonLocking == nonLocking
      ensures cacheLimiter == ext.ini.cacheLimiter && cacheExpire == ext.ini.cacheExpire
    {
      this.ext := ext;
      this.useLazySession := useLazySession;
      this.nonLocking := nonLocking;
      cacheLimiter := ext.ini.cacheLimiter;
      cacheExpire := ext.ini.cacheExpire;
    }

    /** `getSessionIdFromRequest($request)`, with the session name read
        from the ini settings. */
    method GetSessionIdFromRequest(request: Message) returns (id: string)
      ensures id == RequestSessionId(request, ext.ini.name)
    {
      if !HasHeader(request, "Cookie") {
        return "";
      }
      var line := GetHeaderLine(request, "Cookie");
      if line == "" {
        return "";
      }
      var name := ext.ini.name;
      var cookies := SplitCookies(line);
      var i := 0;
      while i < |cookies|
        invariant 0 <= i <= |cookies|
        invariant FirstCookie(cookies, name) == FirstCookie(cookies[i..], name)
      {
        var parts := Split(cookies[i], '=');
        if UrlDecode(parts[0]) == name {
          return if |parts| > 1 then UrlDecode(parts[1]) else "";
        }
        assert cookies[i..][1..] == cookies[i + 1..];
        i := i + 1;
      }
      return "";
    }

    /** Whether a session belongs to this object's extension: a lazy
        session's factory drives it, an eager session does not hold it. */
    ghost predicate Owns(session: AbstractSession)
      reads session
    {
      && (session.factory.Some? ==> session.factory.value.ext == ext)
      && (session.factory.None? ==> ext !in session.Repr)
    }

    /** `initializeSessionFromRequest($request)`: the request's id if it is
        truthy, else a generated one; a lazy session does not touch the
        store, an eager one loads its container at once. */
    method InitializeSessionFromRequest(request: Message, random: seq<byte>) returns (r: Result<AbstractSession, Error>)
      requires ext.Valid() && |random| == 16
      modifies ext
      ensures ext.Valid() && ext.ini == old(ext.ini)
      ensures var requestId := RequestSessionId(request, ext.ini.name);
              && (r.Success? ==>
                    && fresh(r.value) && fresh(r.value.Repr - {ext}) && r.value.Valid() && Owns(r.value)
                    && r.value.id == (if Truthy(requestId) then requestId else GenerateId(random))
                    && r.value.isNew == !Truthy(requestId)
                    && r.value.lifetime == None && !r.value.isRegenerated)
              && (useLazySession ==>
                    && r.Success? && ext.State() == old(ext.State())
                    && r.value.data == null && r.value.factory == Some(DataFactory(ext, requestId, nonLocking)))
              && (!useLazySession ==>
                    var (outcome, state) := OpenForRead(old(ext.State()), ext.rejected, requestId, nonLocking);
                    && ext.State() == state
                    && (r.Success? <==> outcome.Success?)
                    && (r.Success? ==> r.value.factory == None && r.value.data.data == state.superglobal.GetOr([])))
    {
      var requestId := GetSessionIdFromRequest(request);
      var id := if Truthy(requestId) then requestId else GenerateId(random);
      var isNew := !Truthy(requestId);
      if useLazySession {
        var s := new AbstractSession.LazySession(id, isNew, DataFactory(ext, requestId, nonLocking));
        return Success(s);
      }
      var c :- CreateDataContainer(ext, requestId, nonLocking);
      var s := new AbstractSession.Session(id, isNew, c);
      r := Success(s);
    }

    /** `writeAndClose($id, $session)`. */
    method WriteAndClose(id: string, session: AbstractSession) returns (r: Result<(), Error>)
      requires ext.Valid() && session.Valid() && Owns(session)
      modifies ext, session.Repr
      ensures ext.Valid() && ext.ini == old(ext.ini) && session.Valid() && Owns(session)
      ensures session.lifetime == old(session.lifetime) && session.isRegenerated == old(session.isRegenerated)
      ensures (r, ext.State()) == WriteAndCloseSpec(
                old(ext.State()), ext.rejected, id, old(session.HasChanged()), session.isRegenerated,
                old(session.Contents()), RequestIdOf(session), NonLockingOf(session))
    {
      var hasChanged := session.HasChanged();
      if !(hasChanged || session.isRegenerated) {
        ext.SessionWriteClose();
        return Success(());
      }
      var d :- session.ToArray();
      if hasChanged || d != [] {
        r := WriteBack(id, d);
      } else {
        ext.SessionWriteClose();
        r := Success(());
      }
    }

    /** The write of `writeAndClose`: `$_SESSION = $data` once
        `startSession($id)` succeeds, then `session_write_close()`. */
    method WriteBack(id: string, d: Data) returns (r: Result<(), Error>)
      requires ext.Valid() && Distinct(d)
      modifies ext
      ensures ext.Valid() && ext.ini == old(ext.ini)
      ensures (r, ext.State()) == WriteBackSpec(old(ext.State()), ext.rejected, id, d)
    {
      var started :- StartSession(ext, id, false);
      if started {
        ext.AssignSuperglobal(d);
      }
      ext.SessionWriteClose();
      r := Success(());
    }

    /** `persistSession($session, $response)`: writes the data back under
        the id (a new one for a regenerated session), then adds the session
        cookie and the cache headers. */
    method PersistSession(
      session: AbstractSession, response: Message, random: seq<byte>,
      now: int, httpDate: int -> string, scriptMtime: int, classMtime: int)
      returns (r: Result<Message, Error>)
      requires ext.Valid() && session.Valid() && Owns(session) && |random| == 16
      modifies ext, session.Repr
      ensures ext.Valid() && ext.ini == old(ext.ini) && session.Valid()
      ensures session.lifetime == old(session.lifetime) && session.isRegenerated == old(session.isRegenerated)
      ensures var id := PersistedId(session.id, old(session.isRegenerated), random);
              var (written, state) := WriteAndCloseSpec(
                old(ext.State()), ext.rejected, id, old(session.HasChanged()), old(session.isRegenerated),
                old(session.Contents()), RequestIdOf(session), NonLockingOf(session));
              && ext.State() == state
              && (r.Success? <==> written.Success?)
              && (r.Success? ==> r.value == WithCacheHeaders(
                    AddSessionCookie(response, ext.ini, id, old(session.lifetime), session.isNew, old(session.isRegenerated), now, httpDate),
                    cacheLimiter, cacheExpire, now, httpDate, LastModified(scriptMtime, classMtime, httpDate)))
    {
      var id := session.id;
      if session.isRegenerated {
        id := GenerateId(random);
      }
      var written :- WriteAndClose(id, session);
      var withCookie := AddSessionCookie(
        response, ext.ini, id, session.lifetime, session.isNew, session.isRegenerated, now, httpDate);
      var withCache := AddCacheHeaders(withCookie, now, httpDate, scriptMtime, classMtime);
      r := Success(withCache);
    }

    /** `createSetCookieHeaderLine($id, $lifetime)`, reading the cookie ini
        settings at the time of the call. */
    method CreateSetCookieHeaderLine(id: string, lifetime: Option<int>, now: int, httpDate: int -> string)
      returns (line: string)
      ensures line == SetCookieLine(ext.ini, id, lifetime, now, httpDate)
    {
      var ini := ext.ini;
      var pair := CookiePair(ini.name, id);
      var parts := [pair];
      var seconds := if lifetime.Some? then lifetime.value else ini.cookieLifetime;
      ghost var attributes: seq<string> := [];
      var expires, maxAge := "Expires=" + httpDate(now + seconds), "Max-Age=" + IntToString(seconds);
      parts, attributes := AppendWhen(parts, seconds > 0, expires, pair, attributes);
      parts, attributes := AppendWhen(parts, seconds > 0, maxAge, pair, attributes);
      assert attributes == ExpiryParts(seconds, now, httpDate);
      parts, attributes := AppendWhen(parts, Truthy(ini.cookieDomain), "Domain" + "=" + ini.cookieDomain, pair, attributes);
      parts, attributes := AppendWhen(parts, Truthy(ini.cookiePath), "Path" + "=" + ini.cookiePath, pair, attributes);
      parts, attributes := AppendWhen(parts, FilterBool(ini.cookieSecure) == Some(true), "Secure", pair, attributes);
      parts, attributes := AppendWhen(parts, FilterBool(ini.cookieHttpOnly) == Some(true), "HttpOnly", pair, attributes);
      assert attributes == CookieAttributes(ini, lifetime, now, httpDate);
      line := Join("; ", parts);
    }

    /** `addCacheHeaders($response)`. */
    method AddCacheHeaders(response: Message, now: int, httpDate: int -> string, scriptMtime: int, classMtime: int)
      returns (r: Message)
      ensures r == WithCacheHeaders(response, cacheLimiter, cacheExpire, now, httpDate,
                                    LastModified(scriptMtime, classMtime, httpDate))
    {
      if !Truthy(cacheLimiter) || HasCacheHeaders(response) {
        return response;
      }
      var hs := CacheHeaders(cacheLimiter, cacheExpire, now, httpDate, LastModified(scriptMtime, classMtime, httpDate));
      r := WithHeaders(response, hs);
    }
  }

  /** The loop of `addCacheHeaders`: `withHeader` for every header whose
      value is not false, in order. */
  method WithHeaders(response: Message, hs: seq<(string, Option<string>)>) returns (r: Message)
    ensures r == ApplyHeaders(response, hs)
  {
    r := response;
    var i := 0;
    while i < |hs|
      invariant 0 <= i <= |hs|
      invariant r == ApplyHeaders(response, hs[..i])
    {
      var (name, value) := hs[i];
      if value.Some? {
        r := WithHeader(r, name, value.value);
      }
      assert hs[..i + 1][..i] == hs[..i];
      i := i + 1;
    }
    assert hs[..|hs|] == hs;
  }

  /** The request id a lazy session's factory opens; "" for an eager one. */
  function RequestIdOf(session: AbstractSession): string
    reads session
  {
    if session.factory.Some? then session.factory.value.requestId else ""
  }

  function NonLockingOf(session: AbstractSession): bool
    reads session
  {
    session.factory.Some? && session.factory.value.nonLocking
  }
}
