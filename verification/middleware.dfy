/** The middleware of internal/handler/middleware.go and
    cmd/web/middleware.go: how a chain wraps a handler, and the decision
    each gate takes on a request. A handler is a term recording which
    middleware wrapped which; a gate's decision is a `Verdict`. */
module Middleware {
  import opened Wrappers
  import opened Strings
  import Memory

  /** A middleware, by name (`secureHeaders`, `verifyCSRF`, ...). */
  type Name = string

  /** `http.Handler` as the term a chain builds: an endpoint, or a
      middleware applied to an inner handler. */
  datatype Handler = Endpoint(name: string) | Wrap(m: Name, inner: Handler)

  /** `Chain`. */
  datatype Chain = Chain(middlewares: seq<Name>)

  /** `New`: the chain holds the middlewares in the order given. */
  function New(ms: seq<Name>): (c: Chain)
    ensures c.middlewares == ms
  {
    Chain(ms)
  }

  /** `Append`: the old middlewares, then the new ones. */
  function Append(c: Chain, ms: seq<Name>): (r: Chain)
    ensures |r.middlewares| == |c.middlewares| + |ms|
    ensures r.middlewares[..|c.middlewares|] == c.middlewares
    ensures r.middlewares[|c.middlewares|..] == ms
  {
    Chain(c.middlewares + ms)
  }

  /** The reference nesting: the first middleware is the outermost. */
  function Nest(ms: seq<Name>, h: Handler): Handler {
    if ms == [] then h else Wrap(ms[0], Nest(ms[1..], h))
  }

  /** `Then`: wraps the handler from the last middleware to the first. */
  method Then(c: Chain, h: Handler) returns (r: Handler)
    ensures r == Nest(c.middlewares, h)
    ensures c.middlewares == [] ==> r == h
    ensures c.middlewares != [] ==> r.Wrap? && r.m == c.middlewares[0]
  {
    var ms := c.middlewares;
    r := h;
    var i := |ms|;
    while i > 0
      invariant 0 <= i <= |ms|
      invariant r == Nest(ms[i..], h)
    {
      i := i - 1;
      assert ms[i..][1..] == ms[i + 1..];
      r := Wrap(ms[i], r);
    }
  }

  /** Appending and then wrapping is wrapping with the old chain around the
      appended one. */
  lemma {:induction false} NestAppend(a: seq<Name>, b: seq<Name>, h: Handler)
    ensures Nest(a + b, h) == Nest(a, Nest(b, h))
  {
    if a != [] {
      assert (a + b)[1..] == a[1..] + b;
      NestAppend(a[1..], b, h);
    } else {
      assert a + b == b;
    }
  }

  /** The middlewares met from the outside in, read off a handler. */
  function Layers(h: Handler): seq<Name> {
    match h
    case Endpoint(_) => []
    case Wrap(m, inner) => [m] + Layers(inner)
  }

  /** A request passes the chain's middlewares in the chain's order. */
  lemma {:induction false} NestLayers(ms: seq<Name>, name: string)
    ensures Layers(Nest(ms, Endpoint(name))) == ms
  {
    if ms != [] {
      NestLayers(ms[1..], name);
      assert [ms[0]] + ms[1..] == ms;
    }
  }

  // ---------------------------------------------------------------------------
  // Gates
  // ---------------------------------------------------------------------------

  /** What a gate does with a request: hand it to the next handler, answer
      with an error status, or redirect. */
  datatype Verdict = Pass | Status(code: int) | Redirect(location: string, code: int)

  const StatusSeeOther: int := 303
  const StatusForbidden: int := 403
  const StatusTooManyRequests: int := 429
  const StatusInternalServerError: int := 500

  const CsrfTokenKey: string := "token"
  const RedirectPathKey: string := "redirectPathAfterLogin"
  const LoginPath: string := "/user/login"

  /** `verifyCSRF`'s result: the verdict, and the token the session holds afterwards. */
  datatype CsrfOutcome = CsrfOutcome(verdict: Verdict, sessionToken: Option<string>)

  /** `verifyCSRF`. `stored` is the session's value under "token"; a missing,
      non-string or empty one is replaced by `freshToken` (a generated token)
      before the comparison with the request's form value. */
  function VerifyCSRF(isPost: bool, stored: Option<Memory.Value>, requestToken: string, freshToken: string): (r: CsrfOutcome)
    ensures !isPost ==> r == CsrfOutcome(Pass, None)
    ensures isPost && !(stored.Some? && stored.value.StrValue? && stored.value.s != "") ==>
              r.sessionToken == Some(freshToken)
    ensures isPost && stored.Some? && stored.value.StrValue? && stored.value.s != "" ==>
              r.sessionToken == Some(stored.value.s) &&
              (r.verdict == Pass <==> requestToken == stored.value.s)
    ensures isPost ==> (r.verdict == Pass <==> Some(requestToken) == r.sessionToken)
    ensures r.verdict != Pass ==> r.verdict == Status(StatusForbidden)
  {
    if !isPost then CsrfOutcome(Pass, None)
    else
      var sessionToken := match stored
        case Some(StrValue(s)) => if s == "" then freshToken else s
        case _ => freshToken;
      if requestToken != sessionToken then CsrfOutcome(Status(StatusForbidden), Some(sessionToken))
      else CsrfOutcome(Pass, Some(sessionToken))
  }

  /** A POST whose token differs from the session's is refused with 403 and
      never reaches the next handler; the cmd/web copy answers the same way. */
  lemma CsrfMismatchForbidden(stored: string, requestToken: string, freshToken: string)
    requires stored != "" && requestToken != stored
    ensures VerifyCSRF(true, Some(Memory.StrValue(stored)), requestToken, freshToken).verdict == Status(StatusForbidden)
  {
  }

  /** `requireAuthentication`'s result: the verdict, the session write it
      makes, and the response header it adds. */
  datatype AuthOutcome = AuthOutcome(verdict: Verdict, sessionWrite: Option<(string, Memory.Value)>,
                                     header: Option<(string, string)>)

  /** `requireAuthentication`: an anonymous request remembers where it was
      going and is sent to the login page; an authenticated one is marked
      uncacheable and passes. */
  function RequireAuthentication(isAuthenticated: bool, path: string): (r: AuthOutcome)
    ensures r.verdict == Pass <==> isAuthenticated
    ensures !isAuthenticated ==>
              r.verdict == Redirect(LoginPath, StatusSeeOther) &&
              r.sessionWrite == Some((RedirectPathKey, Memory.StrValue(path))) && r.header == None
    ensures isAuthenticated ==> r.sessionWrite == None && r.header == Some(("Cache-Control", "no-store"))
  {
    if !isAuthenticated then
      AuthOutcome(Redirect(LoginPath, StatusSeeOther), Some((RedirectPathKey, Memory.StrValue(path))), None)
    else AuthOutcome(Pass, None, Some(("Cache-Control", "no-store")))
  }

  /** `requireModeration`: `stored` is the session's role value. Only a
      moderator or an admin passes; no role (or a non-string one) is a
      server error and any other role is forbidden. */
  function RequireModeration(stored: Option<Memory.Value>): (r: Verdict)
    ensures r == Pass <==> stored == Some(Memory.StrValue("moderator")) || stored == Some(Memory.StrValue("admin"))
    ensures !(stored.Some? && stored.value.StrValue?) ==> r == Status(StatusInternalServerError)
    ensures stored.Some? && stored.value.StrValue? && r != Pass ==> r == Status(StatusForbidden)
  {
    match stored
    case Some(StrValue(role)) =>
      if !(role == "moderator" || role == "admin") then Status(StatusForbidden) else Pass
    case _ => Status(StatusInternalServerError)
  }

  /** `hasAccess` of cmd/web: `role` is None for a value that is not a
      string. Only the "user" case looks at the path, and both of its exits
      deny. */
  function HasAccess(role: Option<string>, path: string): (ok: bool)
    ensures ok <==> role == Some("admin") || role == Some("moderator")
  {
    match role
    case Some(r) =>
      if r == "admin" then true
      else if r == "moderator" then true
      else if r == "user" then
        if HasPrefix(path, "/moderation") || HasPrefix(path, "/user/signup") || HasPrefix(path, "/user/login") then false
        else false
      else false
    case None => false
  }

  /** A plain user is refused every path, moderation pages included. */
  lemma UserNeverHasAccess(path: string)
    ensures !HasAccess(Some("user"), path)
    ensures HasAccess(Some("moderator"), path) && HasAccess(Some("admin"), path)
  {
  }

  // ---------------------------------------------------------------------------
  // Rate limiting
  // ---------------------------------------------------------------------------

  /** Requests a visitor may make before being refused. */
  const Rate: nat := 120

  /** The visitors' counters, by remote address; an unseen visitor counts 0. */
  type Visitors = map<string, nat>

  function CountOf(vs: Visitors, ip: string): nat {
    if ip in vs then vs[ip] else 0
  }

  /** One request through `rateLimiting`: refused with 429 once the visitor's
      count has reached the rate, otherwise counted and passed. */
  function RateLimit(vs: Visitors, ip: string): (r: (Visitors, Verdict))
    ensures r.1 == Pass <==> CountOf(vs, ip) < Rate
    ensures r.1 != Pass ==> r.1 == Status(StatusTooManyRequests)
    ensures CountOf(r.0, ip) == if CountOf(vs, ip) < Rate then CountOf(vs, ip) + 1 else CountOf(vs, ip)
    ensures forall other :: other != ip ==> CountOf(r.0, other) == CountOf(vs, other)
  {
    var count := CountOf(vs, ip);
    if count >= Rate then (vs[ip := count], Status(StatusTooManyRequests))
    else (vs[ip := count + 1], Pass)
  }

  /** A run of requests, by remote address: the final counters and the
      number of requests from `who` that passed. */
  function RunRequests(vs: Visitors, ips: seq<string>, who: string): (Visitors, nat)
    decreases |ips|
  {
    if ips == [] then (vs, 0)
    else
      var (vs1, v) := RateLimit(vs, ips[0]);
      var (vs2, n) := RunRequests(vs1, ips[1..], who);
      (vs2, n + if ips[0] == who && v == Pass then 1 else 0)
  }

  /** Every pass is counted: the passes of one visitor are exactly the
      growth of its counter, which never exceeds the rate. */
  lemma {:induction false} RunRequestsCounts(vs: Visitors, ips: seq<string>, who: string)
    requires CountOf(vs, who) <= Rate
    ensures var (vs2, n) := RunRequests(vs, ips, who);
            CountOf(vs2, who) == CountOf(vs, who) + n && CountOf(vs2, who) <= Rate
    decreases |ips|
  {
    if ips != [] {
      var (vs1, v) := RateLimit(vs, ips[0]);
      RunRequestsCounts(vs1, ips[1..], who);
    }
  }

  /** Without the periodic clean-up, a visitor gets at most `Rate` requests through. */
  lemma AtMostRatePass(ips: seq<string>, who: string)
    ensures RunRequests(map[], ips, who).1 <= Rate
  {
    RunRequestsCounts(map[], ips, who);
  }
}
