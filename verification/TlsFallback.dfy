/** HTTP requests that fall back from one TLS backend to another and, where allowed, from strict to
    lax certificate checking, remembering what worked. */
module TlsFallback {
  import opened Text

  datatype TlsType = PlainHttp | NativeTls | Rustls

  datatype Attempt = Attempt(tls: TlsType, lax: bool)

  datatype Outcome = Ok | RequestError | OtherError

  /** How the network answers the next attempt after the given ones. */
  type Network = seq<Attempt> -> Outcome

  /** All attempts made so far, whether the last one succeeded, and what to remember. */
  datatype Result = Result(trace: seq<Attempt>, ok: bool, learnt: Option<Attempt>)

  function Or<T>(o: Option<T>, dflt: T): T
  {
    if o.Some? then o.value else dflt
  }

  /** `post_request_`: one attempt, and after a request error another with lax checking if that is
      still open, else with the other backend and the certificate setting as it was at first. */
  function PostRequest(net: Network, trace: seq<Attempt>, tls: Option<TlsType>, lax: Option<bool>, original: Option<bool>): Result
    decreases tls.None?, lax.None?
  {
    var attempt := Attempt(Or(tls, Rustls), Or(lax, false));
    var outcome := net(trace + [attempt]);
    var trace' := trace + [attempt];
    if tls.Some? && lax.Some? then
      if outcome.Ok? then Result(trace', true, Some(attempt)) else Result(trace', false, None)
    else if outcome.Ok? then Result(trace', true, Some(attempt))
    else if (tls.None? || lax.None?) && outcome.RequestError? then
      if lax.None? then PostRequest(net, trace', tls, Some(true), original)
      else PostRequest(net, trace', Some(NativeTls), original, original)
    else Result(trace', false, None)
  }

  /** `get_http_response_async`: the same recursion behind a check of method and headers that is
      repeated at every level. */
  function GetResponse(net: Network, trace: seq<Attempt>, wellFormed: bool, tls: Option<TlsType>, lax: Option<bool>, original: Option<bool>): Result
    decreases tls.None?, lax.None?
  {
    if !wellFormed then Result(trace, false, None)
    else
      var attempt := Attempt(Or(tls, Rustls), Or(lax, false));
      var outcome := net(trace + [attempt]);
      var trace' := trace + [attempt];
      if tls.Some? && lax.Some? then
        if outcome.Ok? then Result(trace', true, Some(attempt)) else Result(trace', false, None)
      else match outcome
        case Ok => Result(trace', true, Some(attempt))
        case RequestError =>
          if lax.None? then GetResponse(net, trace', wellFormed, tls, Some(true), original)
          else GetResponse(net, trace', wellFormed, Some(NativeTls), original, original)
        case OtherError => Result(trace', false, None)
  }

  lemma {:induction false} SameRecursion(net: Network, trace: seq<Attempt>, tls: Option<TlsType>, lax: Option<bool>, original: Option<bool>)
    ensures GetResponse(net, trace, true, tls, lax, original) == PostRequest(net, trace, tls, lax, original)
    decreases tls.None?, lax.None?
  {
    var attempt := Attempt(Or(tls, Rustls), Or(lax, false));
    if !(tls.Some? && lax.Some?) {
      if lax.None? {
        SameRecursion(net, trace + [attempt], tls, Some(true), original);
      } else {
        SameRecursion(net, trace + [attempt], Some(NativeTls), original, original);
      }
    }
  }

  // ---------- The plan behind the recursion ----------

  /** Every backend in turn, and with each every certificate setting, strict before lax. */
  function Plan(tls: Option<TlsType>, lax: Option<bool>): seq<Attempt>
  {
    if tls.Some? then WithBackend(tls.value, lax) else WithBackend(Rustls, lax) + WithBackend(NativeTls, lax)
  }

  function WithBackend(t: TlsType, lax: Option<bool>): seq<Attempt>
  {
    if lax.Some? then [Attempt(t, lax.value)] else [Attempt(t, false), Attempt(t, true)]
  }

  /** The plan spelled out: nothing cached, one of the two settings cached, both cached. */
  lemma PlanInFull(t: TlsType, l: bool)
    ensures Plan(None, None) == [Attempt(Rustls, false), Attempt(Rustls, true), Attempt(NativeTls, false), Attempt(NativeTls, true)]
    ensures Plan(None, Some(l)) == [Attempt(Rustls, l), Attempt(NativeTls, l)]
    ensures Plan(Some(t), None) == [Attempt(t, false), Attempt(t, true)]
    ensures Plan(Some(t), Some(l)) == [Attempt(t, l)]
  {
  }

  /** A malformed request makes no attempt. */
  lemma MalformedIsNotSent(net: Network, tls: Option<TlsType>, lax: Option<bool>, original: Option<bool>)
    ensures GetResponse(net, [], false, tls, lax, original) == Result([], false, None)
  {
  }

  /** Walks a plan: stops at the first attempt that is not a request error, or at the end. */
  function Walk(net: Network, trace: seq<Attempt>, plan: seq<Attempt>): Result
    decreases |plan|
  {
    if plan == [] then Result(trace, false, None)
    else
      var trace' := trace + [plan[0]];
      match net(trace')
      case Ok => Result(trace', true, Some(plan[0]))
      case OtherError => Result(trace', false, None)
      case RequestError => Walk(net, trace', plan[1..])
  }

  /** What is left of the plan in the middle of the recursion. */
  function Remaining(tls: Option<TlsType>, lax: Option<bool>, original: Option<bool>): seq<Attempt>
  {
    WithBackend(Or(tls, Rustls), lax) + if tls.Some? then [] else WithBackend(NativeTls, original)
  }

  lemma {:induction false} RecursionWalksPlan(net: Network, trace: seq<Attempt>, tls: Option<TlsType>, lax: Option<bool>, original: Option<bool>)
    ensures PostRequest(net, trace, tls, lax, original) == Walk(net, trace, Remaining(tls, lax, original))
    decreases tls.None?, lax.None?
  {
    var plan := Remaining(tls, lax, original);
    var attempt := Attempt(Or(tls, Rustls), Or(lax, false));
    assert plan[0] == attempt;
    if tls.Some? && lax.Some? {
      assert plan[1..] == [];
    } else if lax.None? {
      RecursionWalksPlan(net, trace + [attempt], tls, Some(true), original);
      assert plan[1..] == Remaining(tls, Some(true), original);
    } else {
      RecursionWalksPlan(net, trace + [attempt], Some(NativeTls), original, original);
      assert plan[1..] == Remaining(Some(NativeTls), original, original);
    }
  }

  /** A request, whatever is cached, walks the plan: one attempt if all is cached, two if one of
      the two settings is, four if neither is. */
  lemma RequestFollowsPlan(net: Network, tls: Option<TlsType>, lax: Option<bool>)
    ensures PostRequest(net, [], tls, lax, lax) == Walk(net, [], Plan(tls, lax))
    ensures |Plan(tls, lax)| == (if tls.Some? then 1 else 2) * (if lax.Some? then 1 else 2)
  {
    RecursionWalksPlan(net, [], tls, lax, lax);
    assert Remaining(tls, lax, lax) == Plan(tls, lax);
  }

  /** The walk in terms of its trace: a prefix of the plan in which all but the last attempt were
      request errors, cut short only by something else, and only success is learnt. */
  lemma {:induction false} WalkTrace(net: Network, trace: seq<Attempt>, plan: seq<Attempt>)
    ensures var r := Walk(net, trace, plan);
      var n := |r.trace| - |trace|;
      && 0 <= n <= |plan| && r.trace == trace + plan[..n]
      && (forall k :: |trace| < k < |r.trace| ==> net(r.trace[..k]) == RequestError)
      && (n < |plan| ==> n > 0 && net(r.trace) != RequestError)
      && (r.ok <==> n > 0 && net(r.trace) == Ok)
      && r.learnt == if r.ok then Some(plan[n - 1]) else None
    decreases |plan|
  {
    if plan == [] {
      assert trace + plan[..0] == trace;
    } else {
      var trace' := trace + [plan[0]];
      assert trace + plan[..1] == trace';
      if net(trace') == RequestError {
        WalkTrace(net, trace', plan[1..]);
        var r := Walk(net, trace', plan[1..]);
        var n := |r.trace| - |trace'|;
        assert trace' + plan[1..][..n] == trace + plan[..n + 1];
        assert r.trace[..|trace'|] == trace';
      }
    }
  }

  // ---------- The cache ----------

  datatype Cache = Cache(tls: map<string, TlsType>, lax: map<string, bool>)

  /** A server address: its domain with port, and whether it is unencrypted. */
  datatype Url = Url(domain: string, plain: bool)

  function Upsert(c: Cache, url: Url, a: Attempt): Cache
  {
    if url.plain then c else Cache(c.tls[url.domain := a.tls], c.lax[url.domain := a.lax])
  }

  function CachedTls(c: Cache, url: Url): Option<TlsType>
  {
    if url.plain then Some(PlainHttp)
    else if url.domain in c.tls then Some(c.tls[url.domain]) else None
  }

  function CachedLax(c: Cache, url: Url, allowInsecure: bool): Option<bool>
  {
    if !allowInsecure || url.plain then Some(false)
    else if url.domain in c.lax then Some(c.lax[url.domain]) else None
  }

  function Request(net: Network, c: Cache, url: Url, allowInsecure: bool): (Result, Cache)
  {
    var lax := CachedLax(c, url, allowInsecure);
    var r := PostRequest(net, [], CachedTls(c, url), lax, lax);
    (r, if r.learnt.Some? then Upsert(c, url, r.learnt.value) else c)
  }

  /** Unless insecure connections are allowed, no attempt skips the certificate check, whatever an
      earlier, laxer configuration has left in the cache. */
  lemma NeverLaxUnlessAllowed(net: Network, c: Cache, url: Url, i: nat)
    requires i < |Request(net, c, url, false).0.trace|
    ensures !Request(net, c, url, false).0.trace[i].lax
  {
    RequestFollowsPlan(net, CachedTls(c, url), Some(false));
    WalkTrace(net, [], Plan(CachedTls(c, url), Some(false)));
  }

  /** After a success the same server is asked once, in the way that worked; a failure teaches
      nothing.  This holds whether or not insecure connections are allowed. */
  lemma SuccessIsRemembered(net: Network, net': Network, c: Cache, url: Url, allowInsecure: bool)
    ensures var (r, c') := Request(net, c, url, allowInsecure);
      if r.ok then
        r.trace != [] && Request(net', c', url, allowInsecure).0.trace == [r.trace[|r.trace| - 1]]
      else c' == c
  {
    var tls, lax := CachedTls(c, url), CachedLax(c, url, allowInsecure);
    RequestFollowsPlan(net, tls, lax);
    WalkTrace(net, [], Plan(tls, lax));
    var (r, c') := Request(net, c, url, allowInsecure);
    if r.ok {
      var a := r.trace[|r.trace| - 1];
      assert r.learnt == Some(a);
      PlanMember(tls, lax, a);
      RequestFollowsPlan(net', CachedTls(c', url), CachedLax(c', url, allowInsecure));
      assert Plan(Some(a.tls), Some(a.lax)) == [a];
    }
  }

  /** An attempt of a plan follows whatever is cached. */
  lemma PlanMember(tls: Option<TlsType>, lax: Option<bool>, a: Attempt)
    requires a in Plan(tls, lax)
    ensures (tls.Some? ==> a.tls == tls.value) && (lax.Some? ==> a.lax == lax.value)
  {
  }

  /** An unencrypted address is asked once, plainly, and leaves the cache alone; any other address
      leaves what is cached for other servers alone. */
  lemma CacheIsPerServer(net: Network, c: Cache, url: Url, allowInsecure: bool, domain: string)
    requires url.plain || domain != url.domain
    ensures var (r, c') := Request(net, c, url, allowInsecure);
      && (url.plain ==> r.trace == [Attempt(PlainHttp, false)] && c' == c)
      && (domain in c'.tls <==> domain in c.tls) && (domain in c.tls ==> c'.tls[domain] == c.tls[domain])
      && (domain in c'.lax <==> domain in c.lax) && (domain in c.lax ==> c'.lax[domain] == c.lax[domain])
  {
  }
}
