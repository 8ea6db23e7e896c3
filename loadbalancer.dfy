/**
  The routing load balancer (internal/lb/proxy.go): one pool of backends per
  service, a round-robin selector over each pool, and the registration of
  one route per distinct route prefix.

  Forwarding a request is left to the HTTP library; a backend is its target
  URL, and serving a request yields the backend it would be forwarded to.
*/
module LoadBalancer {
  import opened Common
  import opened Text
  import Config

  /** The rotation counter is a Go uint64: adding one wraps at 2^64. */
  const U64: int := 0x1_0000_0000_0000_0000

  /** A forwarding target, by its URL. */
  datatype Backend = Backend(url: string)

  /**
    The backend for the replica on `port`: the URL "http://localhost:<port>"
    as url.Parse accepts it, which is only when the text after the colon is
    all digits, that is, when the port is not negative.
  */
  function TargetURL(port: int): (b: Option<Backend>)
    ensures b.Some? <==> port >= 0
  {
    var digits := Dec(port);
    if forall i | 0 <= i < |digits| :: IsDigit(digits[i]) then Some(Backend("http://localhost:" + digits))
    else None
  }

  /** The counter after one atomic increment. */
  function Bump(counter: nat): nat
  {
    (counter + 1) % U64
  }

  /** The pool index NextBackend picks when the counter stands at `counter`. */
  function Pick(counter: nat, n: nat): (idx: nat)
    requires n > 0
    ensures idx < n
  {
    Bump(counter) % n
  }

  /** What serving a request under a route does. */
  datatype Response = ServiceUnavailable(status: int) | Forwarded(backend: Backend)

  class ServiceLB {
    var backends: seq<Backend>
    var current: nat

    ghost predicate Valid()
      reads this
    {
      current < U64
    }

    /** A pool with its counter at zero, as StartLB creates it. */
    constructor (pool: seq<Backend>)
      ensures Valid() && backends == pool && current == 0
    {
      backends := pool;
      current := 0;
    }

    /**
      NextBackend: an empty pool yields nothing and leaves the counter alone;
      otherwise the counter goes up by one (modulo 2^64) and the new value,
      modulo the pool size, picks the backend. The pool never changes.
    */
    method NextBackend() returns (b: Option<Backend>)
      requires Valid()
      modifies this`current
      ensures Valid() && backends == old(backends)
      ensures |backends| == 0 ==> b == None && current == old(current)
      ensures |backends| > 0 ==>
        current == Bump(old(current)) && b == Some(backends[Pick(old(current), |backends|)])
    {
      if |backends| == 0 {
        return None;
      }
      current := Bump(current);
      var idx := current % |backends|;
      b := Some(backends[idx]);
    }

    /** ServeHTTP: 503 for an empty pool, otherwise forward to the next backend. */
    method ServeHTTP() returns (resp: Response)
      requires Valid()
      modifies this`current
      ensures Valid() && backends == old(backends)
      ensures |backends| == 0 ==> resp == ServiceUnavailable(503) && current == old(current)
      ensures |backends| > 0 ==>
        current == Bump(old(current)) && resp == Forwarded(backends[Pick(old(current), |backends|)])
    {
      var backend := NextBackend();
      if backend.None? {
        return ServiceUnavailable(503);
      }
      resp := Forwarded(backend.value);
    }

    /**
      Serves `k` requests in a row: on an empty pool each is answered 503;
      otherwise the j-th goes to the j-th pick of the rotation that starts
      from the counter's value before the first request.
    */
    method ServeRequests(k: nat) returns (responses: seq<Response>)
      requires Valid()
      modifies this`current
      ensures Valid() && backends == old(backends) && |responses| == k
      ensures |backends| == 0 ==>
        current == old(current) && forall j :: 0 <= j < k ==> responses[j] == ServiceUnavailable(503)
      ensures |backends| > 0 ==>
        current == BumpN(old(current), k) &&
        forall j :: 0 <= j < k ==> responses[j] == Forwarded(backends[Rotation(old(current), |backends|, k)[j]])
    {
      responses := [];
      for i := 0 to k
        invariant Valid() && backends == old(backends) && |responses| == i
        invariant |backends| == 0 ==>
          current == old(current) && forall j :: 0 <= j < i ==> responses[j] == ServiceUnavailable(503)
        invariant |backends| > 0 ==>
          current == BumpN(old(current), i) &&
          forall j :: 0 <= j < i ==> responses[j] == Forwarded(backends[Rotation(old(current), |backends|, i)[j]])
      {
        if |backends| > 0 {
          RotationSnoc(old(current), |backends|, i);
          BumpNSnoc(old(current), i);
        }
        var resp := ServeHTTP();
        responses := responses + [resp];
      }
    }
  }

  /** The counter after `k` increments. */
  function BumpN(counter: nat, k: nat): nat
    decreases k
  {
    if k == 0 then counter else BumpN(Bump(counter), k - 1)
  }

  lemma {:induction false} BumpNSnoc(counter: nat, k: nat)
    ensures BumpN(counter, k + 1) == Bump(BumpN(counter, k))
    decreases k
  {
    if k > 0 {
      BumpNSnoc(Bump(counter), k - 1);
    }
  }

  /** One more call of NextBackend appends the pick at the counter reached so far. */
  lemma {:induction false} RotationSnoc(counter: nat, n: nat, k: nat)
    requires n > 0
    ensures Rotation(counter, n, k + 1) == Rotation(counter, n, k) + [Pick(BumpN(counter, k), n)]
    decreases k
  {
    if k > 0 {
      RotationSnoc(Bump(counter), n, k - 1);
      assert [Pick(counter, n)] + (Rotation(Bump(counter), n, k - 1) + [Pick(BumpN(Bump(counter), k - 1), n)])
        == ([Pick(counter, n)] + Rotation(Bump(counter), n, k - 1)) + [Pick(BumpN(Bump(counter), k - 1), n)];
    }
  }

  /**
    The indices picked by `k` successive calls of NextBackend on a pool of
    size `n`, starting with the counter at `counter`.
  */
  function Rotation(counter: nat, n: nat, k: nat): (picks: seq<nat>)
    requires n > 0
    ensures |picks| == k && forall j :: 0 <= j < k ==> picks[j] < n
    decreases k
  {
    if k == 0 then [] else [Pick(counter, n)] + Rotation(Bump(counter), n, k - 1)
  }

  /** While the counter does not wrap, the j-th pick is (counter + j + 1) mod n. */
  lemma {:induction false} RotationNoWrap(counter: nat, n: nat, k: nat)
    requires n > 0 && counter + k < U64
    ensures forall j :: 0 <= j < k ==> Rotation(counter, n, k)[j] == (counter + j + 1) % n
    decreases k
  {
    if k > 0 {
      RotationNoWrap(counter + 1, n, k - 1);
      assert Bump(counter) == counter + 1;
      var picks := Rotation(counter, n, k);
      assert picks[1..] == Rotation(counter + 1, n, k - 1);
      forall j | 0 < j < k ensures picks[j] == (counter + j + 1) % n {
        assert picks[j] == picks[1..][j - 1];
      }
    }
  }

  lemma {:induction false} MulAtLeast(d: int, n: int)
    requires d >= 1 && n >= 0
    ensures d * n >= n
  {
    if d > 1 {
      MulAtLeast(d - 1, n);
      assert d * n == (d - 1) * n + n;
    }
  }

  /** Euclidean division has a unique remainder. */
  lemma ModUnique(x: int, q: int, n: int, r: int)
    requires 0 <= r < n && x == q * n + r
    ensures x % n == r
  {
    var q', r' := x / n, x % n;
    assert x == q' * n + r';
    assert (q - q') * n == q * n - q' * n;
    assert (q - q') * n == r' - r;
    if q > q' {
      MulAtLeast(q - q', n);
    } else if q < q' {
      MulAtLeast(q' - q, n);
    }
  }

  /**
    Round-robin fairness: n successive selections on a pool of size n pick
    every backend exactly once, as long as the counter does not wrap within
    them.
  */
  lemma RotationVisitsEachOnce(counter: nat, n: nat)
    requires 0 < n && counter + n < U64
    ensures var picks := Rotation(counter, n, n);
      && (forall j, k :: 0 <= j < k < n ==> picks[j] != picks[k])
      && (forall idx :: 0 <= idx < n ==> idx in picks)
  {
    var picks := Rotation(counter, n, n);
    RotationNoWrap(counter, n, n);
    forall j, k | 0 <= j < k < n ensures picks[j] != picks[k] {
      ResiduesDistinct(counter + j + 1, k - j, n);
    }
    forall idx | 0 <= idx < n ensures idx in picks {
      var j := (idx - counter - 1) % n;
      ResidueHit(counter, n, idx);
      assert picks[j] == idx;
    }
  }

  /** Numbers fewer than n apart leave different remainders modulo n. */
  lemma ResiduesDistinct(a: nat, d: int, n: nat)
    requires 0 < d < n
    ensures a % n != (a + d) % n
  {
    var q, r := a / n, a % n;
    if r + d < n {
      ModUnique(a + d, q, n, r + d);
    } else {
      assert (q + 1) * n == q * n + n;
      ModUnique(a + d, q + 1, n, r + d - n);
    }
  }

  /** Every remainder is reached within n steps after `counter`. */
  lemma ResidueHit(counter: nat, n: nat, idx: nat)
    requires idx < n
    ensures (counter + (idx - counter - 1) % n + 1) % n == idx
  {
    var m := idx - counter - 1;
    var j := m % n;
    assert (-(m / n)) * n == -((m / n) * n);
    ModUnique(counter + j + 1, -(m / n), n, idx);
  }

  /**
    Two replicas and four requests on a fresh selector, as in the package's
    round-robin test: the second backend answers first, then they alternate.
  */
  lemma FreshPairAlternates()
    ensures Rotation(0, 2, 4) == [1, 0, 1, 0]
  {
  }

  // ---------------------------------------------------------------------
  // StartLB's registration loop

  /**
    How StartLB's loop can stop before the end: a backend URL that does not
    parse, which StartLB returns as its error; a negative replica count, on
    which `make([]Backend, 0, replicas)` panics; or a pattern handed to the
    server mux a second time, on which `ServeMux.Handle` panics. StartLB
    runs in its own goroutine, so either panic ends the whole program.
  */
  datatype StartFailure = BadBackendURL(port: int) | MakePanic(capacity: int) | MuxPanic(pattern: string)

  /**
    The pool StartLB builds for a service, or how building it stops: one
    backend per replica, backend `i` targeting port startPort + i.
  */
  function PoolOf(svc: Config.Service): (r: Result<seq<Backend>, StartFailure>)
    ensures r == Failure(MakePanic(svc.replicas)) <==> svc.replicas < 0
    ensures r == Failure(BadBackendURL(svc.startPort)) <==> svc.replicas > 0 && svc.startPort < 0
    ensures r.Success? <==> svc.replicas == 0 || (svc.replicas > 0 && svc.startPort >= 0)
    ensures r.Success? ==>
      && |r.value| == svc.replicas
      && forall i :: 0 <= i < |r.value| ==> TargetURL(svc.startPort + i) == Some(r.value[i])
  {
    if svc.replicas < 0 then Failure(MakePanic(svc.replicas))
    else if svc.replicas > 0 && TargetURL(svc.startPort).None? then Failure(BadBackendURL(svc.startPort))
    else
      var n: nat := svc.replicas;
      Success(seq(n, i requires 0 <= i < n => TargetURL(svc.startPort + i).value))
  }

  /** Sizing the pool, then the loop that fills it. */
  method BuildPool(svc: Config.Service) returns (pool: Result<seq<Backend>, StartFailure>)
    ensures pool == PoolOf(svc)
  {
    if svc.replicas < 0 {
      return Failure(MakePanic(svc.replicas));
    }
    var backends: seq<Backend> := [];
    for i := 0 to svc.replicas
      invariant |backends| == i
      invariant i > 0 ==> svc.startPort >= 0
      invariant forall p :: 0 <= p < i ==> TargetURL(svc.startPort + p) == Some(backends[p])
    {
      var port := svc.startPort + i;
      var target := TargetURL(port);
      if target.None? {
        return Failure(BadBackendURL(port));
      }
      backends := backends + [target.value];
    }
    assert PoolOf(svc).Success?;
    assert backends == PoolOf(svc).value;
    pool := Success(backends);
  }

  /**
    The pattern a route is registered under: the prefix itself when it
    already ends in "/", the prefix with "/" appended otherwise.
  */
  function RoutePattern(prefix: string): (pattern: string)
    ensures HasSuffix(pattern, "/")
    ensures pattern == prefix || pattern == prefix + "/"
    ensures HasSuffix(prefix, "/") ==> pattern == prefix
  {
    if HasSuffix(prefix, "/") then prefix else prefix + "/"
  }

  /** One registered route: the pattern, the prefix stripped before forwarding, and the pool. */
  datatype Route = Route(pattern: string, prefix: string, service: string, pool: seq<Backend>)

  function MakeRoute(svc: Config.Service, pool: seq<Backend>): Route
  {
    Route(RoutePattern(svc.routePrefix), svc.routePrefix, svc.name, pool)
  }

  /**
    The key duplicates are detected on: the raw prefix, as StartLB does,
    or the pattern the route is registered under.
  */
  function Key(r: Route, byPattern: bool): string
  {
    if byPattern then r.pattern else r.prefix
  }

  /** The key a service asks to be registered under. */
  function ServiceKey(svc: Config.Service, byPattern: bool): string
  {
    if byPattern then RoutePattern(svc.routePrefix) else svc.routePrefix
  }

  function Keys(routes: seq<Route>, byPattern: bool): set<string>
  {
    set r | r in routes :: Key(r, byPattern)
  }

  /** The patterns the server mux holds once `routes` are registered. */
  function Patterns(routes: seq<Route>): set<string>
  {
    set r | r in routes :: r.pattern
  }

  /** One turn of the raw-prefix registration loop, stated on the routes so far. */
  lemma RegisterStep(services: seq<Config.Service>, i: nat, routes: seq<Route>)
    requires i < |services| && Register(services[..i], false) == Success(routes)
    ensures var svc := services[i];
      var next := Register(services[..i + 1], false);
      && (svc.routePrefix in Keys(routes, false) ==> next == Success(routes))
      && (svc.routePrefix !in Keys(routes, false) && PoolOf(svc).Failure? ==> next == Failure(PoolOf(svc).error))
      && (svc.routePrefix !in Keys(routes, false) && PoolOf(svc).Success? ==>
            next == if RoutePattern(svc.routePrefix) in Patterns(routes) then Failure(MuxPanic(RoutePattern(svc.routePrefix)))
                    else Success(routes + [MakeRoute(svc, PoolOf(svc).value)]))
  {
    assert services[..i + 1][..i] == services[..i];
  }

  lemma KeysAppend(routes: seq<Route>, r: Route, byPattern: bool)
    ensures Keys(routes + [r], byPattern) == Keys(routes, byPattern) + {Key(r, byPattern)}
  {
    assert forall x :: x in routes + [r] <==> x in routes || x == r;
  }

  lemma PatternsAppend(routes: seq<Route>, r: Route)
    ensures Patterns(routes + [r]) == Patterns(routes) + {r.pattern}
  {
    assert forall x :: x in routes + [r] <==> x in routes || x == r;
  }

  /**
    The routes registered for `services`, in iteration order: a service
    whose key is already taken is skipped, before its pool is built; a pool
    that fails to build ends the whole registration, and so does a pattern
    the mux already holds.
  */
  function Register(services: seq<Config.Service>, byPattern: bool): Result<seq<Route>, StartFailure>
  {
    if services == [] then Success([])
    else
      match Register(services[..|services| - 1], byPattern)
      case Failure(e) => Failure(e)
      case Success(routes) =>
        var svc := services[|services| - 1];
        if ServiceKey(svc, byPattern) in Keys(routes, byPattern) then Success(routes)
        else
          match PoolOf(svc)
          case Failure(e) => Failure(e)
          case Success(pool) =>
            var route := MakeRoute(svc, pool);
            if route.pattern in Patterns(routes) then Failure(MuxPanic(route.pattern))
            else Success(routes + [route])
  }

  /** A successful registration either skipped its last service or appended that service's route. */
  lemma RegisterLast(services: seq<Config.Service>, byPattern: bool)
    requires services != [] && Register(services, byPattern).Success?
    ensures var init := services[..|services| - 1]; var svc := services[|services| - 1];
      && Register(init, byPattern).Success?
      && var routes := Register(init, byPattern).value;
      || (ServiceKey(svc, byPattern) in Keys(routes, byPattern) && Register(services, byPattern).value == routes)
      || (&& ServiceKey(svc, byPattern) !in Keys(routes, byPattern)
          && PoolOf(svc).Success?
          && RoutePattern(svc.routePrefix) !in Patterns(routes)
          && Register(services, byPattern).value == routes + [MakeRoute(svc, PoolOf(svc).value)])
  {
  }

  /** Once registration has failed, later services do not change the outcome. */
  lemma {:induction false} RegisterFailureSticks(services: seq<Config.Service>, i: nat, byPattern: bool)
    requires i <= |services|
    requires Register(services[..i], byPattern).Failure?
    ensures Register(services, byPattern) == Register(services[..i], byPattern)
  {
    if i < |services| {
      var init := services[..|services| - 1];
      assert init[..i] == services[..i];
      RegisterFailureSticks(init, i, byPattern);
    } else {
      assert services[..i] == services;
    }
  }

  /**
    No two configured prefixes that differ share a pattern: "p" and "p/"
    are never both among the services.
  */
  predicate PatternsApart(services: seq<Config.Service>)
  {
    forall i, j ::
      0 <= i < |services| && 0 <= j < |services| && services[i].routePrefix != services[j].routePrefix
      ==> RoutePattern(services[i].routePrefix) != RoutePattern(services[j].routePrefix)
  }

  /**
    Registration reaches the end when every pool can be built and, for
    raw-prefix keys, no two distinct prefixes share a pattern.
  */
  lemma {:induction false} RegisterSucceeds(services: seq<Config.Service>, byPattern: bool)
    requires forall s :: s in services ==> s.replicas == 0 || (s.replicas > 0 && s.startPort >= 0)
    requires byPattern || PatternsApart(services)
    ensures Register(services, byPattern).Success?
  {
    if services != [] {
      var init := services[..|services| - 1];
      var svc := services[|services| - 1];
      assert forall s :: s in init ==> s in services;
      assert byPattern || PatternsApart(init) by {
        if !byPattern {
          forall i, j | 0 <= i < |init| && 0 <= j < |init| && init[i].routePrefix != init[j].routePrefix
            ensures RoutePattern(init[i].routePrefix) != RoutePattern(init[j].routePrefix)
          {
            assert init[i] == services[i] && init[j] == services[j];
          }
        }
      }
      RegisterSucceeds(init, byPattern);
      assert svc in services;
      if ServiceKey(svc, byPattern) !in Keys(Register(init, byPattern).value, byPattern) {
        FreshKeyFreshPattern(services, byPattern);
      }
    }
  }

  /**
    A service whose key no earlier route has is not handed to the mux under
    a pattern it already holds, as long as keys are patterns or distinct
    prefixes have distinct patterns.
  */
  lemma FreshKeyFreshPattern(services: seq<Config.Service>, byPattern: bool)
    requires services != []
    requires var init := services[..|services| - 1]; var svc := services[|services| - 1];
      && Register(init, byPattern).Success?
      && ServiceKey(svc, byPattern) !in Keys(Register(init, byPattern).value, byPattern)
    requires byPattern || PatternsApart(services)
    ensures var init := services[..|services| - 1]; var svc := services[|services| - 1];
      RoutePattern(svc.routePrefix) !in Patterns(Register(init, byPattern).value)
  {
    var init := services[..|services| - 1];
    var svc := services[|services| - 1];
    var routes := Register(init, byPattern).value;
    var pattern := RoutePattern(svc.routePrefix);
    forall r | r in routes ensures r.pattern != pattern {
      var m :| 0 <= m < |routes| && routes[m] == r;
      var k := RouteFirstAt(init, byPattern, m);
      assert Key(r, byPattern) in Keys(routes, byPattern);
      assert services[k] == init[k];
    }
  }

  /**
    The registration loop of StartLB, keyed on the raw route prefix. The
    set of registered prefixes plays the part of the source's map to true,
    and the set of handled patterns the part of the server mux.
  */
  method RegisterRoutes(services: seq<Config.Service>) returns (res: Result<seq<Route>, StartFailure>)
    ensures res == Register(services, false)
  {
    var registered: set<string> := {};
    var mux: set<string> := {};
    var routes: seq<Route> := [];
    for i := 0 to |services|
      invariant Register(services[..i], false) == Success(routes)
      invariant registered == Keys(routes, false)
      invariant mux == Patterns(routes)
    {
      var svc := services[i];
      RegisterStep(services, i, routes);
      if svc.routePrefix !in registered {
        var pool := BuildPool(svc);
        if pool.Failure? {
          RegisterFailureSticks(services, i + 1, false);
          return Failure(pool.error);
        }
        var routePattern := RoutePattern(svc.routePrefix);
        if routePattern in mux {
          RegisterFailureSticks(services, i + 1, false);
          return Failure(MuxPanic(routePattern));
        }
        var route := MakeRoute(svc, pool.value);
        KeysAppend(routes, route, false);
        PatternsAppend(routes, route);
        routes := routes + [route];
        mux := mux + {routePattern};
        registered := registered + {svc.routePrefix};
      }
    }
    assert services[..|services|] == services;
    res := Success(routes);
  }

  /** Every route is registered under the pattern of its own prefix, which ends in "/". */
  lemma {:induction false} RoutesWellFormed(services: seq<Config.Service>, byPattern: bool)
    requires Register(services, byPattern).Success?
    ensures forall r :: r in Register(services, byPattern).value ==>
      r.pattern == RoutePattern(r.prefix) && HasSuffix(r.pattern, "/")
  {
    if services != [] {
      RoutesWellFormed(services[..|services| - 1], byPattern);
    }
  }

  /** No two registered routes share a key. */
  lemma {:induction false} RouteKeysDistinct(services: seq<Config.Service>, byPattern: bool)
    requires Register(services, byPattern).Success?
    ensures var routes := Register(services, byPattern).value;
      forall i, j :: 0 <= i < j < |routes| ==> Key(routes[i], byPattern) != Key(routes[j], byPattern)
  {
    if services != [] {
      var init := services[..|services| - 1];
      RouteKeysDistinct(init, byPattern);
      RoutesWellFormed(init, byPattern);
      var routes := Register(init, byPattern).value;
      forall i | 0 <= i < |routes| ensures Key(routes[i], byPattern) in Keys(routes, byPattern) {
        assert routes[i] in routes;
      }
    }
  }

  /** Every service's key is taken by some registered route. */
  lemma {:induction false} RouteKeysCover(services: seq<Config.Service>, byPattern: bool)
    requires Register(services, byPattern).Success?
    ensures forall k :: 0 <= k < |services| ==>
      ServiceKey(services[k], byPattern) in Keys(Register(services, byPattern).value, byPattern)
  {
    if services != [] {
      var init := services[..|services| - 1];
      RegisterLast(services, byPattern);
      RouteKeysCover(init, byPattern);
      var routes := Register(init, byPattern).value;
      var svc := services[|services| - 1];
      var routes' := Register(services, byPattern).value;
      assert forall r :: r in routes ==> r in routes';
      forall k | 0 <= k < |services| - 1
        ensures ServiceKey(services[k], byPattern) in Keys(routes', byPattern)
      {
        assert services[k] == init[k];
      }
      if routes' != routes {
        assert routes'[|routes'| - 1] in routes';
      }
    }
  }

  /**
    Route `r` is built, with its pool, from `services[k]`, and no service
    before `k` in iteration order has the route's key.
  */
  predicate FirstWith(r: Route, services: seq<Config.Service>, k: int, byPattern: bool)
  {
    && 0 <= k < |services|
    && PoolOf(services[k]) == Success(r.pool)
    && r == MakeRoute(services[k], r.pool)
    && (forall k' :: 0 <= k' < k ==> Key(r, byPattern) != ServiceKey(services[k'], byPattern))
  }

  /** Route `r` is first with its key for some service. */
  ghost predicate FirstFrom(r: Route, services: seq<Config.Service>, byPattern: bool)
  {
    exists k :: FirstWith(r, services, k, byPattern)
  }

  /** Being first with a key survives appending a service. */
  lemma FirstWithExtends(r: Route, services: seq<Config.Service>, k: int, byPattern: bool)
    requires services != [] && FirstWith(r, services[..|services| - 1], k, byPattern)
    ensures FirstWith(r, services, k, byPattern)
  {
  }

  /**
    First registration wins: each registered route is built, with its pool,
    from a service whose key no earlier service in iteration order has.
  */
  lemma {:induction false} FirstServiceWins(services: seq<Config.Service>, byPattern: bool)
    requires Register(services, byPattern).Success?
    ensures var routes := Register(services, byPattern).value;
      forall m :: 0 <= m < |routes| ==> FirstFrom(routes[m], services, byPattern)
  {
    var routes := Register(services, byPattern).value;
    forall m | 0 <= m < |routes| ensures FirstFrom(routes[m], services, byPattern) {
      var k := RouteFirstAt(services, byPattern, m);
    }
  }

  /** The m-th registered route is first with its key. */
  lemma {:induction false} RouteFirstAt(services: seq<Config.Service>, byPattern: bool, m: nat) returns (k: int)
    requires Register(services, byPattern).Success? && m < |Register(services, byPattern).value|
    ensures FirstWith(Register(services, byPattern).value[m], services, k, byPattern)
  {
    assert services != [];
    var init := services[..|services| - 1];
    var svc := services[|services| - 1];
    RegisterLast(services, byPattern);
    var routes := Register(init, byPattern).value;
    var routes' := Register(services, byPattern).value;
    if m < |routes| {
      assert routes'[m] == routes[m];
      k := RouteFirstAt(init, byPattern, m);
      FirstWithExtends(routes[m], services, k, byPattern);
    } else {
      assert routes'[m] == MakeRoute(svc, PoolOf(svc).value);
      NewRouteFirst(services, byPattern);
      k := |init|;
    }
  }

  /** The route appended for a service with an unseen key is first with that key. */
  lemma NewRouteFirst(services: seq<Config.Service>, byPattern: bool)
    requires services != []
    requires var init := services[..|services| - 1]; var svc := services[|services| - 1];
      && Register(init, byPattern).Success? && PoolOf(svc).Success?
      && ServiceKey(svc, byPattern) !in Keys(Register(init, byPattern).value, byPattern)
    ensures var svc := services[|services| - 1];
      FirstWith(MakeRoute(svc, PoolOf(svc).value), services, |services| - 1, byPattern)
  {
    var init := services[..|services| - 1];
    var svc := services[|services| - 1];
    RouteKeysCover(init, byPattern);
    assert Key(MakeRoute(svc, PoolOf(svc).value), byPattern) == ServiceKey(svc, byPattern);
    forall k' | 0 <= k' < |init| ensures ServiceKey(services[k'], byPattern) != ServiceKey(svc, byPattern) {
      assert services[k'] == init[k'];
    }
  }

  /**
    The routes the server mux would accept: ServeMux.Handle panics when a
    pattern is registered a second time.
  */
  predicate MuxAccepts(routes: seq<Route>)
  {
    forall i, j :: 0 <= i < j < |routes| ==> routes[i].pattern != routes[j].pattern
  }

  /** Every successful registration hands the mux pairwise-distinct patterns. */
  lemma {:induction false} RegisterMuxAccepts(services: seq<Config.Service>, byPattern: bool)
    requires Register(services, byPattern).Success?
    ensures MuxAccepts(Register(services, byPattern).value)
  {
    if services != [] {
      var init := services[..|services| - 1];
      RegisterLast(services, byPattern);
      RegisterMuxAccepts(init, byPattern);
      var routes := Register(init, byPattern).value;
      forall i | 0 <= i < |routes| ensures routes[i].pattern in Patterns(routes) {
        assert routes[i] in routes;
      }
    }
  }

  /**
    As written, StartLB lets "/a/" after "/a" through its duplicate check,
    and the mux then panics on the pattern "/a/" it already holds.
  */
  lemma RawPrefixKeyAllowsSharedPattern()
    ensures var a := Config.Service("a", "./a", 9000, 9001, 1, "/a", []);
      var b := Config.Service("b", "./b", 9100, 9101, 1, "/a/", []);
      && Register([a], false).Success?
      && ServiceKey(b, false) !in Keys(Register([a], false).value, false)
      && Register([a, b], false) == Failure(MuxPanic("/a/"))
  {
    var a := Config.Service("a", "./a", 9000, 9001, 1, "/a", []);
    var b := Config.Service("b", "./b", 9100, 9101, 1, "/a/", []);
    var services := [a, b];
    assert services[..1] == [a];
    assert [a][..|[a]| - 1] == [];
    assert Keys([], false) == {};
    assert Patterns([]) == {};
    assert Register([], false) == Success([]);
    assert PoolOf(a).Success? && PoolOf(b).Success?;
    assert HasSuffix("/a/", "/");
    assert !HasSuffix("/a", "/");
    assert ServiceKey(a, false) !in Keys([], false);
    assert Register([a][..0], false) == Success([]);
    var ra := MakeRoute(a, PoolOf(a).value);
    assert [] + [ra] == [ra];
    assert Register([a], false) == Success([ra]);
    assert "/a/" !in Keys([ra], false);
    assert ra.pattern == "/a/" && ra in [ra];
  }

  /**
    Keyed on the pattern instead, registration never hands the mux a pattern
    twice, and every service's pattern is registered.
  */
  lemma {:induction false} RegisterByPatternMuxSafe(services: seq<Config.Service>)
    ensures forall p :: Register(services, true) != Failure(MuxPanic(p))
    ensures Register(services, true).Success? ==> forall k :: 0 <= k < |services| ==>
      RoutePattern(services[k].routePrefix) in Patterns(Register(services, true).value)
  {
    if services != [] {
      var init := services[..|services| - 1];
      var svc := services[|services| - 1];
      RegisterByPatternMuxSafe(init);
      if Register(init, true).Success? {
        var routes := Register(init, true).value;
        assert Keys(routes, true) == Patterns(routes);
      }
    }
    if Register(services, true).Success? {
      var routes := Register(services, true).value;
      RouteKeysCover(services, true);
      assert Keys(routes, true) == Patterns(routes);
    }
  }
}
