/**
  The orchestrator's configuration (internal/config/config.go): the load
  balancer's port and the services to replicate, and the validation every
  loaded configuration passes before anything is started.
*/
module Config {
  import opened Common

  /**
    One service to replicate. `env` holds the extra environment variables in
    the order the map is iterated, which the caller fixes.
  */
  datatype Service = Service(
    name: string,
    path: string,
    startPort: int,
    endPort: int,
    replicas: int,
    routePrefix: string,
    env: seq<(string, string)>)

  /** The services are listed in the order the services map is iterated. */
  datatype Config = Config(lbPort: int, services: seq<Service>)

  /** The number of replicas a service asks for; a count below one asks for none. */
  function ReplicaCount(svc: Service): nat
  {
    if svc.replicas > 0 then svc.replicas else 0
  }

  /**
    The four reasons `Validate` rejects a configuration, and the fifth that
    `ValidateCorrected` adds.
  */
  datatype ConfigError =
    | LBPortNotPositive
    | StartPortNotPositive(service: string)
    | EndPortNotAboveStart(service: string)
    | RangeTooSmall(service: string, startPort: int, endPort: int, replicas: int)
    | NegativeReplicas(service: string)

  /** The three per-service conditions. */
  predicate ServiceValid(svc: Service)
  {
    && svc.startPort > 0
    && svc.endPort > svc.startPort
    && svc.endPort - svc.startPort + 1 >= svc.replicas
  }

  /** The checks on one service, in the order the source makes them. */
  function CheckService(svc: Service): (r: Option<ConfigError>)
    ensures r.None? <==> ServiceValid(svc)
  {
    if svc.startPort <= 0 then Some(StartPortNotPositive(svc.name))
    else if svc.endPort <= svc.startPort then Some(EndPortNotAboveStart(svc.name))
    else if svc.endPort - svc.startPort + 1 < svc.replicas then
      Some(RangeTooSmall(svc.name, svc.startPort, svc.endPort, svc.replicas))
    else None
  }

  /** The error of the first service, in iteration order, that fails a check. */
  function FirstInvalid(services: seq<Service>): Option<ConfigError>
  {
    if services == [] then None
    else if CheckService(services[0]).Some? then CheckService(services[0])
    else FirstInvalid(services[1..])
  }

  /** Config.Validate: `None` stands for a nil error. */
  function Validate(c: Config): (r: Option<ConfigError>)
    ensures c.lbPort <= 0 ==> r == Some(LBPortNotPositive)
  {
    if c.lbPort <= 0 then Some(LBPortNotPositive) else FirstInvalid(c.services)
  }

  /** A service list passes exactly when every service in it does. */
  lemma {:induction false} FirstInvalidNone(services: seq<Service>)
    ensures FirstInvalid(services).None? <==> forall s :: s in services ==> ServiceValid(s)
  {
    if services != [] {
      FirstInvalidNone(services[1..]);
      assert forall s :: s in services <==> s == services[0] || s in services[1..];
    }
  }

  /** Validate accepts exactly the configurations meeting all four conditions. */
  lemma ValidateAccepts(c: Config)
    ensures Validate(c).None? <==> c.lbPort > 0 && forall s :: s in c.services ==> ServiceValid(s)
  {
    FirstInvalidNone(c.services);
  }

  /** A service failing one of the three checks makes the whole configuration fail. */
  lemma ValidateRejectsInvalidService(c: Config, k: nat)
    requires k < |c.services|
    requires !ServiceValid(c.services[k])
    ensures Validate(c).Some?
  {
    ValidateAccepts(c);
  }

  /**
    Whether a configuration is accepted does not depend on the order the
    services are iterated in; only which error is reported does.
  */
  lemma ValidateOrderIndependent(c: Config, d: Config)
    requires c.lbPort == d.lbPort
    requires multiset(c.services) == multiset(d.services)
    ensures Validate(c).None? <==> Validate(d).None?
  {
    ValidateAccepts(c);
    ValidateAccepts(d);
    forall s ensures s in c.services <==> s in d.services {
      assert s in c.services <==> s in multiset(c.services);
      assert s in d.services <==> s in multiset(d.services);
    }
  }

  /**
    Every port a validated service hands to a replica, `startPort + i` for
    `i` below `replicas`, lies inside the service's declared range.
  */
  lemma ValidatedPortInRange(c: Config, k: nat, i: int)
    requires Validate(c).None?
    requires k < |c.services|
    requires 0 <= i < c.services[k].replicas
    ensures 0 < c.services[k].startPort <= c.services[k].startPort + i <= c.services[k].endPort
  {
    ValidateAccepts(c);
    assert c.services[k] in c.services;
  }

  /**
    `Validate` lets a negative replica count through whenever the port range
    is wide enough, yet the load balancer cannot size a pool for it. The
    corrected validation also rejects the first such service.
  */
  function ValidateCorrected(c: Config): Option<ConfigError>
  {
    if Validate(c).Some? then Validate(c) else FirstNegative(c.services)
  }

  /** The first service, in iteration order, that asks for fewer than zero replicas. */
  function FirstNegative(services: seq<Service>): Option<ConfigError>
  {
    if services == [] then None
    else if services[0].replicas < 0 then Some(NegativeReplicas(services[0].name))
    else FirstNegative(services[1..])
  }

  lemma {:induction false} FirstNegativeNone(services: seq<Service>)
    ensures FirstNegative(services).None? <==> forall s :: s in services ==> s.replicas >= 0
  {
    if services != [] {
      FirstNegativeNone(services[1..]);
      assert forall s :: s in services <==> s == services[0] || s in services[1..];
    }
  }

  /**
    The corrected validation accepts exactly what `Validate` accepts, less
    the configurations with a negative replica count.
  */
  lemma ValidateCorrectedAccepts(c: Config)
    ensures ValidateCorrected(c).None? <==>
      c.lbPort > 0 && forall s :: s in c.services ==> ServiceValid(s) && s.replicas >= 0
  {
    ValidateAccepts(c);
    FirstNegativeNone(c.services);
  }

  /** The configuration used when none is loaded. */
  const DefaultConfig := Config(8079, [
    Service("auth-service", "./examples/auth-service/main.go", 8083, 8200, 100, "/auth", []),
    Service("second-ser", "./examples/auth-service/main.go", 8201, 8400, 2, "/ser2", [])
  ])

  /** The default configuration passes validation. */
  lemma DefaultConfigValid()
    ensures Validate(DefaultConfig) == None
  {
    ValidateAccepts(DefaultConfig);
  }
}
