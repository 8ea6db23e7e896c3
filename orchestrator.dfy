/**
  The orchestrator's entry point (cmd/orchestrator/main.go): the writer that
  turns log output into front-end lines, the loop that starts every
  configured service, and the dispatch of one typed command. The runner's
  methods that the dispatch calls but that the runner does not define
  (ListReplicas, SetIsolatedReplica, StopReplica) appear as a listing passed
  in, as recorded effects, and as a given result.
*/
module Orchestrator {
  import opened Common
  import opened Text
  import Config
  import Runner
  import LoadBalancer
  import Ui

  // ---------------------------------------------------------------------
  // logWriter

  newtype byte = x: int | 0 <= x < 256

  const Newline: byte := 10

  /** What Write reports (its error is always nil) and what it forwards. */
  datatype WriteResult = WriteResult(n: int, forwarded: seq<byte>)

  /**
    logWriter.Write: forwards the bytes with at most one trailing line
    break removed, and reports every byte as written.
  */
  function Write(p: seq<byte>): (r: WriteResult)
    ensures r.n == |p|
    ensures p == r.forwarded + [Newline] <==> |p| > 0 && p[|p| - 1] == Newline
    ensures r.forwarded == p <==> !(|p| > 0 && p[|p| - 1] == Newline)
  {
    if |p| > 0 && p[|p| - 1] == Newline then WriteResult(|p|, p[..|p| - 1]) else WriteResult(|p|, p)
  }

  /** A line the log package wrote, with its line break, arrives whole and without it. */
  lemma WriteForwardsLine(line: seq<byte>)
    ensures Write(line + [Newline]) == WriteResult(|line| + 1, line)
  {
    assert (line + [Newline])[..|line|] == line;
  }

  // ---------------------------------------------------------------------
  // Starting the configured services

  /** StartService's error as text; the cause the system reports is not modelled. */
  function StartErrorText(e: Runner.StartError): string
  {
    "[" + e.replica + "] " +
    match e.stage
    case StdoutPipe => "Error creating stdout pipe"
    case StderrPipe => "Error creating stderr pipe"
    case Start => "Error starting command"
  }

  /** The line the start loop logs for one service. */
  function StartNotice(svc: Config.Service, outcome: Option<Runner.StartError>): Ui.Msg
  {
    if outcome.Some? then
      Ui.LogMsg(Ui.ErrorText("Failed to start " + svc.name + ": " + StartErrorText(outcome.value)))
    else
      Ui.LogMsg(Ui.SuccessText("Started service: " + svc.name + " (" + Dec(svc.replicas) + " replicas)"))
  }

  /** The line logged for a service after StartService has run on it. */
  function ServiceNotice(svc: Config.Service, environ: seq<string>, spawn: Runner.ProcessSpec -> Runner.SpawnResult): Ui.Msg
  {
    StartNotice(svc, Runner.StartOutcome(svc, environ, spawn))
  }

  /** The lines logged for `services`, one per service, in order. */
  function Notices(services: seq<Config.Service>, environ: seq<string>,
                   spawn: Runner.ProcessSpec -> Runner.SpawnResult): seq<Ui.Msg>
  {
    seq(|services|, k requires 0 <= k < |services| => ServiceNotice(services[k], environ, spawn))
  }

  lemma NoticesStep(services: seq<Config.Service>, environ: seq<string>,
                    spawn: Runner.ProcessSpec -> Runner.SpawnResult, k: nat)
    requires k < |services|
    ensures Notices(services[..k + 1], environ, spawn) ==
      Notices(services[..k], environ, spawn) + [ServiceNotice(services[k], environ, spawn)]
  {
    var before, after := Notices(services[..k], environ, spawn), Notices(services[..k + 1], environ, spawn);
    assert |after| == k + 1;
    forall p | 0 <= p < k + 1
      ensures after[p] == (before + [ServiceNotice(services[k], environ, spawn)])[p]
    {
      assert services[..k + 1][p] == services[p];
      if p < k {
        assert services[..k][p] == services[p];
      }
    }
  }

  /** The replica table after every service in `services` has been started in turn. */
  function LaunchedAll(cmds: map<string, Runner.Pid>, services: seq<Config.Service>, environ: seq<string>,
                       spawn: Runner.ProcessSpec -> Runner.SpawnResult): map<string, Runner.Pid>
  {
    if services == [] then cmds
    else
      var svc := services[|services| - 1];
      Runner.Launched(LaunchedAll(cmds, services[..|services| - 1], environ, spawn), svc, environ, spawn,
                      Runner.Reached(svc, environ, spawn))
  }

  lemma LaunchedAllStep(cmds: map<string, Runner.Pid>, services: seq<Config.Service>, environ: seq<string>,
                        spawn: Runner.ProcessSpec -> Runner.SpawnResult, k: nat)
    requires k < |services|
    ensures LaunchedAll(cmds, services[..k + 1], environ, spawn) ==
      Runner.Launched(LaunchedAll(cmds, services[..k], environ, spawn), services[k], environ, spawn,
                      Runner.Reached(services[k], environ, spawn))
  {
    assert services[..k + 1][..k] == services[..k];
  }

  /**
    The start loop of main: every service is started in turn whatever
    happened to the ones before it, and each one gets exactly one line
    saying whether it started.
  */
  method StartServices(r: Runner.Runner, services: seq<Config.Service>, environ: seq<string>,
                       spawn: Runner.ProcessSpec -> Runner.SpawnResult) returns (notices: seq<Ui.Msg>)
    modifies r
    ensures |notices| == |services|
    ensures forall k :: 0 <= k < |services| ==> notices[k] == ServiceNotice(services[k], environ, spawn)
    ensures r.cmds == LaunchedAll(old(r.cmds), services, environ, spawn)
    ensures r.logs == old(r.logs) && r.isolatedReplica == old(r.isolatedReplica)
  {
    ghost var cmds0, logs0, isolated0 := r.cmds, r.logs, r.isolatedReplica;
    notices := [];
    for k := 0 to |services|
      invariant |notices| == k
      invariant notices == Notices(services[..k], environ, spawn)
      invariant r.cmds == LaunchedAll(cmds0, services[..k], environ, spawn)
      invariant r.logs == logs0 && r.isolatedReplica == isolated0
    {
      LaunchedAllStep(cmds0, services, environ, spawn, k);
      NoticesStep(services, environ, spawn, k);
      var err := r.StartService(services[k], environ, spawn);
      notices := notices + [StartNotice(services[k], err)];
    }
    assert services[..|services|] == services;
  }

  /**
    A failed service does not keep later ones from running: each replica a
    service started is in the final table with its process, unless a later
    service of the same name replaced it.
  */
  lemma {:induction false} StartedReplicaRegistered(cmds: map<string, Runner.Pid>, services: seq<Config.Service>,
                                                     environ: seq<string>, spawn: Runner.ProcessSpec -> Runner.SpawnResult,
                                                     k: nat, p: nat)
    requires k < |services| && p < Runner.Reached(services[k], environ, spawn)
    requires forall k' :: k < k' < |services| ==> services[k'].name != services[k].name
    ensures var name := Runner.ReplicaName(services[k], p);
      var table := LaunchedAll(cmds, services, environ, spawn);
      name in table && table[name] == Runner.Attempt(services[k], environ, spawn, p).pid
  {
    var init := services[..|services| - 1];
    var last := services[|services| - 1];
    var name := Runner.ReplicaName(services[k], p);
    var before := LaunchedAll(cmds, init, environ, spawn);
    var reached := Runner.Reached(last, environ, spawn);
    Runner.LaunchedTable(before, last, environ, spawn, reached);
    if k < |services| - 1 {
      assert init[k] == services[k];
      StartedReplicaRegistered(cmds, init, environ, spawn, k, p);
      forall q | 0 <= q < reached ensures name != Runner.ReplicaName(last, q) {
        if name == Runner.ReplicaName(last, q) {
          Runner.ReplicaNameInjective(services[k], p, last, q);
        }
      }
    }
  }

  // ---------------------------------------------------------------------
  // How the three packages fit together

  /**
    In a validated configuration, replica i of a service runs on a port
    inside the service's range; the load balancer's backend i targets that
    port and the replica's environment ends with that port.
  */
  lemma ValidatedReplicaWiring(c: Config.Config, k: nat, i: nat, environ: seq<string>)
    requires Config.Validate(c).None?
    requires k < |c.services| && i < c.services[k].replicas
    ensures var svc := c.services[k]; var port := svc.startPort + i;
      && 0 < svc.startPort <= port <= svc.endPort
      && LoadBalancer.PoolOf(svc).Success?
      && LoadBalancer.PoolOf(svc).value[i] == LoadBalancer.Backend("http://localhost:" + Dec(port))
      && Runner.ReplicaEnv(svc, environ, i)[|Runner.ReplicaEnv(svc, environ, i)| - 1] == "PORT=" + Dec(port)
  {
    var svc := c.services[k];
    Config.ValidatedPortInRange(c, k, i);
    assert LoadBalancer.TargetURL(svc.startPort + i).Some?;
  }

  /**
    Validate accepts a service with replicas: -1, and StartLB then panics
    sizing its pool, whichever key de-duplicates the routes.
  */
  lemma NegativeReplicasPassValidation() returns (c: Config.Config)
    ensures Config.Validate(c).None?
    ensures LoadBalancer.Register(c.services, false) == Failure(LoadBalancer.MakePanic(-1))
    ensures LoadBalancer.Register(c.services, true) == Failure(LoadBalancer.MakePanic(-1))
  {
    var svc := Config.Service("neg", "./x", 9000, 9001, -1, "/neg", []);
    c := Config.Config(8080, [svc]);
    Config.ValidateAccepts(c);
    assert c.services[..0] == [];
  }

  /**
    A configuration the corrected validation accepts registers every service
    when routes are keyed on their pattern; keyed on the raw prefix, as
    StartLB does, it needs besides that no two distinct prefixes share a
    pattern, or the mux panics.
  */
  lemma ValidatedRegistrationSucceeds(c: Config.Config)
    requires Config.ValidateCorrected(c).None?
    ensures LoadBalancer.Register(c.services, true).Success?
    ensures LoadBalancer.PatternsApart(c.services) ==> LoadBalancer.Register(c.services, false).Success?
  {
    Config.ValidateCorrectedAccepts(c);
    LoadBalancer.RegisterSucceeds(c.services, true);
    if LoadBalancer.PatternsApart(c.services) {
      LoadBalancer.RegisterSucceeds(c.services, false);
    }
  }

  // ---------------------------------------------------------------------
  // handleCommand: parsing

  /** A typed line, as handleCommand reads it. */
  datatype Command =
    | NoAction
    | Help
    | List
    | Isolate(name: Option<string>)
    | ShowAll
    | Kill(name: Option<string>)
    | Quit
    | Unknown(keyword: string)

  /**
    The keyword is the first field in lower case; isolate and kill take the
    second field, if there is one, and ignore the rest.
  */
  function ParseCommand(input: string): (c: Command)
    ensures c.NoAction? <==> Fields(input) == []
    ensures (c.Isolate? || c.Kill?) ==> (c.name.Some? <==> |Fields(input)| >= 2)
    ensures c.Unknown? ==> c.keyword == ToLower(Fields(input)[0])
  {
    var parts := Fields(input);
    if parts == [] then NoAction
    else
      var cmd := ToLower(parts[0]);
      var arg := if |parts| >= 2 then Some(parts[1]) else None;
      if cmd == "help" then Help
      else if cmd == "list" then List
      else if cmd == "isolate" then Isolate(arg)
      else if cmd == "showall" then ShowAll
      else if cmd == "kill" then Kill(arg)
      else if cmd == "quit" || cmd == "exit" then Quit
      else Unknown(cmd)
  }

  /** A line of nothing but white space does nothing. */
  lemma ParseBlank(input: string)
    ensures ParseCommand(input) == NoAction <==> AllSpace(input)
  {
    FieldsEmpty(input);
  }

  /**
    Only the lower-cased keyword and the first argument matter: two lines
    that agree on those parse alike, whatever their case, spacing or
    further arguments.
  */
  lemma ParseReadsTwoFields(a: string, b: string)
    requires Fields(a) != [] && Fields(b) != []
    requires ToLower(Fields(a)[0]) == ToLower(Fields(b)[0])
    requires |Fields(a)| >= 2 <==> |Fields(b)| >= 2
    requires |Fields(a)| >= 2 ==> Fields(a)[1] == Fields(b)[1]
    ensures ParseCommand(a) == ParseCommand(b)
  {
  }

  /** The keyword is matched after lower-casing, so "QUIT" and "Exit" both quit. */
  lemma KeywordIgnoresCase(input: string)
    requires Fields(input) != []
    requires ToLower(Fields(input)[0]) == "exit"
    ensures ParseCommand(input) == Quit
  {
  }

  /** The replica search loop of the isolate command. */
  method ContainsName(replicas: seq<string>, name: string) returns (found: bool)
    ensures found <==> name in replicas
  {
    var i := 0;
    while i < |replicas|
      invariant 0 <= i <= |replicas|
      invariant name !in replicas[..i]
    {
      if replicas[i] == name {
        return true;
      }
      i := i + 1;
    }
    assert replicas[..i] == replicas;
    return false;
  }

  // ---------------------------------------------------------------------
  // handleCommand: effects

  /** What handleCommand does to the runner and to the program, in order. */
  datatype Effect =
    | Send(msg: Ui.Msg)
    | SetIsolatedReplica(name: string)
    | StopReplica(name: string)
    | ShutdownAll
    | Cancel
    | QuitProgram

  function ErrorLog(msg: string): Effect
  {
    Send(Ui.LogMsg(Ui.ErrorText(msg)))
  }

  function SuccessLog(msg: string): Effect
  {
    Send(Ui.LogMsg(Ui.SuccessText(msg)))
  }

  /** The messages among `effects`, in order. */
  function SentMessages(effects: seq<Effect>): seq<Ui.Msg>
  {
    if effects == [] then []
    else SentMessages(effects[..|effects| - 1]) + (if effects[|effects| - 1].Send? then [effects[|effects| - 1].msg] else [])
  }

  /**
    The command loop's view of the system: the runner's isolation filter,
    the front end's model after every message sent to it, and every effect
    so far.
  */
  class Driver {
    var isolated: string
    var view: Ui.Model
    var effects: seq<Effect>

    /**
      The front end's model is `view0` with every message recorded from
      position `n0` on applied, oldest first.
    */
    ghost predicate Tracks(view0: Ui.Model, n0: nat)
      reads this
    {
      n0 <= |effects| && view == Ui.Apply(view0, SentMessages(effects[n0..]))
    }

    /** The front end shows the filter the runner applies. */
    ghost predicate Valid()
      reads this
    {
      view.isolatedFilter == isolated
    }

    constructor ()
      ensures Valid() && isolated == "" && view == Ui.Initial && effects == []
    {
      isolated := "";
      view := Ui.Initial;
      effects := [];
    }

    /**
      Records one effect; a message is applied by the front end. The front
      end's model stays the one obtained by applying, to `view0`, every
      message recorded from position `n0` on.
    */
    method Emit(e: Effect, ghost view0: Ui.Model, ghost n0: nat)
      requires Tracks(view0, n0)
      modifies this
      ensures effects == old(effects) + [e] && isolated == old(isolated)
      ensures view == (if e.Send? then Ui.Update(old(view), e.msg) else old(view))
      ensures Tracks(view0, n0)
    {
      ghost var es := effects[n0..];
      assert (effects + [e])[n0..] == es + [e];
      assert (es + [e])[..|es + [e]| - 1] == es;
      ghost var ms := SentMessages(es);
      if e.Send? {
        assert SentMessages(es + [e]) == ms + [e.msg];
        assert (ms + [e.msg])[..|ms + [e.msg]| - 1] == ms;
        view := Ui.Update(view, e.msg);
      } else {
        assert SentMessages(es + [e]) == ms + [];
        assert ms + [] == ms;
      }
      effects := effects + [e];
    }

    /** The isolate command, once parsed. */
    method IsolateCommand(arg: Option<string>, listing: seq<string>, ghost view0: Ui.Model, ghost n0: nat)
      requires Valid() && Tracks(view0, n0)
      modifies this
      ensures Valid() && Tracks(view0, n0)
      ensures arg.None? ==>
        effects == old(effects) + [ErrorLog("Usage: isolate <replica-name>")] && isolated == old(isolated)
      ensures arg.Some? && arg.value !in listing ==>
        effects == old(effects) + [ErrorLog("Replica '" + arg.value + "' not found")] && isolated == old(isolated)
      ensures arg.Some? && arg.value in listing ==>
        && effects == old(effects) + [SetIsolatedReplica(arg.value), Send(Ui.SetFilterMsg(arg.value)),
                                      SuccessLog("Now showing logs only from: " + arg.value)]
        && isolated == arg.value
    {
      if arg.None? {
        Emit(ErrorLog("Usage: isolate <replica-name>"), view0, n0);
        return;
      }
      var name := arg.value;
      var found := ContainsName(listing, name);
      if !found {
        Emit(ErrorLog("Replica '" + name + "' not found"), view0, n0);
        return;
      }
      SelectReplica(name, view0, n0);
    }

    /** The runner and then the front end switch to one replica's logs. */
    method SelectReplica(name: string, ghost view0: Ui.Model, ghost n0: nat)
      requires Valid() && Tracks(view0, n0)
      modifies this
      ensures Valid() && Tracks(view0, n0)
      ensures effects == old(effects) + [SetIsolatedReplica(name), Send(Ui.SetFilterMsg(name)),
                                         SuccessLog("Now showing logs only from: " + name)]
      ensures isolated == name
    {
      isolated := name;
      Emit(SetIsolatedReplica(name), view0, n0);
      Emit(Send(Ui.SetFilterMsg(name)), view0, n0);
      Emit(SuccessLog("Now showing logs only from: " + name), view0, n0);
    }

    /** The showall command. */
    method ShowAllCommand(ghost view0: Ui.Model, ghost n0: nat)
      requires Valid() && Tracks(view0, n0)
      modifies this
      ensures Valid() && Tracks(view0, n0)
      ensures effects == old(effects) + [SetIsolatedReplica(""), Send(Ui.SetFilterMsg("")),
                                         SuccessLog("Now showing logs from all replicas")]
      ensures isolated == ""
    {
      isolated := "";
      Emit(SetIsolatedReplica(""), view0, n0);
      Emit(Send(Ui.SetFilterMsg("")), view0, n0);
      Emit(SuccessLog("Now showing logs from all replicas"), view0, n0);
    }

    /** The kill command, once parsed; StopReplica is never called without a name. */
    method KillCommand(arg: Option<string>, stopError: Option<string>, ghost view0: Ui.Model, ghost n0: nat)
      requires Valid() && Tracks(view0, n0)
      modifies this
      ensures Valid() && Tracks(view0, n0) && isolated == old(isolated)
      ensures arg.None? ==> effects == old(effects) + [ErrorLog("Usage: kill <replica-name>")]
      ensures arg.Some? ==>
        effects == old(effects) + [StopReplica(arg.value),
          if stopError.Some? then ErrorLog(stopError.value) else SuccessLog("Stopped replica: " + arg.value)]
    {
      if arg.None? {
        Emit(ErrorLog("Usage: kill <replica-name>"), view0, n0);
        return;
      }
      var name := arg.value;
      Emit(StopReplica(name), view0, n0);
      if stopError.Some? {
        Emit(ErrorLog(stopError.value), view0, n0);
      } else {
        Emit(SuccessLog("Stopped replica: " + name), view0, n0);
      }
    }

    /** quit and exit: every replica is stopped before the context is cancelled. */
    method QuitCommand(ghost view0: Ui.Model, ghost n0: nat)
      requires Valid() && Tracks(view0, n0)
      modifies this
      ensures Valid() && Tracks(view0, n0) && isolated == old(isolated)
      ensures effects == old(effects) + [Send(Ui.LogMsg("[Sim] Shutting down...")), ShutdownAll, Cancel, QuitProgram]
    {
      Emit(Send(Ui.LogMsg("[Sim] Shutting down...")), view0, n0);
      Emit(ShutdownAll, view0, n0);
      Emit(Cancel, view0, n0);
      Emit(QuitProgram, view0, n0);
    }

    /** The list command: a copy of the listing, sorted and formatted. */
    method ListCommand(listing: seq<string>, ghost view0: Ui.Model, ghost n0: nat)
      requires Valid() && Tracks(view0, n0)
      modifies this
      ensures Valid() && Tracks(view0, n0) && isolated == old(isolated)
      ensures effects == old(effects) + [Send(Ui.LogMsg(Ui.ListText(Ui.SortedOf(listing))))]
    {
      var replicas := new string[|listing|](i requires 0 <= i < |listing| => listing[i]);
      assert replicas[..] == listing;
      var text := Ui.FormatReplicaList(replicas);
      Emit(Send(Ui.LogMsg(text)), view0, n0);
    }

    /**
      handleCommand. `listing` is what ListReplicas returns at that moment
      and `stopError` what StopReplica would return. Every message sent
      reaches the front end, and the front end's filter keeps matching the
      runner's.
    */
    method HandleCommand(input: string, listing: seq<string>, stopError: Option<string>)
      requires Valid()
      modifies this
      ensures Valid()
      ensures Tracks(old(view), old(|effects|))
      ensures match ParseCommand(input)
        case NoAction => effects == old(effects) && isolated == old(isolated)
        case Help => effects == old(effects) + [Send(Ui.LogMsg(Ui.HelpText))] && isolated == old(isolated)
        case List =>
          && effects == old(effects) + [Send(Ui.LogMsg(Ui.ListText(Ui.SortedOf(listing))))]
          && isolated == old(isolated)
        case Isolate(None) =>
          effects == old(effects) + [ErrorLog("Usage: isolate <replica-name>")] && isolated == old(isolated)
        case Isolate(Some(name)) =>
          if name in listing then
            && effects == old(effects) + [SetIsolatedReplica(name), Send(Ui.SetFilterMsg(name)),
                                          SuccessLog("Now showing logs only from: " + name)]
            && isolated == name
          else
            && effects == old(effects) + [ErrorLog("Replica '" + name + "' not found")]
            && isolated == old(isolated)
        case ShowAll =>
          && effects == old(effects) + [SetIsolatedReplica(""), Send(Ui.SetFilterMsg("")),
                                        SuccessLog("Now showing logs from all replicas")]
          && isolated == ""
        case Kill(None) =>
          effects == old(effects) + [ErrorLog("Usage: kill <replica-name>")] && isolated == old(isolated)
        case Kill(Some(name)) =>
          && effects == old(effects) + [StopReplica(name),
               if stopError.Some? then ErrorLog(stopError.value) else SuccessLog("Stopped replica: " + name)]
          && isolated == old(isolated)
        case Quit =>
          && effects == old(effects) + [Send(Ui.LogMsg("[Sim] Shutting down...")), ShutdownAll, Cancel, QuitProgram]
          && isolated == old(isolated)
        case Unknown(keyword) =>
          && effects == old(effects) + [ErrorLog("Unknown command: " + keyword + " (type 'help' for available commands)")]
          && isolated == old(isolated)
    {
      ghost var view0, n0 := view, |effects|;
      assert effects[n0..] == [];
      match ParseCommand(input)
      case NoAction =>
      case Help =>
        Emit(Send(Ui.LogMsg(Ui.HelpText)), view0, n0);
      case List =>
        ListCommand(listing, view0, n0);
      case Isolate(arg) =>
        IsolateCommand(arg, listing, view0, n0);
      case ShowAll =>
        ShowAllCommand(view0, n0);
      case Kill(arg) =>
        KillCommand(arg, stopError, view0, n0);
      case Quit =>
        QuitCommand(view0, n0);
      case Unknown(keyword) =>
        Emit(ErrorLog("Unknown command: " + keyword + " (type 'help' for available commands)"), view0, n0);
    }
  }
}
