/**
  The replica supervisor (internal/runner/process.go): a table from replica
  name to child process, an append-only log of the lines the replicas print,
  and the isolation filter that decides which new lines are displayed.

  Child processes are opaque `Pid`s. Creating the pipes and starting a child
  is an oracle `spawn` that answers, for the command line and environment of
  one replica, whether it started and with which process id. Reading a pipe
  is given as the sequence of lines it yields; printing is returned as the
  sequence of messages printed.
*/
module Runner {
  import opened Common
  import opened Text
  import Config

  /** An opaque handle to a running child process. */
  datatype Pid = Pid(id: nat)

  /** One captured line, tagged with the replica that printed it. */
  datatype ReplicaLog = ReplicaLog(replicaName: string, message: string)

  /** The two pipes of a replica. */
  datatype Stream = Stdout | Stderr

  function StreamTag(s: Stream): string
  {
    match s
    case Stdout => "STDOUT"
    case Stderr => "STDERR"
  }

  /** The text outputLogs stores for one line read from a pipe. */
  function LogLine(stream: Stream, replicaName: string, line: string): string
  {
    "[" + StreamTag(stream) + "][" + replicaName + "] " + line
  }

  /** The records the lines of one pipe become, in read order. */
  function PipeRecords(replicaName: string, stream: Stream, lines: seq<string>): seq<ReplicaLog>
  {
    seq(|lines|, i requires 0 <= i < |lines| => ReplicaLog(replicaName, LogLine(stream, replicaName, lines[i])))
  }

  /** Whether a record of replica `name` is displayed under the isolation filter. */
  predicate Shows(filter: string, name: string)
  {
    filter == "" || filter == name
  }

  /**
    The records whose replica name equals `name` (when `keep`) or differs
    from it (when `!keep`), in their original order.
  */
  function Select(logs: seq<ReplicaLog>, name: string, keep: bool): seq<ReplicaLog>
  {
    if logs == [] then []
    else
      var last := logs[|logs| - 1];
      Select(logs[..|logs| - 1], name, keep) + (if (last.replicaName == name) == keep then [last] else [])
  }

  function Messages(logs: seq<ReplicaLog>): seq<string>
  {
    seq(|logs|, i requires 0 <= i < |logs| => logs[i].message)
  }

  /** One more line read from a pipe is one more record, and one more message, at the end. */
  lemma PipeRecordsSnoc(replicaName: string, stream: Stream, lines: seq<string>, i: nat)
    requires i < |lines|
    ensures var recs := PipeRecords(replicaName, stream, lines[..i]);
      var rec := ReplicaLog(replicaName, LogLine(stream, replicaName, lines[i]));
      && PipeRecords(replicaName, stream, lines[..i + 1]) == recs + [rec]
      && Messages(recs + [rec]) == Messages(recs) + [rec.message]
  {
  }

  /** Select keeps exactly the records that match, and nothing else. */
  lemma {:induction false} SelectExact(logs: seq<ReplicaLog>, name: string, keep: bool)
    ensures forall r :: r in Select(logs, name, keep) <==> r in logs && (r.replicaName == name) == keep
  {
    if logs != [] {
      var init := logs[..|logs| - 1];
      SelectExact(init, name, keep);
      assert logs == init + [logs[|logs| - 1]];
    }
  }

  /** Select preserves order: selecting from a concatenation concatenates the selections. */
  lemma {:induction false} SelectAppend(a: seq<ReplicaLog>, b: seq<ReplicaLog>, name: string, keep: bool)
    ensures Select(a + b, name, keep) == Select(a, name, keep) + Select(b, name, keep)
  {
    if b != [] {
      var init := b[..|b| - 1];
      assert (a + b)[..|a + b| - 1] == a + init;
      SelectAppend(a, init, name, keep);
    } else {
      assert a + b == a;
    }
  }

  /** The two selections split the log: every record lands in exactly one. */
  lemma {:induction false} SelectPartition(logs: seq<ReplicaLog>, name: string)
    ensures multiset(Select(logs, name, true)) + multiset(Select(logs, name, false)) == multiset(logs)
  {
    if logs != [] {
      var init := logs[..|logs| - 1];
      SelectPartition(init, name);
      SelectPartitionStep(logs, name);
    }
  }

  /** The last record lands in exactly one of the two selections. */
  lemma SelectPartitionStep(logs: seq<ReplicaLog>, name: string)
    requires logs != []
    ensures var init, last := logs[..|logs| - 1], logs[|logs| - 1];
      multiset(Select(logs, name, true)) + multiset(Select(logs, name, false))
        == multiset(Select(init, name, true)) + multiset(Select(init, name, false)) + multiset{last}
      && multiset(logs) == multiset(init) + multiset{last}
  {
    var init, last := logs[..|logs| - 1], logs[|logs| - 1];
    assert logs == init + [last];
  }

  // ---------------------------------------------------------------------
  // Starting the replicas of a service

  /** A child process: its command line and its environment. */
  datatype ProcessSpec = ProcessSpec(argv: seq<string>, env: seq<string>)

  /** What creating the two pipes and starting a child can yield. */
  datatype SpawnResult = StdoutPipeFailed | StderrPipeFailed | StartFailed | Started(pid: Pid)

  datatype StartStage = StdoutPipe | StderrPipe | Start

  /** StartService's error: the replica it failed on, and the step that failed. */
  datatype StartError = StartError(replica: string, stage: StartStage)

  function StageOf(r: SpawnResult): StartStage
    requires !r.Started?
  {
    match r
    case StdoutPipeFailed => StdoutPipe
    case StderrPipeFailed => StderrPipe
    case StartFailed => Start
  }

  /** Replica `i` (counting from 0) of a service is named `<service>-<i+1>`. */
  function ReplicaName(svc: Config.Service, i: nat): string
  {
    svc.name + "-" + Dec(i + 1)
  }

  function EnvEntries(env: seq<(string, string)>): seq<string>
  {
    seq(|env|, i requires 0 <= i < |env| => env[i].0 + "=" + env[i].1)
  }

  /**
    Replica `i`'s environment: the inherited one, then the service's own
    variables, then PORT set to the replica's port.
  */
  function ReplicaEnv(svc: Config.Service, environ: seq<string>, i: nat): seq<string>
  {
    environ + EnvEntries(svc.env) + ["PORT=" + Dec(svc.startPort + i)]
  }

  function ReplicaSpec(svc: Config.Service, environ: seq<string>, i: nat): ProcessSpec
  {
    ProcessSpec(["go", "run", svc.path], ReplicaEnv(svc, environ, i))
  }

  /** What the oracle answers for replica `i`. */
  function Attempt(svc: Config.Service, environ: seq<string>, spawn: ProcessSpec -> SpawnResult, i: nat): SpawnResult
  {
    spawn(ReplicaSpec(svc, environ, i))
  }

  /** The first replica in [i, n) that fails to start, or `n` when all of them start. */
  function FirstFailure(svc: Config.Service, environ: seq<string>, spawn: ProcessSpec -> SpawnResult, i: nat, n: nat): (j: nat)
    requires i <= n
    ensures i <= j <= n
    ensures forall p :: i <= p < j ==> Attempt(svc, environ, spawn, p).Started?
    ensures j < n ==> !Attempt(svc, environ, spawn, j).Started?
    decreases n - i
  {
    if i == n || !Attempt(svc, environ, spawn, i).Started? then i
    else FirstFailure(svc, environ, spawn, i + 1, n)
  }

  /** The first failure is the first index whose attempt does not start. */
  lemma FirstFailureIs(svc: Config.Service, environ: seq<string>, spawn: ProcessSpec -> SpawnResult, i: nat, n: nat)
    requires i <= n
    requires forall p :: 0 <= p < i ==> Attempt(svc, environ, spawn, p).Started?
    requires i == n || !Attempt(svc, environ, spawn, i).Started?
    ensures FirstFailure(svc, environ, spawn, 0, n) == i
  {
  }

  /** The table after replicas 0 .. k-1 of `svc` have been started and added. */
  function Launched(cmds: map<string, Pid>, svc: Config.Service, environ: seq<string>,
                    spawn: ProcessSpec -> SpawnResult, k: nat): map<string, Pid>
    requires forall p :: 0 <= p < k ==> Attempt(svc, environ, spawn, p).Started?
  {
    if k == 0 then cmds
    else Launched(cmds, svc, environ, spawn, k - 1)[ReplicaName(svc, k - 1) := Attempt(svc, environ, spawn, k - 1).pid]
  }

  /** How many replicas of `svc` start before the first failure, if any. */
  function Reached(svc: Config.Service, environ: seq<string>, spawn: ProcessSpec -> SpawnResult): (j: nat)
    ensures j <= Config.ReplicaCount(svc)
    ensures forall p :: 0 <= p < j ==> Attempt(svc, environ, spawn, p).Started?
  {
    FirstFailure(svc, environ, spawn, 0, Config.ReplicaCount(svc))
  }

  /** StartService's result: the error for the first replica that fails to start, or none. */
  function StartOutcome(svc: Config.Service, environ: seq<string>, spawn: ProcessSpec -> SpawnResult): (err: Option<StartError>)
    ensures err.None? <==> forall p :: 0 <= p < Config.ReplicaCount(svc) ==> Attempt(svc, environ, spawn, p).Started?
    ensures err.Some? ==> err.value.replica == ReplicaName(svc, Reached(svc, environ, spawn))
  {
    var j := Reached(svc, environ, spawn);
    if j < Config.ReplicaCount(svc) then Some(StartError(ReplicaName(svc, j), StageOf(Attempt(svc, environ, spawn, j))))
    else None
  }

  /** The text after the last '-' in `x`, or all of `x` when it has none. */
  function AfterLastDash(x: string): string
  {
    if x == [] || x[|x| - 1] == '-' then [] else AfterLastDash(x[..|x| - 1]) + [x[|x| - 1]]
  }

  lemma {:induction false} AfterLastDashOf(s: string, d: string)
    requires '-' !in d
    ensures AfterLastDash(s + "-" + d) == d
  {
    var x := s + "-" + d;
    if d != [] {
      assert x[..|x| - 1] == s + "-" + d[..|d| - 1];
      AfterLastDashOf(s, d[..|d| - 1]);
      assert d == d[..|d| - 1] + [d[|d| - 1]];
    }
  }

  /** "s-d" splits at its last dash when `d` has none. */
  lemma SplitAtLastDash(s: string, d: string, s': string, d': string)
    requires '-' !in d && '-' !in d'
    requires s + "-" + d == s' + "-" + d'
    ensures s == s' && d == d'
  {
    var x := s + "-" + d;
    AfterLastDashOf(s, d);
    AfterLastDashOf(s', d');
    assert |s| == |s'|;
    assert s == x[..|s|] && s' == x[..|s'|];
  }

  /**
    A replica name determines its service's name and its index: the index
    is the number after the last '-', which no decimal number contains.
  */
  lemma ReplicaNameInjective(a: Config.Service, i: nat, b: Config.Service, k: nat)
    requires ReplicaName(a, i) == ReplicaName(b, k)
    ensures a.name == b.name && i == k
  {
    SplitAtLastDash(a.name, Dec(i + 1), b.name, Dec(k + 1));
    DecInjective(i + 1, k + 1);
  }

  /** The replicas before `k` have names other than replica `k`'s. */
  lemma EarlierNamesDiffer(svc: Config.Service, k: nat)
    ensures forall p :: 0 <= p < k ==> ReplicaName(svc, p) != ReplicaName(svc, k)
  {
    forall p | 0 <= p < k ensures ReplicaName(svc, p) != ReplicaName(svc, k) {
      if ReplicaName(svc, p) == ReplicaName(svc, k) {
        ReplicaNameInjective(svc, p, svc, k);
      }
    }
  }

  /**
    After starting replicas 0 .. k-1, each of them is in the table under its
    own name with the process the oracle started; every other name keeps the
    entry it had before.
  */
  lemma {:induction false} LaunchedTable(cmds: map<string, Pid>, svc: Config.Service, environ: seq<string>,
                                         spawn: ProcessSpec -> SpawnResult, k: nat)
    requires forall p :: 0 <= p < k ==> Attempt(svc, environ, spawn, p).Started?
    ensures forall p :: 0 <= p < k ==>
      var t := Launched(cmds, svc, environ, spawn, k);
      ReplicaName(svc, p) in t && t[ReplicaName(svc, p)] == Attempt(svc, environ, spawn, p).pid
    ensures forall name :: (forall p :: 0 <= p < k ==> name != ReplicaName(svc, p)) ==>
      var t := Launched(cmds, svc, environ, spawn, k);
      (name in t <==> name in cmds) && (name in cmds ==> t[name] == cmds[name])
  {
    forall p | 0 <= p < k
      ensures var t := Launched(cmds, svc, environ, spawn, k);
        ReplicaName(svc, p) in t && t[ReplicaName(svc, p)] == Attempt(svc, environ, spawn, p).pid
    {
      LaunchedHas(cmds, svc, environ, spawn, k, p);
    }
    forall name | forall p :: 0 <= p < k ==> name != ReplicaName(svc, p)
      ensures var t := Launched(cmds, svc, environ, spawn, k);
        (name in t <==> name in cmds) && (name in cmds ==> t[name] == cmds[name])
    {
      LaunchedKeeps(cmds, svc, environ, spawn, k, name);
    }
  }

  /** Replica p, once started, is in the table under its name with its process. */
  lemma {:induction false} LaunchedHas(cmds: map<string, Pid>, svc: Config.Service, environ: seq<string>,
                                       spawn: ProcessSpec -> SpawnResult, k: nat, p: nat)
    requires forall q :: 0 <= q < k ==> Attempt(svc, environ, spawn, q).Started?
    requires p < k
    ensures var t := Launched(cmds, svc, environ, spawn, k);
      ReplicaName(svc, p) in t && t[ReplicaName(svc, p)] == Attempt(svc, environ, spawn, p).pid
    decreases k
  {
    if p < k - 1 {
      LaunchedHas(cmds, svc, environ, spawn, k - 1, p);
      EarlierNamesDiffer(svc, k - 1);
    }
  }

  /** A name no started replica carries keeps its entry, or its absence. */
  lemma {:induction false} LaunchedKeeps(cmds: map<string, Pid>, svc: Config.Service, environ: seq<string>,
                                         spawn: ProcessSpec -> SpawnResult, k: nat, name: string)
    requires forall q :: 0 <= q < k ==> Attempt(svc, environ, spawn, q).Started?
    requires forall q :: 0 <= q < k ==> name != ReplicaName(svc, q)
    ensures var t := Launched(cmds, svc, environ, spawn, k);
      (name in t <==> name in cmds) && (name in cmds ==> t[name] == cmds[name])
  {
    if k > 0 {
      LaunchedKeeps(cmds, svc, environ, spawn, k - 1, name);
    }
  }

  // ---------------------------------------------------------------------
  // The supervisor itself

  datatype IsolateError = MissingReplicaName | ReplicaNotFound(name: string)

  /** What one line typed at ReadInput does. */
  datatype InputOutcome =
    | Isolated(replay: seq<string>)
    | IsolateRejected(error: IsolateError)
    | ShowingAll
    | UnknownCommand

  class Runner {
    /** The replica table, CMDS in the source. */
    var cmds: map<string, Pid>
    /** Every line captured so far, oldest first. */
    var logs: seq<ReplicaLog>
    /** The isolation filter: "" shows every replica. */
    var isolatedReplica: string

    /** NewRunner: an empty table, an empty log and no isolation. */
    constructor ()
      ensures cmds == map[] && logs == [] && isolatedReplica == ""
    {
      cmds := map[];
      logs := [];
      isolatedReplica := "";
    }

    /** Sets or overwrites the entry for `name` and no other. */
    method AddCmd(name: string, pid: Pid)
      modifies this
      ensures cmds == old(cmds)[name := pid]
      ensures logs == old(logs) && isolatedReplica == old(isolatedReplica)
    {
      cmds := cmds[name := pid];
    }

    /** Deletes the entry for `name`, if there is one, and no other. */
    method RemoveCmd(name: string)
      modifies this
      ensures cmds == old(cmds) - {name}
      ensures logs == old(logs) && isolatedReplica == old(isolatedReplica)
    {
      cmds := cmds - {name};
    }

    /**
      isolate: `args` is the input line split at spaces, the replica name is
      its second piece, trimmed. On success the filter becomes that name and
      the stored log is replayed through IsolateLogs.
    */
    method Isolate(args: seq<string>) returns (err: Option<IsolateError>, replay: seq<string>)
      modifies this
      ensures cmds == old(cmds) && logs == old(logs)
      ensures |args| < 2 ==>
        err == Some(MissingReplicaName) && replay == [] && isolatedReplica == old(isolatedReplica)
      ensures |args| >= 2 && TrimSpace(args[1]) !in cmds ==>
        err == Some(ReplicaNotFound(TrimSpace(args[1]))) && replay == [] && isolatedReplica == old(isolatedReplica)
      ensures |args| >= 2 && TrimSpace(args[1]) in cmds ==>
        err == None && isolatedReplica == TrimSpace(args[1])
        && replay == Messages(Select(logs, isolatedReplica, false))
    {
      if |args| < 2 {
        return Some(MissingReplicaName), [];
      }
      var replicaName := TrimSpace(args[1]);
      if replicaName !in cmds {
        return Some(ReplicaNotFound(replicaName)), [];
      }
      isolatedReplica := replicaName;
      replay := IsolateLogs(replicaName);
      err := None;
    }

    /**
      One line of ReadInput: the first piece of the line split at spaces,
      trimmed, picks the command, case-sensitively.
    */
    method ReadInputLine(input: string) returns (outcome: InputOutcome)
      modifies this
      ensures cmds == old(cmds) && logs == old(logs)
      ensures var args := Split(input, ' '); var key := TrimSpace(args[0]);
        && (key == "isolate" ==>
              && (outcome.Isolated? || outcome.IsolateRejected?)
              && (outcome.Isolated? <==> |args| >= 2 && TrimSpace(args[1]) in cmds)
              && (outcome.Isolated? ==> isolatedReplica == TrimSpace(args[1])
                                        && outcome.replay == Messages(Select(logs, isolatedReplica, false)))
              && (outcome.IsolateRejected? ==>
                    && isolatedReplica == old(isolatedReplica)
                    && outcome.error == if |args| < 2 then MissingReplicaName else ReplicaNotFound(TrimSpace(args[1]))))
        && (key == "showall" ==> outcome == ShowingAll && isolatedReplica == "")
        && (key != "isolate" && key != "showall" ==>
              outcome == UnknownCommand && isolatedReplica == old(isolatedReplica))
    {
      var args := Split(input, ' ');
      var key := TrimSpace(args[0]);
      if key == "isolate" {
        var err, replay := Isolate(args);
        if err.Some? {
          outcome := IsolateRejected(err.value);
        } else {
          outcome := Isolated(replay);
        }
      } else if key == "showall" {
        isolatedReplica := "";
        outcome := ShowingAll;
      } else {
        outcome := UnknownCommand;
      }
    }

    /**
      StartService: starts replicas 0, 1, ... in turn, each under its own
      name, command line and environment, adding each one that starts to the
      table. The first replica that fails to start ends the call with an
      error; the replicas before it stay in the table and none after it is
      tried.
    */
    method StartService(svc: Config.Service, environ: seq<string>, spawn: ProcessSpec -> SpawnResult)
      returns (err: Option<StartError>)
      modifies this
      ensures cmds == Launched(old(cmds), svc, environ, spawn, Reached(svc, environ, spawn))
      ensures err == StartOutcome(svc, environ, spawn)
      ensures logs == old(logs) && isolatedReplica == old(isolatedReplica)
    {
      var i := 0;
      while i < svc.replicas
        invariant 0 <= i <= Config.ReplicaCount(svc)
        invariant forall p :: 0 <= p < i ==> Attempt(svc, environ, spawn, p).Started?
        invariant cmds == Launched(old(cmds), svc, environ, spawn, i)
        invariant logs == old(logs) && isolatedReplica == old(isolatedReplica)
      {
        var replicaName := ReplicaName(svc, i);
        var result := spawn(ReplicaSpec(svc, environ, i));
        if !result.Started? {
          FirstFailureIs(svc, environ, spawn, i, Config.ReplicaCount(svc));
          return Some(StartError(replicaName, StageOf(result)));
        }
        AddCmd(replicaName, result.pid);
        i := i + 1;
      }
      FirstFailureIs(svc, environ, spawn, i, Config.ReplicaCount(svc));
      err := None;
    }

    /**
      waitForExit, once the child has exited: the entry is removed by name,
      whichever process that name now stands for.
    */
    method WaitForExit(replicaName: string, exited: Pid)
      modifies this
      ensures cmds == old(cmds) - {replicaName}
      ensures logs == old(logs) && isolatedReplica == old(isolatedReplica)
    {
      RemoveCmd(replicaName);
    }

    /**
      outputLogs: each line read from the pipe is stored, in read order, as
      "[STREAM][replica] line", and displayed when the filter shows that
      replica.
    */
    method OutputLogs(replicaName: string, stream: Stream, lines: seq<string>) returns (displayed: seq<string>)
      modifies this
      ensures logs == old(logs) + PipeRecords(replicaName, stream, lines)
      ensures displayed == if Shows(isolatedReplica, replicaName)
                           then Messages(PipeRecords(replicaName, stream, lines)) else []
      ensures cmds == old(cmds) && isolatedReplica == old(isolatedReplica)
    {
      displayed := [];
      for i := 0 to |lines|
        invariant logs == old(logs) + PipeRecords(replicaName, stream, lines[..i])
        invariant displayed == if Shows(isolatedReplica, replicaName)
                               then Messages(PipeRecords(replicaName, stream, lines[..i])) else []
        invariant cmds == old(cmds) && isolatedReplica == old(isolatedReplica)
      {
        var rec := ReplicaLog(replicaName, LogLine(stream, replicaName, lines[i]));
        PipeRecordsSnoc(replicaName, stream, lines, i);
        AddLog(rec.replicaName, rec.message);
        var shown := UpdateLatestLog();
        if shown.Some? {
          displayed := displayed + [shown.value];
        }
      }
      assert lines[..|lines|] == lines;
    }

    /**
      UpdateLatestLog: the newest record is displayed exactly when the
      filter shows its replica; an empty log displays nothing.
    */
    method UpdateLatestLog() returns (shown: Option<string>)
      ensures logs == [] ==> shown == None
      ensures logs != [] ==>
        (shown.Some? <==> Shows(isolatedReplica, logs[|logs| - 1].replicaName))
        && (shown.Some? ==> shown.value == logs[|logs| - 1].message)
    {
      if |logs| == 0 {
        return None;
      }
      var latest := logs[|logs| - 1];
      if isolatedReplica == "" || isolatedReplica == latest.replicaName {
        shown := Some(latest.message);
      } else {
        shown := None;
      }
    }

    /** addLog: one record at the end, every earlier record untouched. */
    method AddLog(replicaName: string, logLine: string)
      modifies this
      ensures logs == old(logs) + [ReplicaLog(replicaName, logLine)]
      ensures cmds == old(cmds) && isolatedReplica == old(isolatedReplica)
    {
      logs := logs + [ReplicaLog(replicaName, logLine)];
    }

    /**
      GetLogs: the records whose replica name equals the filter, in order.
      The comparison is plain equality, so the empty filter selects only
      records with an empty name.
    */
    method GetLogs() returns (filtered: seq<ReplicaLog>)
      ensures filtered == Select(logs, isolatedReplica, true)
      ensures forall r :: r in filtered <==> r in logs && r.replicaName == isolatedReplica
    {
      filtered := [];
      for i := 0 to |logs|
        invariant filtered == Select(logs[..i], isolatedReplica, true)
      {
        assert logs[..i + 1][..i] == logs[..i];
        if logs[i].replicaName == isolatedReplica {
          filtered := filtered + [logs[i]];
        }
      }
      assert logs[..|logs|] == logs;
      SelectExact(logs, isolatedReplica, true);
    }

    /** IsolateLogs: prints, in order, the messages of the records NOT from `replicaName`. */
    method IsolateLogs(replicaName: string) returns (printed: seq<string>)
      ensures printed == Messages(Select(logs, replicaName, false))
    {
      printed := [];
      for i := 0 to |logs|
        invariant printed == Messages(Select(logs[..i], replicaName, false))
      {
        assert logs[..i + 1][..i] == logs[..i];
        if logs[i].replicaName != replicaName {
          printed := printed + [logs[i].message];
        }
      }
      assert logs[..|logs|] == logs;
    }

    /**
      stopReplica: a present name is taken out of the table and its process
      is the one to kill; an absent name changes nothing.
    */
    method StopReplica(replicaName: string) returns (kill: Option<Pid>)
      modifies this
      ensures cmds == old(cmds) - {replicaName}
      ensures kill == if replicaName in old(cmds) then Some(old(cmds)[replicaName]) else None
      ensures logs == old(logs) && isolatedReplica == old(isolatedReplica)
    {
      if replicaName in cmds {
        kill := Some(cmds[replicaName]);
        cmds := cmds - {replicaName};
      } else {
        kill := None;
      }
    }

    /**
      The snapshot ShutdownAll takes under the read lock: every name in the
      table once, in whatever order the map yields them.
    */
    method ReplicaNames() returns (names: seq<string>)
      ensures forall name :: name in names <==> name in cmds
      ensures forall i, j :: 0 <= i < j < |names| ==> names[i] != names[j]
    {
      var pending := cmds.Keys;
      names := [];
      while pending != {}
        invariant forall name :: name in cmds <==> name in pending || name in names
        invariant forall name :: name in pending ==> name !in names
        invariant forall i, j :: 0 <= i < j < |names| ==> names[i] != names[j]
        decreases |pending|
      {
        var name :| name in pending;
        names := names + [name];
        pending := pending - {name};
      }
    }

    /**
      ShutdownAll: stops every name of the snapshot in turn. Afterwards the
      table is empty; on an empty table nothing is stopped, so a second call
      changes nothing.
    */
    method ShutdownAll() returns (stopped: seq<string>, killed: seq<Pid>)
      modifies this
      ensures cmds == map[]
      ensures forall name :: name in stopped <==> name in old(cmds)
      ensures forall i, j :: 0 <= i < j < |stopped| ==> stopped[i] != stopped[j]
      ensures |killed| == |stopped|
      ensures forall i :: 0 <= i < |stopped| ==> killed[i] == old(cmds)[stopped[i]]
      ensures logs == old(logs) && isolatedReplica == old(isolatedReplica)
    {
      stopped := ReplicaNames();
      killed := StopEach(stopped);
      assert forall name :: name in old(cmds) ==> name in stopped;
    }

    /** Stops each of `names`, all distinct and all present, in order. */
    method StopEach(names: seq<string>) returns (killed: seq<Pid>)
      requires forall i, j :: 0 <= i < j < |names| ==> names[i] != names[j]
      requires forall name :: name in names ==> name in cmds
      modifies this
      ensures cmds == old(cmds) - set name | name in names
      ensures |killed| == |names|
      ensures forall i :: 0 <= i < |names| ==> killed[i] == old(cmds)[names[i]]
      ensures logs == old(logs) && isolatedReplica == old(isolatedReplica)
    {
      killed := [];
      for i := 0 to |names|
        invariant cmds == old(cmds) - set name | name in names[..i]
        invariant |killed| == i
        invariant forall k :: 0 <= k < i ==> killed[k] == old(cmds)[names[k]]
        invariant logs == old(logs) && isolatedReplica == old(isolatedReplica)
      {
        var name := names[i];
        assert name !in names[..i];
        var kill := StopReplica(name);
        ghost var before, after := names[..i], names[..i + 1];
        assert after == before + [name];
        assert (set n | n in after) == (set n | n in before) + {name};
        killed := killed + [kill.value];
      }
      assert names[..|names|] == names;
    }
  }

  /**
    IsolateLogs replays the records of every replica EXCEPT the isolated
    one: after isolating "a-1", the replay shows the line of "a-2" and
    hides the line of "a-1", while every later line is displayed only if it
    comes from "a-1".
  */
  lemma IsolateLogsReplaysOtherReplicas()
    ensures var logs := [ReplicaLog("a-1", "x"), ReplicaLog("a-2", "y")];
      && Messages(Select(logs, "a-1", false)) == ["y"]
      && Shows("a-1", "a-1") && !Shows("a-1", "a-2")
  {
    var logs := [ReplicaLog("a-1", "x"), ReplicaLog("a-2", "y")];
    assert logs[..1] == [ReplicaLog("a-1", "x")];
    assert Select(logs[..1], "a-1", false) == [];
  }

  /**
    What the live view has displayed of `logs` under a filter: the message
    of each record whose replica the filter shows, in order.
  */
  function Displayed(filter: string, logs: seq<ReplicaLog>): seq<string>
  {
    if logs == [] then []
    else
      var last := logs[|logs| - 1];
      Displayed(filter, logs[..|logs| - 1]) + (if Shows(filter, last.replicaName) then [last.message] else [])
  }

  /**
    The lines outputLogs displays for one pipe are what the live view shows
    of that pipe's records under the current filter.
  */
  lemma {:induction false} DisplayedPipe(filter: string, replicaName: string, stream: Stream, lines: seq<string>)
    ensures Displayed(filter, PipeRecords(replicaName, stream, lines))
      == if Shows(filter, replicaName) then Messages(PipeRecords(replicaName, stream, lines)) else []
    decreases |lines|
  {
    if lines != [] {
      var n := |lines| - 1;
      DisplayedPipe(filter, replicaName, stream, lines[..n]);
      PipeRecordsSnoc(replicaName, stream, lines, n);
      assert lines[..n + 1] == lines;
      var recs := PipeRecords(replicaName, stream, lines[..n]);
      var rec := ReplicaLog(replicaName, LogLine(stream, replicaName, lines[n]));
      assert (recs + [rec])[..|recs + [rec]| - 1] == recs;
    }
  }

  /**
    The replay isolation calls for is, message for message and in order,
    what the live view displays once the filter is `name`; it is the
    selection GetLogs makes under that filter.
  */
  lemma {:induction false} IsolatedReplayMatchesLiveView(logs: seq<ReplicaLog>, name: string)
    requires name != ""
    ensures Messages(Select(logs, name, true)) == Displayed(name, logs)
    ensures forall r :: r in Select(logs, name, true) <==> r in logs && Shows(name, r.replicaName)
    decreases |logs|
  {
    SelectExact(logs, name, true);
    if logs != [] {
      var init := logs[..|logs| - 1];
      var last := logs[|logs| - 1];
      IsolatedReplayMatchesLiveView(init, name);
      var sel := Select(init, name, true);
      var tail := if last.replicaName == name then [last] else [];
      assert Messages(sel + tail) == Messages(sel) + Messages(tail);
    }
  }
}
