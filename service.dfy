/** The command dispatcher of src/service/mod.rs: the response envelope,
    the dispatch of each socket command to its handler, the per-connection
    read loop, and the service loop that ends on a shutdown request.

    Reading a line, parsing it as JSON and writing a response are not
    modelled: each line arrives as a `ReadEvent` carrying the parsed
    command (or `None` when parsing failed) and the outcomes of the system
    calls its handling makes, and the responses are values. */
module Service {
  import opened Wrappers
  import opened Data
  import LogConfig
  import Handle
  import Paths

  const SOCKET_PATH: string := "/tmp/verge-mihomo.sock"
  const OK_MESSAGE: string := "ok"
  const OK_CODE: nat := 0
  const ERROR_CODE: nat := 400
  const INCOMING_FAILED: string := "internal error: entered unreachable code: ideally"
  const STOP_FAILED: string := "failed to execute process"

  /** `wrap_response!`: code 0 and the data for a success, code 400 and
      the error's text for a failure. */
  function WrapResponse<T>(r: Result<T, string>): (resp: JsonResponse<T>)
    ensures resp.code == OK_CODE <==> r.Ok?
    ensures resp.data.Some? <==> r.Ok?
  {
    match r
    case Ok(data) => JsonResponse(OK_CODE, OK_MESSAGE, Some(data))
    case Err(e) => JsonResponse(ERROR_CODE, e, None)
  }

  /** How a client reads a response back. */
  function ReadResponse<T>(resp: JsonResponse<T>): Result<T, string> {
    if resp.code == OK_CODE && resp.data.Some? then Ok(resp.data.value) else Err(resp.msg)
  }

  /** The envelope loses nothing: reading a wrapped result back gives the
      result. */
  lemma ReadWrapResponse<T>(r: Result<T, string>)
    ensures ReadResponse(WrapResponse(r)) == r
    ensures WrapResponse(r).code == if r.Ok? then OK_CODE else ERROR_CODE
    ensures WrapResponse(r).msg == if r.Ok? then OK_MESSAGE else r.error
  {
  }

  /** The `data` a response can carry. */
  datatype Payload =
    | VersionData(info: ServiceVersionInfo)
    | StatusData(status: Handle.Snapshot)
    | LogsData(lines: seq<string>)
    | NoData

  type Response = JsonResponse<Payload>

  function WithPayload<T>(r: Result<T, string>, data: Payload): Result<Payload, string> {
    match r
    case Ok(_) => Ok(data)
    case Err(e) => Err(e)
  }

  function VersionResult(r: Result<ServiceVersionInfo, string>): Result<Payload, string> {
    match r
    case Ok(v) => Ok(VersionData(v))
    case Err(e) => Err(e)
  }

  function StatusResult(r: Result<Handle.Snapshot, string>): Result<Payload, string> {
    match r
    case Ok(s) => Ok(StatusData(s))
    case Err(e) => Err(e)
  }

  /** The build the service runs as: target, `cfg!(debug_assertions)`, and
      the crate version. */
  datatype Host = Host(platform: Platform, debugBuild: bool, version: string)

  /** The outcomes of the system calls the handling of one command makes,
      and the moment it happens. */
  datatype Env = Env(
    now: int,
    killResult: Result<(), string>,
    spawned: Result<ChildId, string>,
    existingLogLen: Option<nat>,
    logLines: seq<string>,
    socketExists: bool,
    removeResult: Result<(), string>,
    writeResult: Result<(), string>)

  /** `StopClash` on unix deletes the core's socket file when the request
      recorded before the stop asked for a local socket and the file
      exists. */
  predicate RemovesSocket(platform: Platform, captured: Option<StartBody>, env: Env) {
    platform == Unix && captured.Some? && captured.value.useLocalSocket && env.socketExists
  }

  /** `handle_socket_command`: runs the one handler of `cmd`, wraps its
      result, and writes it. `answer` is the response the handler
      produced, `None` when it panicked or the socket file could not be
      removed; it is written exactly when the result is `Ok`. */
  method HandleSocketCommand(status: Handle.ClashStatus, logs: LogConfig.LogConfig, cmd: SocketCommand, host: Host, env: Env)
    returns (r: Panicking<Result<(), string>>, answer: Option<Response>, effects: seq<Effect>)
    requires status.Valid() && logs.Valid()
    modifies status, logs
    ensures status.Valid() && logs.Valid()
    ensures StoppedService !in effects
    ensures r.Returned? && answer.Some? ==> r.value == env.writeResult
    ensures r == Returned(Ok(())) ==> answer.Some?
    ensures r.Panicked? ==> answer.None?
    ensures cmd.GetVersion? || cmd.GetClash? || cmd.GetLogs? || cmd.StopService? ==>
      && answer.Some? && r == Returned(env.writeResult) && effects == []
      && unchanged(status) && unchanged(logs)
    ensures cmd.GetVersion? ==>
      answer == Some(JsonResponse(OK_CODE, OK_MESSAGE, Some(VersionData(ServiceVersionInfo(host.version, Handle.SERVICE_TITLE)))))
    ensures cmd.GetClash? ==> answer == Some(WrapResponse(StatusResult(status.GetClash())))
    ensures cmd.GetLogs? ==> answer == Some(JsonResponse(OK_CODE, OK_MESSAGE, Some(LogsData(env.logLines))))
    ensures cmd.StopService? ==> answer == Some(JsonResponse(OK_CODE, OK_MESSAGE, Some(NoData)))
    ensures cmd.StartClash? ==>
      var stopFails := old(status.child).Some? && env.killResult.Err?;
      && (!stopFails ==> status.autoRestart && status.info == Some(cmd.body))
      && (r.Panicked? <==> !stopFails && Paths.SplitPath(cmd.body.logFile).None?)
      && (answer.Some? ==> (answer.value.code == OK_CODE <==>
            !stopFails && Paths.SplitPath(cmd.body.logFile).Some? && old(logs.logHandle).Some? && env.spawned.Ok?))
      && (answer.Some? && answer.value.code == OK_CODE ==> answer.value.data == Some(NoData))
      && (r.Returned? ==> answer.Some?)
    ensures cmd.StopClash? ==>
      var stopFails := old(status.child).Some? && env.killResult.Err?;
      var removes := RemovesSocket(host.platform, old(status.info), env);
      && unchanged(logs) && r.Returned?
      && (stopFails ==> status.info == old(status.info) && status.child == None)
      && (!stopFails ==> status.IsDefault(env.now))
      && (removes && env.removeResult.Err? ==> r.value == Err(env.removeResult.error) && answer.None?)
      && (!(removes && env.removeResult.Err?) ==>
            answer == Some(if stopFails then JsonResponse(ERROR_CODE, env.killResult.error, None)
                           else JsonResponse(OK_CODE, OK_MESSAGE, Some(NoData))))
      && (removes ==> |effects| > 0 && effects[|effects| - 1] == RemovedFile(SOCKET_PATH))
      && (!removes ==> RemovedFile(SOCKET_PATH) !in effects)
  {
    effects := [];
    var response: Response;
    match cmd {
      case GetVersion =>
        response := WrapResponse(VersionResult(Handle.GetVersion(host.version)));
      case GetClash =>
        response := WrapResponse(StatusResult(status.GetClash()));
      case GetLogs =>
        response := WrapResponse(Ok(LogsData(env.logLines)));
      case StartClash(body) =>
        var started;
        started, effects := status.StartClash(body, env.now, env.killResult, logs, host.debugBuild,
                                              env.existingLogLen, host.platform, env.spawned);
        if started.Panicked? {
          return Panicked(started.message), None, effects;
        }
        response := WrapResponse(WithPayload(started.value, NoData));
      case StopClash =>
        var captured := status.info;
        var stopped;
        stopped, effects := status.StopClash(env.now, env.killResult);
        response := WrapResponse(WithPayload(stopped, NoData));
        if RemovesSocket(host.platform, captured, env) {
          effects := effects + [RemovedFile(SOCKET_PATH)];
          if env.removeResult.Err? {
            return Returned(Err(env.removeResult.error)), None, effects;
          }
        }
      case StopService =>
        response := WrapResponse(Ok(NoData));
    }
    answer := Some(response);
    r := Returned(env.writeResult);
  }

  /** One line read from a connection: a line (its parsed command, `None`
      when it did not parse, and the system-call outcomes of handling
      it), the end of the stream, or a read error. */
  datatype ReadEvent =
    | Received(command: Option<SocketCommand>, env: Env)
    | Eof
    | ReadFailed(error: string)

  /** What the loop did with one line. */
  datatype LineOutcome =
    | Skipped
    | Handled(result: Panicking<Result<(), string>>, answer: Option<Response>)
    | Closed

  /** The events after which the loop stops reading. */
  predicate EndsConnection(e: ReadEvent) {
    e.Eof? || e.ReadFailed? || (e.Received? && e.command == Some(StopService))
  }

  /** A `StopService` command, after which the service shuts down. */
  predicate RequestsShutdown(e: ReadEvent) {
    e.Received? && e.command == Some(StopService)
  }

  /** A handler panicked: the connection's task is gone. */
  predicate Fatal(o: LineOutcome) {
    o.Handled? && o.result.Panicked?
  }

  /** The outcome fits the line: unparsable lines are skipped, commands are
      handled, and the end or a read error closes the connection. */
  predicate Fits(e: ReadEvent, o: LineOutcome) {
    match e
    case Received(None, _) => o == Skipped
    case Received(Some(_), _) => o.Handled?
    case Eof => o == Closed
    case ReadFailed(_) => o == Closed
  }

  /** The answer to a shutdown request. */
  const SHUTDOWN_ANSWER: Response := JsonResponse(OK_CODE, OK_MESSAGE, Some(NoData))

  /** The answer of a command that does not depend on the status: the
      version, the log lines, or the plain `ok` of a shutdown request. */
  function FixedAnswer(cmd: SocketCommand, host: Host, env: Env): Option<Response> {
    match cmd
    case GetVersion => Some(JsonResponse(OK_CODE, OK_MESSAGE, Some(VersionData(ServiceVersionInfo(host.version, Handle.SERVICE_TITLE)))))
    case GetLogs => Some(JsonResponse(OK_CODE, OK_MESSAGE, Some(LogsData(env.logLines))))
    case StopService => Some(SHUTDOWN_ANSWER)
    case _ => None
  }

  /** How a parsed command is answered: it is handled; a handling that
      returns `Ok` has a response to write; a returned result that comes
      with a response is the outcome of writing it; only a start request
      whose log path has no file name panics; only a stop whose socket
      file could not be removed returns without a response; and a command whose
      answer does not depend on the status gets exactly that answer,
      written without a panic. */
  predicate Answered(e: ReadEvent, o: LineOutcome, host: Host) {
    e.Received? && e.command.Some? ==>
      && o.Handled?
      && (o.result == Returned(Ok(())) ==> o.answer.Some?)
      && (o.result.Returned? && o.answer.Some? ==> o.result.value == e.env.writeResult)
      && (o.result.Panicked? ==> e.command.value.StartClash? && Paths.SplitPath(e.command.value.body.logFile).None?)
      && (o.result.Returned? && o.answer.None? ==> e.command.value == StopClash && e.env.removeResult.Err?)
      && (FixedAnswer(e.command.value, host, e.env).Some? ==>
            o == Handled(Returned(e.env.writeResult), FixedAnswer(e.command.value, host, e.env)))
  }

  /** A line holding a start or stop request, the only commands that
      change the status or the log configuration. */
  predicate ChangesStatus(e: ReadEvent) {
    e.Received? && e.command.Some? && (e.command.value.StartClash? || e.command.value.StopClash?)
  }

  /** No line of a connection holds a start or stop request. */
  predicate ReadsOnly(lines: seq<ReadEvent>) {
    forall k | 0 <= k < |lines| :: !ChangesStatus(lines[k])
  }

  /** The outcome of a line fits it, and a parsed command is answered. */
  predicate LineServed(e: ReadEvent, o: LineOutcome, host: Host) {
    Fits(e, o) && Answered(e, o, host)
  }

  /** The responses written, in order: one per command whose handling
      returned `Ok`. */
  function Written(outcomes: seq<LineOutcome>): seq<Response>
    decreases |outcomes|
  {
    if |outcomes| == 0 then []
    else
      var o := outcomes[|outcomes| - 1];
      Written(outcomes[..|outcomes| - 1]) +
        (if o.Handled? && o.result == Returned(Ok(())) && o.answer.Some? then [o.answer.value] else [])
  }

  /** Every line read so far has been served. */
  predicate AllServed(lines: seq<ReadEvent>, outcomes: seq<LineOutcome>, host: Host) {
    |outcomes| <= |lines| && forall k | 0 <= k < |outcomes| :: LineServed(lines[k], outcomes[k], host)
  }

  lemma AllServedSnoc(lines: seq<ReadEvent>, outcomes: seq<LineOutcome>, o: LineOutcome, host: Host)
    requires AllServed(lines, outcomes, host) && |outcomes| < |lines|
    requires LineServed(lines[|outcomes|], o, host)
    ensures AllServed(lines, outcomes + [o], host)
  {
    var next := outcomes + [o];
    assert forall k | 0 <= k < |outcomes| :: next[k] == outcomes[k];
  }

  /** The number of parsed commands among `lines`. */
  function ParsedCount(lines: seq<ReadEvent>): nat
    decreases |lines|
  {
    if |lines| == 0 then 0
    else
      var e := lines[|lines| - 1];
      ParsedCount(lines[..|lines| - 1]) + (if e.Received? && e.command.Some? then 1 else 0)
  }

  /** A line whose handling cannot fail: its response can be written, a
      stop can remove the socket file, and a start's log path has a file
      name. */
  predicate Unfailing(e: ReadEvent) {
    e.Received? && e.command.Some? ==>
      && e.env.writeResult.Ok? && e.env.removeResult.Ok?
      && (e.command.value.StartClash? ==> Paths.SplitPath(e.command.value.body.logFile).Some?)
  }

  /** When no handling fails, every parsed command writes exactly one
      response and nothing else writes one. */
  lemma {:induction false} EveryCommandWritesOnce(lines: seq<ReadEvent>, outcomes: seq<LineOutcome>, host: Host)
    requires AllServed(lines, outcomes, host)
    requires forall k | 0 <= k < |outcomes| :: Unfailing(lines[k])
    ensures |Written(outcomes)| == ParsedCount(lines[..|outcomes|])
    decreases |outcomes|
  {
    if |outcomes| > 0 {
      var n := |outcomes| - 1;
      var front := outcomes[..n];
      assert forall k | 0 <= k < |front| :: front[k] == outcomes[k];
      assert AllServed(lines, front, host);
      EveryCommandWritesOnce(lines, front, host);
      assert lines[..n + 1][..n] == lines[..n];
      var e, o := lines[n], outcomes[n];
      assert LineServed(e, o, host) && Unfailing(e);
      if e.Received? && e.command.Some? {
        UnitOk(e.env.writeResult);
        assert o.Handled? && o.result == Returned(Ok(())) && o.answer.Some?;
      }
    }
  }

  /** What serving the lines of one connection amounts to: each line
      read gets the outcome that fits it and each parsed command its
      answer; reading stops only after the end of input, a read error, a
      shutdown request or a panic; the responses written are those of the
      successful commands, in order; a shutdown is signalled exactly when
      the last line read asks for it, and then its `ok` response is the
      last one written unless the write failed. */
  predicate Served(lines: seq<ReadEvent>, outcomes: seq<LineOutcome>, written: seq<Response>, shutdown: bool, host: Host) {
    && |outcomes| <= |lines|
    && AllServed(lines, outcomes, host)
    && (forall k | 0 <= k < |outcomes| - 1 :: !EndsConnection(lines[k]) && !Fatal(outcomes[k]))
    && (|outcomes| < |lines| ==>
          |outcomes| > 0 && (EndsConnection(lines[|outcomes| - 1]) || Fatal(outcomes[|outcomes| - 1])))
    && written == Written(outcomes)
    && (shutdown <==> |outcomes| > 0 && RequestsShutdown(lines[|outcomes| - 1]))
    && (shutdown && lines[|outcomes| - 1].env.writeResult.Ok? ==>
          |written| > 0 && written[|written| - 1] == SHUTDOWN_ANSWER)
  }

  /** The answer of a line holding such a command. */
  function AnswerTo(e: ReadEvent, host: Host): Option<Response> {
    if e.Received? && e.command.Some? then FixedAnswer(e.command.value, host, e.env) else None
  }

  /** A parsed command whose answer does not depend on the status, and
      whose response can be written. */
  predicate IsQuery(e: ReadEvent, host: Host) {
    AnswerTo(e, host).Some? && e.env.writeResult.Ok?
  }

  /** Lines that are all such queries write exactly their answers: one
      response per command, in the order read. */
  lemma {:induction false} QueriesWriteTheirAnswers(lines: seq<ReadEvent>, outcomes: seq<LineOutcome>, host: Host)
    requires |outcomes| <= |lines|
    requires forall k | 0 <= k < |outcomes| :: LineServed(lines[k], outcomes[k], host) && IsQuery(lines[k], host)
    ensures |Written(outcomes)| == |outcomes|
    ensures forall k | 0 <= k < |outcomes| :: Some(Written(outcomes)[k]) == AnswerTo(lines[k], host)
    decreases |outcomes|
  {
    if |outcomes| > 0 {
      var n := |outcomes| - 1;
      var front := outcomes[..n];
      assert forall k | 0 <= k < |front| :: front[k] == outcomes[k];
      QueriesWriteTheirAnswers(lines, front, host);
      UnitOk(lines[n].env.writeResult);
      assert outcomes[n] == Handled(Returned(Ok(())), AnswerTo(lines[n], host));
    }
  }

  /** A connection whose first line asks for a shutdown reads nothing
      more, writes the `ok` response when the write succeeds, and then
      signals the shutdown. */
  lemma ShutdownAnsweredFirst(lines: seq<ReadEvent>, outcomes: seq<LineOutcome>, written: seq<Response>,
                              shutdown: bool, host: Host)
    requires |lines| > 0 && RequestsShutdown(lines[0]) && lines[0].env.writeResult.Ok?
    requires Served(lines, outcomes, written, shutdown, host)
    ensures shutdown && |outcomes| == 1 && written == [SHUTDOWN_ANSWER]
  {
    UnitOk(lines[0].env.writeResult);
    assert outcomes[0] == Handled(Returned(Ok(())), AnswerTo(lines[0], host));
    assert outcomes[..0] == [];
    assert Written(outcomes) == Written([]) + [SHUTDOWN_ANSWER];
  }

  /** The loop of `spawn_read_task` over the lines of one connection. */
  method ServeConnection(status: Handle.ClashStatus, logs: LogConfig.LogConfig, lines: seq<ReadEvent>, host: Host)
    returns (outcomes: seq<LineOutcome>, written: seq<Response>, shutdown: bool, effects: seq<Effect>)
    requires status.Valid() && logs.Valid()
    modifies status, logs
    ensures status.Valid() && logs.Valid()
    ensures StoppedService !in effects
    ensures Served(lines, outcomes, written, shutdown, host)
    ensures ReadsOnly(lines) ==> unchanged(status) && unchanged(logs) && effects == []
  {
    outcomes, written, shutdown, effects := [], [], false, [];
    var done := false;
    var i := 0;
    while i < |lines| && !done
      invariant 0 <= i <= |lines| && |outcomes| == i
      invariant status.Valid() && logs.Valid()
      invariant AllServed(lines, outcomes, host)
      invariant forall k | 0 <= k < i - (if done then 1 else 0) :: !EndsConnection(lines[k]) && !Fatal(outcomes[k])
      invariant done ==> i > 0 && (EndsConnection(lines[i - 1]) || Fatal(outcomes[i - 1]))
      invariant written == Written(outcomes)
      invariant StoppedService !in effects
      invariant ReadsOnly(lines) ==> unchanged(status) && unchanged(logs) && effects == []
      invariant shutdown <==> done && RequestsShutdown(lines[i - 1])
      invariant shutdown && lines[i - 1].env.writeResult.Ok? ==> |written| > 0 && written[|written| - 1] == SHUTDOWN_ANSWER
      decreases |lines| - i, if done then 0 else 1
    {
      assert ReadsOnly(lines) ==> !ChangesStatus(lines[i]);
      var o, handled := ServeLine(status, logs, lines[i], host);
      effects := effects + handled;
      done := EndsConnection(lines[i]) || Fatal(o);
      shutdown := RequestsShutdown(lines[i]);
      if shutdown && lines[i].env.writeResult.Ok? {
        UnitOk(lines[i].env.writeResult);
      }
      assert (outcomes + [o])[..|outcomes|] == outcomes;
      AllServedSnoc(lines, outcomes, o, host);
      outcomes := outcomes + [o];
      if o.Handled? && o.result == Returned(Ok(())) && o.answer.Some? {
        written := written + [o.answer.value];
      }
      i := i + 1;
    }
  }

  /** The only success of a unit result is `Ok(())`. */
  lemma UnitOk(r: Result<(), string>)
    requires r.Ok?
    ensures r == Ok(())
  {
    match r {
      case Ok(unit) => assert unit == ();
    }
  }

  /** One turn of the read loop: a parsed command goes to the handler, an
      unparsable line is skipped, and the end of input or a read error
      closes the connection. A command that only reads changes nothing,
      and one whose answer does not depend on the status gets it. */
  method ServeLine(status: Handle.ClashStatus, logs: LogConfig.LogConfig, e: ReadEvent, host: Host)
    returns (o: LineOutcome, effects: seq<Effect>)
    requires status.Valid() && logs.Valid()
    modifies status, logs
    ensures status.Valid() && logs.Valid()
    ensures LineServed(e, o, host)
    ensures RequestsShutdown(e) ==> o == Handled(Returned(e.env.writeResult), Some(SHUTDOWN_ANSWER))
    ensures StoppedService !in effects
    ensures e.Received? && e.command == Some(GetClash) ==>
      o == Handled(Returned(e.env.writeResult), Some(WrapResponse(StatusResult(status.GetClash()))))
    ensures !ChangesStatus(e) ==> unchanged(status) && unchanged(logs) && effects == []
  {
    effects := [];
    match e {
      case Eof =>
        o := Closed;
      case ReadFailed(_) =>
        o := Closed;
      case Received(None, _) =>
        o := Skipped;
      case Received(Some(cmd), env) =>
        var r, answer;
        r, answer, effects := HandleSocketCommand(status, logs, cmd, host, env);
        o := Handled(r, answer);
    }
  }

  /** How the service loop ends: stopped after a shutdown request (the
      source's `Ok(())`), still waiting for connections when the trace of
      connections runs out, or panicked, on an accept error or when
      `systemctl` cannot be run. */
  datatype ServiceEnd = Stopped | Waiting | Crashed(message: string)

  /** The service loop of `run_service`, serving the accepted connections
      one after another until one of them requests a shutdown, which stops
      the service. An accept error is the source's `unreachable!`.
      `stopResult` is the outcome of `stop_service`: on unix a `systemctl`
      that cannot be run panics through `expect`, whose message carries
      the error's `Debug` text, here `stopResult.error`; on Windows a
      failure to report the stopped state is ignored. The `StoppedService`
      effect happens only when `stop_service` succeeds. */
  method RunService(status: Handle.ClashStatus, logs: LogConfig.LogConfig, connections: seq<Result<seq<ReadEvent>, string>>,
                    host: Host, stopResult: Result<(), string>)
    returns (end: ServiceEnd, shutdowns: seq<bool>, served: seq<seq<LineOutcome>>, responses: seq<seq<Response>>, effects: seq<Effect>)
    requires status.Valid() && logs.Valid()
    modifies status, logs
    ensures status.Valid() && logs.Valid()
    ensures |served| == |responses| == |shutdowns| <= |connections|
    ensures forall k | 0 <= k < |shutdowns| ::
      connections[k].Ok? && Served(connections[k].value, served[k], responses[k], shutdowns[k], host)
    ensures forall k | 0 <= k < |shutdowns| - 1 :: !shutdowns[k]
    ensures var stopping := |shutdowns| > 0 && shutdowns[|shutdowns| - 1];
      && (stopping ==>
            end == if host.platform == Unix && stopResult.Err? then Crashed(STOP_FAILED + ": " + stopResult.error) else Stopped)
      && (!stopping && |shutdowns| < |connections| ==> connections[|shutdowns|].Err? && end == Crashed(INCOMING_FAILED))
      && (!stopping && |shutdowns| == |connections| ==> end == Waiting)
      && (StoppedService in effects <==> stopping && stopResult.Ok?)
      && (StoppedService in effects ==> effects[|effects| - 1] == StoppedService)
  {
    shutdowns, served, responses, effects := [], [], [], [];
    var k := 0;
    while k < |connections|
      invariant 0 <= k <= |connections| && |served| == |shutdowns| == |responses| == k
      invariant status.Valid() && logs.Valid()
      invariant forall j | 0 <= j < k ::
        connections[j].Ok? && !shutdowns[j] && Served(connections[j].value, served[j], responses[j], shutdowns[j], host)
      invariant StoppedService !in effects
      decreases |connections| - k
    {
      match connections[k] {
        case Err(_) =>
          return Crashed(INCOMING_FAILED), shutdowns, served, responses, effects;
        case Ok(lines) =>
          var outcomes, written, shutdown, handled := ServeConnection(status, logs, lines, host);
          shutdowns := shutdowns + [shutdown];
          served := served + [outcomes];
          responses := responses + [written];
          effects := effects + handled;
          if shutdown {
            if stopResult.Err? {
              end := if host.platform == Unix then Crashed(STOP_FAILED + ": " + stopResult.error) else Stopped;
              return end, shutdowns, served, responses, effects;
            }
            effects := effects + [StoppedService];
            return Stopped, shutdowns, served, responses, effects;
          }
      }
      k := k + 1;
    }
    end := Waiting;
  }
}
