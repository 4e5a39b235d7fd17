/** The core-process supervisor of src/service/handle.rs: the global
    `ClashStatus` record, the commands that start, stop and inspect the
    core, the argument vector of the core, the restart rule applied when
    the core exits, and the log-level classifier for the core's output.

    The operating system enters as parameters (the clock in whole seconds,
    the outcome of a kill or a spawn, the length of an existing log file)
    and leaves as the `Effect`s each operation returns. */
module Handle {
  import opened Wrappers
  import opened Data
  import LogConfig
  import Paths

  const DEFAULT_RETRY_COUNT: u8 := 10
  /** The restart budget is reset when the core ran longer than this many
      seconds. */
  const INTERVAL_TIME: int := 60
  const CORE_PROCESS_NAME: string := "verge-mihomo"
  const SERVICE_TITLE: string := "Clash Verge Self Service"

  const SPAWN_FAILED: string := "failed to spawn clash"
  const RETRY_EXCEEDED: string := "clash not executed, retry count exceeded!"
  const NOT_EXECUTED: string := "clash not executed"
  const NO_LOG_FILE_NAME: string := "called `Option::unwrap()` on a `None` value"

  /** `get_version`; `version` is the crate version compiled in. */
  function GetVersion(version: string): (r: Result<ServiceVersionInfo, string>)
    ensures r.Ok? && r.value.version == version && r.value.service == SERVICE_TITLE
  {
    Ok(ServiceVersionInfo(version, SERVICE_TITLE))
  }

  // ---- The argument vector of the core ----

  /** The flag naming the external controller socket. */
  function ExtCtlFlag(platform: Platform): string {
    match platform
    case Unix => "-ext-ctl-unix"
    case Windows => "-ext-ctl-pipe"
  }

  /** The arguments `run_core` passes to the core. */
  function CoreArgs(body: StartBody, platform: Platform): (args: seq<string>)
    ensures |args| == if body.socketPath.Some? then 6 else 4
    ensures args[..4] == ["-d", body.configDir, "-f", body.configFile]
  {
    var args := ["-d", body.configDir, "-f", body.configFile];
    assert args[..4] == args;
    match body.socketPath
    case Some(socket) =>
      var full := args + [ExtCtlFlag(platform)] + [socket];
      assert |full| == 6 && full[..4] == args;
      full
    case None => args
  }

  /** The value of the first `flag value` pair, reading the arguments two
      at a time as the core's flag parser does. */
  function FlagValue(args: seq<string>, flag: string): Option<string>
    decreases |args|
  {
    if |args| < 2 then None
    else if args[0] == flag then Some(args[1])
    else FlagValue(args[2..], flag)
  }

  /** The core reads back the configuration directory, the configuration
      file, and the socket path exactly when one was given, under the
      platform's flag. */
  lemma CoreArgsRead(body: StartBody, platform: Platform)
    ensures FlagValue(CoreArgs(body, platform), "-d") == Some(body.configDir)
    ensures FlagValue(CoreArgs(body, platform), "-f") == Some(body.configFile)
    ensures FlagValue(CoreArgs(body, platform), ExtCtlFlag(platform)) == body.socketPath
  {
    var args := CoreArgs(body, platform);
    var flag := ExtCtlFlag(platform);
    assert args[2..][2..] == args[4..];
    assert FlagValue(args, flag) == FlagValue(args[2..], flag) == FlagValue(args[4..], flag);
    if body.socketPath.Some? {
      assert args[4..] == [flag, body.socketPath.value];
    } else {
      assert args[4..] == [];
    }
  }

  // ---- The level of a line the core prints ----

  /** `\w` of the `regex` crate, on ASCII. */
  predicate IsWordChar(c: char) {
    ('a' <= c <= 'z') || ('A' <= c <= 'Z') || ('0' <= c <= '9') || c == '_'
  }

  /** `level=` followed by a word character starts at `i`. */
  predicate MatchesAt(s: string, i: nat) {
    i + 7 <= |s| && s[i..i + 6] == "level=" && IsWordChar(s[i + 6])
  }

  /** The end of the run of word characters starting at `i`. */
  function WordEnd(s: string, i: nat): (j: nat)
    requires i <= |s|
    ensures i <= j <= |s|
    ensures forall k | i <= k < j :: IsWordChar(s[k])
    ensures j == |s| || !IsWordChar(s[j])
    decreases |s| - i
  {
    if i < |s| && IsWordChar(s[i]) then WordEnd(s, i + 1) else i
  }

  lemma {:induction false} WordEndAt(s: string, i: nat, e: nat)
    requires i <= e <= |s|
    requires forall k | i <= k < e :: IsWordChar(s[k])
    requires e == |s| || !IsWordChar(s[e])
    ensures WordEnd(s, i) == e
    decreases e - i
  {
    if i < e {
      WordEndAt(s, i + 1, e);
    }
  }

  /** The leftmost match at or after `i`. */
  function FirstMatchFrom(s: string, i: nat): (r: Option<nat>)
    requires i <= |s|
    ensures r.Some? ==> i <= r.value && MatchesAt(s, r.value)
    ensures r.Some? ==> forall j | i <= j < r.value :: !MatchesAt(s, j)
    ensures r.None? ==> forall j | i <= j <= |s| :: !MatchesAt(s, j)
    decreases |s| - i
  {
    if i + 7 > |s| then None
    else if MatchesAt(s, i) then Some(i)
    else FirstMatchFrom(s, i + 1)
  }

  /** The first capture of `level=(\w+)`. */
  function LevelCapture(line: string): Option<string> {
    match FirstMatchFrom(line, 0)
    case Some(i) => Some(line[i + 6..WordEnd(line, i + 6)])
    case None => None
  }

  /** The level `wrap_mihomo_log` logs a line of the core at: the captured
      word picks error, warn or info, a missing tag counts as info, and any
      other word is logged at debug. */
  function MihomoLevel(line: string): (r: LogConfig.Level)
    ensures r == LogConfig.Error <==> LevelCapture(line) == Some("error")
    ensures r == LogConfig.Warn <==> LevelCapture(line) == Some("warning")
    ensures r == LogConfig.Info <==> LevelCapture(line) in {None, Some("info")}
    ensures r == LogConfig.Debug <==> LevelCapture(line) !in {None, Some("error"), Some("warning"), Some("info")}
  {
    var word := match LevelCapture(line) case Some(w) => w case None => "info";
    if word == "error" then LogConfig.Error
    else if word == "warning" then LogConfig.Warn
    else if word == "info" then LogConfig.Info
    else if word == "debug" then LogConfig.Debug
    else LogConfig.Debug
  }

  /** A line whose first `level=` tag is followed by the word `w` is
      classified by `w`. */
  lemma LevelOfTaggedLine(pre: string, w: string, post: string)
    requires |w| > 0 && forall k | 0 <= k < |w| :: IsWordChar(w[k])
    requires post == "" || !IsWordChar(post[0])
    requires forall j | 0 <= j < |pre| :: !MatchesAt(pre + "level=" + w + post, j)
    ensures LevelCapture(pre + "level=" + w + post) == Some(w)
    ensures MihomoLevel(pre + "level=" + w + post) ==
      if w == "error" then LogConfig.Error
      else if w == "warning" then LogConfig.Warn
      else if w == "info" then LogConfig.Info
      else LogConfig.Debug
  {
    var s := pre + "level=" + w + post;
    var i := |pre|;
    assert s[i..i + 6] == "level=";
    assert s[i + 6] == w[0];
    assert MatchesAt(s, i);
    var m := FirstMatchFrom(s, 0);
    assert m == Some(i);
    var j := WordEnd(s, i + 6);
    assert forall k | 0 <= k < |w| :: s[i + 6 + k] == w[k];
    assert s[i + 6 + |w|..] == post;
    WordEndAt(s, i + 6, i + 6 + |w|);
    assert s[i + 6..j] == w;
  }

  /** Without a `level=` tag a line is logged at info. */
  lemma LevelOfUntaggedLine(line: string)
    requires forall j | 0 <= j <= |line| :: !MatchesAt(line, j)
    ensures MihomoLevel(line) == LogConfig.Info
  {
  }

  // ---- The restart rule ----

  /** What the wait thread does when the core exits, while `auto_restart`
      is set: given the budget and the seconds since the core was last
      started, the new budget and whether the core is relaunched. A run
      longer than `INTERVAL_TIME` restores the full budget first. */
  function ExitRule(count: u8, elapsed: int): (r: (u8, bool))
    ensures r.1 <==> elapsed > INTERVAL_TIME || count > 0
    ensures r.1 && elapsed > INTERVAL_TIME ==> r.0 == DEFAULT_RETRY_COUNT - 1
    ensures r.1 && elapsed <= INTERVAL_TIME ==> r.0 == count - 1
    ensures !r.1 ==> r.0 == 0
  {
    var budget: u8 := if elapsed > INTERVAL_TIME then DEFAULT_RETRY_COUNT else count;
    if budget > 0 then (budget - 1, true) else (budget, false)
  }

  /** The budget never exceeds its default. */
  lemma ExitRuleKeepsBound(count: u8, elapsed: int)
    requires count <= DEFAULT_RETRY_COUNT
    ensures ExitRule(count, elapsed).0 <= DEFAULT_RETRY_COUNT
  {
  }

  /** The number of relaunches over successive exits, each after
      `elapsed[k]` seconds of running. */
  function Relaunches(count: u8, elapsed: seq<int>): nat
    decreases |elapsed|
  {
    if |elapsed| == 0 then 0
    else
      var (after, relaunch) := ExitRule(count, elapsed[0]);
      (if relaunch then 1 else 0) + Relaunches(after, elapsed[1..])
  }

  /** A core that keeps exiting within `INTERVAL_TIME` is relaunched as
      many times as the budget allows and no more. */
  lemma {:induction false} RestartsWithinInterval(count: u8, elapsed: seq<int>)
    requires forall k | 0 <= k < |elapsed| :: elapsed[k] <= INTERVAL_TIME
    ensures Relaunches(count, elapsed) == if |elapsed| < count then |elapsed| else count
    decreases |elapsed|
  {
    if |elapsed| > 0 {
      var (after, relaunch) := ExitRule(count, elapsed[0]);
      assert forall k | 0 <= k < |elapsed[1..]| :: elapsed[1..][k] == elapsed[k + 1];
      RestartsWithinInterval(after, elapsed[1..]);
    }
  }

  /** The serialized status: every field but the child slot. */
  datatype Snapshot = Snapshot(autoRestart: bool, restartRetryCount: u8, lastRunningTime: int, info: Option<StartBody>)

  /** The global `ClashStatus`. */
  class ClashStatus {
    var autoRestart: bool
    var restartRetryCount: u8
    var child: Option<ChildId>
    var lastRunningTime: int
    var info: Option<StartBody>

    /** The budget stays within its default, a start request is recorded
        exactly while automatic restart is on, and a child is held only
        then. */
    ghost predicate Valid()
      reads this
    {
      && restartRetryCount <= DEFAULT_RETRY_COUNT
      && (autoRestart <==> info.Some?)
      && (child.Some? ==> autoRestart)
    }

    /** `ClashStatus::default()` made at time `now`. */
    predicate IsDefault(now: int)
      reads this
    {
      !autoRestart && restartRetryCount == DEFAULT_RETRY_COUNT && child == None && lastRunningTime == now && info == None
    }

    constructor (now: int)
      ensures Valid() && IsDefault(now)
    {
      autoRestart := false;
      restartRetryCount := DEFAULT_RETRY_COUNT;
      child := None;
      lastRunningTime := now;
      info := None;
    }

    function Snap(): Snapshot
      reads this
    {
      Snapshot(autoRestart, restartRetryCount, lastRunningTime, info)
    }

    /** `get_clash`. The source's arm for a recorded request with an
        exhausted budget follows a test that already returned for that
        case, so it is unreachable and left out. */
    function GetClash(): (r: Result<Snapshot, string>)
      reads this
      ensures r.Ok? <==> restartRetryCount > 0 && info.Some?
      ensures r.Ok? ==> r.value == Snap()
      ensures restartRetryCount == 0 ==> r == Err(RETRY_EXCEEDED)
      ensures restartRetryCount > 0 && info.None? ==> r == Err(NOT_EXECUTED)
    {
      if restartRetryCount == 0 then Err(RETRY_EXCEEDED)
      else
        match info
        case Some(_) => Ok(Snap())
        case None => Err(NOT_EXECUTED)
    }

    /** The effects of a stop that gets past the kill of `child`: that
        kill, the clearing of the log buffer and the kill by name. */
    static function StopEffects(child: Option<ChildId>): seq<Effect> {
      (if child.Some? then [Killed(child.value)] else []) + [ClearedLog, KilledByName(CORE_PROCESS_NAME)]
    }

    /** `stop_clash` at time `now`; `killResult` is the outcome of killing
        the child, if there is one. The child slot is emptied first; a
        failed kill ends the command there. Otherwise the whole status is
        reset, the core's log buffer cleared and every `verge-mihomo`
        process killed. */
    method StopClash(now: int, killResult: Result<(), string>) returns (r: Result<(), string>, effects: seq<Effect>)
      requires Valid()
      modifies this
      ensures Valid() && child == None
      ensures old(child).Some? && killResult.Err? ==>
        && r == Err(killResult.error) && effects == [Killed(old(child).value)]
        && autoRestart == old(autoRestart) && restartRetryCount == old(restartRetryCount)
        && lastRunningTime == old(lastRunningTime) && info == old(info)
      ensures !(old(child).Some? && killResult.Err?) ==>
        && r == Ok(()) && IsDefault(now)
        && effects == StopEffects(old(child))
    {
      effects := [];
      var taken := child;
      child := None;
      if taken.Some? {
        effects := effects + [Killed(taken.value)];
        if killResult.Err? {
          return Err(killResult.error), effects;
        }
      }
      autoRestart := false;
      restartRetryCount := DEFAULT_RETRY_COUNT;
      lastRunningTime := now;
      info := None;
      effects := effects + [ClearedLog];
      effects := effects + [KilledByName(CORE_PROCESS_NAME)];
      r := Ok(());
    }

    /** `run_core`: spawns the core with its arguments and records the
        child and the start time; `spawned` is the outcome of the spawn. */
    method RunCore(body: StartBody, now: int, platform: Platform, spawned: Result<ChildId, string>)
      returns (r: Result<(), string>, effects: seq<Effect>)
      requires Valid() && autoRestart
      modifies this
      ensures Valid()
      ensures autoRestart == old(autoRestart) && restartRetryCount == old(restartRetryCount) && info == old(info)
      ensures spawned.Err? ==> r == Err(SPAWN_FAILED) && effects == []
      ensures spawned.Err? ==> child == old(child) && lastRunningTime == old(lastRunningTime)
      ensures spawned.Ok? ==> r == Ok(()) && child == Some(spawned.value) && lastRunningTime == now
      ensures spawned.Ok? ==> effects == [Spawned(spawned.value, body.binPath, CoreArgs(body, platform))]
    {
      var args := CoreArgs(body, platform);
      if spawned.Err? {
        return Err(SPAWN_FAILED), [];
      }
      child := Some(spawned.value);
      lastRunningTime := now;
      r, effects := Ok(()), [Spawned(spawned.value, body.binPath, args)];
    }

    /** `start_clash`: a stop, then the request is recorded with automatic
        restart on, `update_config` is called with the request's log file
        and no size limit, and the core is run. A failure after the stop
        leaves the request recorded. A log path without a parent or a file
        name panics. As `update_config` is written, the handle is rebuilt
        for the request's file unless the stored settings already match,
        and the stored settings themselves never change. */
    method StartClash(body: StartBody, now: int, killResult: Result<(), string>, logs: LogConfig.LogConfig,
                      debugBuild: bool, existingLen: Option<nat>, platform: Platform, spawned: Result<ChildId, string>)
      returns (r: Panicking<Result<(), string>>, effects: seq<Effect>)
      requires Valid() && logs.Valid()
      modifies this, logs
      ensures Valid() && logs.Valid()
      ensures StoppedService !in effects
      ensures old(child).Some? && killResult.Err? ==>
        && r == Returned(Err(killResult.error)) && effects == [Killed(old(child).value)]
        && child == None && info == old(info) && restartRetryCount == old(restartRetryCount)
        && autoRestart == old(autoRestart) && lastRunningTime == old(lastRunningTime)
        && logs.logHandle == old(logs.logHandle) && logs.logDir == old(logs.logDir)
      ensures !(old(child).Some? && killResult.Err?) ==>
        && autoRestart && info == Some(body) && restartRetryCount == DEFAULT_RETRY_COUNT
        && (r.Panicked? <==> Paths.SplitPath(body.logFile).None?)
        && (r == Returned(Ok(())) <==>
              Paths.SplitPath(body.logFile).Some? && old(logs.logHandle).Some? && spawned.Ok?)
        && (r == Returned(Ok(())) ==> child == Some(spawned.value) && lastRunningTime == now)
        && (r != Returned(Ok(())) ==> child == None && lastRunningTime == now)
        && effects == StopEffects(old(child)) +
             (if r == Returned(Ok(())) then [Spawned(spawned.value, body.binPath, CoreArgs(body, platform))] else [])
        && (r.Returned? && old(logs.logHandle).None? ==> r.value == Err(LogConfig.NO_HANDLE_FOR_CONFIG))
        && (r.Returned? && old(logs.logHandle).Some? && spawned.Err? ==> r.value == Err(SPAWN_FAILED))
        && (Paths.SplitPath(body.logFile).Some? && old(logs.logHandle).Some? ==>
              var f := Paths.SplitPath(body.logFile).value;
              if LogConfig.NeedsRebuild(old(logs.logFileName), old(logs.logDir), old(logs.limitedFileSize), f.name, f.dir, None)
              then logs.logHandle.Some? &&
                LogConfig.ConfigFor(logs.logHandle.value, f.name, Some(f.dir), old(logs.logLevel).value, debugBuild)
              else logs.logHandle == old(logs.logHandle))
      ensures logs.logFileName == old(logs.logFileName) && logs.logDir == old(logs.logDir)
      ensures logs.limitedFileSize == old(logs.limitedFileSize) && logs.logLevel == old(logs.logLevel)
    {
      var stopped;
      stopped, effects := StopClash(now, killResult);
      if stopped.Err? {
        return Returned(Err(stopped.error)), effects;
      }
      autoRestart := true;
      info := Some(body);
      var logFile := Paths.SplitPath(body.logFile);
      if logFile.None? {
        return Panicked(NO_LOG_FILE_NAME), effects;
      }
      ghost var f := logFile.value;
      ghost var before := LogConfig.NeedsRebuild(logs.logFileName, logs.logDir, logs.limitedFileSize, f.name, f.dir, None);
      var updated, rebuilt, rotation := logs.UpdateConfigAsWritten(logFile.value.name, logFile.value.dir, None, debugBuild, existingLen);
      assert old(logs.logHandle).Some? ==> (rebuilt <==> before);
      if updated.Err? {
        return Returned(Err(updated.error)), effects;
      }
      var ran, spawnEffects := RunCore(body, now, platform, spawned);
      effects := effects + spawnEffects;
      if ran.Err? {
        return Returned(Err(ran.error)), effects;
      }
      r := Returned(Ok(()));
    }

    /** The wait thread of `run_core`, when the child started with `body`
        exits at time `now`: nothing unless automatic restart is on;
        otherwise `ExitRule` decides the budget and the relaunch, which
        clears the log buffer and runs the core again with the same
        request. */
    method OnChildExit(body: StartBody, now: int, platform: Platform, spawned: Result<ChildId, string>)
      returns (effects: seq<Effect>)
      requires Valid()
      modifies this
      ensures Valid()
      ensures autoRestart == old(autoRestart) && info == old(info)
      ensures !old(autoRestart) ==>
        && effects == [] && restartRetryCount == old(restartRetryCount)
        && child == old(child) && lastRunningTime == old(lastRunningTime)
      ensures old(autoRestart) ==>
        var (budget, relaunch) := ExitRule(old(restartRetryCount), now - old(lastRunningTime));
        && restartRetryCount == budget
        && (relaunch && spawned.Ok? ==>
              && effects == [ClearedLog, Spawned(spawned.value, body.binPath, CoreArgs(body, platform))]
              && child == Some(spawned.value) && lastRunningTime == now)
        && (relaunch && spawned.Err? ==>
              effects == [ClearedLog] && child == old(child) && lastRunningTime == old(lastRunningTime))
        && (!relaunch ==> effects == [] && child == old(child) && lastRunningTime == old(lastRunningTime))
    {
      effects := [];
      if autoRestart {
        var elapsed := now - lastRunningTime;
        if elapsed > INTERVAL_TIME {
          restartRetryCount := DEFAULT_RETRY_COUNT;
        }
        if restartRetryCount > 0 {
          restartRetryCount := restartRetryCount - 1;
          effects := effects + [ClearedLog];
          var ran, spawnEffects := RunCore(body, now, platform, spawned);
          effects := effects + spawnEffects;
        }
      }
    }
  }
}
