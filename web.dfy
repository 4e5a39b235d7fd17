/** The older supervisor of src/service/web.rs: a `ClashStatus` without a
    child slot or a start time, whose restart rule only spends the budget
    and panics once it is spent. Spawning, log-file creation and process
    kills enter as parameters and effects, as in `Handle`. */
module Web {
  import opened Wrappers
  import opened Data

  const DEFAULT_RETRY_COUNT: u32 := 10
  const CORE_PROCESS_NAME: string := "verge-mihomo"
  const SERVICE_TITLE: string := "Clash Verge Service"

  const OPEN_LOG_FAILED: string := "failed to open log"
  const RESTART_FAILED: string := "failed to restart clash"
  const RETRY_EXCEEDED_PANIC: string := "failed to restart clash, retry count exceeded!"
  const RETRY_EXCEEDED: string := "clash not executed, retry count exceeded!"
  const NOT_EXECUTED: string := "clash not executed"

  /** `get_version`: a map with the service title and the version. */
  function GetVersion(version: string): (r: Result<map<string, string>, string>)
    ensures r.Ok? && r.value.Keys == {"service", "version"}
    ensures r.value["service"] == SERVICE_TITLE && r.value["version"] == version
  {
    Ok(map["service" := SERVICE_TITLE, "version" := version])
  }

  /** One exit while automatic restart is on, if the relaunch succeeds:
      the budget goes down by one, or the thread panics when it is spent.
      The time the core ran plays no part. */
  function ExitRule(count: u32): (r: Panicking<u32>)
    ensures r.Returned? <==> count > 0
    ensures r.Returned? ==> r.value < count && r.value + 1 == count
    ensures r.Panicked? ==> r.message == RETRY_EXCEEDED_PANIC
  {
    if count > 0 then Returned(count - 1) else Panicked(RETRY_EXCEEDED_PANIC)
  }

  /** `n` successive exits, each relaunch succeeding. */
  function Exits(count: u32, n: nat): Panicking<u32>
    decreases n
  {
    if n == 0 then Returned(count)
    else
      match ExitRule(count)
      case Panicked(m) => Panicked(m)
      case Returned(after) => Exits(after, n - 1)
  }

  /** A budget of `count` survives exactly `count` exits; the next one
      panics. */
  lemma {:induction false} ExitsSpendBudget(count: u32, n: nat)
    ensures Exits(count, n) == if n <= count then Returned(count - n) else Panicked(RETRY_EXCEEDED_PANIC)
    decreases n
  {
    if n > 0 && count > 0 {
      ExitsSpendBudget(count - 1, n - 1);
    }
  }

  /** `run_core`: creates the log file, then spawns the core with exactly
      `-d <config_dir> -f <config_file>`. It does not touch the status. */
  method RunCore(body: StartBody, logOpened: Result<(), string>, spawned: Result<ChildId, string>)
    returns (r: Result<(), string>, effects: seq<Effect>)
    ensures logOpened.Err? ==> r == Err(OPEN_LOG_FAILED) && effects == []
    ensures logOpened.Ok? && spawned.Err? ==> r == Err(spawned.error) && effects == []
    ensures logOpened.Ok? && spawned.Ok? ==>
      r == Ok(()) && effects == [Spawned(spawned.value, body.binPath, ["-d", body.configDir, "-f", body.configFile])]
  {
    var args := ["-d", body.configDir, "-f", body.configFile];
    if logOpened.Err? {
      return Err(OPEN_LOG_FAILED), [];
    }
    if spawned.Err? {
      return Err(spawned.error), [];
    }
    r, effects := Ok(()), [Spawned(spawned.value, body.binPath, args)];
  }

  /** The serialized status. */
  datatype Snapshot = Snapshot(autoRestart: bool, restartRetryCount: u32, info: Option<StartBody>)

  class ClashStatus {
    var autoRestart: bool
    var restartRetryCount: u32
    var info: Option<StartBody>

    ghost predicate Valid()
      reads this
    {
      restartRetryCount <= DEFAULT_RETRY_COUNT && (autoRestart <==> info.Some?)
    }

    predicate IsDefault()
      reads this
    {
      !autoRestart && restartRetryCount == DEFAULT_RETRY_COUNT && info == None
    }

    constructor ()
      ensures Valid() && IsDefault()
    {
      autoRestart := false;
      restartRetryCount := DEFAULT_RETRY_COUNT;
      info := None;
    }

    function Snap(): Snapshot
      reads this
    {
      Snapshot(autoRestart, restartRetryCount, info)
    }

    /** `get_clash`. The source's arm for a recorded request with an
        exhausted budget follows a test that already returned for that
        case, so it is unreachable and left out. */
    function GetClash(): (r: Result<Snapshot, string>)
      reads this
      ensures r.Ok? <==> restartRetryCount > 0 && info.Some?
      ensures r.Ok? ==> r.value == Snap()
      ensures restartRetryCount == 0 ==> r == Err(RETRY_EXCEEDED)
      ensures restartRetryCount > 0 && info.None? ==> r == Err(NOT_EXECUTED)
    {
      if restartRetryCount == 0 then Err(RETRY_EXCEEDED)
      else
        match info
        case None => Err(NOT_EXECUTED)
        case Some(_) => Ok(Snap())
    }

    /** `stop_clash`: resets the status and kills every `verge-mihomo`
        process; it cannot fail. */
    method StopClash() returns (r: Result<(), string>, effects: seq<Effect>)
      requires Valid()
      modifies this
      ensures Valid() && IsDefault()
      ensures r == Ok(()) && effects == [KilledByName(CORE_PROCESS_NAME)]
    {
      autoRestart := false;
      restartRetryCount := DEFAULT_RETRY_COUNT;
      info := None;
      r, effects := Ok(()), [KilledByName(CORE_PROCESS_NAME)];
    }

    /** `start_clash`: a stop, then the request is recorded with automatic
        restart on and the core is run; a failure of `run_core` leaves the
        request recorded. */
    method StartClash(body: StartBody, logOpened: Result<(), string>, spawned: Result<ChildId, string>)
      returns (r: Result<(), string>, effects: seq<Effect>)
      requires Valid()
      modifies this
      ensures Valid()
      ensures autoRestart && info == Some(body) && restartRetryCount == DEFAULT_RETRY_COUNT
      ensures |effects| >= 1 && effects[0] == KilledByName(CORE_PROCESS_NAME)
      ensures r.Ok? <==> logOpened.Ok? && spawned.Ok?
      ensures logOpened.Err? ==> r == Err(OPEN_LOG_FAILED)
      ensures logOpened.Ok? && spawned.Err? ==> r == Err(spawned.error)
      ensures r.Err? ==> effects == [KilledByName(CORE_PROCESS_NAME)]
      ensures r.Ok? ==> effects[1..] == [Spawned(spawned.value, body.binPath, ["-d", body.configDir, "-f", body.configFile])]
    {
      var stopped;
      stopped, effects := StopClash();
      autoRestart := true;
      info := Some(body);
      var ran, spawnEffects := RunCore(body, logOpened, spawned);
      effects := effects + spawnEffects;
      r := ran;
    }

    /** The wait task of `run_core`, when the core started with `body`
        exits: nothing unless automatic restart is on; then a budget above
        0 is spent by one and the core run again, a failed run panicking,
        and a spent budget panics. */
    method OnChildExit(body: StartBody, logOpened: Result<(), string>, spawned: Result<ChildId, string>)
      returns (r: Panicking<()>, effects: seq<Effect>)
      requires Valid()
      modifies this
      ensures Valid() && autoRestart == old(autoRestart) && info == old(info)
      ensures !old(autoRestart) ==> r == Returned(()) && effects == [] && restartRetryCount == old(restartRetryCount)
      ensures old(autoRestart) && ExitRule(old(restartRetryCount)).Panicked? ==>
        r == Panicked(ExitRule(old(restartRetryCount)).message) && effects == [] && restartRetryCount == old(restartRetryCount)
      ensures old(autoRestart) && ExitRule(old(restartRetryCount)).Returned? ==>
        && restartRetryCount == ExitRule(old(restartRetryCount)).value
        && (r.Returned? <==> logOpened.Ok? && spawned.Ok?)
        && (r.Panicked? ==> effects == [] && |r.message| > |RESTART_FAILED| && r.message[..|RESTART_FAILED|] == RESTART_FAILED)
        && (r.Returned? ==> effects == [Spawned(spawned.value, body.binPath, ["-d", body.configDir, "-f", body.configFile])])
    {
      effects := [];
      r := Returned(());
      if autoRestart {
        if restartRetryCount > 0 {
          restartRetryCount := restartRetryCount - 1;
          var ran;
          ran, effects := RunCore(body, logOpened, spawned);
          if ran.Err? {
            r := Panicked(RESTART_FAILED + ": " + ran.error);
          }
        } else {
          r := Panicked(RETRY_EXCEEDED_PANIC);
        }
      }
    }
  }
}
