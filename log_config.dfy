/** The logging set-up of src/log_config/mod.rs: the `LogConfig` record,
    the configuration handed to log4rs, the size-based rotation decision,
    and the `--log-dir` command-line reader.

    log4rs itself is not modelled: a configuration is a value listing its
    appenders, loggers and root, `ConfigBuilder::build` is the check
    `WellFormedConfig`, and the handle is the configuration it has
    installed. The file system enters as the length of the existing log
    file, if there is one. */
module LogConfig {
  import opened Wrappers
  import Paths

  /** `log::LevelFilter`. */
  datatype Level = Off | Error | Warn | Info | Debug | Trace

  const DEFAULT_LOG_FILE_NAME: string := "clash-verge-service.log"
  const DEFAULT_LIMITED_FILE_SIZE: nat := 2 * 1024 * 1024

  const NO_HANDLE_FOR_CONFIG: string := "update log config failed, log handle is none, please init first"
  const NO_HANDLE_FOR_LEVEL: string := "update log level failed, log handle is none"
  const CANNOT_CREATE_CONFIG: string := "Unable to create log config"

  datatype Appender = FileAppender(path: Paths.FilePath) | ConsoleAppender

  /** The name each appender is registered under. */
  function AppenderName(a: Appender): string {
    match a
    case FileAppender(_) => "file"
    case ConsoleAppender => "stdout"
  }

  datatype Logger = Logger(name: string, appenders: seq<string>, additive: bool, level: Level)

  datatype Config = Config(appenders: seq<Appender>, loggers: seq<Logger>, rootAppenders: seq<string>, rootLevel: Level)

  predicate NamesAppender(appenders: seq<Appender>, name: string) {
    exists i | 0 <= i < |appenders| :: AppenderName(appenders[i]) == name
  }

  /** What log4rs's `ConfigBuilder::build` checks: appender names and
      logger names are unique, and every route names an appender. */
  predicate WellFormedConfig(c: Config) {
    && (forall i, j | 0 <= i < j < |c.appenders| :: AppenderName(c.appenders[i]) != AppenderName(c.appenders[j]))
    && (forall i, j | 0 <= i < j < |c.loggers| :: c.loggers[i].name != c.loggers[j].name)
    && (forall i, k | 0 <= i < |c.loggers| && 0 <= k < |c.loggers[i].appenders| ::
          NamesAppender(c.appenders, c.loggers[i].appenders[k]))
    && (forall k | 0 <= k < |c.rootAppenders| :: NamesAppender(c.appenders, c.rootAppenders[k]))
  }

  /** `ConfigBuilder::build(...).ok()`. */
  function BuildConfig(c: Config): Option<Config> {
    if WellFormedConfig(c) then Some(c) else None
  }

  /** The configuration the source promises for these settings: a file
      appender exactly when a directory is given, always a console
      appender, the routes `["file", "stdout"]` (debug build) or
      `["file"]` (release build) with a directory and `["stdout"]`
      without, shared by the non-additive `app` and `mihomo` loggers and
      the root, all at `level`; and it passes log4rs's checks. */
  ghost predicate ConfigFor(c: Config, logFileName: string, logDir: Option<string>, level: Level, debugBuild: bool) {
    && WellFormedConfig(c)
    && (logDir.Some? ==> c.appenders == [FileAppender(Paths.FilePath(logDir.value, logFileName)), ConsoleAppender])
    && (logDir.None? ==> c.appenders == [ConsoleAppender])
    && (logDir.Some? && debugBuild ==> c.rootAppenders == ["file", "stdout"])
    && (logDir.Some? && !debugBuild ==> c.rootAppenders == ["file"])
    && (logDir.None? ==> c.rootAppenders == ["stdout"])
    && c.loggers == [Logger("app", c.rootAppenders, false, level), Logger("mihomo", c.rootAppenders, false, level)]
    && c.rootLevel == level
  }

  /** The rename `create_log_config` performs: the existing log file, when
      a size limit is set and its length has reached it, is moved to its
      `.old.log` name. */
  ghost predicate RotationFor(rotation: Option<(Paths.FilePath, Paths.FilePath)>, logFileName: string,
                              logDir: Option<string>, limitedSize: Option<nat>, existingLen: Option<nat>) {
    && (rotation.Some? <==>
          logDir.Some? && limitedSize.Some? && existingLen.Some? && existingLen.value >= limitedSize.value)
    && (rotation.Some? ==>
          rotation.value == (Paths.FilePath(logDir.value, logFileName),
                             Paths.FilePath(logDir.value, Paths.RotatedName(logFileName))))
  }

  /** `create_log_config`. `existingLen` is the length of the log file if
      it exists; `debugBuild` is `cfg!(debug_assertions)`. Besides the
      configuration it returns the rename it performs, if any. The
      configuration always passes log4rs's checks, so the result is never
      `None`. */
  method CreateLogConfig(logFileName: string, logDir: Option<string>, limitedSize: Option<nat>, level: Level,
                         debugBuild: bool, existingLen: Option<nat>)
    returns (config: Option<Config>, rotation: Option<(Paths.FilePath, Paths.FilePath)>)
    ensures config.Some? && ConfigFor(config.value, logFileName, logDir, level, debugBuild)
    ensures RotationFor(rotation, logFileName, logDir, limitedSize, existingLen)
  {
    var appenders: seq<Appender> := [];
    var logToFile := logDir.Some?;
    rotation := None;
    if logToFile {
      var logFile := Paths.FilePath(logDir.value, logFileName);
      if limitedSize.Some? && existingLen.Some? {
        if existingLen.value >= limitedSize.value {
          rotation := Some((logFile, Paths.FilePath(logFile.dir, Paths.RotatedName(logFile.name))));
        }
      }
      appenders := appenders + [FileAppender(logFile)];
    }
    appenders := appenders + [ConsoleAppender];

    var routes: seq<string>;
    if logToFile {
      if debugBuild {
        routes := ["file", "stdout"];
      } else {
        routes := ["file"];
      }
    } else {
      routes := ["stdout"];
    }
    var app := Logger("app", routes, false, level);
    var mihomo := Logger("mihomo", routes, false, level);
    var candidate := Config(appenders, [app, mihomo], routes, level);

    assert [app, mihomo] == Loggers(routes, level);
    if logToFile {
      assert appenders == [FileAppender(appenders[0].path), ConsoleAppender];
      FileConfigWellFormed(appenders[0].path, routes, level);
    } else {
      assert appenders == [ConsoleAppender];
      ConsoleConfigWellFormed(level);
    }
    config := BuildConfig(candidate);
  }

  /** The two loggers `create_log_config` declares, on `routes`. */
  function Loggers(routes: seq<string>, level: Level): seq<Logger> {
    [Logger("app", routes, false, level), Logger("mihomo", routes, false, level)]
  }

  /** A file appender and the console, routed to both or to the file only,
      pass log4rs's checks. */
  lemma FileConfigWellFormed(file: Paths.FilePath, routes: seq<string>, level: Level)
    requires routes == ["file", "stdout"] || routes == ["file"]
    ensures WellFormedConfig(Config([FileAppender(file), ConsoleAppender], Loggers(routes, level), routes, level))
  {
    var appenders := [FileAppender(file), ConsoleAppender];
    assert AppenderName(appenders[0]) == "file";
    assert AppenderName(appenders[1]) == "stdout";
  }

  /** The console alone, routed to itself, passes log4rs's checks. */
  lemma ConsoleConfigWellFormed(level: Level)
    ensures WellFormedConfig(Config([ConsoleAppender], Loggers(["stdout"], level), ["stdout"], level))
  {
    assert AppenderName([ConsoleAppender][0]) == "stdout";
  }

  /** The decision of `update_config`, three checks in turn: rebuild
      unless the file name, the directory and the size limit all equal the
      stored ones. */
  predicate NeedsRebuild(storedName: string, storedDir: Option<string>, storedLimit: Option<nat>,
                         name: string, dir: string, limit: Option<nat>)
    ensures !NeedsRebuild(storedName, storedDir, storedLimit, name, dir, limit) <==>
      (name == storedName && storedDir == Some(dir) && limit == storedLimit)
  {
    if name != storedName then true
    else if storedDir.None? || dir != storedDir.value then true
    else limit != storedLimit
  }

  /** `parse_args` of the log-config module. */
  function ParseArgs(argv: seq<string>): (r: Panicking<Option<string>>)
    ensures r == Returned(None) <==> |argv| < 2
    ensures r.Returned? <==> (|argv| < 2 || (|argv| == 3 && argv[1] == "--log-dir"))
    ensures r.Returned? && r.value.Some? ==> r.value.value == argv[2]
  {
    if |argv| < 2 then Returned(None)
    else if |argv| > 3 then Panicked("too many arguments, only the --log-dir is allowed")
    else if argv[1] != "--log-dir" then Panicked("only the --log-dir argument is allowed")
    else if |argv| == 2 then Panicked("index out of bounds: the len is 2 but the index is 2")
    else Returned(Some(argv[2]))
  }

  /** `log_expect`: the value of an `Ok`, a panic with `msg` for an `Err`. */
  function LogExpect<T>(result: Result<T, string>, msg: string): (r: Panicking<T>)
    ensures r.Returned? <==> result.Ok?
    ensures r.Returned? ==> r.value == result.value
    ensures r.Panicked? ==> r.message == msg
  {
    match result
    case Ok(v) => Returned(v)
    case Err(_) => Panicked(msg)
  }

  class LogConfig {
    var logFileName: string
    var logDir: Option<string>
    var limitedFileSize: Option<nat>
    var logLevel: Option<Level>
    /** The log4rs handle, shared by every clone of the record; its value is
        the configuration it has installed. */
    var logHandle: Option<Config>

    /** The level is always set, so the source's `unwrap` of it never
        panics. */
    ghost predicate Valid()
      reads this
    {
      logLevel.Some?
    }

    /** `LogConfig::default`. */
    constructor ()
      ensures Valid()
      ensures logFileName == DEFAULT_LOG_FILE_NAME && logDir == None
      ensures limitedFileSize == Some(DEFAULT_LIMITED_FILE_SIZE) && logLevel == Some(Debug) && logHandle == None
    {
      logFileName := DEFAULT_LOG_FILE_NAME;
      logDir := None;
      limitedFileSize := Some(DEFAULT_LIMITED_FILE_SIZE);
      logLevel := Some(Debug);
      logHandle := None;
    }

    /** `init`: builds the configuration from the default file name, size
        limit and level, installs it, and records the directory and the
        handle. */
    method Init(dir: Option<string>, debugBuild: bool, existingLen: Option<nat>)
      returns (r: Result<(), string>, rotation: Option<(Paths.FilePath, Paths.FilePath)>)
      requires Valid()
      modifies this
      ensures Valid() && r.Ok?
      ensures logDir == dir
      ensures logHandle.Some? && ConfigFor(logHandle.value, DEFAULT_LOG_FILE_NAME, dir, Debug, debugBuild)
      ensures RotationFor(rotation, DEFAULT_LOG_FILE_NAME, dir, Some(DEFAULT_LIMITED_FILE_SIZE), existingLen)
      ensures logFileName == old(logFileName) && limitedFileSize == old(limitedFileSize) && logLevel == old(logLevel)
    {
      var config;
      config, rotation := CreateLogConfig(DEFAULT_LOG_FILE_NAME, dir, Some(DEFAULT_LIMITED_FILE_SIZE), Debug,
                                          debugBuild, existingLen);
      if config.Some? {
        logDir := dir;
        logHandle := config;
      }
      r := Ok(());
    }

    /** `update_config` as the source has it: the new name, directory and
        size limit are assigned to the fields of a clone, so the stored
        settings never change. `rebuilt` says whether the handle was given
        a new configuration. */
    method UpdateConfigAsWritten(name: string, dir: string, limit: Option<nat>, debugBuild: bool, existingLen: Option<nat>)
      returns (r: Result<(), string>, rebuilt: bool, rotation: Option<(Paths.FilePath, Paths.FilePath)>)
      requires Valid()
      modifies this
      ensures Valid()
      ensures logFileName == old(logFileName) && logDir == old(logDir)
      ensures limitedFileSize == old(limitedFileSize) && logLevel == old(logLevel)
      ensures old(logHandle).None? ==> r == Err(NO_HANDLE_FOR_CONFIG) && !rebuilt && logHandle == old(logHandle)
      ensures old(logHandle).Some? ==> r.Ok?
      ensures rebuilt <==> old(logHandle).Some? && NeedsRebuild(logFileName, logDir, limitedFileSize, name, dir, limit)
      ensures rebuilt ==> logHandle.Some? && ConfigFor(logHandle.value, name, Some(dir), logLevel.value, debugBuild)
      ensures rebuilt ==> RotationFor(rotation, name, Some(dir), limit, existingLen)
      ensures !rebuilt ==> logHandle == old(logHandle) && rotation.None?
    {
      var cName, cDir, cLimit, cHandle, cLevel := logFileName, logDir, limitedFileSize, logHandle, logLevel;
      rotation := None;
      if cHandle.None? {
        return Err(NO_HANDLE_FOR_CONFIG), false, None;
      }
      var needUpdate := false;
      if name != cName {
        needUpdate := true;
      }
      if !needUpdate && (cDir.None? || dir != cDir.value) {
        needUpdate := true;
      }
      if !needUpdate && limit != cLimit {
        needUpdate := true;
      }
      if !needUpdate {
        return Ok(()), false, None;
      }
      var config;
      config, rotation := CreateLogConfig(name, Some(dir), limit, cLevel.value, debugBuild, existingLen);
      if config.Some? {
        logHandle := config;
        cName := name;
        cDir := Some(dir);
        cLimit := limit;
      }
      return Ok(()), true, rotation;
    }

    /** `update_config` with the new settings stored in the record, as the
        assignments after `set_config` intend. */
    method UpdateConfig(name: string, dir: string, limit: Option<nat>, debugBuild: bool, existingLen: Option<nat>)
      returns (r: Result<(), string>, rebuilt: bool, rotation: Option<(Paths.FilePath, Paths.FilePath)>)
      requires Valid()
      modifies this
      ensures Valid() && logLevel == old(logLevel)
      ensures old(logHandle).None? ==> r == Err(NO_HANDLE_FOR_CONFIG) && !rebuilt
      ensures old(logHandle).Some? ==> r.Ok?
      ensures rebuilt <==> old(logHandle).Some? && NeedsRebuild(old(logFileName), old(logDir), old(limitedFileSize), name, dir, limit)
      ensures rebuilt ==> logFileName == name && logDir == Some(dir) && limitedFileSize == limit
      ensures rebuilt ==> logHandle.Some? && ConfigFor(logHandle.value, name, Some(dir), logLevel.value, debugBuild)
      ensures rebuilt ==> RotationFor(rotation, name, Some(dir), limit, existingLen)
      ensures !rebuilt ==> logFileName == old(logFileName) && logDir == old(logDir)
      ensures !rebuilt ==> limitedFileSize == old(limitedFileSize) && logHandle == old(logHandle) && rotation.None?
    {
      rotation := None;
      if logHandle.None? {
        return Err(NO_HANDLE_FOR_CONFIG), false, None;
      }
      var needUpdate := false;
      if name != logFileName {
        needUpdate := true;
      }
      if !needUpdate && (logDir.None? || dir != logDir.value) {
        needUpdate := true;
      }
      if !needUpdate && limit != limitedFileSize {
        needUpdate := true;
      }
      if !needUpdate {
        return Ok(()), false, None;
      }
      var config;
      config, rotation := CreateLogConfig(name, Some(dir), limit, logLevel.value, debugBuild, existingLen);
      if config.Some? {
        logHandle := config;
        logFileName := name;
        logDir := Some(dir);
        limitedFileSize := limit;
      }
      return Ok(()), true, rotation;
    }

    /** `update_log_level`: rebuilds the configuration from the stored
        settings at the new level and records the level. */
    method UpdateLogLevel(level: Level, debugBuild: bool, existingLen: Option<nat>)
      returns (r: Result<(), string>, rotation: Option<(Paths.FilePath, Paths.FilePath)>)
      requires Valid()
      modifies this
      ensures Valid()
      ensures logFileName == old(logFileName) && logDir == old(logDir) && limitedFileSize == old(limitedFileSize)
      ensures old(logHandle).None? ==> r == Err(NO_HANDLE_FOR_LEVEL) && logLevel == old(logLevel)
      ensures old(logHandle).None? ==> logHandle == old(logHandle) && rotation.None?
      ensures old(logHandle).Some? ==> r.Ok? && logLevel == Some(level)
      ensures old(logHandle).Some? ==> logHandle.Some? && ConfigFor(logHandle.value, logFileName, logDir, level, debugBuild)
      ensures old(logHandle).Some? ==> RotationFor(rotation, logFileName, logDir, limitedFileSize, existingLen)
    {
      rotation := None;
      var handle := logHandle;
      if handle.None? {
        return Err(NO_HANDLE_FOR_LEVEL), None;
      }
      var config;
      config, rotation := CreateLogConfig(logFileName, logDir, limitedFileSize, level, debugBuild, existingLen);
      if config.Some? {
        logHandle := config;
        logLevel := Some(level);
      } else {
        return Err(CANNOT_CREATE_CONFIG), rotation;
      }
      return Ok(()), rotation;
    }
  }

  /** As the source has it, the stored settings stay those `init` left, so
      while no directory is stored, or the stored limit differs from the
      requested one, every call of `update_config` rebuilds the
      configuration, even one that repeats the previous call. `start_clash`
      passes no limit and `init` stores one, so with a handle there every
      call rebuilds. */
  method RepeatedUpdateAsWritten(c: LogConfig, name: string, dir: string, limit: Option<nat>, debugBuild: bool)
    returns (firstRebuilt: bool, secondRebuilt: bool)
    requires c.Valid() && c.logHandle.Some? && (c.logDir.None? || c.limitedFileSize != limit)
    modifies c
    ensures firstRebuilt && secondRebuilt
  {
    var r1, r2, rotation1, rotation2;
    r1, firstRebuilt, rotation1 := c.UpdateConfigAsWritten(name, dir, limit, debugBuild, None);
    r2, secondRebuilt, rotation2 := c.UpdateConfigAsWritten(name, dir, limit, debugBuild, None);
  }

  /** Corrected, a call that repeats the previous successful one leaves the
      configuration alone. */
  method RepeatedUpdate(c: LogConfig, name: string, dir: string, limit: Option<nat>, debugBuild: bool)
    returns (firstRebuilt: bool, secondRebuilt: bool)
    requires c.Valid() && c.logHandle.Some?
    modifies c
    ensures !secondRebuilt
    ensures c.logFileName == name && c.logDir == Some(dir) && c.limitedFileSize == limit
  {
    var r1, r2, rotation1, rotation2;
    r1, firstRebuilt, rotation1 := c.UpdateConfig(name, dir, limit, debugBuild, None);
    r2, secondRebuilt, rotation2 := c.UpdateConfig(name, dir, limit, debugBuild, None);
  }
}
