/** The records that cross the service's socket, and the identifiers the
    supervisor shares with the operating system (src/service/data.rs and
    the types the service modules read from it). */
module Data {
  import opened Wrappers

  type u8 = x: int | 0 <= x < 0x100
  type u32 = x: int | 0 <= x < 0x1_0000_0000

  /** The request to start a core. The fields are the union of those the
      service modules read: `socket_path` and `use_local_socket` are read by
      src/service/handle.rs and src/service/mod.rs. */
  datatype StartBody = StartBody(
    coreType: Option<string>,
    binPath: string,
    configDir: string,
    configFile: string,
    logFile: string,
    socketPath: Option<string>,
    useLocalSocket: bool)

  /** The answer written for every handled command. */
  datatype JsonResponse<T> = JsonResponse(code: nat, msg: string, data: Option<T>)

  datatype ServiceVersionInfo = ServiceVersionInfo(version: string, service: string)

  /** One command line read from the socket, once parsed. */
  datatype SocketCommand =
    | GetVersion
    | GetClash
    | GetLogs
    | StartClash(body: StartBody)
    | StopClash
    | StopService

  /** The `cfg(unix)` / `cfg(windows)` build target. */
  datatype Platform = Unix | Windows

  /** An operating-system process, as far as the model needs one. */
  type ChildId = nat

  /** The operating-system effects the supervisor performs, in order. */
  datatype Effect =
    | Killed(child: ChildId)
    | KilledByName(processName: string)
    | ClearedLog
    | Spawned(child: ChildId, program: string, args: seq<string>)
    | RemovedFile(path: string)
    | StoppedService
}
