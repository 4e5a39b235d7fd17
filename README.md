# clash-verge-service, modelled in Dafny

clash-verge-service is a privileged helper. It starts, supervises and stops
the mihomo ("clash") proxy core for the Clash Verge desktop application.
Clients talk to it over a local socket, one JSON command per line. This
project models the parts of the service that make decisions, and proves
what they promise:

- **The message envelope** (`Base64`, `Crypto`). Standard Base64 per
  section 4 of RFC 4648 is modelled concretely, with canonical padding.
  The `encrypt_socket_data` line `b64(key)|b64(nonce)|b64(ciphertext)\n`
  and its decoder are modelled through trimming, splitting and
  decoding. The RSA (PKCS #1 v1.5) and AES-256-GCM primitives are
  function-valued parameters. Their inverse laws are hypotheses of the
  lemmas that need them.
- **The core supervisor** (`Handle`, with `Data` and `Paths`; `Web` for
  the older variant). It is a `ClashStatus` class holding the automatic
  restart flag, the retry budget, the child slot, the start time and the
  last start request. Its methods are `start_clash`, `stop_clash`,
  `get_clash`, `run_core` and the wait thread's restart rule. Beside them
  sit the core's argument vector and the `level=` classifier of core log
  lines.
- **The command dispatcher** (`Service`). It covers:
  - the response envelope;
  - the dispatch of each of the six socket commands to its handler;
  - the per-connection line loop;
  - the service loop, which stops on a shutdown request.
- **Logging set-up and argument readers** (`LogConfig`, `Utils`). The
  `LogConfig` class covers the log4rs configuration it builds (appenders
  and routes), the `.old.log` rotation rule, and the "does the
  configuration need rebuilding" decision. There are two command-line
  readers.

The operating system enters as parameters and results:
- Kill and spawn outcomes, the clock in integer seconds, the length of
  an existing log file, socket-file existence and removal, write results,
  and the core's log buffer are parameters.
- The actions taken are returned as a sequence of `Effect`s: kill the
  child, kill by process name, clear the log buffer, spawn, remove a file,
  stop the service.
- A Rust panic is the value `Panicked(message)` of `Panicking<T>`.

The source files come from different revisions. `StartBody` is modelled
with the union of the fields the code reads, including `socket_path` and
`use_local_socket`. `web.rs` is modelled as a module of its own, `Web`.

## Model

| member | source | states |
|---|---|---|
| Base64.Encode | src/crypto.rs:112-114 | the encoding has a length that is a multiple of 4, is empty exactly for empty input, and uses only the standard alphabet and `=` |
| Base64.DecodeEncode | src/crypto.rs:112-128 | decoding the encoding of any bytes gives those bytes back |
| Base64.EncodeDecode | src/crypto.rs:126-128 | whatever decodes successfully is the canonical encoding of its result |
| Base64.DecodeIffEncode | src/crypto.rs:112-128 | `s` decodes to `b` if and only if `s` is the encoding of `b` |
| Base64.EncodedLength | src/crypto.rs:112-114 | the encoding of n bytes has 4·⌈n/3⌉ characters |
| Crypto.EncryptSocketData | src/crypto.rs:105-118 | encryption fails only by the AES encryption or the RSA key wrap failing |
| Crypto.Unframe | src/crypto.rs:121-124 | the line is rejected as `InvalidFormat` exactly when the trimmed line does not split into three fields at the vertical bars |
| Crypto.DecryptSocketDataAsWritten | src/crypto.rs:120-137 | it panics exactly when the fields decode and the key unwraps but the key is not 32 bytes or the nonce not 12; a plaintext it returns is what AES-GCM decryption gives for the unwrapped key, the nonce and the ciphertext |
| Crypto.DecryptSocketData | src/crypto.rs:120-137 | three fields are required; plaintext only after the fields decode and the key unwraps; agrees with the as-written decoder everywhere that one returns, and reports a bad key or nonce size exactly where that one panics |
| Crypto.Trim | src/crypto.rs:121 | the result is no longer than the input and neither starts nor ends with whitespace |
| Crypto.TrimIsMiddle | src/crypto.rs:121 | the result of `trim` sits in the input with only whitespace before and after it |
| Crypto.Split | src/crypto.rs:121 | at least one piece; no piece contains the separator; joining the pieces with the separator gives the input back |
| Crypto.TrimIgnoresSurroundingWhitespace | src/crypto.rs:121 | whitespace added on either side leaves `trim` unchanged |
| Crypto.TrimWithoutWhitespace | src/crypto.rs:121 | `trim` leaves text without whitespace unchanged |
| Crypto.SplitJoin | src/crypto.rs:121 | splitting fields joined by a separator they do not contain gives the fields back |
| Crypto.EncodedIsClean | src/crypto.rs:112-114 | Base64 text contains no whitespace, no vertical bar and no newline |
| Crypto.Frame | src/crypto.rs:110-115 | trimming the written line and splitting it at the vertical bars recovers exactly the three Base64 fields |
| Crypto.UnframeFrame | src/crypto.rs:110-128 | the decoder's first half reads back the key, nonce and ciphertext bytes the encoder framed |
| Crypto.RoundTrip | src/crypto.rs:105-137 | for a matching key pair and inverse primitives, decrypting an encrypted message gives the message back, in the corrected and the as-written decoder alike |
| Crypto.EncryptedLineShape | src/crypto.rs:105-115 | an encrypted line ends in its one newline and has two vertical bars; its first field unwraps to the fresh AES key, its second is the fresh nonce, and its third is the AES ciphertext under that key and nonce |
| Crypto.FrameSeparators | src/crypto.rs:110-115 | a framed line has exactly two vertical bars and one newline, the last character, and trimming removes only that newline |
| Crypto.DecryptIgnoresSurroundingWhitespace | src/crypto.rs:120-137 | whitespace around a line, the terminating newline included, does not change what decoding returns |
| Crypto.DecryptSucceedsIffAllStepsSucceed | src/crypto.rs:126-136 | decoding returns a plaintext if and only if all three fields decode, the key unwraps to 32 bytes, the nonce is 12 bytes, and AES-GCM decryption returns that plaintext |
| Crypto.AsWrittenPanicsOnEmptyNonce | src/crypto.rs:130-133 | a line whose key unwraps to 32 bytes but whose nonce field is empty makes the as-written decoder panic; the corrected one returns an error |
| Paths.WithExtension | src/log_config/mod.rs:140 | the text after the last dot of the file name is replaced by the extension; a name with no dot after its first character gets the extension appended |
| Paths.RotatedName | src/log_config/mod.rs:140 | the rotated name ends in `.old.log` and what comes before that is a prefix of the original name |
| Paths.RotatedLogName | src/log_config/mod.rs:140 | the rotated name of `x.log` is `x.old.log` |
| Paths.RotatedNameWithoutDot | src/log_config/mod.rs:140 | a name with no extension gets `.old.log` appended |
| Paths.LastComponent | src/service/handle.rs:173-175 | the last component contains no separator and is no longer than the path |
| Paths.LastComponentIsSuffix | src/service/handle.rs:173-175 | the last component ends the path and is the whole path or follows a separator: the longest suffix without one |
| Paths.SplitPath | src/service/handle.rs:173-176 | `None` exactly when the last component is empty, `.` or `..`; otherwise the name is the last component |
| Paths.SplitPathParent | src/service/handle.rs:173-175 | the parent is empty exactly when the path has no separator, and else it is the text before the last separator, or `/` when that separator is the first character |
| Paths.SplitJoinPath | src/service/handle.rs:173-176 | splitting a joined parent and file name gives them back |
| LogConfig.CreateLogConfig | src/log_config/mod.rs:120-182 | there is a file appender exactly when a directory is given, and always a console appender; routes are `["file","stdout"]` (debug) / `["file"]` (release) with a directory and `["stdout"]` without; both loggers and the root are non-additive at the level; the configuration passes log4rs's checks; a file at or over the size limit is renamed to its `.old.log` name |
| LogConfig.NeedsRebuild | src/log_config/mod.rs:88-101 | no rebuild exactly when the name, a stored directory and the limit all match the request |
| LogConfig.ParseArgs | src/log_config/mod.rs:207-221 | `None` exactly for fewer than two entries; it returns (with `argv[2]`) exactly for three entries whose second is `--log-dir`; it panics otherwise, including with two entries, at the index |
| LogConfig.LogExpect | src/log_config/mod.rs:224-232 | it returns the value of `Ok` and panics with the message on `Err` |
| LogConfig.LogConfig.constructor | src/log_config/mod.rs:22-32 | the defaults: file `clash-verge-service.log`, no directory, a 2 MiB limit, level Debug, no handle |
| LogConfig.LogConfig.Init | src/log_config/mod.rs:41-66 | installs the default-settings configuration for the directory and stores the directory and the handle |
| LogConfig.LogConfig.UpdateConfigAsWritten | src/log_config/mod.rs:69-118 | fails without a handle; rebuilds exactly when the decision says so; never changes the stored name, directory or limit |
| LogConfig.LogConfig.UpdateConfig | src/log_config/mod.rs:69-118 | as above, but a rebuild also stores the new name, directory and limit |
| LogConfig.LogConfig.UpdateLogLevel | src/log_config/mod.rs:185-203 | fails without a handle; otherwise installs the configuration for the stored settings at the new level and records the level |
| LogConfig.RepeatedUpdateAsWritten | src/log_config/mod.rs:75-118 | with the source's update, while no directory is stored or the stored limit differs from the requested one, repeating the same request rebuilds the configuration again |
| LogConfig.RepeatedUpdate | src/log_config/mod.rs:88-115 | with the corrected update, the repeated request is recognized as unchanged |
| Handle.GetVersion | src/service/handle.rs:58-64 | it reports the crate version and the title `Clash Verge Self Service` |
| Handle.CoreArgs | src/service/handle.rs:67-77 | the arguments are `-d dir -f file`, followed by the socket flag and path only when a socket path is given |
| Handle.CoreArgsRead | src/service/handle.rs:70-77 | reading the arguments back gives the configuration directory, the configuration file, and the socket path under the platform's flag (`-ext-ctl-unix` / `-ext-ctl-pipe`) |
| Handle.FirstMatchFrom | src/service/handle.rs:145-149 | finds the leftmost `level=` followed by a word character, or reports that there is none |
| Handle.MihomoLevel | src/service/handle.rs:144-158 | the captured word `error` gives Error, `warning` gives Warn, `info` or no tag gives Info, and any other word gives Debug |
| Handle.LevelOfTaggedLine | src/service/handle.rs:144-158 | the first `level=` word decides the level: error, warning and info map to their own levels, anything else to debug |
| Handle.LevelOfUntaggedLine | src/service/handle.rs:146-152 | a line without a `level=` tag is logged at info |
| Handle.ExitRule | src/service/handle.rs:106-136 | there is a relaunch exactly when the run lasted over 60 s or the budget is positive; a relaunch after more than 60 s leaves 9, a relaunch within 60 s spends one unit; no relaunch leaves 0 |
| Handle.ExitRuleKeepsBound | src/service/handle.rs:106-136 | a budget within the default stays within it |
| Handle.RestartsWithinInterval | src/service/handle.rs:103-139 | a core that keeps dying within 60 s is relaunched min(exits, budget) times |
| Handle.ClashStatus.constructor | src/service/handle.rs:38-48 | the default status: no automatic restart, budget 10, no child, no request |
| Handle.ClashStatus.GetClash | src/service/handle.rs:210-220 | succeeds, with the status, exactly when the budget is positive and a request is recorded; otherwise "retry count exceeded" or "clash not executed" |
| Handle.ClashStatus.StopClash | src/service/handle.rs:185-207 | takes the child slot; a failed kill returns its error; otherwise it resets to the default status, clears the log and kills by name |
| Handle.ClashStatus.RunCore | src/service/handle.rs:79-87 | a failed spawn changes nothing; a spawn records the child and the start time |
| Handle.ClashStatus.StartClash | src/service/handle.rs:161-182 | stops first, and a failed kill leaves the status as it was apart from the emptied child slot; otherwise records the request with automatic restart even if the log update or the spawn then fails; a log path without a file name panics; success means the child runs from now, and any failure leaves no child and the start time at now; the effects are the stop's, then the launch of the binary with the core's arguments on success; with a handle, the log configuration is rebuilt for the request's file and directory exactly when the update's decision says so, and the stored log settings never change |
| Handle.ClashStatus.OnChildExit | src/service/handle.rs:103-139 | nothing without automatic restart; otherwise the restart rule decides the new budget and the relaunch, which clears the log and spawns the same request |
| Web.GetVersion | src/service/web.rs:38-46 | a map with exactly the keys `service` (`Clash Verge Service`) and `version` |
| Web.ExitRule | src/service/web.rs:59-65 | a positive budget goes down by one; an empty one panics with "retry count exceeded" |
| Web.ExitsSpendBudget | src/service/web.rs:56-66 | n exits spend n units of the budget, and an exit beyond the budget panics |
| Web.RunCore | src/service/web.rs:48-69 | fails if the log cannot be opened or the spawn fails; otherwise spawns with `-d dir -f file` |
| Web.ClashStatus.constructor | src/service/web.rs:18-26 | the default status: no automatic restart, budget 10, no request |
| Web.ClashStatus.GetClash | src/service/web.rs:105-115 | succeeds, with a copy of the status, exactly when the budget is positive and a request is recorded |
| Web.ClashStatus.StopClash | src/service/web.rs:88-101 | resets to the default status and kills the core by name |
| Web.ClashStatus.StartClash | src/service/web.rs:73-84 | stops, records the request with automatic restart, then runs the core; success exactly when the log opens and the spawn succeeds; a log that cannot be opened or a failed spawn gives its own error, and a failure leaves only the kill by name as effect |
| Web.ClashStatus.OnChildExit | src/service/web.rs:56-66 | with automatic restart, the exit rule decides the new budget or the panic; after a decrement the core is rerun, and a failed rerun panics |
| Utils.ParseArgs | src/utils.rs:11-36 | the loop's result is the pairwise reading `ParseArgsSpec` of the arguments |
| Utils.ParseArgsSpec | src/utils.rs:11-36 | "missing argument" exactly for an empty argv; an even-length argv (an odd number of arguments after the name) is an error |
| Utils.ParsePairs | src/utils.rs:15-31 | the only errors are "invalid argument format" and the unknown-flag message; an odd number of entries is an error; a value already read is kept unless replaced |
| Utils.ParseArgsMeaning | src/utils.rs:11-36 | an empty argv is "missing argument"; the program name alone gives `(None, None)`; a well-formed tail gives the last `--log-dir` and `--server-id` values; otherwise the first bad chunk's error |
| Utils.ParsePairsMeaning | src/utils.rs:15-31 | the pairs parse exactly when the tail is well formed, and then give the last value of each flag |
| Utils.LastValueIffUsed | src/utils.rs:16-27 | a flag's value is present exactly when some pair uses that flag |
| Utils.LaterPairWins | src/utils.rs:18-31 | when a flag repeats, its last value wins |
| Utils.LaterChunksIgnored | src/utils.rs:18-30 | after an unknown flag, whatever follows cannot change the error |
| Utils.PrefixSkipped | src/utils.rs:18-30 | well-formed leading pairs do not hide a later unknown flag |
| Utils.PairsShift | src/utils.rs:15-30 | well-formedness and flag use are decided one pair at a time |
| Service.WrapResponse | src/service/mod.rs:47-62 | code 0 with data exactly for `Ok`, otherwise no data |
| Service.ReadWrapResponse | src/service/mod.rs:47-62 | a client reading the envelope back gets the result; the code is 0 or 400, and the message is `ok` or the error's text |
| Service.HandleSocketCommand | src/service/mod.rs:158-195 | each command runs its own handler, and the four queries change nothing; version, status, logs and shutdown get their envelopes; StopClash removes the socket file only for a recorded local-socket request on unix, and a failed removal answers nothing; a response is written exactly when the result is `Ok` |
| Service.ServeLine | src/service/mod.rs:124-150 | one line: a parsed command is handled, an unparsable one skipped, the end of input or a read error closes; a handled command that returns `Ok` has its response, and a returned result with a response is the write's outcome; version, logs and shutdown get exactly their `ok` responses and the status query its wrapped status, all four without a panic and changing nothing; only a start whose log path has no file name panics, and only a stop whose socket file could not be removed returns without a response; a line without a start or stop request changes nothing and has no effects |
| Service.QueriesWriteTheirAnswers | src/service/mod.rs:124-138 | lines of version, logs and shutdown queries whose writes succeed write exactly one response each, their answers in the order read |
| Service.EveryCommandWritesOnce | src/service/mod.rs:124-193 | when every write and socket removal succeeds and every start's log path has a file name, exactly one response is written per parsed command read |
| Service.ShutdownAnsweredFirst | src/service/mod.rs:129-138 | a connection that opens with a shutdown request reads nothing more, writes the `ok` response when the write succeeds, and signals the shutdown |
| Service.ServeConnection | src/service/mod.rs:118-156 | unparsable lines are skipped, commands handled, and EOF or a read error close the connection; the loop ends only at the end of input, EOF, a read error, StopService or a panic; handler and write errors do not end it; it writes one response per successful command, in order, and each parsed line is answered as ServeLine states; it signals shutdown exactly when it ends on StopService, and then the `ok` response is the last one written unless the write failed; a connection without start or stop requests leaves the status and the log configuration unchanged and has no effects |
| Service.RunService | src/service/mod.rs:96-113 | connections are served as ServeConnection states, each with its responses, until one requests shutdown; then the service stops, except that on unix a `systemctl` that cannot be run panics with `failed to execute process`; the stop effect happens exactly when `stop_service` succeeds, and last; an accept error panics; without a shutdown the service is still waiting |

## Left out

- The RSA and AES-GCM mathematics, key generation and the random number generators are not modelled. The primitives are parameters, and their inverse laws are hypotheses of `Crypto.RoundTrip`.
- `load_keys` and `generate_rsa_keys` are not modelled: they do PEM file I/O.
- Crypto.DecryptSocketData does not say what `from_utf8_lossy` does to invalid UTF-8. The plaintext is returned as bytes.
- Crypto.Unframe reports which field failed to decode. It does not model the Base64 crate's error details.
- Paths.SplitPath models Rust's `Path::parent` and `file_name` on `/`-separated paths only. Trailing separators, repeated separators, `.` components and Windows prefixes are not normalized as Rust's component parser does.
- LogConfig.NeedsRebuild compares directories as strings, where `PathBuf` equality compares components, so `/var/log/` and `/var/log` count as different here. As `update_config` is called (handle.rs:176), the missing limit never equals the stored 2 MiB limit, so a rebuild happens whatever the directories, and the difference is not observable there.
- LogConfig.CreateLogConfig: its two `unwrap`s are not modelled, because they depend on the file system: `fs::metadata` of an existing log file (mod.rs:138) and the file appender's build (mod.rs:146). The rename's own failure is ignored, as in the source. The join is a plain directory-and-name pair; joining with an absolute name is not modelled.
- LogConfig.LogConfig.Init: the `unwrap` of `log4rs::init_config` (mod.rs:60) is not modelled; it panics when a global logger is already installed, which depends on process-wide state outside the model.
- LogConfig.LogConfig.UpdateLogLevel never reaches the "Unable to create log config" error. The configuration it builds always passes log4rs's checks.
- Handle: `wrap_mihomo_log`'s logging itself and the stdout reader thread are not modelled. Only the level choice is. `\w` is read as ASCII letters, digits and `_`; Unicode word characters are not modelled.
- Handle.ExitRule compares whole seconds, not the source's `f64` seconds.
- Concurrency is not modelled: spawned threads, tokio tasks, `select!`, the mutexes, and connections served in parallel. The model is sequential. This covers three cases:
  - the wait thread's copy-then-decrement race;
  - a late exit of an old child, which the model does not distinguish from the current one;
  - a connection other than the one that requested shutdown being served after the request.
- The log buffer (`Logger`, not part of this model) is modelled only as a parameter, the lines `GetLogs` returns, plus the `ClearedLog` effect.
- Service.ServeConnection states the status and log configuration it leaves only for connections without start or stop requests. For a connection with them, HandleSocketCommand states each request's new state, but the connection's contract does not compose those states line by line.
- JSON encoding and parsing are not modelled. A line arrives already parsed, or as a parse failure. A response is a value, not its JSON text, and serialization errors cannot occur.
- Process spawn and kill, the kill by name, the `systemctl` call or the Windows service-status report of `stop_service`, and the removal of the socket file are not performed. They are effects, with their outcomes as parameters (`stopResult` for `stop_service`).
- install.rs, uninstall.rs, main.rs and lib.rs are not part of this model. They are OS service registration and thin client/server wrappers.

## Findings

| source | as written | input that shows it | evidently intended | confidence | as-written member | corrected member |
|---|---|---|---|---|---|---|
| src/crypto.rs:130-133 | the unwrapped key and the nonce field reach `Aes256Gcm::new(key.into())` and `Nonce::from_slice` without a length check, and both panic on a wrong length | `decrypt_socket_data` given a line whose first field is a valid RSA wrap of any 32-byte key and whose middle (nonce) field is empty; the service itself reads plain JSON lines (src/service/mod.rs:126), and the only caller is the test client in src/main.rs:136, on the lines it reads back | a function returning `Result` reports a malformed message as an error | medium; not executed | Crypto.AsWrittenPanicsOnEmptyNonce | Crypto.DecryptSocketData |
| src/log_config/mod.rs:75-81 | `update_config` destructures `self.clone()` and assigns the new name, directory and limit to those local copies only, so the stored settings never change | two `start_clash` requests with the same log file, after `init(None)` or `init(Some(dir))`: the second one rebuilds the configuration again. After `init(None)` no directory is ever stored; after `init(Some(dir))` the stored limit stays 2 MiB, and `start_clash` passes none (src/service/handle.rs:176). The rotation check is not reached, since it needs a limit | the new settings are stored, so an unchanged request is recognized and skipped | high; not executed | LogConfig.RepeatedUpdateAsWritten | LogConfig.RepeatedUpdate |

Handle.ClashStatus.StartClash, and through it Service.HandleSocketCommand, calls `update_config` as written, so the model serves requests as the source does. The corrected update appears only in LogConfig.LogConfig.UpdateConfig and LogConfig.RepeatedUpdate.
