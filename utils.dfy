/** The command-line reader of src/utils.rs: after the program name the
    arguments come in `flag value` pairs, and only `--log-dir` and
    `--server-id` are accepted. */
module Utils {
  import opened Wrappers

  const LOG_DIR_FLAG: string := "--log-dir"
  const SERVER_ID_FLAG: string := "--server-id"

  const MISSING_ARGUMENT: string := "missing argument"
  const INVALID_FORMAT: string := "invalid argument format"
  const UNKNOWN_FLAG: string := "only the --log-dir and --server-id arguments are allowed"

  /** The log directory and the server id, each if given. */
  type Parsed = (Option<string>, Option<string>)

  predicate IsFlag(s: string) {
    s == LOG_DIR_FLAG || s == SERVER_ID_FLAG
  }

  /** The pairs from `rest` on, with the values read so far: the
      reference reading, one pair at a time. */
  function ParsePairs(rest: seq<string>, logDir: Option<string>, serverId: Option<string>): (r: Result<Parsed, string>)
    ensures r.Err? ==> r.error == INVALID_FORMAT || r.error == UNKNOWN_FLAG
    ensures |rest| % 2 == 1 ==> r.Err?
    ensures r.Ok? && logDir.Some? ==> r.value.0.Some?
    ensures r.Ok? && serverId.Some? ==> r.value.1.Some?
    decreases |rest|
  {
    if |rest| == 0 then Ok((logDir, serverId))
    else if |rest| == 1 then Err(INVALID_FORMAT)
    else if rest[0] == LOG_DIR_FLAG then ParsePairs(rest[2..], Some(rest[1]), serverId)
    else if rest[0] == SERVER_ID_FLAG then ParsePairs(rest[2..], logDir, Some(rest[1]))
    else Err(UNKNOWN_FLAG)
  }

  /** The reading of the whole command line, the program name first. */
  function ParseArgsSpec(argv: seq<string>): (r: Result<Parsed, string>)
    ensures r == Err(MISSING_ARGUMENT) <==> |argv| == 0
    ensures |argv| % 2 == 0 ==> r.Err?
  {
    if |argv| == 0 then Err(MISSING_ARGUMENT) else ParsePairs(argv[1..], None, None)
  }

  /** `parse_args`: the loop over `chunks(2)` of the arguments after the
      program name. */
  method ParseArgs(argv: seq<string>) returns (r: Result<Parsed, string>)
    ensures r == ParseArgsSpec(argv)
  {
    if |argv| == 0 {
      return Err(MISSING_ARGUMENT);
    }
    var elements := argv[1..];
    var logDir: Option<string> := None;
    var serverId: Option<string> := None;
    var i := 0;
    while i < |elements|
      invariant 0 <= i <= |elements|
      invariant ParsePairs(elements[i..], logDir, serverId) == ParsePairs(elements, None, None)
      decreases |elements| - i
    {
      var chunk := elements[i..if i + 2 <= |elements| then i + 2 else |elements|];
      if |chunk| != 2 {
        return Err(INVALID_FORMAT);
      }
      var arg := chunk[0];
      var val := chunk[1];
      assert elements[i..][2..] == elements[i + 2..];
      if arg == LOG_DIR_FLAG {
        logDir := Some(val);
      } else if arg == SERVER_ID_FLAG {
        serverId := Some(val);
      } else {
        return Err(UNKNOWN_FLAG);
      }
      i := i + 2;
    }
    assert elements[i..] == [];
    r := Ok((logDir, serverId));
  }

  // ---- What the reading means ----

  /** Every pair is complete and names an accepted flag. */
  predicate WellFormed(rest: seq<string>) {
    |rest| % 2 == 0 && forall k | 0 <= k < |rest| / 2 :: IsFlag(rest[2 * k])
  }

  /** The value of the last pair with `flag`, if any. */
  function LastValue(rest: seq<string>, flag: string): Option<string>
    decreases |rest|
  {
    if |rest| < 2 then None
    else
      match LastValue(rest[2..], flag)
      case Some(v) => Some(v)
      case None => if rest[0] == flag then Some(rest[1]) else None
  }

  /** Some pair uses `flag`. */
  predicate Uses(rest: seq<string>, flag: string) {
    exists k | 0 <= k < |rest| / 2 :: rest[2 * k] == flag
  }

  /** The error of the first offending chunk, for a reading that fails. */
  function FirstError(rest: seq<string>): string
    decreases |rest|
  {
    if |rest| == 1 then INVALID_FORMAT
    else if |rest| >= 2 && IsFlag(rest[0]) then FirstError(rest[2..])
    else UNKNOWN_FLAG
  }

  lemma PairsShift(rest: seq<string>)
    requires |rest| >= 2
    ensures WellFormed(rest) <==> IsFlag(rest[0]) && WellFormed(rest[2..])
    ensures forall flag :: Uses(rest, flag) <==> rest[0] == flag || Uses(rest[2..], flag)
  {
    WellFormedShift(rest);
    forall flag ensures Uses(rest, flag) <==> rest[0] == flag || Uses(rest[2..], flag) {
      UsesShift(rest, flag);
    }
  }

  /** Well-formedness is decided by the first pair and the rest. */
  lemma WellFormedShift(rest: seq<string>)
    requires |rest| >= 2
    ensures WellFormed(rest) <==> IsFlag(rest[0]) && WellFormed(rest[2..])
  {
    var tail := rest[2..];
    assert |rest| / 2 == |tail| / 2 + 1;
    if WellFormed(rest) {
      assert IsFlag(rest[2 * 0]);
      forall k | 0 <= k < |tail| / 2 ensures IsFlag(tail[2 * k]) {
        assert tail[2 * k] == rest[2 * (k + 1)];
      }
    }
    if IsFlag(rest[0]) && WellFormed(tail) {
      forall k | 0 <= k < |rest| / 2 ensures IsFlag(rest[2 * k]) {
        if k > 0 {
          assert rest[2 * k] == tail[2 * (k - 1)];
        }
      }
    }
  }

  /** A flag is used in the first pair or in the rest. */
  lemma UsesShift(rest: seq<string>, flag: string)
    requires |rest| >= 2
    ensures Uses(rest, flag) <==> rest[0] == flag || Uses(rest[2..], flag)
  {
    var tail := rest[2..];
    if Uses(rest, flag) {
      var k :| 0 <= k < |rest| / 2 && rest[2 * k] == flag;
      if k > 0 {
        assert tail[2 * (k - 1)] == flag;
      }
    }
    if rest[0] == flag {
      assert rest[2 * 0] == flag;
    }
    if Uses(tail, flag) {
      var k :| 0 <= k < |tail| / 2 && tail[2 * k] == flag;
      assert rest[2 * (k + 1)] == flag;
    }
  }

  /** The reading succeeds exactly on well-formed arguments, and then
      gives for each flag the value of its last pair, or what was read
      before when it does not occur; otherwise the first offending chunk
      decides the error. */
  lemma {:induction false} ParsePairsMeaning(rest: seq<string>, logDir: Option<string>, serverId: Option<string>)
    ensures ParsePairs(rest, logDir, serverId).Ok? <==> WellFormed(rest)
    ensures WellFormed(rest) ==> ParsePairs(rest, logDir, serverId) == Ok((
      if LastValue(rest, LOG_DIR_FLAG).Some? then LastValue(rest, LOG_DIR_FLAG) else logDir,
      if LastValue(rest, SERVER_ID_FLAG).Some? then LastValue(rest, SERVER_ID_FLAG) else serverId))
    ensures !WellFormed(rest) ==> ParsePairs(rest, logDir, serverId) == Err(FirstError(rest))
    decreases |rest|
  {
    if |rest| >= 2 {
      PairsShift(rest);
      if rest[0] == LOG_DIR_FLAG {
        ParsePairsMeaning(rest[2..], Some(rest[1]), serverId);
      } else if rest[0] == SERVER_ID_FLAG {
        ParsePairsMeaning(rest[2..], logDir, Some(rest[1]));
      }
    } else if |rest| == 1 {
      assert !WellFormed(rest);
    }
  }

  /** A flag's last value is present exactly when some pair uses the
      flag. */
  lemma {:induction false} LastValueIffUsed(rest: seq<string>, flag: string)
    ensures LastValue(rest, flag).Some? <==> Uses(rest, flag)
    decreases |rest|
  {
    if |rest| >= 2 {
      PairsShift(rest);
      LastValueIffUsed(rest[2..], flag);
    } else {
      assert !Uses(rest, flag);
    }
  }

  /** `parse_args` in full: no arguments at all fail; otherwise the pairs
      after the program name either are well formed, and each flag gets
      the value of its last pair and is present exactly when used, or the
      first offending chunk decides the error. */
  lemma ParseArgsMeaning(argv: seq<string>)
    ensures |argv| == 0 ==> ParseArgsSpec(argv) == Err(MISSING_ARGUMENT)
    ensures |argv| == 1 ==> ParseArgsSpec(argv) == Ok((None, None))
    ensures |argv| > 0 && WellFormed(argv[1..]) ==>
      ParseArgsSpec(argv) == Ok((LastValue(argv[1..], LOG_DIR_FLAG), LastValue(argv[1..], SERVER_ID_FLAG)))
    ensures |argv| > 0 && !WellFormed(argv[1..]) ==> ParseArgsSpec(argv) == Err(FirstError(argv[1..]))
    ensures |argv| > 0 && ParseArgsSpec(argv).Ok? ==>
      (ParseArgsSpec(argv).value.0.Some? <==> Uses(argv[1..], LOG_DIR_FLAG)) &&
      (ParseArgsSpec(argv).value.1.Some? <==> Uses(argv[1..], SERVER_ID_FLAG))
  {
    if |argv| > 0 {
      ParsePairsMeaning(argv[1..], None, None);
      LastValueIffUsed(argv[1..], LOG_DIR_FLAG);
      LastValueIffUsed(argv[1..], SERVER_ID_FLAG);
    }
  }

  /** A repeated flag: the later pair wins. */
  lemma {:induction false} LaterPairWins(rest: seq<string>, flag: string, value: string)
    requires |rest| % 2 == 0
    ensures LastValue(rest + [flag, value], flag) == Some(value)
    decreases |rest|
  {
    if |rest| >= 2 {
      assert (rest + [flag, value])[2..] == rest[2..] + [flag, value];
      LaterPairWins(rest[2..], flag, value);
    } else {
      assert (rest + [flag, value])[2..] == [];
    }
  }

  /** Once a chunk offends, what follows it is never examined. */
  lemma {:induction false} LaterChunksIgnored(good: seq<string>, bad: seq<string>, later: seq<string>)
    requires WellFormed(good) && |bad| == 2 && !IsFlag(bad[0])
    ensures ParseArgsSpec(["program"] + good + bad + later) == Err(UNKNOWN_FLAG)
  {
    var argv := ["program"] + good + bad + later;
    assert argv[1..] == good + (bad + later);
    PrefixSkipped(good, bad + later, None, None);
  }

  /** A well-formed prefix is read through without deciding the outcome. */
  lemma {:induction false} PrefixSkipped(good: seq<string>, rest: seq<string>, logDir: Option<string>, serverId: Option<string>)
    requires WellFormed(good)
    requires |rest| >= 2 && !IsFlag(rest[0])
    ensures ParsePairs(good + rest, logDir, serverId) == Err(UNKNOWN_FLAG)
    decreases |good|
  {
    if |good| == 0 {
      assert good + rest == rest;
    } else {
      PairsShift(good);
      assert (good + rest)[2..] == good[2..] + rest;
      assert (good + rest)[0] == good[0] && (good + rest)[1] == good[1];
      if good[0] == LOG_DIR_FLAG {
        PrefixSkipped(good[2..], rest, Some(good[1]), serverId);
      } else {
        PrefixSkipped(good[2..], rest, logDir, Some(good[1]));
      }
    }
  }
}
