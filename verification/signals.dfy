/** The freshness signals of the scheduling project: the batch filter `one_week_ago`, the
    existence check `ext_file_exists`, the name quoting helper and the freshness gate
    `ext_file_updated`, which decides whether a watched file (local or in S3) was modified after
    the previous scheduled run of a cron schedule.

    Everything the gate learns from outside (the snapshot table of the execution context, the
    host's clock conversion, the ISO parser, croniter, boto3 and the file system) is a field of
    `Host`, so each call is a deterministic function of its inputs. */
module Signals {
  import opened Outcomes
  import opened Text
  import opened Instants

  /** The exceptions raised by the signals, one constructor per distinct raise. */
  datatype Error =
    | TimestampNotIso(value: string)        // ValueError: execution_ts must be datetime or ISO string
    | LiteralNotIso(rendered: string)       // ValueError: execution_ts failed to parse from Literal
    | TimestampWrongType(typeName: string)  // ValueError: execution_ts of an unsupported type
    | InvalidCron(expr: string)             // ValueError: Invalid cron string
    | S3ClientMissing                       // ImportError: boto3 is required
    | InvalidS3Path(path: string)           // ValueError: Invalid S3 path
    | S3ObjectNotFound(path: string)        // FileNotFoundError: S3 object not found
    | LocalFileNotFound(path: string)       // FileNotFoundError: Local file not found
    | S3ClientError(code: string)           // a botocore ClientError other than 404, re-raised
    | S3ProbeFailure(reason: string)        // any other exception out of head_object
    | NoReferenceTime                       // AttributeError: best_guess is None at the tz fix
    | IncomparableTimes                     // TypeError: naive compared with aware

  /** What `head_object` does for one bucket and key: returns metadata, raises a ClientError with
      an error code, or raises something else. */
  datatype HeadOutcome =
    | Found(lastModified: Instant)
    | ClientError(code: string)
    | ProbeFailure(reason: string)

  /** The environment of one gate evaluation.
      - snapshots: `context.snapshots`, keyed by quoted model name, giving `created_ts` (epoch ms)
      - fromTimestamp: wall clock of `datetime.fromtimestamp(ms / 1000.0)` on this host
      - parseIso: `datetime.fromisoformat`, `None` where it raises ValueError
      - cronValid, cronPrev: `croniter.is_valid` and `croniter(expr, seed).get_prev()` on walls
      - s3Available: whether `import boto3` succeeded
      - headObject: the outcome of `head_object(Bucket, Key)`
      - pathExists, getMtime: `os.path.exists` and the wall clock of
        `datetime.fromtimestamp(os.path.getmtime(path))` */
  datatype Host = Host(
    snapshots: map<string, int>,
    fromTimestamp: int -> int,
    parseIso: string -> Option<Instant>,
    cronValid: string -> bool,
    cronPrev: (string, int) -> int,
    s3Available: bool,
    headObject: (string, string) -> HeadOutcome,
    pathExists: string -> bool,
    getMtime: string -> int)

  /** croniter's promise that the previous boundary lies strictly before its seed. */
  ghost predicate PrevStrictlyEarlier(prev: (string, int) -> int)
  {
    forall expr, seed :: prev(expr, seed) < seed
  }

  // ---------------------------------------------------------------------------------------
  // one_week_ago

  /** A batch interval `(start, end)` on the UTC clock. */
  type Interval = (int, int)

  /** The intervals of `batch` that start at or before `cutoff` ("1 week ago"), in batch order. */
  function OneWeekAgo(batch: seq<Interval>, cutoff: int): (r: seq<Interval>)
    ensures |r| <= |batch|
    ensures forall x :: x in r <==> x in batch && x.0 <= cutoff
  {
    if |batch| == 0 then []
    else
      assert batch == [batch[0]] + batch[1..];
      (if batch[0].0 <= cutoff then [batch[0]] else []) + OneWeekAgo(batch[1..], cutoff)
  }

  /** Filtering distributes over concatenation: nothing is reordered or merged across parts. */
  lemma {:induction false} OneWeekAgoConcat(a: seq<Interval>, b: seq<Interval>, cutoff: int)
    ensures OneWeekAgo(a + b, cutoff) == OneWeekAgo(a, cutoff) + OneWeekAgo(b, cutoff)
  {
    if |a| == 0 {
      assert a + b == b;
    } else {
      var head := if a[0].0 <= cutoff then [a[0]] else [];
      assert (a + b)[0] == a[0];
      assert (a + b)[1..] == a[1..] + b;
      assert OneWeekAgo(a + b, cutoff) == head + OneWeekAgo(a[1..] + b, cutoff);
      OneWeekAgoConcat(a[1..], b, cutoff);
      assert OneWeekAgo(a, cutoff) == head + OneWeekAgo(a[1..], cutoff);
    }
  }

  /** Each kept interval occurs as often as in the batch; nothing is duplicated or dropped. */
  lemma {:induction false} OneWeekAgoMultiplicity(batch: seq<Interval>, cutoff: int, x: Interval)
    ensures multiset(OneWeekAgo(batch, cutoff))[x] == if x.0 <= cutoff then multiset(batch)[x] else 0
  {
    if |batch| > 0 {
      assert batch == [batch[0]] + batch[1..];
      OneWeekAgoMultiplicity(batch[1..], cutoff, x);
    }
  }

  /** A batch lying wholly before the cutoff is kept as it is. */
  lemma {:induction false} OneWeekAgoKeepsOldBatch(batch: seq<Interval>, cutoff: int)
    requires forall k :: 0 <= k < |batch| ==> batch[k].0 <= cutoff
    ensures OneWeekAgo(batch, cutoff) == batch
  {
    if |batch| > 0 {
      OneWeekAgoKeepsOldBatch(batch[1..], cutoff);
    }
  }

  /** Two intervals, January and June 2024, filtered one week before 2024-06-04 keep January only. */
  lemma OneWeekAgoExample()
    ensures var jan1, jun1 := 19723 * Day, 19875 * Day;
            OneWeekAgo([(jan1, jan1 + Day), (jun1, jun1 + Day)], 19878 * Day - 7 * Day)
              == [(jan1, jan1 + Day)]
  {
  }

  // ---------------------------------------------------------------------------------------
  // quote_dotted_string

  function Quote(part: string): string
  {
    "\"" + part + "\""
  }

  /** Drops one surrounding pair of double quotes, if there is one. */
  function Unquote(q: string): string
  {
    if |q| >= 2 && q[0] == '"' && q[|q| - 1] == '"' then q[1..|q| - 1] else q
  }

  function QuoteEach(parts: seq<string>): (r: seq<string>)
    ensures |r| == |parts|
    ensures forall k :: 0 <= k < |parts| ==> r[k] == Quote(parts[k])
  {
    seq(|parts|, k requires 0 <= k < |parts| => Quote(parts[k]))
  }

  function UnquoteEach(parts: seq<string>): (r: seq<string>)
    ensures |r| == |parts|
    ensures forall k :: 0 <= k < |parts| ==> r[k] == Unquote(parts[k])
  {
    seq(|parts|, k requires 0 <= k < |parts| => Unquote(parts[k]))
  }

  /** Quoting keeps segments free of dots. */
  lemma QuotedPiecesDotFree(parts: seq<string>)
    requires forall k :: 0 <= k < |parts| ==> '.' !in parts[k]
    ensures forall k :: 0 <= k < |parts| ==> '.' !in QuoteEach(parts)[k]
  {
    forall k | 0 <= k < |parts| ensures '.' !in QuoteEach(parts)[k] {
      assert QuoteEach(parts)[k] == "\"" + parts[k] + "\"";
    }
  }

  /** `quote_dotted_string`: every dot-separated segment wrapped in double quotes. The segments
      of the result are exactly the quoted segments of `s`: the count is kept and segment k of
      the result is segment k of `s` in quotes. */
  function QuoteDotted(s: string): (r: string)
    ensures Split(r, '.') == QuoteEach(Split(s, '.'))
  {
    QuotedPiecesDotFree(Split(s, '.'));
    SplitJoin(QuoteEach(Split(s, '.')), '.');
    Join(QuoteEach(Split(s, '.')), '.')
  }

  /** Strips the quotes from every dot-separated segment. */
  function UnquoteDotted(q: string): string
  {
    Join(UnquoteEach(Split(q, '.')), '.')
  }

  /** Removing the quotes again gives back the name. */
  lemma QuoteDottedRoundTrip(s: string)
    ensures UnquoteDotted(QuoteDotted(s)) == s
  {
    var parts := Split(s, '.');
    assert UnquoteEach(QuoteEach(parts)) == parts;
    JoinSplit(s, '.');
  }

  /** `catalog.schema.dataset` becomes `"catalog"."schema"."dataset"`. */
  lemma QuoteDottedExample()
    ensures QuoteDotted("catalog.schema.dataset") == "\"catalog\".\"schema\".\"dataset\""
  {
    var quoted := ["\"catalog\"", "\"schema\"", "\"dataset\""];
    ExampleJoin(quoted, "\"catalog\".\"schema\".\"dataset\"");
    ExampleQuoteEach();
    ExampleSplit();
  }

  lemma ExampleSplit()
    ensures Split("catalog.schema.dataset", '.') == ["catalog", "schema", "dataset"]
  {
    var parts := ["catalog", "schema", "dataset"];
    ExampleJoin(parts, "catalog.schema.dataset");
    SplitJoin(parts, '.');
  }

  lemma ExampleQuoteEach()
    ensures QuoteEach(["catalog", "schema", "dataset"])
              == ["\"catalog\"", "\"schema\"", "\"dataset\""]
  {
    var q := QuoteEach(["catalog", "schema", "dataset"]);
    assert q[0] == Quote("catalog") == "\"catalog\"";
    assert q[1] == Quote("schema") == "\"schema\"";
    assert q[2] == Quote("dataset") == "\"dataset\"";
  }

  /** Joining three pieces with dots. */
  lemma ExampleJoin(parts: seq<string>, joined: string)
    requires |parts| == 3 && joined == parts[0] + "." + parts[1] + "." + parts[2]
    ensures Join(parts, '.') == joined
  {
    assert Join(parts[2..], '.') == parts[2];
    assert Join(parts[1..], '.') == parts[1] + "." + parts[2];
  }

  // ---------------------------------------------------------------------------------------
  // cron aliases

  /** The gate's default schedule. */
  const DefaultCron: string := "@hourly"

  /** The fixed alias table of the gate. */
  const CronAliases: map<string, string> := map[
    "@yearly" := "0 0 1 1 *",
    "@annually" := "0 0 1 1 *",
    "@monthly" := "0 0 1 * *",
    "@weekly" := "0 0 * * 0",
    "@daily" := "0 0 * * *",
    "@midnight" := "0 0 * * *",
    "@hourly" := "0 * * * *"]

  /** `cron_map.get(cron_str, cron_str)`. */
  function ResolveCron(cronStr: string): (r: string)
    ensures cronStr !in CronAliases ==> r == cronStr
    ensures r !in CronAliases
  {
    if cronStr in CronAliases then CronAliases[cronStr] else cronStr
  }

  /** The alias table, entry by entry. */
  lemma CronAliasTable()
    ensures ResolveCron("@yearly") == ResolveCron("@annually") == "0 0 1 1 *"
    ensures ResolveCron("@monthly") == "0 0 1 * *"
    ensures ResolveCron("@weekly") == "0 0 * * 0"
    ensures ResolveCron("@daily") == ResolveCron("@midnight") == "0 0 * * *"
    ensures ResolveCron("@hourly") == "0 * * * *"
    ensures CronAliases.Keys
      == {"@yearly", "@annually", "@monthly", "@weekly", "@daily", "@midnight", "@hourly"}
  {
  }

  /** Resolving an already resolved expression changes nothing. */
  lemma ResolveCronIdempotent(cronStr: string)
    ensures ResolveCron(ResolveCron(cronStr)) == ResolveCron(cronStr)
  {
  }

  // ---------------------------------------------------------------------------------------
  // S3 locators

  /** `path` starts with `s3://`, the bucket and `/` and the key, and the key is followed by the
      end of the text or a newline; the bucket is non-empty without `/`, the key non-empty
      without newline. */
  ghost predicate LocatorShape(path: string, bucket: string, key: string)
  {
    var matched := "s3://" + bucket + "/" + key;
    && matched <= path
    && (|matched| == |path| || path[|matched|] == '\n')
    && bucket != "" && '/' !in bucket
    && key != "" && '\n' !in key
  }

  /** `re.match(r"s3://([^/]+)/(.+)", path)` and its two groups. The bucket runs to the first
      `/` after the scheme; the key is the run of characters before the first newline after it
      (the pattern has no end anchor and `.` stops at a newline). */
  function MatchS3(path: string): (r: Option<(string, string)>)
    ensures r.Some? ==> LocatorShape(path, r.value.0, r.value.1)
  {
    if !("s3://" <= path) then None
    else
      var rest := path[5..];
      match FirstIndex(rest, '/')
      case None => None
      case Some(j) =>
        if j == 0 then None
        else
          var bucket, tail := rest[..j], rest[j + 1..];
          var key := TakeUntil(tail, '\n');
          if key == "" then None
          else
            MatchedPrefix(path, bucket, key);
            Some((bucket, key))
  }

  lemma MatchedPrefix(path: string, bucket: string, key: string)
    requires "s3://" <= path
    requires |bucket| < |path| - 5 && bucket == path[5..][..|bucket|] && path[5 + |bucket|] == '/'
    requires key <= path[6 + |bucket|..]
    ensures "s3://" + bucket + "/" + key <= path
  {
    var m := "s3://" + bucket + "/" + key;
    assert |m| <= |path|;
    forall i | 0 <= i < |m| ensures m[i] == path[i] {
      if i < 5 {
      } else if i < 5 + |bucket| {
        assert m[i] == bucket[i - 5];
      } else if i == 5 + |bucket| {
      } else {
        assert m[i] == key[i - 6 - |bucket|];
      }
    }
  }

  /** Every well-formed locator is matched, with exactly its bucket and key. */
  lemma MatchS3Complete(path: string, bucket: string, key: string)
    requires LocatorShape(path, bucket, key)
    ensures MatchS3(path) == Some((bucket, key))
  {
    var m := "s3://" + bucket + "/" + key;
    var rest := path[5..];
    assert rest[..|bucket|] == bucket && rest[|bucket|] == '/' by {
      assert path[..|m|] == m;
    }
    FirstIndexAt(rest, '/', |bucket|);
    var tail := rest[|bucket| + 1..];
    assert tail[..|key|] == key by {
      assert path[..|m|] == m;
    }
    if |key| < |tail| {
      FirstIndexAt(tail, '\n', |key|);
    } else {
      assert tail == key;
    }
  }

  // ---------------------------------------------------------------------------------------
  // ext_file_exists

  function IsS3(path: string): bool
  {
    "s3://" <= path
  }

  /** `ext_file_exists`: does the watched file exist? A 404 from S3 means no; any other S3
      error propagates. */
  function ExtFileExists(host: Host, filePath: string): (r: Result<bool, Error>)
    ensures !IsS3(filePath) ==> r == Ok(host.pathExists(filePath))
    ensures IsS3(filePath) && !host.s3Available ==> r == Err(S3ClientMissing)
    ensures IsS3(filePath) && host.s3Available && MatchS3(filePath).None? ==>
              r == Err(InvalidS3Path(filePath))
    ensures IsS3(filePath) && r == Ok(false) ==>
              host.headObject(MatchS3(filePath).value.0, MatchS3(filePath).value.1)
                == ClientError("404")
    ensures IsS3(filePath) && host.s3Available && MatchS3(filePath).Some? ==>
              var (bucket, key) := MatchS3(filePath).value;
              r == match host.headObject(bucket, key)
                   case Found(_) => Ok(true)
                   case ClientError(code) =>
                     if code == "404" then Ok(false) else Err(S3ClientError(code))
                   case ProbeFailure(reason) => Err(S3ProbeFailure(reason))
  {
    if IsS3(filePath) then
      if !host.s3Available then Err(S3ClientMissing)
      else match MatchS3(filePath)
        case None => Err(InvalidS3Path(filePath))
        case Some((bucket, key)) =>
          match host.headObject(bucket, key)
          case Found(_) => Ok(true)
          case ClientError(code) => if code == "404" then Ok(false) else Err(S3ClientError(code))
          case ProbeFailure(reason) => Err(S3ProbeFailure(reason))
    else
      Ok(host.pathExists(filePath))
  }

  // ---------------------------------------------------------------------------------------
  // ext_file_updated, step by step

  /** The value passed as `execution_tstz`: missing or None, a string, a sqlglot Literal (its
      rendering and the string `to_py()` gives), a datetime, or anything else with its type name
      and Python truthiness. */
  datatype TimestampArg =
    | Absent
    | IsoText(text: string)
    | SqlLiteral(rendered: string, value: string)
    | DateTimeValue(t: Instant)
    | OtherValue(typeName: string, truthy: bool)

  /** Python truthiness of the argument (`if execution_tstz:`). */
  predicate Truthy(arg: TimestampArg)
  {
    match arg
    case Absent => false
    case IsoText(text) => text != ""
    case SqlLiteral(_, _) => true
    case DateTimeValue(_) => true
    case OtherValue(_, truthy) => truthy
  }

  /** The snapshot's creation time for the model, relabelled UTC (`this_run_ec`). */
  function SnapshotTime(host: Host, modelName: string): (r: Option<Instant>)
    ensures r.Some? <==> QuoteDotted(modelName) in host.snapshots
    ensures r.Some? ==> r.value.zone == Utc
    ensures r.Some? ==> r.value.wall == host.fromTimestamp(host.snapshots[QuoteDotted(modelName)])
  {
    var mn := QuoteDotted(modelName);
    if mn in host.snapshots then
      Some(AsUtc(Instant(host.fromTimestamp(host.snapshots[mn]), Naive)))
    else None
  }

  /** The explicit execution timestamp, parsed and relabelled UTC (`this_run_et`). */
  function ExecutionTimestamp(host: Host, arg: TimestampArg): (r: Result<Option<Instant>, Error>)
    ensures !Truthy(arg) ==> r == Ok(None)
    ensures Truthy(arg) && r.Ok? ==> r.value.Some?
    ensures r.Ok? && r.value.Some? ==> r.value.value.zone == Utc
    ensures arg.DateTimeValue? ==> r == Ok(Some(Instant(arg.t.wall, Utc)))
    ensures Truthy(arg) && arg.IsoText? ==>
              r == (if host.parseIso(arg.text).None? then Err(TimestampNotIso(arg.text))
                    else Ok(Some(Instant(host.parseIso(arg.text).value.wall, Utc))))
    ensures Truthy(arg) && arg.OtherValue? ==> r == Err(TimestampWrongType(arg.typeName))
    ensures arg.SqlLiteral? ==>
              r == (if host.parseIso(arg.value).None? then Err(LiteralNotIso(arg.rendered))
                    else Ok(Some(Instant(host.parseIso(arg.value).value.wall, Utc))))
    ensures r.Err? <==>
              Truthy(arg) &&
              (|| (arg.IsoText? && host.parseIso(arg.text).None?)
               || (arg.SqlLiteral? && host.parseIso(arg.value).None?)
               || arg.OtherValue?)
  {
    if !Truthy(arg) then Ok(None)
    else match arg
      case IsoText(text) =>
        (match host.parseIso(text)
         case None => Err(TimestampNotIso(text))
         case Some(t) => Ok(Some(AsUtc(t))))
      case SqlLiteral(rendered, value) =>
        (match host.parseIso(value)
         case None => Err(LiteralNotIso(rendered))
         case Some(t) => Ok(Some(AsUtc(t))))
      case OtherValue(typeName, _) => Err(TimestampWrongType(typeName))
      case DateTimeValue(t) => Ok(Some(AsUtc(t)))
  }

  /** `max(filter(None, [ec, et]), default=None)`: the later present candidate; on a tie the
      first one. */
  function BestGuess(ec: Option<Instant>, et: Option<Instant>): (r: Option<Instant>)
    requires ec.Some? ==> Aware(ec.value)
    requires et.Some? ==> Aware(et.value)
    ensures r.None? <==> ec.None? && et.None?
    ensures r.Some? ==> r == ec || r == et
    ensures ec.Some? ==> UtcValue(ec.value) <= UtcValue(r.value)
    ensures et.Some? ==> UtcValue(et.value) <= UtcValue(r.value)
    ensures ec.Some? && et.Some? && UtcValue(et.value) <= UtcValue(ec.value) ==> r == ec
  {
    match (ec, et)
    case (None, None) => None
    case (Some(a), None) => Some(a)
    case (None, Some(b)) => Some(b)
    case (Some(a), Some(b)) => if UtcValue(b) > UtcValue(a) then Some(b) else Some(a)
  }

  /** The reference time of the run (`best_guess`): the later of the snapshot time and the
      execution timestamp, or an error from parsing the latter. */
  function ReferenceTime(host: Host, modelName: string, executionTstz: TimestampArg)
    : (r: Result<Option<Instant>, Error>)
    ensures r.Err? <==> ExecutionTimestamp(host, executionTstz).Err?
    ensures r.Ok? ==>
              (r.value.None? <==> !Truthy(executionTstz) && SnapshotTime(host, modelName).None?)
    ensures r.Ok? && r.value.Some? ==> r.value.value.zone == Utc
  {
    match ExecutionTimestamp(host, executionTstz)
    case Err(e) => Err(e)
    case Ok(et) => Ok(BestGuess(SnapshotTime(host, modelName), et))
  }

  /** The previous scheduled run before the reference time, relabelled UTC (`last_run`). */
  function LastRun(host: Host, cronString: string, bestGuess: Instant): (r: Instant)
    ensures r.zone == Utc
    ensures PrevStrictlyEarlier(host.cronPrev) ==> r.wall < bestGuess.wall
  {
    AsUtc(Instant(host.cronPrev(cronString, bestGuess.wall), bestGuess.zone))
  }

  /** The file's modification time (`file_mtime`): from S3 metadata, labelled UTC when naive, or
      from the local file system, naive. */
  function ProbeMtime(host: Host, filePath: string): (r: Result<Instant, Error>)
    ensures IsS3(filePath) && r.Ok? ==> Aware(r.value)
    ensures IsS3(filePath) && !host.s3Available ==> r == Err(S3ClientMissing)
    ensures IsS3(filePath) && r.Err? ==>
              r.error in {S3ClientMissing, InvalidS3Path(filePath), S3ObjectNotFound(filePath)}
    ensures IsS3(filePath) && host.s3Available && MatchS3(filePath).None? ==>
              r == Err(InvalidS3Path(filePath))
    ensures IsS3(filePath) && host.s3Available && MatchS3(filePath).Some? ==>
              var (bucket, key) := MatchS3(filePath).value;
              r == match host.headObject(bucket, key)
                   case Found(lm) => Ok(if lm.zone.Naive? then AsUtc(lm) else lm)
                   case _ => Err(S3ObjectNotFound(filePath))
    ensures !IsS3(filePath) ==>
              r == if host.pathExists(filePath) then Ok(Instant(host.getMtime(filePath), Naive))
                   else Err(LocalFileNotFound(filePath))
  {
    if IsS3(filePath) then
      if !host.s3Available then Err(S3ClientMissing)
      else match MatchS3(filePath)
        case None => Err(InvalidS3Path(filePath))
        case Some((bucket, key)) =>
          match host.headObject(bucket, key)
          case Found(lastModified) =>
            Ok(if lastModified.zone.Naive? then AsUtc(lastModified) else lastModified)
          case _ => Err(S3ObjectNotFound(filePath))
    else if !host.pathExists(filePath) then Err(LocalFileNotFound(filePath))
    else Ok(Instant(host.getMtime(filePath), Naive))
  }

  /** `ext_file_updated`: was the file modified after the previous scheduled run before the
      reference time? Failures surface in the order the code meets them: timestamp parsing,
      cron validation, the file probe, and only then a missing reference time. */
  function ExtFileUpdated(host: Host, filePath: string, cronStr: string := DefaultCron,
                          modelName: string, executionTstz: TimestampArg := Absent): (r: Result<bool, Error>)
    ensures r != Err(IncomparableTimes)
    ensures r.Ok? ==> ReferenceTime(host, modelName, executionTstz).Ok?
    ensures r.Ok? ==> ReferenceTime(host, modelName, executionTstz).value.Some?
    ensures r.Ok? ==> host.cronValid(ResolveCron(cronStr)) && ProbeMtime(host, filePath).Ok?
    ensures IsS3(filePath) ==> r != Err(LocalFileNotFound(filePath))
  {
    match ReferenceTime(host, modelName, executionTstz)
    case Err(e) => Err(e)
    case Ok(bestGuess) =>
      var cronString := ResolveCron(cronStr);
      if !host.cronValid(cronString) then Err(InvalidCron(cronString))
      else
        var lastRun := if bestGuess.Some? then Some(LastRun(host, cronString, bestGuess.value))
                       else None;
        match ProbeMtime(host, filePath)
        case Err(e) => Err(e)
        case Ok(fileMtime) =>
          if bestGuess.None? then Err(NoReferenceTime)
          else
            var fixed := FixTimezones(bestGuess.value, fileMtime);
            match Later(fixed.1, lastRun.value)
            case None => Err(IncomparableTimes)
            case Some(willRun) => Ok(willRun)
  }

  // ---------------------------------------------------------------------------------------
  // properties of the gate

  /** With a reference time, a valid schedule and a probed file, the verdict is exactly "the
      file's modification time is strictly later than the previous boundary". */
  lemma ExtFileUpdatedVerdict(host: Host, filePath: string, cronStr: string, modelName: string,
                              executionTstz: TimestampArg, bestGuess: Instant, fileMtime: Instant)
    requires ReferenceTime(host, modelName, executionTstz) == Ok(Some(bestGuess))
    requires host.cronValid(ResolveCron(cronStr))
    requires ProbeMtime(host, filePath) == Ok(fileMtime)
    ensures ExtFileUpdated(host, filePath, cronStr, modelName, executionTstz)
              == Ok(ClockValue(fileMtime) > host.cronPrev(ResolveCron(cronStr), bestGuess.wall))
  {
    var lastRun := LastRun(host, ResolveCron(cronStr), bestGuess);
    var fixed := FixTimezones(bestGuess, fileMtime);
    assert Aware(fixed.1) && ClockValue(fixed.1) == ClockValue(fileMtime);
    assert Later(fixed.1, lastRun) == Some(ClockValue(fileMtime) > lastRun.wall);
  }

  /** A file modified exactly at the previous boundary does not trigger a run. */
  lemma ModifiedAtBoundaryIsNotFresh(host: Host, filePath: string, cronStr: string,
                                     modelName: string, executionTstz: TimestampArg,
                                     bestGuess: Instant, fileMtime: Instant)
    requires ReferenceTime(host, modelName, executionTstz) == Ok(Some(bestGuess))
    requires host.cronValid(ResolveCron(cronStr))
    requires ProbeMtime(host, filePath) == Ok(fileMtime)
    requires ClockValue(fileMtime) == host.cronPrev(ResolveCron(cronStr), bestGuess.wall)
    ensures ExtFileUpdated(host, filePath, cronStr, modelName, executionTstz) == Ok(false)
  {
    ExtFileUpdatedVerdict(host, filePath, cronStr, modelName, executionTstz, bestGuess, fileMtime);
  }

  /** Since the previous boundary lies strictly before the reference time, a file modified at or
      after the reference time always triggers a run. */
  lemma ModifiedSinceReferenceIsFresh(host: Host, filePath: string, cronStr: string,
                                      modelName: string, executionTstz: TimestampArg,
                                      bestGuess: Instant, fileMtime: Instant)
    requires PrevStrictlyEarlier(host.cronPrev)
    requires ReferenceTime(host, modelName, executionTstz) == Ok(Some(bestGuess))
    requires host.cronValid(ResolveCron(cronStr))
    requires ProbeMtime(host, filePath) == Ok(fileMtime)
    requires ClockValue(fileMtime) >= bestGuess.wall
    ensures ExtFileUpdated(host, filePath, cronStr, modelName, executionTstz) == Ok(true)
  {
    ExtFileUpdatedVerdict(host, filePath, cronStr, modelName, executionTstz, bestGuess, fileMtime);
    assert host.cronPrev(ResolveCron(cronStr), bestGuess.wall) < bestGuess.wall;
  }

  /** A malformed execution timestamp is reported before anything else is looked at. */
  lemma TimestampErrorComesFirst(host: Host, filePath: string, cronStr: string,
                                 modelName: string, executionTstz: TimestampArg, e: Error)
    requires ExecutionTimestamp(host, executionTstz) == Err(e)
    ensures ExtFileUpdated(host, filePath, cronStr, modelName, executionTstz) == Err(e)
  {
  }

  /** An invalid schedule is reported before the file is probed: the outcome does not depend on
      the file at all. */
  lemma InvalidCronBeforeProbe(host: Host, filePath: string, cronStr: string, modelName: string,
                               executionTstz: TimestampArg)
    requires ExecutionTimestamp(host, executionTstz).Ok?
    requires !host.cronValid(ResolveCron(cronStr))
    ensures ExtFileUpdated(host, filePath, cronStr, modelName, executionTstz)
              == Err(InvalidCron(ResolveCron(cronStr)))
  {
  }

  /** With a reference time and a valid schedule, a failed probe is the gate's error: a missing
      local file or any failure of the S3 metadata probe is a not-found, a missing boto3 or a
      malformed locator is reported as such. */
  lemma ProbeErrorIsGateError(host: Host, filePath: string, cronStr: string, modelName: string,
                              executionTstz: TimestampArg)
    requires ReferenceTime(host, modelName, executionTstz).Ok?
    requires host.cronValid(ResolveCron(cronStr))
    requires ProbeMtime(host, filePath).Err?
    ensures ExtFileUpdated(host, filePath, cronStr, modelName, executionTstz)
              == Err(ProbeMtime(host, filePath).error)
    ensures !IsS3(filePath) ==>
              ExtFileUpdated(host, filePath, cronStr, modelName, executionTstz)
                == Err(LocalFileNotFound(filePath))
  {
  }

  /** Without any reference time the gate never gives a verdict: it fails with the probe's
      error if the probe fails, and otherwise with the missing reference. */
  lemma NoReferenceNeverDecides(host: Host, filePath: string, cronStr: string, modelName: string,
                                executionTstz: TimestampArg)
    requires !Truthy(executionTstz) && SnapshotTime(host, modelName).None?
    requires host.cronValid(ResolveCron(cronStr))
    ensures ExtFileUpdated(host, filePath, cronStr, modelName, executionTstz)
              == if ProbeMtime(host, filePath).Err? then Err(ProbeMtime(host, filePath).error)
                 else Err(NoReferenceTime)
  {
  }

  /** The reference time is the later of the snapshot time and the execution timestamp. */
  lemma ReferenceIsLatestCandidate(host: Host, modelName: string, executionTstz: TimestampArg)
    requires ExecutionTimestamp(host, executionTstz).Ok?
    ensures var r := ReferenceTime(host, modelName, executionTstz).value;
            var ec, et := SnapshotTime(host, modelName), ExecutionTimestamp(host, executionTstz).value;
            && (r.None? <==> ec.None? && et.None?)
            && (r.Some? ==> r == ec || r == et)
            && (ec.Some? ==> ec.value.wall <= r.value.wall)
            && (et.Some? ==> et.value.wall <= r.value.wall)
  {
  }

  /** An `s3://` locator never falls back to the local file system: the gate's outcome is the
      same whatever the local probes say. */
  lemma S3IgnoresLocalFiles(host: Host, filePath: string, cronStr: string, modelName: string,
                            executionTstz: TimestampArg,
                            exists': string -> bool, mtime': string -> int)
    requires IsS3(filePath)
    ensures ExtFileUpdated(host.(pathExists := exists', getMtime := mtime'), filePath, cronStr,
                           modelName, executionTstz)
              == ExtFileUpdated(host, filePath, cronStr, modelName, executionTstz)
  {
    var other := host.(pathExists := exists', getMtime := mtime');
    assert ProbeMtime(other, filePath) == ProbeMtime(host, filePath);
    assert SnapshotTime(other, modelName) == SnapshotTime(host, modelName);
    assert ExecutionTimestamp(other, executionTstz) == ExecutionTimestamp(host, executionTstz);
    assert ReferenceTime(other, modelName, executionTstz)
             == ReferenceTime(host, modelName, executionTstz);
  }

  /** The same holds for the existence check. */
  lemma S3ExistsIgnoresLocalFiles(host: Host, filePath: string, exists': string -> bool,
                                  mtime': string -> int)
    requires IsS3(filePath)
    ensures ExtFileExists(host.(pathExists := exists', getMtime := mtime'), filePath)
              == ExtFileExists(host, filePath)
  {
  }

  /** The two signals agree on existence: `ext_file_exists` says yes exactly when the gate's
      probe finds a modification time, and a no is a not-found in the gate. */
  lemma ExistsAgreesWithProbe(host: Host, filePath: string)
    ensures ExtFileExists(host, filePath) == Ok(true) <==> ProbeMtime(host, filePath).Ok?
    ensures ExtFileExists(host, filePath) == Ok(false) ==>
              ProbeMtime(host, filePath)
                == Err(if IsS3(filePath) then S3ObjectNotFound(filePath) else LocalFileNotFound(filePath))
  {
  }

  // ---------------------------------------------------------------------------------------
  // worked examples on an hourly schedule

  /** A host on UTC whose croniter knows the hourly schedule and whose local file was modified
      at `mtime`; S3 reports every object missing. */
  function HourlyHost(mtime: int): Host
  {
    Host(map[], ms => ms * 1000, text => None, expr => expr == "0 * * * *",
         (expr, seed) => HourlyPrev(seed), true, (bucket, key) => ClientError("404"),
         path => true, path => mtime)
  }

  /** 2024-01-01T10:30:00Z and the times around it, on the UTC clock. */
  const Jan1At0900: int := 1704099600 * Second
  const Jan1At1000: int := 1704103200 * Second
  const Jan1At1015: int := 1704104100 * Second
  const Jan1At1030: int := 1704105000 * Second

  /** The hourly boundary before 10:30 is 10:00. */
  lemma HourlyBoundaryAt1030()
    ensures HourlyPrev(Jan1At1030) == Jan1At1000
  {
    assert Jan1At1030 - 1 == Jan1At1000 + (30 * Minute - 1);
  }

  /** The gate on the hourly host with the default cron string and reference 10:30 compares the
      file's time with 10:00. */
  lemma HourlyVerdict(mtime: int, filePath: string, modelName: string)
    requires !IsS3(filePath)
    ensures ExtFileUpdated(HourlyHost(mtime), filePath, modelName := modelName,
                           executionTstz := DateTimeValue(Instant(Jan1At1030, Utc)))
              == Ok(mtime > Jan1At1000)
  {
    var host := HourlyHost(mtime);
    var arg := DateTimeValue(Instant(Jan1At1030, Utc));
    assert ResolveCron(DefaultCron) == "0 * * * *";
    assert ReferenceTime(host, modelName, arg) == Ok(Some(Instant(Jan1At1030, Utc)));
    assert ProbeMtime(host, filePath) == Ok(Instant(mtime, Naive));
    HourlyBoundaryAt1030();
    ExtFileUpdatedVerdict(host, filePath, DefaultCron, modelName, arg,
                          Instant(Jan1At1030, Utc), Instant(mtime, Naive));
  }

  /** The default schedule (hourly) with reference 10:30: the previous run was at 10:00, so a
      file modified at 10:15 triggers a run. */
  lemma HourlyModifiedAfterBoundary(filePath: string, modelName: string)
    requires !IsS3(filePath)
    ensures HourlyPrev(Jan1At1030) == Jan1At1000
    ensures ExtFileUpdated(HourlyHost(Jan1At1015), filePath, modelName := modelName,
                           executionTstz := DateTimeValue(Instant(Jan1At1030, Utc))) == Ok(true)
  {
    HourlyBoundaryAt1030();
    HourlyVerdict(Jan1At1015, filePath, modelName);
  }

  /** Same schedule and reference: a file last modified at 09:00 does not trigger a run. */
  lemma HourlyModifiedBeforeBoundary(filePath: string, modelName: string)
    requires !IsS3(filePath)
    ensures ExtFileUpdated(HourlyHost(Jan1At0900), filePath, modelName := modelName,
                           executionTstz := DateTimeValue(Instant(Jan1At1030, Utc))) == Ok(false)
  {
    HourlyVerdict(Jan1At0900, filePath, modelName);
  }

  /** A missing S3 object (a 404 from `head_object`) is a not-found failure for the gate and
      a plain no for the existence check. */
  lemma S3NotFoundOutcomes(host: Host, path: string, bucket: string, key: string,
                           cronStr: string, modelName: string, executionTstz: TimestampArg)
    requires host.s3Available && LocatorShape(path, bucket, key)
    requires host.headObject(bucket, key) == ClientError("404")
    requires ExecutionTimestamp(host, executionTstz).Ok? && host.cronValid(ResolveCron(cronStr))
    ensures ExtFileUpdated(host, path, cronStr, modelName, executionTstz)
              == Err(S3ObjectNotFound(path))
    ensures ExtFileExists(host, path) == Ok(false)
  {
    MatchS3Complete(path, bucket, key);
  }

  /** `s3://bucket/missing.csv` on a host where the object is missing. */
  lemma MissingS3Object(modelName: string)
    ensures ExtFileUpdated(HourlyHost(0), "s3://bucket/missing.csv", "@hourly", modelName,
                           DateTimeValue(Instant(Jan1At1030, Utc)))
              == Err(S3ObjectNotFound("s3://bucket/missing.csv"))
    ensures ExtFileExists(HourlyHost(0), "s3://bucket/missing.csv") == Ok(false)
  {
    assert "s3://bucket/missing.csv" == "s3://" + "bucket" + "/" + "missing.csv";
    S3NotFoundOutcomes(HourlyHost(0), "s3://bucket/missing.csv", "bucket", "missing.csv",
                       "@hourly", modelName, DateTimeValue(Instant(Jan1At1030, Utc)));
  }
}
