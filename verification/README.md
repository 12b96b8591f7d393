# Freshness signals and naming helpers of a SQLMesh project, in Dafny

This project models the scheduling signals of a small SQLMesh data project and the helpers
its models use.

The central piece is the freshness gate `ext_file_updated`. It decides whether a model should
run because a watched file changed after the previous scheduled run. To do so it:

1. reads the reference time of the current run, which is the later of
   - the snapshot creation time in the execution context, looked up by the quoted dotted
     model name, and
   - an optional `execution_tstz` argument, parsed and relabelled UTC;
2. resolves cron aliases and validates the expression;
3. steps back one cron boundary from the reference time;
4. probes the file's modification time, on S3 (`s3://bucket/key`) or on the local disk;
5. aligns naive and aware timestamps;
6. answers with the strict comparison `file_mtime > last_run`.

Every failure on the way is a distinct error, in the order the code meets it.

Alongside the gate the project models:

- the batch filter `one_week_ago`;
- the existence signal `ext_file_exists`;
- `quote_dotted_string`;
- from the scripts package, `make_model_name`, which is basename, then strip the last
  extension, then add an optional prefix and separator;
- the slice arithmetic of `read_csv_in_chunks`.

How the code is modelled:

- A datetime is an `Instant`: a wall-clock reading in microseconds plus a zone tag
  (`Naive | Utc | Offset`). `replace(tzinfo=UTC)` is a relabelling that keeps the wall clock.
- Python's `>` on datetimes returns `None` where Python raises a `TypeError`.
- Everything the gate learns from outside is a field of the `Host` value. That covers the
  snapshot table, the host's timestamp conversion, `fromisoformat`, croniter, boto3
  `head_object` and `os.path`. Each signal is therefore a pure function of its inputs.
- croniter's `get_prev` is only assumed to return a time strictly before its seed
  (`PrevStrictlyEarlier`).
- For the hourly and daily schedules a concrete previous boundary is defined and proved. The
  hourly one drives the worked examples of the gate; the daily one stands with its own lemmas.

The model is split by module:

- `Outcomes`: the `Option` and `Result` datatypes.
- `Text`: `find`, `rfind`, `split` and `join` for a single separator character.
- `Instants`: datetimes, zones, comparison and timezone alignment.
- `Signals`: `signals/__init__.py`.
- `Scripts`: `scripts/__init__.py`.

Three behaviours of the code that are easy to misread:

- **The timezone fix.** The fix before the verdict relabels `best_guess`, not `last_run`. So
  the comparison is between the aligned `file_mtime` and `last_run`, which is always UTC.
  Since every reference time is already aware, a naive local `file_mtime` is always relabelled
  UTC and the comparison never raises.
- **The S3 regular expression.** `s3://([^/]+)/(.+)` is applied with `re.match`, which has no
  end anchor, and `.` stops at a newline. The bucket runs from after `s3://` to the first `/`
  and may itself contain a newline; the key runs from after that `/` up to the first newline
  or the end of the text, and must be non-empty.
- **A missing reference time.** With no reference time, the gate still validates the cron
  string and probes the file first. Only then does it fail, when `best_guess.tzinfo` is read.
  A probe failure therefore takes precedence over the missing reference.

## Model

| member | source | states |
|---|---|---|
| Text.Split | signals/__init__.py:63 | `s.split(".")` yields at least one piece and no piece contains the separator |
| Text.JoinSplit | signals/__init__.py:63 | joining the pieces of a split with the same separator gives back the text |
| Text.SplitJoin | signals/__init__.py:63 | splitting a join of one or more separator-free pieces gives back exactly those pieces |
| Instants.AsUtc | signals/__init__.py:132-134 | `replace(tzinfo=UTC)` yields an aware datetime with the same wall clock, whose absolute time is that wall clock |
| Instants.Later | signals/__init__.py:229 | `a > b` is defined exactly when both sides have the same awareness (otherwise TypeError); when defined it compares absolute times (UTC values for aware datetimes, wall clocks for naive ones) |
| Instants.FixTimezones | signals/__init__.py:223-227 | after alignment both sides have the same awareness and keep their wall clocks; an already matching pair is unchanged; a changed side was naive and is now UTC |
| Instants.FixTimezonesIdempotent | signals/__init__.py:223-227 | aligning an aligned pair changes nothing |
| Instants.HourlyPrev | signals/__init__.py:177 | the previous boundary of `0 * * * *` is a whole hour strictly before `t` and at most an hour before it |
| Instants.HourlyPrevIsLatest | signals/__init__.py:191-192 | no whole hour lies strictly between the hourly previous boundary and `t` |
| Instants.HourlyPrevTwice | signals/__init__.py:191-192 | stepping back twice on the hourly schedule lands exactly one hour earlier |
| Instants.DailyPrev | signals/__init__.py:175-176 | the previous boundary of `0 0 * * *` is a midnight strictly before `t` and at most a day before it |
| Instants.DailyPrevIsLatest | signals/__init__.py:191-192 | no midnight lies strictly between the daily previous boundary and `t` |
| Instants.DailyPrevTwice | signals/__init__.py:191-192 | stepping back twice on the daily schedule lands exactly one day earlier |
| Signals.OneWeekAgo | signals/__init__.py:20-23 | the result is no longer than the batch, and an interval is in it exactly when it is in the batch and starts at or before the cutoff |
| Signals.OneWeekAgoConcat | signals/__init__.py:20-23 | filtering distributes over concatenation, so batch order is preserved and nothing is merged |
| Signals.OneWeekAgoMultiplicity | signals/__init__.py:20-23 | each kept interval occurs exactly as often as in the batch; each dropped one occurs zero times |
| Signals.OneWeekAgoKeepsOldBatch | signals/__init__.py:20-23 | a batch wholly at or before the cutoff is returned unchanged |
| Signals.OneWeekAgoExample | signals/__init__.py:20-23 | intervals on 2024-01-01 and 2024-06-01, filtered one week before 2024-06-04, keep only January |
| Signals.QuoteDotted | signals/__init__.py:62-63 | the segments of the quoted name are the input's segments each wrapped in double quotes, in the same number and order |
| Signals.QuoteDottedRoundTrip | signals/__init__.py:62-63 | stripping the quotes from every segment gives back the original name |
| Signals.QuoteDottedExample | signals/__init__.py:84 | `catalog.schema.dataset` becomes `"catalog"."schema"."dataset"` |
| Signals.ResolveCron | signals/__init__.py:170-179 | a non-alias passes through unchanged, and the result is never itself an alias |
| Signals.CronAliasTable | signals/__init__.py:170-178 | the seven aliases resolve to their cron expressions, and they are the only keys of the table |
| Signals.ResolveCronIdempotent | signals/__init__.py:179 | resolving a resolved expression changes nothing |
| Signals.MatchS3 | signals/__init__.py:45-48 | an accepted locator is `s3://` + non-empty bucket without `/` + `/` + non-empty key, followed by the end of the text or a newline |
| Signals.MatchS3Complete | signals/__init__.py:205-208 | every locator of that shape is accepted with exactly that bucket and key |
| Signals.ExtFileExists | signals/__init__.py:33-59 | a local path gives its existence; S3 without boto3 raises ImportError; an unmatched locator raises ValueError; for a matched locator `head_object` success gives True, a 404 gives False, any other error code is re-raised as that client error, and any other failure propagates |
| Signals.SnapshotTime | signals/__init__.py:129-137 | a snapshot time is present exactly when the quoted model name is a snapshot key; it is the host's conversion of that snapshot's `created_ts`, labelled UTC |
| Signals.ExecutionTimestamp | signals/__init__.py:139-167 | a falsy argument is absent; a datetime keeps its wall clock and is labelled UTC; an ISO string or a Literal's value parses to its wall clock labelled UTC, or raises ValueError quoting the string or the rendered Literal; a truthy value of another type raises ValueError naming its type; it fails exactly on an unparsable string or Literal or a value of another type |
| Signals.BestGuess | signals/__init__.py:186 | the result is absent exactly when both candidates are absent, and otherwise it is the present candidate with the latest time, the snapshot time on a tie |
| Signals.ReferenceTime | signals/__init__.py:123-187 | fails exactly when the execution timestamp fails; it is absent exactly when the timestamp is falsy and there is no snapshot; a present reference is UTC |
| Signals.LastRun | signals/__init__.py:189-198 | the previous boundary is UTC, and is strictly before the reference when croniter's previous boundary is strictly earlier than its seed |
| Signals.ProbeMtime | signals/__init__.py:200-221 | S3 without boto3 raises ImportError; an unmatched locator raises ValueError; a matched one gives `head_object`'s `LastModified`, labelled UTC when naive, and any `head_object` failure is not-found; a local path gives its naive modification time or not-found |
| Signals.ExtFileUpdated | signals/__init__.py:66-234 | never raises the naive-versus-aware TypeError; a verdict implies a reference time, a valid cron and a probed file; an S3 path never fails as a missing local file |
| Signals.ExtFileUpdatedVerdict | signals/__init__.py:223-229 | with a reference, a valid cron and a probed file, the verdict is exactly "modification time strictly after the previous boundary" |
| Signals.ModifiedAtBoundaryIsNotFresh | signals/__init__.py:229 | a file modified exactly at the previous boundary gives False |
| Signals.ModifiedSinceReferenceIsFresh | signals/__init__.py:189-192 | when `get_prev` is strictly earlier, a file modified at or after the reference time gives True |
| Signals.TimestampErrorComesFirst | signals/__init__.py:139-167 | a bad execution timestamp is the gate's error, whatever the cron string or file |
| Signals.InvalidCronBeforeProbe | signals/__init__.py:181-182 | an invalid cron string raises ValueError before any file probe |
| Signals.ProbeErrorIsGateError | signals/__init__.py:200-221 | with a reference time and a valid cron string, a failed probe is the gate's error; for a local path it is the missing-file error |
| Signals.NoReferenceNeverDecides | signals/__init__.py:186-224 | without a reference time the gate fails, with the probe's error or else the missing reference, and never returns a verdict |
| Signals.ReferenceIsLatestCandidate | signals/__init__.py:186 | the reference is one of the present candidates and no earlier than either |
| Signals.S3IgnoresLocalFiles | signals/__init__.py:201-221 | for an `s3://` path the gate's outcome does not depend on the local file system |
| Signals.S3ExistsIgnoresLocalFiles | signals/__init__.py:41-57 | for an `s3://` path the existence check does not depend on the local file system |
| Signals.ExistsAgreesWithProbe | signals/__init__.py:51-59 | `ext_file_exists` says True exactly when the gate's probe succeeds; a False is a not-found in the gate |
| Signals.HourlyVerdict | signals/__init__.py:70 | on the hourly host, with the default cron string and reference 10:30, a local file's verdict is exactly "modified after 10:00" |
| Signals.HourlyModifiedAfterBoundary | signals/__init__.py:70 | with the default cron string (`@hourly`) and reference 10:30, the previous run is 10:00, and a file modified at 10:15 gives True |
| Signals.HourlyModifiedBeforeBoundary | signals/__init__.py:70 | with the same schedule and reference, a file modified at 09:00 gives False |
| Signals.S3NotFoundOutcomes | signals/__init__.py:210-217 | a 404 for a well-formed locator is FileNotFoundError in the gate and False in the existence check |
| Signals.MissingS3Object | signals/__init__.py:51-56 | `s3://bucket/missing.csv` with the object missing: not-found in the gate, False in the existence check |
| Scripts.Basename | scripts/__init__.py:111 | the basename is a `/`-free suffix of the path that is the whole path or follows a `/` |
| Scripts.BasenameUnique | scripts/__init__.py:111 | that characterisation determines the basename uniquely |
| Scripts.BasenameIgnoresDirectory | scripts/__init__.py:111 | directory components never change the basename |
| Scripts.SplitExt | scripts/__init__.py:112 | the root and extension concatenate to the name; the extension is empty or one dot followed by text with no dot and no `/` |
| Scripts.SplitExtRoundTrip | scripts/__init__.py:112 | `stem.ext`, with a `/`-free stem that is not all dots and a dot-free extension, splits into exactly `stem` and `.ext` |
| Scripts.SplitExtNoDot | scripts/__init__.py:112 | a name without a dot has no extension |
| Scripts.SplitExtHiddenFile | scripts/__init__.py:112 | leading dots followed by a dot-free name (`.env`) do not start an extension |
| Scripts.MakeModelName | scripts/__init__.py:88-115 | the name is `prefix + sep` (only for a present, non-empty prefix) followed by a `/`-free part that, followed by the last extension, is the basename |
| Scripts.ModelNameIgnoresDirectory | scripts/__init__.py:111 | two paths with the same basename give the same model name |
| Scripts.ModelNameOfFile | scripts/__init__.py:88-115 | the model name of `stem.ext` or `dir/stem.ext` is the stem, after `prefix + sep` when the prefix is present and non-empty |
| Scripts.DefaultSeparator | scripts/__init__.py:88 | the default separator is `_`; without a prefix the name is the bare stem |
| Scripts.BronzeModelName | models/bronze.py:49-54 | `seeds/seed_data.csv` with prefix `bronze` and separator `.` gives `bronze.seed_data` |
| Scripts.OffsetsAreMultiples | scripts/__init__.py:64 | offsets that start at 0 and grow by the chunk size are the multiples of the chunk size |
| Scripts.ChunkSlices | scripts/__init__.py:64-65 | a chunk size of zero fails (`range` ValueError); a negative one gives no slice; a positive one gives offsets 0, c, 2c, … below `height`, each slice ending at `min(offset + c, height)`, `ceil(height / c)` of them, whose rows together are rows `0 .. height - 1` once each and in order |
| Scripts.ForwardSlices | scripts/__init__.py:64-65 | the loop for a positive chunk size yields the well-formed slices, their ceiling count, and the rows `0 .. height - 1` in order |

## Left out

- The `print` diagnostics and the `@signal` registration are left out. They do not affect
  any result.
- `always_true` is left out. It returns True unconditionally.
- croniter is not modelled. `is_valid` and `get_prev` are host functions. The only property
  assumed of `get_prev` is that its result is strictly before its seed, and that is stated
  where it is used.
- `datetime.fromisoformat` and `Literal.to_py()` are host functions. The Literal's value is
  modelled as the string `to_py()` returns. A non-string `to_py()` result is left out: for a
  numeric Literal `fromisoformat` raises a TypeError, which the `except ValueError` does not
  catch.
- `datetime.fromtimestamp` and the host's local time zone are left out. So are the float
  division `epoch_millis / 1000.0` and `os.path.getmtime`. Each enters the model as an
  integer microsecond reading given by the host. boto3's `LastModified` enters as an
  `Instant` given by the host, with its own zone (`HeadOutcome.Found`).
- `to_datetime("1 week ago")` reads the wall clock. It is the `cutoff` parameter of
  `Signals.OneWeekAgo`.
- A `model_name` or `context` of `None` is left out, so `model_name` has no default in
  `Signals.ExtFileUpdated`: the model always has a name and a snapshot table. With `None`,
  Python raises an AttributeError at the lookup.
- BestGuess (Signals.BestGuess): requires both candidates to be aware. Every caller passes
  UTC values, and Python would raise a TypeError on a mixed pair.
- Signals.LastRun: states "strictly before the reference" only under the assumption that
  `get_prev` is strictly earlier than its seed, because croniter is not modelled.
- Paths follow POSIX rules only: the separator is `/`.
- `unpack_file` is left out because it does archive extraction.
- `make_coldef` is left out because it infers a schema with frictionless.
- The polars reading in `read_csv_in_chunks` is left out. Only the slice arithmetic of its
  loop is modelled, with the table's height as a parameter. The yielded chunks become the
  returned list of `(offset, end)` pairs.
- `config.py` and `macros/__init__.py` are not part of this model.
