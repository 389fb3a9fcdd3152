# dump-wfs: feature streaming loop, GeoJSON emission and command line

`dump_wfs.py` streams every feature of one layer of a WFS (Web Feature
Service) server to stdout. It writes one GeoJSON line per geometry of each
feature. The work happens in three places:

- **The generator `get_features`.** It pulls features from the layer's cursor
  one at a time. A failed fetch is retried after 1, 2 and then 4 seconds. The
  fourth failure in a row ends the loop. A success resets the backoff level to
  0. A `None` from the cursor is turned into an exception, so it takes the same
  retry path.
- **The first feature.** The attribute names and geometry field names come from
  the first feature. Every later feature is read by position under those names.
  The loop counts features and writes a progress line at every multiple of
  10,000.
- **The consumer `print_features_geojson`.** For each yielded feature it writes
  one record per non-null geometry field, with the whole attribute dictionary
  as `properties`. It writes a warning for each null geometry field.

The top level reads `sys.argv` and takes one of four paths: the usage message,
the failed datasource assertion, listing the layers (empty layer name), or
streaming.

The model replaces the GDAL cursor by a finite sequence of fetch outcomes:
`Ok(feature)`, `Null` (a returned `None`) or `Error` (a raised exception).

- **`FeatureLoop`** holds the loop.
  - `Step` is one pass of the loop body, as a function.
  - `Run` folds `Step` over a cursor prefix.
  - The imperative methods `AcceptFeature`, `Pass` and `GetFeatures` are the
    loop as written. Each is proved equal to its function.
  - What the loop writes to stderr, the sleeps it requests and the items it
    yields form one event sequence, in order.
- **`LoopProperties`** proves what the loop promises:
  - the backoff level is the number of trailing failures;
  - giving up happens exactly on the first four failures in a row;
  - `None` behaves exactly like an error, so the "last feature" branch is
    unreachable;
  - the count is the number of successes;
  - items are yielded in cursor order, under the first feature's names;
  - progress lines fall at the multiples of 10,000;
  - each failed fetch is followed by one sleep of 2**b seconds, b being the
    failures directly before it;
  - a finished run has the count, items, progress lines and sleeps of the
    fetches before its last pass.
- **`GeoJsonEmit`** holds the consumer and the whole program's output. That
  output is the event sequence with each yield replaced by the lines written
  for its item.
- **`Cli`** holds argument parsing, the layer set-up (server-side filter and
  whether the feature count is asked for), mode selection and exit status.
- **`PyDict`** models the Python dictionaries the script builds as
  insertion-ordered entry lists. Assigning to a key that is already present
  replaces its value in place, so duplicate names keep the last value.
- **`Ogr`** models the features, their field definitions and the positional
  accessors.

Each yielded item carries the feature and the cached names. Its `attrs` and
`g_attrs` dictionaries are derived from them (`Item.Attrs`, `Item.GeomAttrs`),
by the same comprehensions the loop evaluates.

Two consequences of the code as written:

- **Exit status after giving up.** After "Maximum retries exceeded" the `break`
  (line 84) leaves the loop, the generator returns normally, and the script
  exits with status 0 (`Cli.StreamExit`).
- **Ending on a `None`.** A `None` from the cursor is raised as an exception
  (lines 74-75) and retried like any error. So the "last feature" branch at
  lines 91-94 is dead, as its comment "Not really triggered now..." says. The
  loop never ends for lack of data; it only ends by giving up or on an
  exception (`LoopProperties.NeverEndOfData`).

Streaming exits with status 1 when an exception escapes the loop. In the
model that happens only for a feature with fewer attribute fields than the
first one, so that `GetField` at a cached position raises (a zero feature
count is a second way, listed under "Left out").

## Model

| member | source | states |
|---|---|---|
| FeatureLoop.TryFetch | dump_wfs.py:71-78 | the `try` block raises exactly when the cursor does not return a feature (an error, or a `None` turned into an exception), and otherwise hands on that feature |
| FeatureLoop.Step | dump_wfs.py:71-114 | one pass keeps the invariant that names are cached once a feature has been counted, and a pass that ends the loop says how it ended |
| FeatureLoop.Accept | dump_wfs.py:77-113 | after a successful fetch the backoff level is 0, names are cached, and names cached earlier are kept |
| FeatureLoop.Run | dump_wfs.py:66-124 | a run from a valid state stays valid, fetches no more than its prefix, fetches all of it while running, and never takes the backoff level above 3 |
| FeatureLoop.RunStaysHalted | dump_wfs.py:82-94 | once the loop is left, later cursor outcomes are never fetched |
| FeatureLoop.AcceptFeature | dump_wfs.py:96-114 | the imperative rest of the body (cache names, dump the first feature, read attributes, yield, count, report) computes exactly `Accept` |
| FeatureLoop.Pass | dump_wfs.py:71-114 | one imperative pass (fetch, retry or give up, then accept) computes exactly `Step` |
| FeatureLoop.GetFeatures | dump_wfs.py:66-127 | the `while True` loop, its `break`s and the final lines produce exactly the trace of `Scan` over the cursor |
| LoopProperties.StepContinues | dump_wfs.py:71-114 | a pass that goes on is either a retry below level 3 (ReadFailed and Retry with a sleep of 2**b, level b+1) or an accepted feature (level 0, count+1, one yield under the cached names, a progress line at a multiple) |
| LoopProperties.StepHalts | dump_wfs.py:71-114 | a pass that ends the loop is either a failure at level 3 or more (GiveUp) or a feature with too few attribute fields (ReadFault, nothing counted) |
| LoopProperties.HaltPoint | dump_wfs.py:70-94 | a halted run ended at one pass, the loop was running just before it, and nothing after that pass counts |
| LoopProperties.RunningMonotone | dump_wfs.py:70-89 | a loop still running was running at every shorter prefix |
| LoopProperties.RunSeesOnlyFetch | dump_wfs.py:71-89 | the loop sees a fetch only through the result of its `try` block |
| LoopProperties.NullLikeError | dump_wfs.py:72-75 | a returned `None` at any position gives exactly the same run as a raised error there |
| LoopProperties.StepNeverLastFeature | dump_wfs.py:91-94 | no pass writes "last feature" or stops for end of data |
| LoopProperties.NeverEndOfData | dump_wfs.py:91-94 | the "last feature" `break` is never taken, however the cursor behaves |
| LoopProperties.NeverLastFeature | dump_wfs.py:91-94 | "Looks like this is the last feature" is never written |
| LoopProperties.BackoffIsTail | dump_wfs.py:68-88 | while running, the backoff level is the number of failures since the last success |
| LoopProperties.RunningBackoff | dump_wfs.py:82-88 | from the start, a running loop's backoff level is its trailing failure count and at most 3 |
| LoopProperties.SuccessResets | dump_wfs.py:76-78 | right after a successful fetch the backoff level is 0 |
| LoopProperties.StreakTail | dump_wfs.py:80-88 | four failures in a row leave four trailing failures |
| LoopProperties.StreakStops | dump_wfs.py:82-84 | four failures in a row end the loop, at the latest on the fourth |
| LoopProperties.RunningHasNoStreak | dump_wfs.py:82-89 | a loop still running has seen no four failures in a row |
| LoopProperties.ThreeThenFailure | dump_wfs.py:82-88 | three trailing failures and one more make four in a row |
| LoopProperties.GaveUpPass | dump_wfs.py:80-84 | giving up happens on a failed fetch at level 3 or more |
| LoopProperties.GiveUpExactly | dump_wfs.py:80-84 | giving up happens on the fourth failure in a row, and on the first such streak |
| LoopProperties.RetryPass | dump_wfs.py:86-89 | a failure below level 3 writes one "Trying again", sleeps 2**b seconds and raises the level by one |
| LoopProperties.RetryRoundViews | dump_wfs.py:86-89 | the retries from level 0 to giving up sleep exactly 1, 2 and 4 seconds and yield nothing |
| LoopProperties.GiveUpAfter | dump_wfs.py:80-127 | from level 0, four failures write three retries, the give-up message and the final count, and end the loop |
| LoopProperties.CountIsOks | dump_wfs.py:111-113 | while running, the count is the number of successful fetches |
| LoopProperties.SchemaOfFirst | dump_wfs.py:96-100 | the names are cached once there has been a success and always come from the first feature |
| LoopProperties.AllConform | dump_wfs.py:109 | while running, every feature so far has a field at each position the first one named |
| LoopProperties.YieldsInOrder | dump_wfs.py:109-111 | while running, the items yielded are the successful features in cursor order, each under the first feature's names |
| LoopProperties.MultiplesNext | dump_wfs.py:113-114 | counting one more feature adds a progress count exactly when the new count is a multiple of 10,000 |
| LoopProperties.ProgressCadence | dump_wfs.py:113-122 | the progress lines report exactly the multiples of 10,000 up to the count, in order |
| LoopProperties.FinalCount | dump_wfs.py:126-127 | after giving up, the final count is the number of successes and "Finished" with it is the last line |
| LoopProperties.OksPrefix | dump_wfs.py:70-111 | a longer cursor prefix yields an extension of the features of a shorter one |
| LoopProperties.ReadFaultExactly | dump_wfs.py:109 | the loop ends on an exception only at a later feature with fewer attribute fields than the first, and that feature is not counted |
| LoopProperties.NoReadFault | dump_wfs.py:109 | if no feature has fewer attribute fields than the first, no exception escapes the loop |
| LoopProperties.GivesUpIffStreak | dump_wfs.py:70-94 | with such features, the loop has given up exactly when four fetches in a row have failed, and is running exactly when none have |
| LoopProperties.SleepsStep | dump_wfs.py:80-89 | a pass that goes on adds a sleep of 2**b seconds after a failure at level b, and none after a success |
| LoopProperties.SleepsWhileRunning | dump_wfs.py:68-89 | while running, the sleeps are exactly one of 2**b seconds per failed fetch, b being the failures directly before it |
| LoopProperties.SleepsOfSuccesses | dump_wfs.py:76-78 | fetches that all succeed request no sleep |
| LoopProperties.ProgressStep | dump_wfs.py:111-122 | a pass that goes on keeps the progress lines equal to the multiples of 10,000 up to the count |
| LoopProperties.HaltTail | dump_wfs.py:80-84 | the pass that ends the loop, with the closing lines, yields nothing, reports no progress, sleeps not and counts nothing |
| LoopProperties.HaltViews | dump_wfs.py:80-127 | a run that halts has the items, progress lines, sleeps and count of the run before its last pass |
| LoopProperties.HaltedLikeBefore | dump_wfs.py:66-127 | a finished run has the count, items, progress lines and sleeps of the running run just before its last pass |
| LoopProperties.FinishedCount | dump_wfs.py:111-127 | however the loop ended, the count is the number of successful fetches before the last pass |
| LoopProperties.FinishedItems | dump_wfs.py:109-111 | however the loop ended, it yielded the successful features before the last pass, in cursor order, under the first one's names |
| LoopProperties.FinishedReports | dump_wfs.py:113-122 | however the loop ended, the progress lines are the multiples of 10,000 up to the final count |
| LoopProperties.FinishedSleeps | dump_wfs.py:86-89 | however the loop ended, it slept exactly once per failed fetch before the last pass, 2**b seconds at level b |
| LoopProperties.OksSkip | dump_wfs.py:80-89 | a failed fetch adds no feature |
| LoopProperties.GaveUpLast | dump_wfs.py:84-127 | a run that gave up ends on the "Finished" line with its count |
| LoopProperties.TwentyFiveThousand | dump_wfs.py:113-127 | 25,000 successes then four failures: progress at 10,000 and 20,000, exactly the sleeps 1, 2 and 4, give up, final count 25,000 |
| Ogr.SchemaOf | dump_wfs.py:96-100 | the cached names are the first feature's field definition names, in order, one per field |
| Ogr.AttrDictPositional | dump_wfs.py:109 | with distinct names, `attrs` holds every position's value under the cached name at that position, in order |
| Ogr.GeomDictPositional | dump_wfs.py:110 | with distinct names, `g_attrs` holds every position's geometry under its cached name, in order |
| PyDict.Get | dump_wfs.py:109-110 | a lookup finds a value exactly for the keys present |
| PyDict.Put | dump_wfs.py:109-110 | assignment makes the key map to the new value, leaves other keys alone, keeps a present key in place and appends a new one |
| PyDict.FromEnumerate | dump_wfs.py:109-110 | the comprehension's keys are exactly the enumerated names, with no more entries than names |
| PyDict.FromEnumerateDistinct | dump_wfs.py:109-110 | with distinct names, the comprehension keeps every pair in enumeration order |
| PyDict.FromEnumerateLastWins | dump_wfs.py:109-110 | a repeated name keeps the value of its last occurrence |
| PyDict.FromEnumerateEntry | dump_wfs.py:109-110 | every entry pairs an enumerated name with a value enumerated alongside it |
| GeoJsonEmit.WriteFeature | dump_wfs.py:136-146 | the loop over `geom_attributes.items()` writes exactly `Emit` for the item |
| GeoJsonEmit.EmitEntry | dump_wfs.py:136-145 | each line written for an item matches one geometry entry, carries the whole attribute dictionary, and is a record exactly when the geometry is not null |
| GeoJsonEmit.EmitInSchemaOrder | dump_wfs.py:136-146 | with distinct geometry names, the records are exactly the non-null geometry fields in schema order, one line per geometry field in all |
| GeoJsonEmit.AllNullNoRecords | dump_wfs.py:137-139 | a feature whose geometry fields are all null writes no record, even with repeated names |
| GeoJsonEmit.StepYieldsConform | dump_wfs.py:109-111 | a pass yields only items whose attributes can be read |
| GeoJsonEmit.RunYieldsConform | dump_wfs.py:109-111 | every item a run yields has its attributes readable |
| GeoJsonEmit.ExpandAppend | dump_wfs.py:130-146 | the output of two stretches of the loop is the output of each, in turn |
| GeoJsonEmit.WriteEvents | dump_wfs.py:131-146 | the consumer's loop over a run's events writes exactly the loop's lines with each yield replaced by that item's lines |
| GeoJsonEmit.PrintFeaturesGeojson | dump_wfs.py:130-146 | the consumer runs the generator over the cursor, returns that run, and writes exactly its output |
| GeoJsonEmit.ExpandStdout | dump_wfs.py:130-146 | the records on stdout are those of the yielded items, item after item in yield order; no loop line or warning adds one |
| GeoJsonEmit.StdoutOfItems | dump_wfs.py:130-146 | events that yield given items put those items' records on stdout |
| GeoJsonEmit.FinishedStdout | dump_wfs.py:109-146 | once the loop has ended, stdout holds the records of the successful features before the last pass, in cursor order, under the first one's names |
| Cli.CommandLine | dump_wfs.py:21-24 | a command line stating a configuration has three or four words |
| Cli.ParseCommandLine | dump_wfs.py:21-24 | parsing gives back every configuration from its own command line |
| Cli.ParseArgsCases | dump_wfs.py:21-30 | usage is printed exactly when the URL or the layer name is missing; otherwise the configuration is the first three arguments and further ones are ignored |
| Cli.SelectModeCases | dump_wfs.py:149 | usage for too few arguments, the failed assertion when the datasource does not open, listing exactly for an empty layer name, streaming otherwise |
| Cli.ScriptOutcome | dump_wfs.py:21-167 | the script's result records the mode chosen from the command line |
| Cli.Script | dump_wfs.py:21-167 | the top level, top to bottom, ends with exactly `ScriptOutcome` |
| Cli.FilterFromArgv | dump_wfs.py:24-62 | when streaming, a non-empty third argument becomes the layer's attribute filter and no count is asked for; otherwise no filter is set and the count is asked for |
| Cli.ScriptExit | dump_wfs.py:21-159 | too few arguments end with status 1, a datasource that does not open with status 1, an empty layer name with status 0, each with no feature written |
| Cli.StreamExit | dump_wfs.py:82-84 | streaming exits 0 exactly when the loop gave up, 1 exactly when an exception escaped it, and is still running otherwise |

## Left out

- GDAL/OGR calls (`Open`, `GetLayerByName`, `GetNextFeature`,
  `GetFeatureCount`, `SetAttributeFilter`, the spatial reference export,
  `gdal.SetConfigOption`). They are foreign library calls. The cursor is an
  input sequence of outcomes, "the datasource opens" is a boolean input, and the
  features are abstract values.
- `GetLayerByName` returning `None` for an unknown layer name. The script would
  then fail with an `AttributeError` and exit 1. Which names the server knows is
  not part of this model.
- `GetField` past a feature's own fields raises. `GetGeomFieldRef` past its
  geometry fields gives `None`. Both are assumptions about the library, which is
  not part of this model.
- Geometry handling (`GetLinearGeometry`, WKB export, `shapely.wkb.loads`,
  `shapely.geometry.mapping`). These are foreign geometry-engine calls. A
  record carries the geometry handle unchanged.
- `json.dump` formatting and the text of the stderr lines. Outputs are abstract
  records and events.
- `time.time`, `time.sleep` and the elapsed-time figures. These are wall-clock
  effects. Only the requested sleep durations are recorded.
- The percentage in the progress line and the `1e6` estimate used with a
  server-side filter, which are floating point. One consequence is not
  modelled: when the unfiltered `GetFeatureCount()` (line 61) returns 0, the
  percentage at line 119 divides by zero when the count reaches 10,000. That
  `ZeroDivisionError` is raised outside the `try`, so "Finished." is never
  written and the script exits 1. The model writes the progress line and goes
  on, as for any non-zero count.
- The banner lines for URL, layer and filter (lines 33-36). They are
  diagnostic output only.
- The layer-listing loop's output (lines 150-158), which goes to stdout. Only
  the choice of that mode and its exit status are modelled.
- `asyncio` event-loop setup and `traceback.print_exc`. They are runtime
  plumbing.
- The first feature's definitions dump writes a `FirstFeature` event. The type
  names and values it prints are not modelled.
- The loop is unbounded. A finite cursor prefix that does not end the loop
  gives a run that is still `Running`, and the script's exit is `Pending`.
- Cli.ScriptOutcome: states only the mode in its own contract. What is written
  and how the script ends are stated by `ScriptExit` for the paths that do not
  stream, and by `StreamExit`, `PrintFeaturesGeojson` and `FinishedStdout` for
  streaming.
