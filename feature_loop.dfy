/**
 * The feature-pulling loop of `get_features`: fetch the next feature, retry a
 * failed fetch with exponential backoff, give up on the fourth failure in a
 * row, cache the field names from the first feature, and count features with a
 * progress report every 10,000.
 *
 * The cursor is a finite sequence of fetch outcomes. What the loop writes to
 * stderr, the sleeps it requests and the items it yields are one sequence of
 * events, in the order in which they happen.
 */
module FeatureLoop {
  import opened Wrappers
  import opened PyDict
  import opened Ogr

  /** The backoff level at which a further failure ends the loop. */
  const MAX_BACKOFF: nat := 3

  /** A progress line is written whenever the count reaches a multiple of this. */
  const PROGRESS_EVERY: nat := 10000

  /** `2**n`: the sleep, in seconds, requested at backoff level n. */
  function Pow2(n: nat): (r: nat)
    ensures r >= 1
  {
    if n == 0 then 1 else 2 * Pow2(n - 1)
  }

  /**
   * The loop's variables: `backoff`, `n_features`, and the `names`/`gnames`
   * cache, which the source leaves unassigned until the first feature.
   */
  datatype LoopState = LoopState(backoff: nat, count: nat, schema: Option<Schema>)

  const INIT: LoopState := LoopState(0, 0, None)

  /** Once a feature has been counted, the names are cached. */
  predicate Valid(st: LoopState)
  {
    st.count > 0 ==> st.schema.Some?
  }

  /**
   * What one `yield` hands over: the feature and the cached names, and through
   * them the dictionaries `attrs` and `g_attrs` read from the feature by position.
   */
  datatype Item = Item(feature: Feature, schema: Schema)
  {
    /** `attrs`; building it raises unless the feature has a field at every cached position. */
    function Attrs(): Dict<FieldValue>
      requires Conforms(schema, feature)
    {
      AttrDict(schema.names, feature)
    }

    /** `g_attrs`. */
    function GeomAttrs(): Dict<Option<Geometry>>
    {
      GeomDict(schema.gnames, feature)
    }
  }

  datatype Event =
    | ReadFailed(backoff: nat)              // the traceback of a failed fetch
    | GiveUp(backoff: nat)                  // "Maximum retries exceeded"
    | Retry(seconds: nat, backoff: nat)     // "Trying again in ..." and the sleep it requests
    | LastFeature                           // "Looks like this is the last feature"
    | FirstFeature(feature: Feature)        // the dump of the first feature's definitions
    | Yield(item: Item)                     // `yield feat, attrs, g_attrs`
    | Progress(count: nat)                  // "Number of features seen so far"
    | Finished(count: nat)                  // "Finished." and the final count

  /**
   * How the loop stands after a cursor prefix: still fetching, left through a
   * `break` (after giving up, or at the "last feature" branch), or ended by
   * an exception raised while reading a feature's attributes.
   */
  datatype Stop = Running | GaveUp | EndOfData | ReadFault

  /** The result of the `try` block around `GetNextFeature()`. */
  datatype Fetch = Raised | Fetched(feat: Option<Feature>)

  /** A returned `None` is turned into a raised exception, so only a real feature leaves the `try`. */
  function TryFetch(o: Outcome): (r: Fetch)
    ensures r.Raised? <==> !o.Ok?
    ensures r.Fetched? ==> r.feat == Some(o.feature)
  {
    match o
    case Ok(f) => Fetched(Some(f))
    case Null => Raised
    case Error => Raised
  }

  datatype StepResult =
    | Continue(next: LoopState, events: seq<Event>)
    | Halt(next: LoopState, events: seq<Event>, stop: Stop)

  /** One pass through the body of `while True`. */
  function Step(st: LoopState, o: Outcome): (r: StepResult)
    requires Valid(st)
    ensures Valid(r.next)
    ensures r.Halt? ==> r.stop != Running
  {
    match TryFetch(o)
    case Raised =>
      if st.backoff >= MAX_BACKOFF then
        Halt(st, [ReadFailed(st.backoff), GiveUp(st.backoff)], GaveUp)
      else
        Continue(st.(backoff := st.backoff + 1),
                 [ReadFailed(st.backoff), Retry(Pow2(st.backoff), st.backoff)])
    case Fetched(feat) =>
      if feat.None? then Halt(st, [LastFeature], EndOfData) else Accept(st, feat.value)
  }

  /** The names in force for a fetched feature: taken from it while nothing has been counted yet. */
  function CachedSchema(st: LoopState, f: Feature): Schema
    requires Valid(st)
  {
    if st.count == 0 then SchemaOf(f) else st.schema.value
  }

  /** The definitions dump written for the first feature only. */
  function FirstDump(count: nat, f: Feature): seq<Event>
  {
    if count == 0 then [FirstFeature(f)] else []
  }

  /** The progress line written when the count reaches `n`. */
  function ProgressAt(n: nat): seq<Event>
  {
    if n % PROGRESS_EVERY == 0 then [Progress(n)] else []
  }

  /** The rest of the loop body after a successful fetch: cache the names, read, yield, count. */
  function Accept(st: LoopState, f: Feature): (r: StepResult)
    requires Valid(st)
    ensures Valid(r.next) && r.next.backoff == 0
    ensures r.next.schema.Some? && (st.count > 0 ==> r.next.schema == st.schema)
  {
    var schema := CachedSchema(st, f);
    var dump := FirstDump(st.count, f);
    if !Conforms(schema, f) then
      Halt(LoopState(0, st.count, Some(schema)), dump, ReadFault)
    else
      var n := st.count + 1;
      Continue(LoopState(0, n, Some(schema)),
               dump + [Yield(Item(f, schema))] + ProgressAt(n))
  }

  /** What is written after the loop: only a `break` reaches it. */
  function Epilogue(stop: Stop, count: nat): seq<Event>
  {
    if stop == GaveUp || stop == EndOfData then [Finished(count)] else []
  }

  /** The events of a run, the loop variables at its end, how it stands, and how many fetches it made. */
  datatype Trace = Trace(events: seq<Event>, final: LoopState, stop: Stop, consumed: nat)

  /** A running trace after one more pass through the loop body. */
  function Extend(t: Trace, r: StepResult): Trace
  {
    match r
    case Continue(next, evs) => Trace(t.events + evs, next, Running, t.consumed + 1)
    case Halt(next, evs, stop) => Trace(t.events + evs + Epilogue(stop, next.count), next, stop, t.consumed + 1)
  }

  /**
   * The loop run from state `st` over the first `n` fetch outcomes of `cursor`:
   * each fetch extends the run over the ones before it, until a pass ends the loop.
   */
  function Run(st: LoopState, cursor: seq<Outcome>, n: nat): (t: Trace)
    requires Valid(st) && n <= |cursor|
    ensures Valid(t.final) && t.consumed <= n
    ensures t.stop == Running ==> t.consumed == n
    ensures t.stop != Running ==> t.consumed >= 1
    ensures st.backoff <= MAX_BACKOFF ==> t.final.backoff <= MAX_BACKOFF
    decreases n
  {
    if n == 0 then Trace([], st, Running, 0)
    else
      var t := Run(st, cursor, n - 1);
      if t.stop != Running then t else Extend(t, Step(t.final, cursor[n - 1]))
  }

  /** The loop over the whole cursor. */
  function Scan(st: LoopState, cursor: seq<Outcome>): Trace
    requires Valid(st)
  {
    Run(st, cursor, |cursor|)
  }

  /** A running prefix grows by exactly one pass through the loop body. */
  lemma RunNext(st: LoopState, cursor: seq<Outcome>, n: nat)
    requires Valid(st) && n < |cursor| && Run(st, cursor, n).stop == Running
    ensures Run(st, cursor, n + 1) == Extend(Run(st, cursor, n), Step(Run(st, cursor, n).final, cursor[n]))
  {
  }

  /** Once the loop is left, later outcomes are never fetched: the run stays as it was. */
  lemma {:induction false} RunStaysHalted(st: LoopState, cursor: seq<Outcome>, n: nat, m: nat)
    requires Valid(st) && n <= m <= |cursor| && Run(st, cursor, n).stop != Running
    ensures Run(st, cursor, m) == Run(st, cursor, n)
    decreases m
  {
    if n < m {
      RunStaysHalted(st, cursor, n, m - 1);
    }
  }

  /**
   * Lines after the `try` block for a fetched feature: on the first one, cache
   * the names and dump the definitions; read the attributes and geometries by
   * position, yield them, count, and report progress.
   */
  method AcceptFeature(st: LoopState, f: Feature) returns (r: StepResult)
    requires Valid(st)
    ensures r == Accept(st, f)
  {
    var schema := st.schema;
    var events: seq<Event> := [];
    if st.count == 0 {
      schema := Some(SchemaOf(f));
      events := [FirstFeature(f)];
    }
    var attrs := ReadAttrs(schema.value.names, f);
    if attrs.None? {
      return Halt(LoopState(0, st.count, schema), events, ReadFault);
    }
    var item := Item(f, schema.value);
    assert item.Attrs() == attrs.value;
    events := events + [Yield(item)];
    var n := st.count + 1;
    if n % PROGRESS_EVERY == 0 {
      events := events + [Progress(n)];
    }
    r := Continue(LoopState(0, n, schema), events);
  }

  /** One pass through the body of `while True`, from the fetch to the progress report. */
  method Pass(st: LoopState, o: Outcome) returns (r: StepResult)
    requires Valid(st)
    ensures r == Step(st, o)
  {
    var feat: Option<Feature>;
    if o.Ok? {
      feat := Some(o.feature);
    } else {
      var events := [ReadFailed(st.backoff)];
      if st.backoff >= MAX_BACKOFF {
        return Halt(st, events + [GiveUp(st.backoff)], GaveUp);
      }
      events := events + [Retry(Pow2(st.backoff), st.backoff)];
      return Continue(st.(backoff := st.backoff + 1), events);
    }
    if feat.None? {
      assert false;
    }
    r := AcceptFeature(st, feat.value);
  }

  /** The generator `get_features`, from the first fetch to the final count. */
  method GetFeatures(cursor: seq<Outcome>) returns (t: Trace)
    ensures t == Scan(INIT, cursor)
  {
    var st := INIT;
    var events: seq<Event> := [];
    var stop := Running;
    var pos := 0;
    while pos < |cursor|
      invariant pos <= |cursor| && Valid(st)
      invariant Run(INIT, cursor, pos) == Trace(events, st, Running, pos)
      decreases |cursor| - pos
    {
      RunNext(INIT, cursor, pos);
      var r := Pass(st, cursor[pos]);
      pos := pos + 1;
      events := events + r.events;
      st := r.next;
      if r.Halt? {
        stop := r.stop;
        assert Run(INIT, cursor, pos) == Trace(events + Epilogue(stop, st.count), st, stop, pos);
        break;
      }
    }
    if stop == GaveUp || stop == EndOfData {
      events := events + [Finished(st.count)];
    }
    t := Trace(events, st, stop, pos);
    if stop != Running {
      RunStaysHalted(INIT, cursor, pos, |cursor|);
    }
  }
}
