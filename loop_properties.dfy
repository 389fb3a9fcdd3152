/**
 * What the feature-pulling loop promises, proved about `Run`: the backoff
 * level counts the trailing failures, the loop gives up exactly on the fourth
 * failure in a row, a `None` is handled like a raised error, features are
 * counted and yielded in cursor order under the names of the first one, and a
 * progress line is written at every multiple of 10,000.
 */
module LoopProperties {
  import opened Wrappers
  import opened PyDict
  import opened Ogr
  import opened FeatureLoop

  // ---------------------------------------------------------------------
  // Views of a cursor prefix and of an event sequence
  // ---------------------------------------------------------------------

  /** A fetch that ends in the `except` branch: an exception, or a `None` turned into one. */
  predicate Failed(o: Outcome)
  {
    !o.Ok?
  }

  /** Every fetch at positions `lo` up to `hi` fails. */
  predicate AllFailed(c: seq<Outcome>, lo: nat, hi: nat)
    requires lo <= hi <= |c|
  {
    forall i :: lo <= i < hi ==> Failed(c[i])
  }

  /** The four fetches from position `j` on all fail. */
  predicate StreakAt(c: seq<Outcome>, j: nat)
  {
    j + 4 <= |c| && AllFailed(c, j, j + 4)
  }

  /** Somewhere in the first `n` fetches, four in a row fail. */
  predicate HasStreak(c: seq<Outcome>, n: nat)
  {
    exists j: nat :: j + 4 <= n && StreakAt(c, j)
  }

  /** The number of failed fetches at the end of the first `n`. */
  function Tail(c: seq<Outcome>, n: nat): (k: nat)
    requires n <= |c|
    ensures k <= n
  {
    if n == 0 || !Failed(c[n - 1]) then 0 else Tail(c, n - 1) + 1
  }

  /** The last `Tail(c, n)` fetches of the first `n` all fail. */
  lemma {:induction false} TailFailed(c: seq<Outcome>, n: nat, i: nat)
    requires n <= |c| && n - Tail(c, n) <= i < n
    ensures Failed(c[i])
    decreases n
  {
    if i < n - 1 {
      TailFailed(c, n - 1, i);
    }
  }

  /** The fetch just before the trailing failures, if there is one, succeeds. */
  lemma {:induction false} TailBounded(c: seq<Outcome>, n: nat)
    requires n <= |c| && Tail(c, n) < n
    ensures c[n - Tail(c, n) - 1].Ok?
    decreases n
  {
    if Failed(c[n - 1]) {
      TailBounded(c, n - 1);
    }
  }

  /** The features returned by the successful fetches among the first `n`, in cursor order. */
  function Oks(c: seq<Outcome>, n: nat): (fs: seq<Feature>)
    requires n <= |c|
    ensures |fs| <= n
    ensures (forall i :: 0 <= i < n ==> Failed(c[i])) ==> fs == []
    ensures (forall i :: 0 <= i < n ==> c[i].Ok?) ==> |fs| == n
  {
    if n == 0 then []
    else Oks(c, n - 1) + (if c[n - 1].Ok? then [c[n - 1].feature] else [])
  }

  /** The items the generator yields, in order. */
  function Items(events: seq<Event>): seq<Item>
  {
    if events == [] then []
    else (if events[0].Yield? then [events[0].item] else []) + Items(events[1..])
  }

  /** The counts printed in progress lines, in order. */
  function Reports(events: seq<Event>): seq<nat>
  {
    if events == [] then []
    else (if events[0].Progress? then [events[0].count] else []) + Reports(events[1..])
  }

  /** The sleeps requested by retries, in seconds, in order. */
  function Sleeps(events: seq<Event>): seq<nat>
  {
    if events == [] then []
    else (if events[0].Retry? then [events[0].seconds] else []) + Sleeps(events[1..])
  }

  lemma {:induction false} ItemsAppend(a: seq<Event>, b: seq<Event>)
    ensures Items(a + b) == Items(a) + Items(b)
    decreases |a|
  {
    if a == [] {
      assert a + b == b;
    } else {
      assert (a + b)[0] == a[0] && (a + b)[1..] == a[1..] + b;
      ItemsAppend(a[1..], b);
    }
  }

  lemma {:induction false} ReportsAppend(a: seq<Event>, b: seq<Event>)
    ensures Reports(a + b) == Reports(a) + Reports(b)
    decreases |a|
  {
    if a == [] {
      assert a + b == b;
    } else {
      assert (a + b)[0] == a[0] && (a + b)[1..] == a[1..] + b;
      ReportsAppend(a[1..], b);
    }
  }

  lemma {:induction false} SleepsAppend(a: seq<Event>, b: seq<Event>)
    ensures Sleeps(a + b) == Sleeps(a) + Sleeps(b)
    decreases |a|
  {
    if a == [] {
      assert a + b == b;
    } else {
      assert (a + b)[0] == a[0] && (a + b)[1..] == a[1..] + b;
      SleepsAppend(a[1..], b);
    }
  }

  // ---------------------------------------------------------------------
  // One pass of the loop body, and how a run is built from passes
  // ---------------------------------------------------------------------

  /** A pass that lets the loop go on: a retry below the cap, or an accepted feature. */
  lemma StepContinues(st: LoopState, o: Outcome)
    requires Valid(st) && Step(st, o).Continue?
    ensures var r := Step(st, o);
      if o.Ok? then
        var s := CachedSchema(st, o.feature);
        Conforms(s, o.feature)
        && r.next == LoopState(0, st.count + 1, Some(s))
        && r.events == FirstDump(st.count, o.feature)
                       + [Yield(Item(o.feature, s))]
                       + ProgressAt(st.count + 1)
      else
        st.backoff < MAX_BACKOFF
        && r.next == st.(backoff := st.backoff + 1)
        && r.events == [ReadFailed(st.backoff), Retry(Pow2(st.backoff), st.backoff)]
  {
  }

  /** A pass that ends the loop: the fourth failure in a row, or a feature whose attributes cannot be read. */
  lemma StepHalts(st: LoopState, o: Outcome)
    requires Valid(st) && Step(st, o).Halt?
    ensures var r := Step(st, o);
      if o.Ok? then
        var s := CachedSchema(st, o.feature);
        !Conforms(s, o.feature)
        && r.stop == ReadFault
        && r.next == LoopState(0, st.count, Some(s))
        && r.events == FirstDump(st.count, o.feature)
      else
        st.backoff >= MAX_BACKOFF
        && r.stop == GaveUp
        && r.next == st
        && r.events == [ReadFailed(st.backoff), GiveUp(st.backoff)]
  {
  }

  lemma ViewsOne(e: Event)
    ensures Items([e]) == if e.Yield? then [e.item] else []
    ensures Reports([e]) == if e.Progress? then [e.count] else []
    ensures Sleeps([e]) == if e.Retry? then [e.seconds] else []
  {
    assert [e][1..] == [];
  }

  /** What a pass that lets the loop go on adds to the items, the progress reports and the sleeps. */
  lemma StepViews(st: LoopState, o: Outcome)
    requires Valid(st) && Step(st, o).Continue?
    ensures var r := Step(st, o);
      if o.Ok? then
        Items(r.events) == [Item(o.feature, CachedSchema(st, o.feature))]
        && Reports(r.events) == (if (st.count + 1) % PROGRESS_EVERY == 0 then [st.count + 1] else [])
        && Sleeps(r.events) == []
      else
        Items(r.events) == [] && Reports(r.events) == [] && Sleeps(r.events) == [Pow2(st.backoff)]
  {
    StepContinues(st, o);
    var r := Step(st, o);
    if o.Ok? {
      var f := o.feature;
      var y := Yield(Item(f, CachedSchema(st, f)));
      var d := FirstDump(st.count, f);
      var p := ProgressAt(st.count + 1);
      ItemsAppend(d, [y]);
      ItemsAppend(d + [y], p);
      ReportsAppend(d, [y]);
      ReportsAppend(d + [y], p);
      SleepsAppend(d, [y]);
      SleepsAppend(d + [y], p);
      ViewsOne(y);
      if st.count == 0 {
        ViewsOne(FirstFeature(f));
      }
      if (st.count + 1) % PROGRESS_EVERY == 0 {
        ViewsOne(Progress(st.count + 1));
      }
    } else {
      var a := ReadFailed(st.backoff);
      var b := Retry(Pow2(st.backoff), st.backoff);
      assert r.events == [a] + [b];
      ItemsAppend([a], [b]);
      ReportsAppend([a], [b]);
      SleepsAppend([a], [b]);
      ViewsOne(a);
      ViewsOne(b);
    }
  }

  /** A running prefix was running one fetch earlier and grew by one pass that continued. */
  lemma RunningStep(st: LoopState, c: seq<Outcome>, n: nat)
    requires Valid(st) && 0 < n <= |c| && Run(st, c, n).stop == Running
    ensures Run(st, c, n - 1).stop == Running
    ensures Step(Run(st, c, n - 1).final, c[n - 1]).Continue?
    ensures Run(st, c, n).events == Run(st, c, n - 1).events + Step(Run(st, c, n - 1).final, c[n - 1]).events
    ensures Run(st, c, n).final == Step(Run(st, c, n - 1).final, c[n - 1]).next
  {
  }

  /**
   * A halted run stopped at the pass for fetch `k`: the loop was still running
   * (as `t`) before it, that pass `r` ended the loop, and nothing after it counts.
   */
  lemma {:induction false} HaltPoint(st: LoopState, c: seq<Outcome>, n: nat) returns (k: nat, t: Trace, r: StepResult)
    requires Valid(st) && n <= |c| && Run(st, c, n).stop != Running
    ensures 1 <= k <= n && k == Run(st, c, n).consumed
    ensures t == Run(st, c, k - 1) && t.stop == Running
    ensures r == Step(t.final, c[k - 1]) && r.Halt?
    ensures Run(st, c, n) == Extend(t, r)
    decreases n
  {
    var prev := Run(st, c, n - 1);
    if prev.stop != Running {
      assert Run(st, c, n) == prev;
      k, t, r := HaltPoint(st, c, n - 1);
    } else {
      k, t, r := n, prev, Step(prev.final, c[n - 1]);
      assert Run(st, c, n) == Extend(t, r);
    }
  }

  /** A prefix that is still running was running at every shorter prefix. */
  lemma RunningMonotone(st: LoopState, c: seq<Outcome>, m: nat, n: nat)
    requires Valid(st) && m <= n <= |c| && Run(st, c, n).stop == Running
    ensures Run(st, c, m).stop == Running
  {
    if Run(st, c, m).stop != Running {
      RunStaysHalted(st, c, m, n);
    }
  }

  // ---------------------------------------------------------------------
  // A `None` is a failure like any other
  // ---------------------------------------------------------------------

  /** The loop sees a fetch only through its `try` block: outcomes with the same `TryFetch` give the same run. */
  lemma {:induction false} RunSeesOnlyFetch(st: LoopState, c1: seq<Outcome>, c2: seq<Outcome>, n: nat)
    requires Valid(st) && n <= |c1| && n <= |c2|
    requires forall j :: 0 <= j < n ==> TryFetch(c1[j]) == TryFetch(c2[j])
    ensures Run(st, c1, n) == Run(st, c2, n)
    decreases n
  {
    if n > 0 {
      RunSeesOnlyFetch(st, c1, c2, n - 1);
      var t := Run(st, c1, n - 1);
      if t.stop == Running {
        assert Step(t.final, c1[n - 1]) == Step(t.final, c2[n - 1]);
      }
    }
  }

  /** Replacing a raised error by a returned `None`, anywhere in the cursor, changes nothing. */
  lemma NullLikeError(st: LoopState, c: seq<Outcome>, i: nat, n: nat)
    requires Valid(st) && i < |c| && n <= |c|
    ensures Run(st, c[i := Null], n) == Run(st, c[i := Error], n)
  {
    RunSeesOnlyFetch(st, c[i := Null], c[i := Error], n);
  }

  /** No single pass takes the "last feature" branch. */
  lemma StepNeverLastFeature(st: LoopState, o: Outcome)
    requires Valid(st)
    ensures Step(st, o).Halt? ==> Step(st, o).stop != EndOfData
    ensures LastFeature !in Step(st, o).events
  {
  }

  /** Hence the loop never stops for lack of data ... */
  lemma {:induction false} NeverEndOfData(st: LoopState, c: seq<Outcome>, n: nat)
    requires Valid(st) && n <= |c|
    ensures Run(st, c, n).stop != EndOfData
    decreases n
  {
    if n > 0 {
      NeverEndOfData(st, c, n - 1);
      var t := Run(st, c, n - 1);
      if t.stop == Running {
        StepNeverLastFeature(t.final, c[n - 1]);
      }
    }
  }

  /** ... and never writes "Looks like this is the last feature". */
  lemma {:induction false} NeverLastFeature(st: LoopState, c: seq<Outcome>, n: nat)
    requires Valid(st) && n <= |c|
    ensures LastFeature !in Run(st, c, n).events
    decreases n
  {
    if n > 0 {
      NeverLastFeature(st, c, n - 1);
      var t := Run(st, c, n - 1);
      if t.stop == Running {
        var r := Step(t.final, c[n - 1]);
        StepNeverLastFeature(t.final, c[n - 1]);
        assert LastFeature !in t.events + r.events;
      }
    }
  }

  // ---------------------------------------------------------------------
  // Backoff and giving up
  // ---------------------------------------------------------------------

  /**
   * While the loop runs, its backoff level is the number of failures since the
   * last success (added to the starting level when there has been none).
   */
  lemma {:induction false} BackoffIsTail(st: LoopState, c: seq<Outcome>, n: nat)
    requires Valid(st) && n <= |c| && Run(st, c, n).stop == Running
    ensures Run(st, c, n).final.backoff == if Tail(c, n) == n then st.backoff + n else Tail(c, n)
    decreases n
  {
    if n > 0 {
      RunningStep(st, c, n);
      BackoffIsTail(st, c, n - 1);
      StepContinues(Run(st, c, n - 1).final, c[n - 1]);
    }
  }

  /** From the start, a running loop has at most three failures at its end, and the backoff level is their number. */
  lemma RunningBackoff(c: seq<Outcome>, n: nat)
    requires n <= |c| && Run(INIT, c, n).stop == Running
    ensures Run(INIT, c, n).final.backoff == Tail(c, n) <= MAX_BACKOFF
  {
    BackoffIsTail(INIT, c, n);
  }

  /** Right after a success the backoff level is back to 0. */
  lemma SuccessResets(st: LoopState, c: seq<Outcome>, n: nat)
    requires Valid(st) && 0 < n <= |c| && c[n - 1].Ok? && Run(st, c, n).stop == Running
    ensures Run(st, c, n).final.backoff == 0
  {
    BackoffIsTail(st, c, n);
  }

  /** Four failures in a row leave at least four failures at their end. */
  lemma StreakTail(c: seq<Outcome>, j: nat)
    requires StreakAt(c, j)
    ensures Tail(c, j + 4) >= 4
  {
    assert Failed(c[j + 3]) && Failed(c[j + 2]) && Failed(c[j + 1]) && Failed(c[j]);
    assert Tail(c, j + 2) >= 2;
  }

  /** Four failures in a row from position `j` end the loop, at the latest on the fourth of them. */
  lemma StreakStops(c: seq<Outcome>, j: nat, n: nat)
    requires StreakAt(c, j) && j + 4 <= n <= |c|
    ensures Run(INIT, c, n).stop != Running
    ensures Run(INIT, c, n).consumed <= j + 4
  {
    if Run(INIT, c, j + 4).stop == Running {
      RunningBackoff(c, j + 4);
      StreakTail(c, j);
      assert false;
    }
    RunStaysHalted(INIT, c, j + 4, n);
  }

  /** A loop still running has seen no four failures in a row. */
  lemma RunningHasNoStreak(c: seq<Outcome>, n: nat)
    requires n <= |c| && Run(INIT, c, n).stop == Running
    ensures !HasStreak(c, n)
  {
    if HasStreak(c, n) {
      var j: nat :| j + 4 <= n && StreakAt(c, j);
      StreakStops(c, j, n);
    }
  }

  /** Three failures followed by one more make a streak of four. */
  lemma ThreeThenFailure(c: seq<Outcome>, m: nat)
    requires m < |c| && Tail(c, m) >= 3 && Failed(c[m])
    ensures 3 <= m && StreakAt(c, m - 3)
  {
    TailFailed(c, m, m - 1);
    TailFailed(c, m, m - 2);
    TailFailed(c, m, m - 3);
  }

  /** Giving up happens on a pass whose fetch failed at backoff level 3 or more. */
  lemma GaveUpPass(st: LoopState, c: seq<Outcome>, n: nat) returns (k: nat)
    requires Valid(st) && n <= |c| && Run(st, c, n).stop == GaveUp
    ensures 1 <= k <= n && k == Run(st, c, n).consumed
    ensures Run(st, c, k - 1).stop == Running
    ensures Failed(c[k - 1]) && Run(st, c, k - 1).final.backoff >= MAX_BACKOFF
  {
    var t, r;
    k, t, r := HaltPoint(st, c, n);
    StepHalts(t.final, c[k - 1]);
  }

  /**
   * Giving up happens on the fourth failure in a row and on the first such
   * streak: the last four fetches failed and no four before them did.
   */
  lemma GiveUpExactly(c: seq<Outcome>, n: nat)
    requires n <= |c| && Run(INIT, c, n).stop == GaveUp
    ensures var k := Run(INIT, c, n).consumed;
      4 <= k && StreakAt(c, k - 4) && !HasStreak(c, k - 1)
  {
    var k := GaveUpPass(INIT, c, n);
    RunningBackoff(c, k - 1);
    ThreeThenFailure(c, k - 1);
    RunningHasNoStreak(c, k - 1);
  }

  // ---------------------------------------------------------------------
  // Counting, caching the names, yielding in order
  // ---------------------------------------------------------------------

  /** While the loop runs, the count is the number of successful fetches. */
  lemma {:induction false} CountIsOks(c: seq<Outcome>, n: nat)
    requires n <= |c| && Run(INIT, c, n).stop == Running
    ensures Run(INIT, c, n).final.count == |Oks(c, n)|
    decreases n
  {
    if n > 0 {
      RunningStep(INIT, c, n);
      CountIsOks(c, n - 1);
      StepContinues(Run(INIT, c, n - 1).final, c[n - 1]);
    }
  }

  /** While the loop runs, the names are cached exactly once there has been a success, from the first one. */
  lemma {:induction false} SchemaOfFirst(c: seq<Outcome>, n: nat)
    requires n <= |c| && Run(INIT, c, n).stop == Running
    ensures Run(INIT, c, n).final.schema == if Oks(c, n) == [] then None else Some(SchemaOf(Oks(c, n)[0]))
    decreases n
  {
    if n > 0 {
      RunningStep(INIT, c, n);
      SchemaOfFirst(c, n - 1);
      CountIsOks(c, n - 1);
      StepContinues(Run(INIT, c, n - 1).final, c[n - 1]);
      if c[n - 1].Ok? && Oks(c, n - 1) != [] {
        assert Oks(c, n)[0] == Oks(c, n - 1)[0];
      }
    }
  }

  /** While the loop runs, every feature so far has a field at each position the first one named. */
  lemma {:induction false} AllConform(c: seq<Outcome>, n: nat, i: nat)
    requires n <= |c| && Run(INIT, c, n).stop == Running && i < |Oks(c, n)|
    ensures Conforms(SchemaOf(Oks(c, n)[0]), Oks(c, n)[i])
    decreases n
  {
    var fs := Oks(c, n - 1);
    RunningStep(INIT, c, n);
    if i < |fs| {
      AllConform(c, n - 1, i);
      assert Oks(c, n)[0] == fs[0] && Oks(c, n)[i] == fs[i];
    } else {
      SchemaOfFirst(c, n - 1);
      CountIsOks(c, n - 1);
      StepContinues(Run(INIT, c, n - 1).final, c[n - 1]);
      assert Oks(c, n) == fs + [c[n - 1].feature];
      if fs != [] {
        assert Oks(c, n)[0] == fs[0];
      }
    }
  }

  /** The items expected for features `fs` read under names `s`, in order. */
  function ItemsOf(fs: seq<Feature>, s: Schema): (items: seq<Item>)
    ensures |items| == |fs|
    ensures forall i :: 0 <= i < |fs| ==> items[i] == Item(fs[i], s)
  {
    if fs == [] then [] else ItemsOf(fs[..|fs| - 1], s) + [Item(fs[|fs| - 1], s)]
  }

  /** The items expected for features `fs` read in order under the names of the first one. */
  function Yielded(fs: seq<Feature>): seq<Item>
  {
    if fs == [] then [] else ItemsOf(fs, SchemaOf(fs[0]))
  }

  /**
   * While the loop runs, it has yielded one item per successful fetch, in
   * cursor order, each read under the names of the first feature.
   */
  lemma {:induction false} YieldsInOrder(c: seq<Outcome>, n: nat)
    requires n <= |c| && Run(INIT, c, n).stop == Running
    ensures Items(Run(INIT, c, n).events) == Yielded(Oks(c, n))
    decreases n
  {
    if n > 0 {
      var t := Run(INIT, c, n - 1);
      var r := Step(t.final, c[n - 1]);
      RunningStep(INIT, c, n);
      YieldsInOrder(c, n - 1);
      StepViews(t.final, c[n - 1]);
      ItemsAppend(t.events, r.events);
      if c[n - 1].Ok? {
        var f := c[n - 1].feature;
        var fs := Oks(c, n - 1);
        SchemaOfFirst(c, n - 1);
        CountIsOks(c, n - 1);
        assert Oks(c, n) == fs + [f];
        if fs == [] {
          assert Oks(c, n) == [f];
        } else {
          assert Oks(c, n)[0] == fs[0];
          assert Oks(c, n)[..|Oks(c, n)| - 1] == fs;
        }
      }
    }
  }

  /** The multiples of `PROGRESS_EVERY` up to `m`, in increasing order. */
  function Multiples(m: nat): seq<nat>
  {
    seq(m / PROGRESS_EVERY, i requires 0 <= i < m / PROGRESS_EVERY => PROGRESS_EVERY * (i + 1))
  }

  /** Counting one more feature adds the new count to the multiples exactly when it is one. */
  lemma MultiplesNext(m: nat)
    ensures Multiples(m + 1) == Multiples(m) + (if (m + 1) % PROGRESS_EVERY == 0 then [m + 1] else [])
  {
    var q := m / PROGRESS_EVERY;
    assert m == PROGRESS_EVERY * q + m % PROGRESS_EVERY;
    if (m + 1) % PROGRESS_EVERY == 0 {
      assert m % PROGRESS_EVERY == PROGRESS_EVERY - 1;
      assert m + 1 == PROGRESS_EVERY * (q + 1);
      assert (m + 1) / PROGRESS_EVERY == q + 1;
    } else {
      assert m % PROGRESS_EVERY < PROGRESS_EVERY - 1;
      assert (m + 1) / PROGRESS_EVERY == q;
    }
  }

  /** A pass that goes on keeps the progress lines equal to the multiples up to the count. */
  lemma ProgressStep(st: LoopState, o: Outcome, events: seq<Event>)
    requires Valid(st) && Step(st, o).Continue? && Reports(events) == Multiples(st.count)
    ensures Reports(events + Step(st, o).events) == Multiples(Step(st, o).next.count)
  {
    var r := Step(st, o);
    StepViews(st, o);
    StepContinues(st, o);
    ReportsAppend(events, r.events);
    if o.Ok? {
      MultiplesNext(st.count);
    }
  }

  /** While the loop runs, the progress lines so far report exactly the multiples of 10,000 up to the count. */
  lemma {:induction false} ProgressCadence(c: seq<Outcome>, n: nat)
    requires n <= |c| && Run(INIT, c, n).stop == Running
    ensures Reports(Run(INIT, c, n).events) == Multiples(Run(INIT, c, n).final.count)
    decreases n
  {
    if n > 0 {
      var t := Run(INIT, c, n - 1);
      RunningStep(INIT, c, n);
      ProgressCadence(c, n - 1);
      ProgressStep(t.final, c[n - 1], t.events);
    }
  }

  /**
   * Reference: the sleeps for the first `n` fetches, one for each failed fetch,
   * of `2**b` seconds where b is the number of failures just before it.
   */
  function SleepsOf(c: seq<Outcome>, n: nat): seq<nat>
    requires n <= |c|
  {
    if n == 0 then []
    else SleepsOf(c, n - 1) + (if Failed(c[n - 1]) then [Pow2(Tail(c, n - 1))] else [])
  }

  /** A pass that goes on adds one sleep of `2**b` seconds for a failure at level b, and none for a success. */
  lemma SleepsStep(st: LoopState, o: Outcome, events: seq<Event>)
    requires Valid(st) && Step(st, o).Continue?
    ensures Sleeps(events + Step(st, o).events) == Sleeps(events) + (if Failed(o) then [Pow2(st.backoff)] else [])
  {
    StepViews(st, o);
    SleepsAppend(events, Step(st, o).events);
  }

  /** While the loop runs, the sleeps requested so far are exactly those of the reference. */
  lemma {:induction false} SleepsWhileRunning(c: seq<Outcome>, n: nat)
    requires n <= |c| && Run(INIT, c, n).stop == Running
    ensures Sleeps(Run(INIT, c, n).events) == SleepsOf(c, n)
    decreases n
  {
    if n > 0 {
      var t := Run(INIT, c, n - 1);
      RunningStep(INIT, c, n);
      SleepsWhileRunning(c, n - 1);
      RunningBackoff(c, n - 1);
      SleepsStep(t.final, c[n - 1], t.events);
    }
  }

  /** Fetches that all succeed request no sleep. */
  lemma {:induction false} SleepsOfSuccesses(c: seq<Outcome>, n: nat)
    requires n <= |c| && forall i :: 0 <= i < n ==> c[i].Ok?
    ensures SleepsOf(c, n) == []
    decreases n
  {
    if n > 0 {
      SleepsOfSuccesses(c, n - 1);
    }
  }

  // ---------------------------------------------------------------------
  // How the loop ends
  // ---------------------------------------------------------------------

  /** What one retry at level `b` writes: the traceback, then "Trying again in 2**b seconds". */
  function Attempt(b: nat): seq<Event>
  {
    [ReadFailed(b), Retry(Pow2(b), b)]
  }

  /** Everything written from a success (level 0) to giving up on the fourth failure in a row. */
  function RetryRound(count: nat): seq<Event>
  {
    Attempt(0) + Attempt(1) + Attempt(2) + [ReadFailed(3), GiveUp(3), Finished(count)]
  }

  lemma ViewsPair(a: Event, b: Event)
    ensures Items([a, b]) == Items([a]) + Items([b])
    ensures Reports([a, b]) == Reports([a]) + Reports([b])
    ensures Sleeps([a, b]) == Sleeps([a]) + Sleeps([b])
  {
    assert [a, b] == [a] + [b];
    ItemsAppend([a], [b]);
    ReportsAppend([a], [b]);
    SleepsAppend([a], [b]);
  }

  /** One retry yields nothing, reports no progress, and sleeps `2**b` seconds. */
  lemma AttemptViews(b: nat)
    ensures Items(Attempt(b)) == [] && Reports(Attempt(b)) == [] && Sleeps(Attempt(b)) == [Pow2(b)]
  {
    ViewsPair(ReadFailed(b), Retry(Pow2(b), b));
    ViewsOne(ReadFailed(b));
    ViewsOne(Retry(Pow2(b), b));
  }

  /** The three retries of a round sleep 1, 2 and 4 seconds. */
  lemma AttemptsViews()
    ensures var a := Attempt(0) + Attempt(1) + Attempt(2);
      Sleeps(a) == [1, 2, 4] && Reports(a) == [] && Items(a) == []
  {
    AttemptViews(0);
    AttemptViews(1);
    AttemptViews(2);
    ViewsAppend3(Attempt(0), Attempt(1), Attempt(2));
    assert Pow2(1) == 2 && Pow2(2) == 4;
  }

  /** Giving up writes neither items, progress nor sleeps. */
  lemma GiveUpViews(count: nat)
    ensures var e := [ReadFailed(3), GiveUp(3), Finished(count)];
      Sleeps(e) == [] && Reports(e) == [] && Items(e) == []
  {
    assert [ReadFailed(3), GiveUp(3), Finished(count)] == [ReadFailed(3)] + [GiveUp(3)] + [Finished(count)];
    ViewsOne(ReadFailed(3));
    ViewsOne(GiveUp(3));
    ViewsOne(Finished(count));
    ViewsAppend3([ReadFailed(3)], [GiveUp(3)], [Finished(count)]);
  }

  /** The retries of one round sleep 1, 2 and 4 seconds; the round yields nothing and reports no progress. */
  lemma RetryRoundViews(count: nat)
    ensures Sleeps(RetryRound(count)) == [1, 2, 4]
    ensures Reports(RetryRound(count)) == [] && Items(RetryRound(count)) == []
  {
    var a := Attempt(0) + Attempt(1) + Attempt(2);
    var last := [ReadFailed(3), GiveUp(3), Finished(count)];
    AttemptsViews();
    GiveUpViews(count);
    ItemsAppend(a, last);
    ReportsAppend(a, last);
    SleepsAppend(a, last);
  }

  lemma ViewsAppend3(a: seq<Event>, b: seq<Event>, c: seq<Event>)
    ensures Items(a + b + c) == Items(a) + Items(b) + Items(c)
    ensures Reports(a + b + c) == Reports(a) + Reports(b) + Reports(c)
    ensures Sleeps(a + b + c) == Sleeps(a) + Sleeps(b) + Sleeps(c)
  {
    ItemsAppend(a, b);
    ItemsAppend(a + b, c);
    ReportsAppend(a, b);
    ReportsAppend(a + b, c);
    SleepsAppend(a, b);
    SleepsAppend(a + b, c);
  }

  /** One failure at a level below the cap: one retry, one level up, and the loop goes on. */
  lemma RetryPass(st: LoopState, c: seq<Outcome>, n: nat)
    requires Valid(st) && n < |c| && Failed(c[n])
    requires Run(st, c, n).stop == Running && Run(st, c, n).final.backoff < MAX_BACKOFF
    ensures var t := Run(st, c, n);
      Run(st, c, n + 1) == Trace(t.events + Attempt(t.final.backoff), t.final.(backoff := t.final.backoff + 1), Running, n + 1)
  {
  }

  /**
   * From level 0 (at the start, or right after a success), four failures in a
   * row write exactly one round: retries after 1, 2 and 4 seconds, then the
   * give-up message and the final count.
   */
  lemma GiveUpAfter(st: LoopState, c: seq<Outcome>, n: nat)
    requires Valid(st) && n + 4 <= |c| && StreakAt(c, n)
    requires Run(st, c, n).stop == Running && Run(st, c, n).final.backoff == 0
    ensures var t := Run(st, c, n);
      Run(st, c, n + 4) == Trace(t.events + RetryRound(t.final.count), t.final.(backoff := MAX_BACKOFF), GaveUp, n + 4)
  {
    var t := Run(st, c, n);
    var s := t.final;
    assert Failed(c[n]) && Failed(c[n + 1]) && Failed(c[n + 2]) && Failed(c[n + 3]);
    RetryPass(st, c, n);
    RetryPass(st, c, n + 1);
    RetryPass(st, c, n + 2);
    var t3 := Run(st, c, n + 3);
    assert t3.events == t.events + Attempt(0) + Attempt(1) + Attempt(2);
    assert t3.final == s.(backoff := 3);
    assert Step(t3.final, c[n + 3]) == Halt(t3.final, [ReadFailed(3), GiveUp(3)], GaveUp);
    assert Run(st, c, n + 4).events == t3.events + [ReadFailed(3), GiveUp(3)] + [Finished(s.count)];
  }

  /**
   * After giving up, the final count is the number of successful fetches made,
   * and "Finished" with that count is the last thing written.
   */
  lemma FinalCount(c: seq<Outcome>, n: nat)
    requires n <= |c| && Run(INIT, c, n).stop == GaveUp
    ensures var t := Run(INIT, c, n);
      t.final.count == |Oks(c, t.consumed)|
      && t.events != [] && t.events[|t.events| - 1] == Finished(t.final.count)
  {
    FinishedCount(c, n);
    var k := GaveUpPass(INIT, c, n);
    OksSkip(c, k);
    GaveUpLast(c, n);
  }

  /** A failed fetch adds no feature. */
  lemma OksSkip(c: seq<Outcome>, k: nat)
    requires 1 <= k <= |c| && Failed(c[k - 1])
    ensures Oks(c, k) == Oks(c, k - 1)
  {
    assert Oks(c, k) == Oks(c, k - 1) + [];
  }

  /** A run that gave up ends on the `Finished.` line with its count. */
  lemma GaveUpLast(c: seq<Outcome>, n: nat)
    requires n <= |c| && Run(INIT, c, n).stop == GaveUp
    ensures var t := Run(INIT, c, n);
      t.events != [] && t.events[|t.events| - 1] == Finished(t.final.count)
  {
    var k, t, r := HaltPoint(INIT, c, n);
    StepHalts(t.final, c[k - 1]);
  }

  /** The pass that ends the loop, with what is written after the loop, yields nothing, reports nothing and sleeps not. */
  lemma HaltTail(st: LoopState, o: Outcome)
    requires Valid(st) && Step(st, o).Halt?
    ensures var r := Step(st, o); var e := r.events + Epilogue(r.stop, r.next.count);
      Items(e) == [] && Reports(e) == [] && Sleeps(e) == [] && r.next.count == st.count
  {
    StepHalts(st, o);
    var r := Step(st, o);
    if o.Ok? {
      assert r.events + Epilogue(r.stop, r.next.count) == FirstDump(st.count, o.feature) == [];
    } else {
      var a, b, f := ReadFailed(st.backoff), GiveUp(st.backoff), Finished(st.count);
      assert r.events + Epilogue(r.stop, r.next.count) == [a] + [b] + [f];
      ViewsOne(a);
      ViewsOne(b);
      ViewsOne(f);
      ViewsAppend3([a], [b], [f]);
    }
  }

  /** So the items, progress lines, sleeps and count of a run that halts are those of the run before the last pass. */
  lemma HaltViews(t: Trace, o: Outcome)
    requires Valid(t.final) && Step(t.final, o).Halt?
    ensures var u := Extend(t, Step(t.final, o));
      Items(u.events) == Items(t.events) && Reports(u.events) == Reports(t.events)
      && Sleeps(u.events) == Sleeps(t.events) && u.final.count == t.final.count
  {
    var r := Step(t.final, o);
    var e := r.events + Epilogue(r.stop, r.next.count);
    HaltTail(t.final, o);
    assert Extend(t, r).events == t.events + e;
    ItemsAppend(t.events, e);
    ReportsAppend(t.events, e);
    SleepsAppend(t.events, e);
  }

  /**
   * A finished run: the pass that ended the loop added nothing to the count,
   * the items, the progress lines or the sleeps, so these are those of the
   * fetches before it.
   */
  lemma HaltedLikeBefore(c: seq<Outcome>, n: nat)
    requires n <= |c| && Run(INIT, c, n).stop != Running
    ensures var t := Run(INIT, c, n); var k := t.consumed; var b := Run(INIT, c, k - 1);
      1 <= k && b.stop == Running && t.final.count == b.final.count
      && Items(t.events) == Items(b.events) && Reports(t.events) == Reports(b.events)
      && Sleeps(t.events) == Sleeps(b.events)
  {
    var k, t, r := HaltPoint(INIT, c, n);
    HaltViews(t, c[k - 1]);
  }

  /** However the loop ended, it has counted the successful fetches before the last pass. */
  lemma FinishedCount(c: seq<Outcome>, n: nat)
    requires n <= |c| && Run(INIT, c, n).stop != Running
    ensures var k := Run(INIT, c, n).consumed;
      1 <= k && Run(INIT, c, n).final.count == |Oks(c, k - 1)|
  {
    HaltedLikeBefore(c, n);
    CountIsOks(c, Run(INIT, c, n).consumed - 1);
  }

  /** However the loop ended, it has yielded the successful fetches before the last pass, in order, under the first one's names. */
  lemma FinishedItems(c: seq<Outcome>, n: nat) returns (k: nat)
    requires n <= |c| && Run(INIT, c, n).stop != Running
    ensures 1 <= k == Run(INIT, c, n).consumed
    ensures Items(Run(INIT, c, n).events) == Yielded(Oks(c, k - 1))
  {
    HaltedLikeBefore(c, n);
    k := Run(INIT, c, n).consumed;
    YieldsInOrder(c, k - 1);
  }

  /** However the loop ended, its progress lines are the multiples of 10,000 up to its final count. */
  lemma FinishedReports(c: seq<Outcome>, n: nat)
    requires n <= |c| && Run(INIT, c, n).stop != Running
    ensures Reports(Run(INIT, c, n).events) == Multiples(Run(INIT, c, n).final.count)
  {
    HaltedLikeBefore(c, n);
    ProgressCadence(c, Run(INIT, c, n).consumed - 1);
  }

  /** However the loop ended, it slept exactly as the reference says for the fetches before the last pass. */
  lemma FinishedSleeps(c: seq<Outcome>, n: nat)
    requires n <= |c| && Run(INIT, c, n).stop != Running
    ensures var k := Run(INIT, c, n).consumed;
      1 <= k && Sleeps(Run(INIT, c, n).events) == SleepsOf(c, k - 1)
  {
    HaltedLikeBefore(c, n);
    SleepsWhileRunning(c, Run(INIT, c, n).consumed - 1);
  }

  /** A prefix of the cursor yields a prefix of the features. */
  lemma {:induction false} OksPrefix(c: seq<Outcome>, m: nat, n: nat, i: nat)
    requires m <= n <= |c| && i < |Oks(c, m)|
    ensures i < |Oks(c, n)| && Oks(c, n)[i] == Oks(c, m)[i]
    decreases n
  {
    if m < n {
      OksPrefix(c, m, n - 1, i);
    }
  }

  /** Every feature has at least the attribute fields of the first one. */
  predicate Covers(fs: seq<Feature>)
  {
    forall i :: 0 <= i < |fs| ==> |fs[0].fields| <= |fs[i].fields|
  }

  /**
   * The loop ends at a read fault exactly on a feature, not the first one, that
   * has fewer attribute fields than the first: the count then stays at the
   * features before it.
   */
  lemma ReadFaultExactly(c: seq<Outcome>, n: nat)
    requires n <= |c| && Run(INIT, c, n).stop == ReadFault
    ensures var t := Run(INIT, c, n); var k := t.consumed; var fs := Oks(c, k - 1);
      1 <= k && c[k - 1].Ok? && fs != []
      && |c[k - 1].feature.fields| < |fs[0].fields|
      && t.final.count == |fs|
  {
    var k, t, r := HaltPoint(INIT, c, n);
    var f := c[k - 1].feature;
    StepHalts(t.final, c[k - 1]);
    CountIsOks(c, k - 1);
    SchemaOfFirst(c, k - 1);
  }

  /** When every feature has the first one's fields, the loop never ends at a read fault. */
  lemma NoReadFault(c: seq<Outcome>, n: nat)
    requires n <= |c| && Covers(Oks(c, n))
    ensures Run(INIT, c, n).stop != ReadFault
  {
    if Run(INIT, c, n).stop == ReadFault {
      ReadFaultExactly(c, n);
      var k := Run(INIT, c, n).consumed;
      var fs := Oks(c, k - 1);
      assert Oks(c, k) == fs + [c[k - 1].feature];
      OksPrefix(c, k, n, 0);
      OksPrefix(c, k, n, |fs|);
      assert false;
    }
  }

  /**
   * When no feature has fewer attribute fields than the first, the loop is
   * still running after `n` fetches exactly when no four in a row have failed,
   * and otherwise it has given up: nothing else can end it.
   */
  lemma GivesUpIffStreak(c: seq<Outcome>, n: nat)
    requires n <= |c| && Covers(Oks(c, n))
    ensures Run(INIT, c, n).stop == GaveUp <==> HasStreak(c, n)
    ensures Run(INIT, c, n).stop == Running <==> !HasStreak(c, n)
  {
    NoReadFault(c, n);
    NeverEndOfData(INIT, c, n);
    if Run(INIT, c, n).stop == GaveUp {
      GiveUpExactly(c, n);
      var k := Run(INIT, c, n).consumed;
      assert k - 4 + 4 <= n && StreakAt(c, k - 4);
    }
    if HasStreak(c, n) {
      var j: nat :| j + 4 <= n && StreakAt(c, j);
      StreakStops(c, j, n);
    }
  }

  /** A cursor whose successes all return `f` yields only `f`. */
  lemma {:induction false} OksUniform(c: seq<Outcome>, f: Feature, n: nat, i: nat)
    requires n <= |c| && forall j :: 0 <= j < n && c[j].Ok? ==> c[j].feature == f
    requires i < |Oks(c, n)|
    ensures Oks(c, n)[i] == f
    decreases n
  {
    if i < |Oks(c, n - 1)| {
      OksUniform(c, f, n - 1, i);
    }
  }

  /** The cursor of the example: 25,000 copies of `f`, then four failed reads. */
  function Example(f: Feature): (c: seq<Outcome>)
    ensures |c| == 25004
  {
    seq(25000, _ => Ok(f)) + [Error, Error, Error, Error]
  }

  /** The first 25,000 fetches of the example succeed, all with `f`, and four-in-a-row failures come only after. */
  lemma ExampleShape(f: Feature)
    ensures !HasStreak(Example(f), 25000) && StreakAt(Example(f), 25000)
    ensures Covers(Oks(Example(f), 25000)) && |Oks(Example(f), 25000)| == 25000
  {
    var c := Example(f);
    assert forall j :: 0 <= j < 25000 ==> c[j].Ok?;
    assert forall j :: 0 <= j < |c| && c[j].Ok? ==> c[j].feature == f;
    assert !HasStreak(c, 25000) by {
      forall j: nat | j + 4 <= 25000
        ensures !StreakAt(c, j)
      {
        assert !Failed(c[j]);
      }
    }
    forall i | 0 <= i < |Oks(c, 25000)|
      ensures |Oks(c, 25000)[0].fields| <= |Oks(c, 25000)[i].fields|
    {
      OksUniform(c, f, 25000, 0);
      OksUniform(c, f, 25000, i);
    }
  }

  /** Up to 25,000 the progress lines fall at 10,000 and 20,000. */
  lemma ExampleMultiples()
    ensures Multiples(25000) == [10000, 20000]
  {
    var m := Multiples(25000);
    assert 25000 / PROGRESS_EVERY == 2;
    assert |m| == 2;
    assert m[0] == 10000 && m[1] == 20000;
  }

  /** After the first 25,000 fetches of the example the loop runs at level 0, with two progress lines written. */
  lemma ExampleMidway(f: Feature)
    ensures var t := Run(INIT, Example(f), 25000);
      t.stop == Running && t.final.count == 25000 && t.final.backoff == 0
      && Reports(t.events) == [10000, 20000] && Sleeps(t.events) == []
  {
    var c := Example(f);
    ExampleShape(f);
    GivesUpIffStreak(c, 25000);
    CountIsOks(c, 25000);
    RunningBackoff(c, 25000);
    ProgressCadence(c, 25000);
    ExampleMultiples();
    SleepsWhileRunning(c, 25000);
    assert forall i :: 0 <= i < 25000 ==> c[i].Ok?;
    SleepsOfSuccesses(c, 25000);
  }

  /**
   * A worked run: 25,000 features, then four failures. The loop writes the
   * progress lines at 10,000 and 20,000, sleeps 1, 2 and 4 seconds, gives up
   * on the fourth failure and reports 25,000 features.
   */
  lemma TwentyFiveThousand(f: Feature)
    ensures var t := Scan(INIT, Example(f));
      t.stop == GaveUp && t.consumed == 25004 && t.final.count == 25000
      && Reports(t.events) == [10000, 20000]
      && Sleeps(t.events) == [1, 2, 4]
      && t.events[|t.events| - 1] == Finished(25000)
  {
    var c := Example(f);
    ExampleShape(f);
    ExampleMidway(f);
    var t := Run(INIT, c, 25000);
    GiveUpAfter(INIT, c, 25000);
    RetryRoundViews(t.final.count);
    ReportsAppend(t.events, RetryRound(t.final.count));
    SleepsAppend(t.events, RetryRound(t.final.count));
  }
}
