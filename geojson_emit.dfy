/**
 * The consumer `print_features_geojson`: for every item the loop yields, one
 * GeoJSON line on stdout per geometry field that holds a geometry, each with
 * the item's whole attribute dictionary as `properties`, and a warning on
 * stderr for each geometry field that is null.
 *
 * The generator and its consumer take turns: everything the consumer writes
 * for an item comes right after the `yield` and before the loop counts the
 * item. So the program's output, stderr and stdout together, is the loop's
 * event sequence with each `Yield` replaced by what is written for its item.
 */
module GeoJsonEmit {
  import opened Wrappers
  import opened PyDict
  import opened Ogr
  import opened FeatureLoop
  import opened LoopProperties

  /** One line the program writes. Geometries and dictionaries stay abstract: no JSON text is modelled. */
  datatype Output =
    | Log(event: Event)                                                      // a line written by the loop
    | Record(geomField: string, geometry: Geometry, properties: Dict<FieldValue>) // a GeoJSON feature on stdout
    | SkippedEmptyGeom(geomField: string, properties: Dict<FieldValue>)      // "ERROR: Skipping empty geom"

  /** The line for one entry of `geom_attributes`. */
  function OutputFor(entry: (string, Option<Geometry>), attrs: Dict<FieldValue>): Output
  {
    if entry.1.None? then SkippedEmptyGeom(entry.0, attrs) else Record(entry.0, entry.1.value, attrs)
  }

  /** Everything written for one yielded item, entry by entry of its geometry dictionary. */
  function Emit(item: Item): seq<Output>
    requires Conforms(item.schema, item.feature)
  {
    var geoms := item.GeomAttrs();
    var attrs := item.Attrs();
    seq(|geoms|, i requires 0 <= i < |geoms| => OutputFor(geoms[i], attrs))
  }

  /** The body of the `async for`: walk `geom_attributes.items()`, skipping null geometries. */
  method WriteFeature(item: Item) returns (outs: seq<Output>)
    requires Conforms(item.schema, item.feature)
    ensures outs == Emit(item)
  {
    var attributes := item.Attrs();
    var geoms := item.GeomAttrs();
    outs := [];
    for i := 0 to |geoms|
      invariant outs == Emit(item)[..i]
    {
      var (name, geom) := geoms[i];
      if geom.None? {
        outs := outs + [SkippedEmptyGeom(name, attributes)];
        continue;
      }
      outs := outs + [Record(name, geom.value, attributes)];
    }
  }

  // ---------------------------------------------------------------------
  // What one item writes
  // ---------------------------------------------------------------------

  /** The stdout records among `outs`, as (geometry field name, geometry), in order. */
  function Geoms(outs: seq<Output>): seq<(string, Geometry)>
  {
    if outs == [] then []
    else
      var o := outs[|outs| - 1];
      Geoms(outs[..|outs| - 1]) + (if o.Record? then [(o.geomField, o.geometry)] else [])
  }

  /** Reference: the non-null geometry fields among the first `n` cached positions, with their names. */
  function PresentGeoms(gnames: seq<string>, f: Feature, n: nat): seq<(string, Geometry)>
    requires n <= |gnames|
  {
    if n == 0 then []
    else
      PresentGeoms(gnames, f, n - 1)
      + (if GeomAt(f, n - 1).Some? then [(gnames[n - 1], GeomAt(f, n - 1).value)] else [])
  }

  /** Each line written for an item names one entry of its geometry dictionary and carries all its attributes. */
  lemma EmitEntry(item: Item, i: nat)
    requires Conforms(item.schema, item.feature) && i < |item.GeomAttrs()|
    ensures |Emit(item)| == |item.GeomAttrs()|
    ensures var o := Emit(item)[i]; var (name, geom) := item.GeomAttrs()[i];
      !o.Log? && o.geomField == name && o.properties == item.Attrs()
      && (o.Record? <==> geom.Some?)
      && (o.Record? ==> o.geometry == geom.value)
  {
  }

  /** The records of the first `n` lines are the non-null geometries among the first `n` positions. */
  lemma {:induction false} EmitPrefix(item: Item, n: nat)
    requires Conforms(item.schema, item.feature) && Distinct(item.schema.gnames)
    requires n <= |item.schema.gnames|
    ensures |Emit(item)| == |item.schema.gnames|
    ensures Geoms(Emit(item)[..n]) == PresentGeoms(item.schema.gnames, item.feature, n)
    decreases n
  {
    GeomDictPositional(item.schema.gnames, item.feature);
    if n > 0 {
      EmitPrefix(item, n - 1);
      var e := Emit(item);
      assert e[..n][..n - 1] == e[..n - 1];
      assert e[..n][n - 1] == OutputFor(item.GeomAttrs()[n - 1], item.Attrs());
    }
  }

  /**
   * With distinct geometry-field names, an item writes one record per non-null
   * geometry field, in schema order, and one line per geometry field in all.
   */
  lemma EmitInSchemaOrder(item: Item)
    requires Conforms(item.schema, item.feature) && Distinct(item.schema.gnames)
    ensures |Emit(item)| == |item.schema.gnames|
    ensures Geoms(Emit(item)) == PresentGeoms(item.schema.gnames, item.feature, |item.schema.gnames|)
  {
    EmitPrefix(item, |item.schema.gnames|);
    assert Emit(item)[..|item.schema.gnames|] == Emit(item);
  }

  /** A record is written only for an entry whose geometry is not null. */
  lemma {:induction false} GeomsFromRecords(outs: seq<Output>, k: nat) returns (i: nat)
    requires k < |Geoms(outs)|
    ensures i < |outs| && outs[i].Record? && Geoms(outs)[k] == (outs[i].geomField, outs[i].geometry)
    decreases |outs|
  {
    var m := |outs| - 1;
    if k < |Geoms(outs[..m])| {
      i := GeomsFromRecords(outs[..m], k);
      assert outs[..m][i] == outs[i];
    } else {
      i := m;
    }
  }

  /** A feature whose geometry fields are all null writes no record, whatever the names. */
  lemma AllNullNoRecords(item: Item)
    requires Conforms(item.schema, item.feature)
    requires forall i :: 0 <= i < |item.schema.gnames| ==> GeomAt(item.feature, i).None?
    ensures Geoms(Emit(item)) == []
  {
    if Geoms(Emit(item)) != [] {
      var i := GeomsFromRecords(Emit(item), 0);
      var gnames := item.schema.gnames;
      var j := FromEnumerateEntry(gnames, seq(|gnames|, i requires 0 <= i < |gnames| => GeomAt(item.feature, i)), i);
      assert false;
    }
  }

  // ---------------------------------------------------------------------
  // The whole program's output
  // ---------------------------------------------------------------------

  /** Every item the events yield can have its attributes read. */
  predicate YieldsConform(events: seq<Event>)
  {
    forall j :: 0 <= j < |events| && events[j].Yield? ==> Conforms(events[j].item.schema, events[j].item.feature)
  }

  /** The lines of one event: what is written for a yielded item, or the loop's own line. */
  function ExpandOne(e: Event): seq<Output>
    requires e.Yield? ==> Conforms(e.item.schema, e.item.feature)
  {
    if e.Yield? then Emit(e.item) else [Log(e)]
  }

  /** The program's lines for a sequence of loop events, in order. */
  function Expand(events: seq<Event>): seq<Output>
    requires YieldsConform(events)
  {
    if events == [] then []
    else
      var m := |events| - 1;
      assert YieldsConform(events[..m]) by {
        forall j | 0 <= j < m && events[..m][j].Yield?
          ensures Conforms(events[..m][j].item.schema, events[..m][j].item.feature)
        {
          assert events[..m][j] == events[j];
        }
      }
      Expand(events[..m]) + ExpandOne(events[m])
  }

  lemma YieldsConformAppend(a: seq<Event>, b: seq<Event>)
    requires YieldsConform(a) && YieldsConform(b)
    ensures YieldsConform(a + b)
  {
    forall j | 0 <= j < |a + b| && (a + b)[j].Yield?
      ensures Conforms((a + b)[j].item.schema, (a + b)[j].item.feature)
    {
      if j >= |a| {
        assert (a + b)[j] == b[j - |a|];
      }
    }
  }

  /** The loop only yields an item after checking that its attributes can be read. */
  lemma StepYieldsConform(st: LoopState, o: Outcome)
    requires Valid(st)
    ensures YieldsConform(Step(st, o).events)
  {
    if o.Ok? && Step(st, o).Continue? {
      var f := o.feature;
      var y := Yield(Item(f, CachedSchema(st, f)));
      var d := FirstDump(st.count, f);
      var p := ProgressAt(st.count + 1);
      assert Step(st, o).events == d + [y] + p;
      YieldsConformAppend(d, [y]);
      YieldsConformAppend(d + [y], p);
    }
  }

  /** Hence every item of a run can have its attributes read. */
  lemma {:induction false} RunYieldsConform(st: LoopState, c: seq<Outcome>, n: nat)
    requires Valid(st) && n <= |c|
    ensures YieldsConform(Run(st, c, n).events)
    decreases n
  {
    if n > 0 {
      RunYieldsConform(st, c, n - 1);
      var t := Run(st, c, n - 1);
      if t.stop == Running {
        var r := Step(t.final, c[n - 1]);
        StepYieldsConform(t.final, c[n - 1]);
        YieldsConformAppend(t.events, r.events);
        if r.Halt? {
          YieldsConformAppend(t.events + r.events, Epilogue(r.stop, r.next.count));
        }
      }
    }
  }

  /** The program's lines for two stretches of events are the lines of each, one after the other. */
  lemma {:induction false} ExpandAppend(a: seq<Event>, b: seq<Event>)
    requires YieldsConform(a) && YieldsConform(b)
    ensures YieldsConform(a + b) && Expand(a + b) == Expand(a) + Expand(b)
    decreases |b|
  {
    YieldsConformAppend(a, b);
    if b == [] {
      assert a + b == a;
    } else {
      var m := |b| - 1;
      assert b == b[..m] + [b[m]];
      ExpandLast(b[..m], b[m]);
      ExpandAppend(a, b[..m]);
      assert a + b == (a + b[..m]) + [b[m]];
      ExpandLast(a + b[..m], b[m]);
    }
  }

  /**
   * The body of `print_features_geojson`'s loop, over the events of a run:
   * the lines of `WriteFeature` for each item, the loop's own lines as they come.
   */
  method WriteEvents(events: seq<Event>) returns (out: seq<Output>)
    requires YieldsConform(events)
    ensures out == Expand(events)
  {
    out := [];
    for i := 0 to |events|
      invariant YieldsConform(events[..i]) && out == Expand(events[..i])
    {
      var e := events[i];
      assert events[..i + 1] == events[..i] + [e];
      ExpandLast(events[..i], e);
      if e.Yield? {
        var outs := WriteFeature(e.item);
        out := out + outs;
      } else {
        out := out + [Log(e)];
      }
    }
    assert events[..|events|] == events;
  }

  /**
   * `print_features_geojson`: run the generator and write, for each item it
   * yields, the lines of `WriteFeature`, in between the loop's own lines; `t`
   * is the generator's run, and tells how it ended.
   */
  method PrintFeaturesGeojson(cursor: seq<Outcome>) returns (out: seq<Output>, t: Trace)
    ensures t == Scan(INIT, cursor)
    ensures YieldsConform(t.events) && out == Expand(t.events)
  {
    t := GetFeatures(cursor);
    RunYieldsConform(INIT, cursor, |cursor|);
    out := WriteEvents(t.events);
  }

  // ---------------------------------------------------------------------
  // What reaches stdout
  // ---------------------------------------------------------------------

  lemma {:induction false} GeomsAppend(a: seq<Output>, b: seq<Output>)
    ensures Geoms(a + b) == Geoms(a) + Geoms(b)
    decreases |b|
  {
    if b == [] {
      assert a + b == a;
    } else {
      var m := |b| - 1;
      GeomsAppend(a, b[..m]);
      assert (a + b)[..|a + b| - 1] == a + b[..m];
      assert (a + b)[|a + b| - 1] == b[m];
    }
  }

  /** Every item can have its attributes read. */
  predicate ItemsConform(items: seq<Item>)
  {
    forall i :: 0 <= i < |items| ==> Conforms(items[i].schema, items[i].feature)
  }

  /** Reference: the records of each item in turn, item after item. */
  function Stdout(items: seq<Item>): seq<(string, Geometry)>
    requires ItemsConform(items)
  {
    if items == [] then []
    else
      var m := |items| - 1;
      assert ItemsConform(items[..m]) by {
        forall i | 0 <= i < m
          ensures Conforms(items[..m][i].schema, items[..m][i].feature)
        {
          assert items[..m][i] == items[i];
        }
      }
      Stdout(items[..m]) + Geoms(Emit(items[m]))
  }

  /** One more event adds its own lines at the end. */
  lemma ExpandLast(p: seq<Event>, e: Event)
    requires YieldsConform(p + [e])
    ensures YieldsConform(p) && (e.Yield? ==> Conforms(e.item.schema, e.item.feature))
    ensures Expand(p + [e]) == Expand(p) + ExpandOne(e)
  {
    var events := p + [e];
    assert events[..|events| - 1] == p;
    assert events[|events| - 1] == e;
  }

  /** One more item adds its own records at the end. */
  lemma StdoutLast(items: seq<Item>, item: Item)
    requires ItemsConform(items) && Conforms(item.schema, item.feature)
    ensures ItemsConform(items + [item])
    ensures Stdout(items + [item]) == Stdout(items) + Geoms(Emit(item))
  {
    var all := items + [item];
    assert all[..|all| - 1] == items;
    assert all[|all| - 1] == item;
  }

  /** A line of the loop's own puts no record on stdout. */
  lemma GeomsLog(a: seq<Output>, e: Event)
    ensures Geoms(a + [Log(e)]) == Geoms(a)
  {
    assert (a + [Log(e)])[..|a|] == a;
  }

  /** One more event keeps the records on stdout equal to those of the items. */
  lemma StdoutStep(p: seq<Event>, e: Event)
    requires YieldsConform(p + [e]) && YieldsConform(p)
    requires ItemsConform(Items(p)) && Geoms(Expand(p)) == Stdout(Items(p))
    ensures ItemsConform(Items(p + [e])) && Geoms(Expand(p + [e])) == Stdout(Items(p + [e]))
  {
    ExpandLast(p, e);
    ItemsAppend(p, [e]);
    ViewsOne(e);
    if e.Yield? {
      GeomsAppend(Expand(p), Emit(e.item));
      StdoutLast(Items(p), e.item);
    } else {
      assert Items(p + [e]) == Items(p);
      GeomsLog(Expand(p), e);
    }
  }

  /**
   * The records on stdout are, in order, the records of the yielded items one
   * after another: the loop's own lines and the warnings put none there.
   */
  lemma {:induction false} ExpandStdout(events: seq<Event>)
    requires YieldsConform(events)
    ensures ItemsConform(Items(events)) && Geoms(Expand(events)) == Stdout(Items(events))
    decreases |events|
  {
    if events != [] {
      var m := |events| - 1;
      var p := events[..m];
      var e := events[m];
      assert events == p + [e];
      ExpandLast(p, e);
      ExpandStdout(p);
      StdoutStep(p, e);
    }
  }

  /** The records on stdout for events that yield `items`. */
  lemma StdoutOfItems(events: seq<Event>, items: seq<Item>)
    requires YieldsConform(events) && Items(events) == items
    ensures ItemsConform(items) && Geoms(Expand(events)) == Stdout(items)
  {
    ExpandStdout(events);
  }

  /**
   * A finished script: the records on stdout are those of the features fetched
   * successfully before the last pass `k`, in cursor order, read under the
   * names of the first one.
   */
  lemma FinishedStdout(cursor: seq<Outcome>) returns (k: nat)
    requires Scan(INIT, cursor).stop != Running
    ensures 1 <= k == Scan(INIT, cursor).consumed && k <= |cursor|
    ensures YieldsConform(Scan(INIT, cursor).events) && ItemsConform(Yielded(Oks(cursor, k - 1)))
    ensures Geoms(Expand(Scan(INIT, cursor).events)) == Stdout(Yielded(Oks(cursor, k - 1)))
  {
    var t := Scan(INIT, cursor);
    RunYieldsConform(INIT, cursor, |cursor|);
    k := FinishedItems(cursor, |cursor|);
    StdoutOfItems(t.events, Yielded(Oks(cursor, k - 1)));
  }
}
