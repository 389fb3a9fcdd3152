/**
 * What the script sees of the geospatial library: features handed out by a
 * layer's cursor, and the positional accessors it reads them with. Attribute
 * values and geometries are opaque; the model never looks inside them.
 */
module Ogr {
  import opened Wrappers
  import opened PyDict

  /** An attribute value as `GetField` returns it (`Unset` for a null field). */
  datatype FieldValue = Unset | Value(text: string)

  /** A geometry handle as `GetGeomFieldRef` returns it. */
  datatype Geometry = Geometry(handle: nat)

  /** One attribute field of a feature: its definition's name and its value. */
  datatype Field = Field(name: string, value: FieldValue)

  /** One geometry field of a feature: its definition's name and its geometry, possibly null. */
  datatype GeomField = GeomField(name: string, geometry: Option<Geometry>)

  /** A feature in field order, as `GetFieldCount`/`GetFieldDefnRef` and their geometry counterparts expose it. */
  datatype Feature = Feature(fields: seq<Field>, geomFields: seq<GeomField>)

  /** What one call of `layer.GetNextFeature()` does: return a feature, return `None`, or raise. */
  datatype Outcome = Ok(feature: Feature) | Null | Error

  /** The attribute names and geometry-field names cached from the first feature. */
  datatype Schema = Schema(names: seq<string>, gnames: seq<string>)

  /** The names of the feature's own attribute and geometry field definitions, in order. */
  function SchemaOf(f: Feature): (s: Schema)
    ensures |s.names| == |f.fields| && |s.gnames| == |f.geomFields|
    ensures forall i :: 0 <= i < |f.fields| ==> s.names[i] == f.fields[i].name
    ensures forall i :: 0 <= i < |f.geomFields| ==> s.gnames[i] == f.geomFields[i].name
  {
    Schema(seq(|f.fields|, i requires 0 <= i < |f.fields| => f.fields[i].name),
           seq(|f.geomFields|, i requires 0 <= i < |f.geomFields| => f.geomFields[i].name))
  }

  /** `GetField(i)` for every cached name succeeds: the feature has that many attribute fields. */
  predicate Conforms(s: Schema, f: Feature)
  {
    |s.names| <= |f.fields|
  }

  /** `GetGeomFieldRef(i)`: no geometry at a position the feature does not have. */
  function GeomAt(f: Feature, i: nat): Option<Geometry>
  {
    if i < |f.geomFields| then f.geomFields[i].geometry else None
  }

  /**
   * `{k: feat.GetField(i) for i, k in enumerate(names)}` on a feature that has
   * every position: the value at position i is filed under the cached name at
   * position i, whatever the feature's own definition there is called.
   */
  function AttrDict(names: seq<string>, f: Feature): Dict<FieldValue>
    requires |names| <= |f.fields|
  {
    FromEnumerate(names, seq(|names|, i requires 0 <= i < |names| => f.fields[i].value))
  }

  /** The same comprehension on any feature: a position the feature lacks raises (`None`). */
  function ReadAttrs(names: seq<string>, f: Feature): Option<Dict<FieldValue>>
  {
    if |names| <= |f.fields| then Some(AttrDict(names, f)) else None
  }

  /** `{k: feat.GetGeomFieldRef(i) for i, k in enumerate(gnames)}`. */
  function GeomDict(gnames: seq<string>, f: Feature): Dict<Option<Geometry>>
  {
    FromEnumerate(gnames, seq(|gnames|, i requires 0 <= i < |gnames| => GeomAt(f, i)))
  }

  /** With distinct cached names, every position is read, in order, under its cached name. */
  lemma AttrDictPositional(names: seq<string>, f: Feature)
    requires Distinct(names) && |names| <= |f.fields|
    ensures |AttrDict(names, f)| == |names|
    ensures forall i :: 0 <= i < |names| ==> AttrDict(names, f)[i] == (names[i], f.fields[i].value)
  {
    FromEnumerateDistinct(names, seq(|names|, i requires 0 <= i < |names| => f.fields[i].value));
  }

  /** With distinct cached geometry names, entry i is the geometry at position i under name i. */
  lemma GeomDictPositional(gnames: seq<string>, f: Feature)
    requires Distinct(gnames)
    ensures |GeomDict(gnames, f)| == |gnames|
    ensures forall i :: 0 <= i < |gnames| ==> GeomDict(gnames, f)[i] == (gnames[i], GeomAt(f, i))
  {
    FromEnumerateDistinct(gnames, seq(|gnames|, i requires 0 <= i < |gnames| => GeomAt(f, i)));
  }
}
