/**
 * Python's built-in `dict`, as far as the script relies on it: keys are strings,
 * iteration follows insertion order, and assigning to a key that is already
 * present replaces its value where it stands.
 */
module PyDict {
  import opened Wrappers

  /** An insertion-ordered dictionary, as its list of entries. */
  type Dict<V> = seq<(string, V)>

  /** The keys of `d` in iteration order. */
  function Keys<V>(d: Dict<V>): seq<string>
  {
    seq(|d|, i requires 0 <= i < |d| => d[i].0)
  }

  predicate Distinct(ks: seq<string>)
  {
    forall i, j :: 0 <= i < j < |ks| ==> ks[i] != ks[j]
  }

  /** `d.get(k)`: the value stored under `k`, if any. */
  function Get<V>(d: Dict<V>, k: string): (r: Option<V>)
    ensures r.Some? <==> k in Keys(d)
  {
    if d == [] then None
    else
      assert Keys(d) == [d[0].0] + Keys(d[1..]);
      if d[0].0 == k then Some(d[0].1) else Get(d[1..], k)
  }

  /** `d[k] = v`: replace the value of a present key in place, or append a new entry. */
  function Put<V>(d: Dict<V>, k: string, v: V): (r: Dict<V>)
    ensures Get(r, k) == Some(v)
    ensures forall k' :: k' != k ==> Get(r, k') == Get(d, k')
    ensures k in Keys(d) ==> Keys(r) == Keys(d)
    ensures k !in Keys(d) ==> r == d + [(k, v)]
  {
    if d == [] then [(k, v)]
    else if d[0].0 == k then [(k, v)] + d[1..]
    else
      assert Keys(d) == [d[0].0] + Keys(d[1..]);
      var r := [d[0]] + Put(d[1..], k, v);
      assert Keys(r) == [d[0].0] + Keys(Put(d[1..], k, v));
      assert r[1..] == Put(d[1..], k, v);
      r
  }

  /** `{k: vals[i] for i, k in enumerate(keys)}`: entries are put one after another, left to right. */
  function FromEnumerate<V>(keys: seq<string>, vals: seq<V>): (d: Dict<V>)
    requires |keys| == |vals|
    ensures forall k :: Get(d, k).Some? <==> k in keys
    ensures |d| <= |keys|
    decreases |keys|
  {
    if keys == [] then []
    else
      var n := |keys| - 1;
      assert keys == keys[..n] + [keys[n]];
      Put(FromEnumerate(keys[..n], vals[..n]), keys[n], vals[n])
  }

  /** With distinct keys the comprehension keeps every pair, in enumeration order. */
  lemma {:induction false} FromEnumerateDistinct<V>(keys: seq<string>, vals: seq<V>)
    requires |keys| == |vals| && Distinct(keys)
    ensures |FromEnumerate(keys, vals)| == |keys|
    ensures forall i :: 0 <= i < |keys| ==> FromEnumerate(keys, vals)[i] == (keys[i], vals[i])
    decreases |keys|
  {
    if keys != [] {
      var n := |keys| - 1;
      FromEnumerateDistinct(keys[..n], vals[..n]);
      assert keys[n] !in keys[..n];
    }
  }

  /** A key that occurs more than once keeps the value of its last occurrence. */
  lemma {:induction false} FromEnumerateLastWins<V>(keys: seq<string>, vals: seq<V>, i: nat)
    requires |keys| == |vals| && i < |keys|
    requires forall j :: i < j < |keys| ==> keys[j] != keys[i]
    ensures Get(FromEnumerate(keys, vals), keys[i]) == Some(vals[i])
    decreases |keys|
  {
    var n := |keys| - 1;
    var prev := FromEnumerate(keys[..n], vals[..n]);
    assert FromEnumerate(keys, vals) == Put(prev, keys[n], vals[n]);
    if i < n {
      assert keys[..n][i] == keys[i] && vals[..n][i] == vals[i];
      FromEnumerateLastWins(keys[..n], vals[..n], i);
      assert keys[n] != keys[i];
    }
  }

  /** Every entry after an assignment is the new pair or an entry that was there before. */
  lemma {:induction false} PutEntry<V>(d: Dict<V>, k: string, v: V, i: nat)
    requires i < |Put(d, k, v)|
    ensures Put(d, k, v)[i] == (k, v) || (i < |d| && Put(d, k, v)[i] == d[i])
    decreases |d|
  {
    if d != [] && d[0].0 != k && i > 0 {
      PutEntry(d[1..], k, v, i - 1);
    }
  }

  /** Every entry of the comprehension pairs some key with the value enumerated alongside it. */
  lemma {:induction false} FromEnumerateEntry<V>(keys: seq<string>, vals: seq<V>, i: nat) returns (j: nat)
    requires |keys| == |vals| && i < |FromEnumerate(keys, vals)|
    ensures j < |keys| && FromEnumerate(keys, vals)[i] == (keys[j], vals[j])
    decreases |keys|
  {
    var n := |keys| - 1;
    var prev := FromEnumerate(keys[..n], vals[..n]);
    assert FromEnumerate(keys, vals) == Put(prev, keys[n], vals[n]);
    PutEntry(prev, keys[n], vals[n], i);
    if FromEnumerate(keys, vals)[i] == (keys[n], vals[n]) {
      j := n;
    } else {
      j := FromEnumerateEntry(keys[..n], vals[..n], i);
      assert keys[..n][j] == keys[j] && vals[..n][j] == vals[j];
    }
  }
}
