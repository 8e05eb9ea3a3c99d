/**
 * A plain JavaScript object used as a dictionary: string keys that remember
 * the order in which they were first assigned, each mapped to one value.
 * The catalogue tree, the flat name index and the section containers of the
 * icon picker are all objects of this kind.
 */
module JsObject {

  datatype Option<T> = None | Some(value: T)

  /** `keys` is the enumeration order (`for ... in`, `Object.keys`), `vals` the contents. */
  datatype OMap<V> = OMap(keys: seq<string>, vals: map<string, V>)

  /** Each key is enumerated exactly once, and exactly the present keys are enumerated. */
  ghost predicate Valid<V>(m: OMap<V>)
  {
    && (forall i, j :: 0 <= i < j < |m.keys| ==> m.keys[i] != m.keys[j])
    && (forall k :: k in m.vals <==> k in m.keys)
  }

  /** `{}` */
  function Empty<V>(): (m: OMap<V>)
    ensures Valid(m) && m.vals == map[]
  {
    OMap([], map[])
  }

  /**
   * `m[k] = v`: the value of `k` is replaced; a key that is already present
   * keeps its place in the enumeration order, a new key is enumerated last.
   */
  function Put<V>(m: OMap<V>, k: string, v: V): (r: OMap<V>)
    ensures Valid(m) ==> Valid(r)
    ensures r.vals == m.vals[k := v]
    ensures m.keys <= r.keys && k in r.keys
    ensures k in m.keys ==> r.keys == m.keys
    ensures Valid(m) && k !in m.vals ==> r.keys == m.keys + [k]
  {
    if k in m.keys then OMap(m.keys, m.vals[k := v]) else OMap(m.keys + [k], m.vals[k := v])
  }

  /** `Object.values(m)`: the values in enumeration order. */
  function Values<V>(m: OMap<V>): (vs: seq<V>)
    requires Valid(m)
    ensures |vs| == |m.keys|
    ensures forall i :: 0 <= i < |m.keys| ==> vs[i] == m.vals[m.keys[i]]
  {
    seq(|m.keys|, i requires 0 <= i < |m.keys| => m.vals[m.keys[i]])
  }

  /** `Object.values` lists the value of every key, and nothing else. */
  lemma ValuesExactly<V>(m: OMap<V>)
    requires Valid(m)
    ensures forall k :: k in m.vals ==> m.vals[k] in Values(m)
    ensures forall v :: v in Values(m) ==> exists k :: k in m.vals && m.vals[k] == v
  {
    var vs := Values(m);
    forall k | k in m.vals ensures m.vals[k] in vs {
      var i :| 0 <= i < |m.keys| && m.keys[i] == k;
      assert vs[i] == m.vals[k];
    }
    forall v | v in vs ensures exists k :: k in m.vals && m.vals[k] == v {
      var i :| 0 <= i < |vs| && vs[i] == v;
      assert m.keys[i] in m.vals;
    }
  }

  /**
   * How an assignment shows in `Object.values`: a new key adds its value at
   * the end, an existing key has its value replaced where it stands.
   */
  lemma ValuesPut<V>(m: OMap<V>, k: string, v: V)
    requires Valid(m)
    ensures k !in m.vals ==> Values(Put(m, k, v)) == Values(m) + [v]
    ensures forall i :: 0 <= i < |m.keys| && m.keys[i] == k ==> Values(Put(m, k, v)) == Values(m)[i := v]
  {
    var r := Put(m, k, v);
    if k !in m.vals {
      assert forall i :: 0 <= i < |m.keys| ==> m.keys[i] != k;
      assert Values(r) == Values(m) + [v];
    }
  }

  /**
   * The order in which an object enumerates its keys after the keys of `s`
   * were assigned one after another: each distinct key once, where it first occurs.
   */
  function Dedup(s: seq<string>): (r: seq<string>)
    ensures forall x :: x in r <==> x in s
    ensures forall i, j :: 0 <= i < j < |r| ==> r[i] != r[j]
    decreases |s|
  {
    if s == [] then []
    else
      var d := Dedup(s[..|s| - 1]);
      assert forall x :: x in s <==> x in s[..|s| - 1] || x == s[|s| - 1];
      if s[|s| - 1] in d then d else d + [s[|s| - 1]]
  }

  /** One more assignment adds its key at the end, unless it was assigned before. */
  lemma DedupSnoc(s: seq<string>, x: string)
    ensures Dedup(s + [x]) == if x in s then Dedup(s) else Dedup(s) + [x]
  {
    assert (s + [x])[..|s|] == s;
  }
}
