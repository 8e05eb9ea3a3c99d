/**
 * The enumeration order of the objects that `prepareData` builds. Inside
 * every category object, the keys appear in the order in which the sorted
 * identifiers first pass through that object. This is the order that
 * `populateSection` shows categories and icons in.
 */
module CatalogueOrder {
  import opened JsObject
  import opened Identifiers
  import opened Catalogue
  import opened CatalogueProofs

  /** The key order of the object at `q`; empty when no object is there. */
  function KeysAt(n: Node, q: seq<string>): seq<string>
  {
    if IsCatAt(n, q) then At(n, q).value.obj.keys else []
  }

  /** The key order after one assignment to key `x`: a new key goes last, a present one stays put. */
  function Grow(keys: seq<string>, x: string): seq<string>
  {
    if x in keys then keys else keys + [x]
  }

  /** The key order at `q` once every object along the key path `t` has been given its next key. */
  function KeysWith(n: Node, q: seq<string>, t: seq<string>): seq<string>
  {
    if q < t then Grow(KeysAt(n, q), t[|q|]) else KeysAt(n, q)
  }

  /**
   * In identifier order, the key that each identifier's key path takes
   * right after `p`, for the identifiers whose key path passes below `p`.
   */
  function NextKeys(identifiers: seq<string>, p: seq<string>): seq<string>
    decreases |identifiers|
  {
    if identifiers == [] then []
    else
      var n := |identifiers| - 1;
      var t := KeyPath(identifiers[n]);
      NextKeys(identifiers[..n], p) + (if p < t then [t[|p|]] else [])
  }

  lemma KeysAtCons(n: Node, q: seq<string>)
    requires n.Cat? && q != [] && q[0] in n.obj.vals
    ensures KeysAt(n, q) == KeysAt(n.obj.vals[q[0]], q[1..])
  {
  }

  /**
   * `current[k] = v` gives the object at `current` its key `k` and leaves the
   * key order of every other object that is not below `k` as it was.
   */
  lemma {:induction false} SetAtKeys(n: Node, p: seq<string>, k: string, v: Node, q: seq<string>)
    requires IsCatAt(n, p) && WellFormed(n) && !(p + [k] <= q)
    ensures KeysAt(SetAt(n, p, k, v), q) == if q == p then Grow(KeysAt(n, q), k) else KeysAt(n, q)
    decreases |p|
  {
    if p == [] {
      SetAtKeysHere(n, k, v, q);
    } else if q == [] || q[0] != p[0] {
      SetAtKeysAside(n, p, k, v, q);
    } else {
      var child := n.obj.vals[p[0]];
      var r := SetAt(n, p, k, v);
      assert At(n, p) == At(child, p[1..]);
      assert r.obj.vals[p[0]] == SetAt(child, p[1..], k, v);
      assert p + [k] == [p[0]] + (p[1..] + [k]);
      assert q == [q[0]] + q[1..] && p == [p[0]] + p[1..];
      SetAtKeys(child, p[1..], k, v, q[1..]);
      KeysAtCons(r, q);
      KeysAtCons(n, q);
    }
  }

  /** `SetAtKeys` where `q` leaves the path to the changed object before its end: the key order there is unchanged. */
  lemma SetAtKeysAside(n: Node, p: seq<string>, k: string, v: Node, q: seq<string>)
    requires IsCatAt(n, p) && WellFormed(n) && p != [] && (q == [] || q[0] != p[0])
    ensures KeysAt(SetAt(n, p, k, v), q) == KeysAt(n, q)
  {
    var r := SetAt(n, p, k, v);
    assert p[0] in n.obj.vals;
    if q == [] {
      assert KeysAt(r, q) == Put(n.obj, p[0], SetAt(n.obj.vals[p[0]], p[1..], k, v)).keys;
    } else {
      assert r.obj.vals == n.obj.vals[p[0] := SetAt(n.obj.vals[p[0]], p[1..], k, v)];
      if q[0] in n.obj.vals {
        KeysAtCons(r, q);
        KeysAtCons(n, q);
      } else {
        assert !IsCatAt(r, q) && !IsCatAt(n, q);
      }
    }
  }

  /** `SetAtKeys` on the object itself. */
  lemma SetAtKeysHere(n: Node, k: string, v: Node, q: seq<string>)
    requires n.Cat? && !([k] <= q)
    ensures KeysAt(SetAt(n, [], k, v), q) == if q == [] then Grow(KeysAt(n, q), k) else KeysAt(n, q)
  {
    var r := SetAt(n, [], k, v);
    assert At(n, []) == Some(n);
    if q != [] {
      assert [k] <= [k] + q[1..];
      assert q[0] != k;
      if q[0] in n.obj.vals {
        KeysAtCons(r, q);
        KeysAtCons(n, q);
      }
    }
  }

  /** Every object along a path that leads somewhere already holds the path's next key. */
  lemma {:induction false} PathKeyPresent(n: Node, p: seq<string>, q: seq<string>)
    requires WellFormed(n) && At(n, p).Some? && q < p
    ensures IsCatAt(n, q) && p[|q|] in KeysAt(n, q)
    decreases |q|
  {
    AncestorIsCat(n, p, q);
    assert p[0] in n.obj.vals;
    if q != [] {
      PathKeyPresent(n.obj.vals[p[0]], p[1..], q[1..]);
      KeysAtCons(n, q);
    }
  }

  /** The walk keeps every object valid. */
  lemma {:induction false} WalkWellFormed(data: Node, current: seq<string>, levels: seq<string>, name: string, path: string)
    requires IsCatAt(data, current) && WellFormed(data)
    ensures WellFormed(Walk(data, current, levels, name, path).0)
    decreases |levels|
  {
    if levels == [] {
      SetAtWellFormed(data, current, name, Leaf(path));
    } else {
      var level := Tag(levels[0]);
      var e := At(data, current + [level]);
      if !Truthy(e) {
        SetAtWellFormed(data, current, level, EmptyCat);
        WalkWellFormed(SetAt(data, current, level, EmptyCat), current + [level], levels[1..], name, path);
      } else if e.value.Cat? {
        WalkWellFormed(data, current + [level], levels[1..], name, path);
      }
    }
  }

  /** `prepareData` keeps every object of the catalogue valid. */
  lemma {:induction false} BuildWellFormed(identifiers: seq<string>, iconpaths: map<string, string>)
    requires AllKnown(identifiers, iconpaths)
    ensures WellFormed(Build(identifiers, iconpaths).0.data)
    decreases |identifiers|
  {
    if identifiers != [] {
      var n := |identifiers| - 1;
      BuildWellFormed(identifiers[..n], iconpaths);
      var (s, ok) := Build(identifiers[..n], iconpaths);
      if ok {
        assert At(s.data, []) == Some(s.data);
        WalkWellFormed(s.data, [], Categories(identifiers[n]), LeafName(identifiers[n]), iconpaths[identifiers[n]]);
      }
    }
  }

  /** Creating the missing category object at `current + [level]` is the first step of giving `t` its keys. */
  lemma InsertedCategoryKeys(data: Node, current: seq<string>, level: string, q: seq<string>, t: seq<string>)
    requires IsCatAt(data, current) && WellFormed(data)
    requires At(data, current + [level]).None? && current + [level] < t
    ensures KeysWith(SetAt(data, current, level, EmptyCat), q, t) == KeysWith(data, q, t)
  {
    var next := current + [level];
    var after := SetAt(data, current, level, EmptyCat);
    assert t[|current|] == level;
    if next <= q {
      AtSetAt(data, current, level, EmptyCat, q);
      AbsentBelow(data, next, q);
      if q != next {
        assert q[|next|..] != [];
      }
      assert KeysAt(after, q) == [] == KeysAt(data, q);
    } else {
      SetAtKeys(data, current, level, EmptyCat, q);
    }
  }

  /** Storing the leaf appends its name to the object at `current`, as `WalkKeys` states for no levels. */
  lemma StoreLeafKeys(data: Node, current: seq<string>, name: string, path: string)
    requires IsCatAt(data, current) && WellFormed(data)
    ensures var after := SetAt(data, current, name, Leaf(path));
      forall q :: IsCatAt(after, q) ==> KeysAt(after, q) == KeysWith(data, q, current + [name])
  {
    var t := current + [name];
    var after := SetAt(data, current, name, Leaf(path));
    forall q | IsCatAt(after, q) ensures KeysAt(after, q) == KeysWith(data, q, t) {
      AtSetAt(data, current, name, Leaf(path), q);
      if t <= q {
        assert false;
      }
      SetAtKeys(data, current, name, Leaf(path), q);
      assert (q < t) == (q <= current);
      if q < current {
        PathKeyPresent(data, current, q);
        assert t[|q|] == current[|q|];
      }
    }
  }

  /**
   * The walk for one identifier appends each key of its key path to the
   * object it passes through, unless that object already holds the key, and
   * changes the key order of no other object.
   */
  lemma {:induction false} WalkKeys(data: Node, current: seq<string>, levels: seq<string>, name: string, path: string)
    requires IsCatAt(data, current) && Shaped(data) && WellFormed(data) && !IsTagged(name)
    ensures var after := Walk(data, current, levels, name, path).0;
      forall q :: IsCatAt(after, q) ==> KeysAt(after, q) == KeysWith(data, q, current + Tags(levels) + [name])
    decreases |levels|
  {
    var t := current + Tags(levels) + [name];
    var after := Walk(data, current, levels, name, path).0;
    if levels == [] {
      assert t == current + [name];
      StoreLeafKeys(data, current, name, path);
    } else {
      var level := Tag(levels[0]);
      var next := current + [level];
      WalkPath(current, levels, name);
      assert t == next + Tags(levels[1..]) + [name];
      var e := At(data, next);
      if e.Some? {
        ShapedAt(data, next);
        assert next[|next| - 1] == level;
      }
      if !Truthy(e) {
        var data' := SetAt(data, current, level, EmptyCat);
        NewCategoryKeeps(data, current, level);
        SetAtWellFormed(data, current, level, EmptyCat);
        WalkKeys(data', next, levels[1..], name, path);
        assert next < t;
        forall q | IsCatAt(after, q) ensures KeysAt(after, q) == KeysWith(data, q, t) {
          InsertedCategoryKeys(data, current, level, q, t);
        }
      } else {
        WalkKeys(data, next, levels[1..], name, path);
      }
    }
  }

  /** The key order after one more assignment, as a deduplication of all assignments so far. */
  lemma GrowDedup(s: seq<string>, x: string)
    ensures Grow(Dedup(s), x) == Dedup(s + [x])
  {
    DedupSnoc(s, x);
  }

  /** One identifier's walk extends the key order of each object it passes through by one assignment. */
  lemma OrderStep(data: Node, after: Node, identifiers: seq<string>, p: seq<string>)
    requires identifiers != []
    requires var n := |identifiers| - 1;
      && IsCatAt(after, p)
      && KeysAt(after, p) == KeysWith(data, p, KeyPath(identifiers[n]))
      && (IsCatAt(data, p) ==> KeysAt(data, p) == Dedup(NextKeys(identifiers[..n], p)))
      && (!IsCatAt(data, p) ==> NextKeys(identifiers[..n], p) == [])
    ensures At(after, p).value.obj.keys == Dedup(NextKeys(identifiers, p))
  {
    var n := |identifiers| - 1;
    var s := NextKeys(identifiers[..n], p);
    var t := KeyPath(identifiers[n]);
    var before := KeysAt(data, p);
    if !IsCatAt(data, p) {
      assert before == [] == Dedup(s);
    }
    assert NextKeys(identifiers, p) == s + (if p < t then [t[|p|]] else []);
    if p < t {
      assert KeysAt(after, p) == Grow(before, t[|p|]);
      GrowDedup(s, t[|p|]);
    } else {
      assert KeysAt(after, p) == before;
      assert s + [] == s;
    }
  }

  /** The catalogue after one more identifier is the walk for that identifier over the catalogue before it. */
  lemma BuildIsWalk(identifiers: seq<string>, iconpaths: map<string, string>)
    requires AllKnown(identifiers, iconpaths) && identifiers != []
    requires Build(identifiers[..|identifiers| - 1], iconpaths).1
    ensures var n := |identifiers| - 1;
      var last := identifiers[n];
      var data := Build(identifiers[..n], iconpaths).0.data;
      Build(identifiers, iconpaths).0.data == Walk(data, [], Categories(last), LeafName(last), iconpaths[last]).0
  {
    var n := |identifiers| - 1;
    BuildNext(identifiers, iconpaths, n);
    assert identifiers[..n + 1] == identifiers;
  }

  /** `WalkKeys` for a whole identifier, from the root object. */
  lemma WalkKeysFromRoot(data: Node, identifier: string, path: string)
    requires data.Cat? && Shaped(data) && WellFormed(data) && !IsTagged(LeafName(identifier))
    ensures var after := Walk(data, [], Categories(identifier), LeafName(identifier), path).0;
      forall q :: IsCatAt(after, q) ==> KeysAt(after, q) == KeysWith(data, q, KeyPath(identifier))
  {
    assert At(data, []) == Some(data);
    WalkKeys(data, [], Categories(identifier), LeafName(identifier), path);
    assert [] + Tags(Categories(identifier)) + [LeafName(identifier)] == KeyPath(identifier);
  }

  /** One more identifier changes the key order of the catalogue's objects as its walk does. */
  lemma BuildLast(identifiers: seq<string>, iconpaths: map<string, string>)
    requires AllKnown(identifiers, iconpaths) && Distinct(identifiers) && UntaggedLeaves(identifiers)
    requires identifiers != []
    ensures var n := |identifiers| - 1;
      var data := Build(identifiers[..n], iconpaths).0.data;
      var after := Build(identifiers, iconpaths).0.data;
      forall q :: IsCatAt(after, q) ==> KeysAt(after, q) == KeysWith(data, q, KeyPath(identifiers[n]))
  {
    var n := |identifiers| - 1;
    var last := identifiers[n];
    BuildStoresAll(identifiers[..n], iconpaths);
    BuildWellFormed(identifiers[..n], iconpaths);
    BuildIsWalk(identifiers, iconpaths);
    WalkKeysFromRoot(Build(identifiers[..n], iconpaths).0.data, last, iconpaths[last]);
  }

  /** No identifier passes below a path where the catalogue holds no object. */
  lemma UnreachedNone(identifiers: seq<string>, iconpaths: map<string, string>, p: seq<string>)
    requires AllKnown(identifiers, iconpaths) && Distinct(identifiers) && UntaggedLeaves(identifiers)
    requires !IsCatAt(Build(identifiers, iconpaths).0.data, p)
    ensures NextKeys(identifiers, p) == []
  {
    var data := Build(identifiers, iconpaths).0.data;
    BuildStoresAll(identifiers, iconpaths);
    forall i | 0 <= i < |identifiers| ensures !(p < KeyPath(identifiers[i])) {
      if p < KeyPath(identifiers[i]) {
        AncestorIsCat(data, KeyPath(identifiers[i]), p);
      }
    }
    NextKeysNone(identifiers, p);
  }

  /** No identifier passes below a path that holds no object. */
  lemma {:induction false} NextKeysNone(identifiers: seq<string>, p: seq<string>)
    requires forall i :: 0 <= i < |identifiers| ==> !(p < KeyPath(identifiers[i]))
    ensures NextKeys(identifiers, p) == []
    decreases |identifiers|
  {
    if identifiers != [] {
      var n := |identifiers| - 1;
      forall i | 0 <= i < n ensures !(p < KeyPath(identifiers[..n][i])) {
        assert identifiers[..n][i] == identifiers[i];
      }
      NextKeysNone(identifiers[..n], p);
    }
  }

  /**
   * The catalogue's sibling order: in every category object that
   * `prepareData` builds, the keys are the next keys of the identifiers that
   * pass through it, each once, in the order the sorted identifiers first
   * reach them.
   */
  lemma {:induction false} BuildTreeOrder(identifiers: seq<string>, iconpaths: map<string, string>)
    requires AllKnown(identifiers, iconpaths) && Distinct(identifiers) && UntaggedLeaves(identifiers)
    ensures var data := Build(identifiers, iconpaths).0.data;
      forall p :: IsCatAt(data, p) ==> At(data, p).value.obj.keys == Dedup(NextKeys(identifiers, p))
    decreases |identifiers|
  {
    var after := Build(identifiers, iconpaths).0.data;
    if identifiers != [] {
      var n := |identifiers| - 1;
      var front := identifiers[..n];
      BuildTreeOrder(front, iconpaths);
      var data := Build(front, iconpaths).0.data;
      BuildLast(identifiers, iconpaths);
      forall p | IsCatAt(after, p) ensures At(after, p).value.obj.keys == Dedup(NextKeys(identifiers, p)) {
        if !IsCatAt(data, p) {
          UnreachedNone(front, iconpaths, p);
        }
        OrderStep(data, after, identifiers, p);
      }
    }
  }
}
