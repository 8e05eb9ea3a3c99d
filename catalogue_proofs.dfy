/**
 * What `prepareData` guarantees about the catalogue it builds, provided no
 * leaf name starts with the category prefix:
 *  - no identifier makes it throw, and category keys never collide with leaf names;
 *  - every identifier's path can be found again by following its category
 *    keys and then its leaf name;
 *  - inserting an identifier keeps every category and every other leaf;
 *  - the flat index holds, for each leaf name, the path of the last
 *    identifier with that leaf name, in first-occurrence order.
 */
module CatalogueProofs {
  import opened JsObject
  import opened Identifiers
  import opened Catalogue

  /** Every strict prefix of a path that leads somewhere leads to an object. */
  lemma {:induction false} AncestorIsCat(n: Node, q: seq<string>, r: seq<string>)
    requires At(n, q).Some?
    requires r <= q && |r| < |q|
    ensures IsCatAt(n, r)
    decreases |r|
  {
    if r != [] {
      AncestorIsCat(n.obj.vals[q[0]], q[1..], r[1..]);
    }
  }

  /**
   * After `current[k] = v`, the paths through the assigned key lead into `v`;
   * every other path keeps its leaf, and keeps or lacks an object, as before.
   */
  lemma {:induction false} AtSetAt(n: Node, p: seq<string>, k: string, v: Node, q: seq<string>)
    requires IsCatAt(n, p)
    ensures p + [k] <= q ==> At(SetAt(n, p, k, v), q) == At(v, q[|p| + 1..])
    ensures !(p + [k] <= q) ==> LeafAt(SetAt(n, p, k, v), q) == LeafAt(n, q)
    ensures !(p + [k] <= q) ==> IsCatAt(SetAt(n, p, k, v), q) == IsCatAt(n, q)
    decreases |p|
  {
    var r := SetAt(n, p, k, v);
    if q != [] {
      if p == [] {
        if q[0] == k {
          assert [k] <= q;
          assert At(r, q) == At(v, q[1..]);
        } else {
          assert r.obj.vals == n.obj.vals[k := v];
          assert At(r, q) == At(n, q);
        }
      } else {
        var child := n.obj.vals[p[0]];
        assert r.obj.vals == n.obj.vals[p[0] := SetAt(child, p[1..], k, v)];
        if q[0] == p[0] {
          AtSetAt(child, p[1..], k, v, q[1..]);
          assert At(r, q) == At(SetAt(child, p[1..], k, v), q[1..]);
          assert At(n, q) == At(child, q[1..]);
          assert p + [k] <= q <==> p[1..] + [k] <= q[1..];
          if p + [k] <= q {
            assert q[1..][|p[1..]| + 1..] == q[|p| + 1..];
          }
        } else {
          assert !(p + [k] <= q);
          assert At(r, q) == At(n, q);
        }
      }
    }
  }

  /** Below a shaped tree every value is shaped, and is an object exactly under a category key. */
  lemma {:induction false} ShapedAt(n: Node, q: seq<string>)
    requires Shaped(n) && At(n, q).Some? && q != []
    ensures Shaped(At(n, q).value)
    ensures At(n, q).value.Cat? <==> IsTagged(q[|q| - 1])
    decreases |q|
  {
    var child := n.obj.vals[q[0]];
    if |q| > 1 {
      ShapedAt(child, q[1..]);
    }
  }

  /** Assigning a shaped value under a key of the right kind keeps the tree shaped. */
  lemma {:induction false} SetAtShaped(n: Node, p: seq<string>, k: string, v: Node)
    requires IsCatAt(n, p) && Shaped(n) && Shaped(v)
    requires v.Cat? <==> IsTagged(k)
    ensures Shaped(SetAt(n, p, k, v))
    decreases |p|
  {
    if p != [] {
      var child := n.obj.vals[p[0]];
      assert At(n, [p[0]]) == Some(child);
      ShapedAt(n, [p[0]]);
      SetAtShaped(child, p[1..], k, v);
    }
  }

  /**
   * `current[name] = path` with a leaf name that is not a category key keeps
   * the tree shaped, keeps every object, and changes no other leaf.
   */
  lemma StoreLeafKeeps(data: Node, current: seq<string>, name: string, path: string)
    requires IsCatAt(data, current) && Shaped(data) && !IsTagged(name)
    ensures var after := SetAt(data, current, name, Leaf(path));
      && Shaped(after)
      && LeafAt(after, current + [name]) == Some(path)
      && (forall q :: IsCatAt(data, q) ==> IsCatAt(after, q))
      && (forall q :: LeafAt(data, q).Some? && q != current + [name] ==> LeafAt(after, q) == LeafAt(data, q))
  {
    var after := SetAt(data, current, name, Leaf(path));
    SetAtShaped(data, current, name, Leaf(path));
    forall q | IsCatAt(data, q) ensures IsCatAt(after, q) {
      AtSetAt(data, current, name, Leaf(path), q);
      if current + [name] <= q {
        NotUnderLeafName(data, current, name, q);
      }
    }
    forall q | LeafAt(data, q).Some? && q != current + [name] ensures LeafAt(after, q) == LeafAt(data, q) {
      AtSetAt(data, current, name, Leaf(path), q);
      if current + [name] <= q {
        NotUnderLeafName(data, current, name, q);
      }
    }
  }

  /** `current[level] = {}` under an absent category key keeps every object and every leaf. */
  lemma NewCategoryKeeps(data: Node, current: seq<string>, level: string)
    requires IsCatAt(data, current) && Shaped(data) && IsTagged(level)
    requires At(data, current + [level]).None?
    ensures var after := SetAt(data, current, level, EmptyCat);
      && Shaped(after)
      && IsCatAt(after, current + [level])
      && (forall q :: IsCatAt(data, q) ==> IsCatAt(after, q))
      && (forall q :: LeafAt(data, q).Some? ==> LeafAt(after, q) == LeafAt(data, q))
  {
    var next := current + [level];
    var after := SetAt(data, current, level, EmptyCat);
    SetAtShaped(data, current, level, EmptyCat);
    forall q | IsCatAt(data, q) ensures IsCatAt(after, q) {
      AtSetAt(data, current, level, EmptyCat, q);
      if next <= q {
        AbsentBelow(data, next, q);
      }
    }
    forall q | LeafAt(data, q).Some? ensures LeafAt(after, q) == LeafAt(data, q) {
      AtSetAt(data, current, level, EmptyCat, q);
      if next <= q {
        AbsentBelow(data, next, q);
      }
    }
  }

  /**
   * The walk for one identifier in a shaped tree, with a leaf name that is not
   * a category key: it does not throw, the tree stays shaped, the new path is
   * stored under the identifier's key path, no object disappears, and every
   * other leaf keeps its path.
   */
  lemma {:induction false} WalkInserts(data: Node, current: seq<string>, levels: seq<string>, name: string, path: string)
    requires IsCatAt(data, current) && Shaped(data) && !IsTagged(name)
    ensures var (after, ok) := Walk(data, current, levels, name, path);
      && ok
      && Shaped(after)
      && LeafAt(after, current + Tags(levels) + [name]) == Some(path)
      && (forall q :: IsCatAt(data, q) ==> IsCatAt(after, q))
      && (forall q :: LeafAt(data, q).Some? && q != current + Tags(levels) + [name] ==> LeafAt(after, q) == LeafAt(data, q))
    decreases |levels|
  {
    var target := current + Tags(levels) + [name];
    if levels == [] {
      assert target == current + [name];
      StoreLeafKeeps(data, current, name, path);
    } else {
      var level := Tag(levels[0]);
      var next := current + [level];
      assert target == next + Tags(levels[1..]) + [name];
      var e := At(data, next);
      if e.Some? {
        ShapedAt(data, next);
        assert next[|next| - 1] == level;
      }
      if !Truthy(e) {
        // no entry under the category key: a new object is created there
        NewCategoryKeeps(data, current, level);
        WalkInserts(SetAt(data, current, level, EmptyCat), next, levels[1..], name, path);
      } else {
        // the category object already exists and is reused
        WalkInserts(data, next, levels[1..], name, path);
      }
    }
  }

  /** Nothing lies below a path that leads nowhere. */
  lemma AbsentBelow(n: Node, p: seq<string>, q: seq<string>)
    requires At(n, p).None? && p <= q
    ensures At(n, q).None?
  {
    if At(n, q).Some? && |p| < |q| {
      AncestorIsCat(n, q, p);
    }
  }

  /** In a shaped tree nothing that leads anywhere lies under a leaf name, except the leaf itself. */
  lemma NotUnderLeafName(n: Node, p: seq<string>, name: string, q: seq<string>)
    requires Shaped(n) && IsCatAt(n, p) && !IsTagged(name)
    requires p + [name] <= q && (IsCatAt(n, q) || LeafAt(n, q).Some?)
    ensures q == p + [name] && LeafAt(n, q).Some?
  {
    var r := p + [name];
    if |r| < |q| {
      AncestorIsCat(n, q, r);
      ShapedAt(n, r);
      assert false;
    } else {
      assert q == r;
      ShapedAt(n, r);
    }
  }

  /** The leaf names of the identifiers, in order. */
  function LeafNames(identifiers: seq<string>): (names: seq<string>)
    ensures |names| == |identifiers|
    ensures forall i :: 0 <= i < |identifiers| ==> names[i] == LeafName(identifiers[i])
    decreases |identifiers|
  {
    if identifiers == [] then [] else LeafNames(identifiers[..|identifiers| - 1]) + [LeafName(identifiers[|identifiers| - 1])]
  }

  /** No leaf name carries the category prefix. */
  predicate UntaggedLeaves(identifiers: seq<string>)
  {
    forall i :: 0 <= i < |identifiers| ==> !IsTagged(LeafName(identifiers[i]))
  }

  predicate Distinct(identifiers: seq<string>)
  {
    forall i, j :: 0 <= i < j < |identifiers| ==> identifiers[i] != identifiers[j]
  }

  /**
   * Inserting one identifier into a shaped catalogue never throws, never
   * removes or replaces a category object, stores the identifier's path under
   * its key path, and leaves every other leaf as it was.
   */
  lemma AddInserts(s: State, identifier: string, path: string)
    requires s.data.Cat? && Shaped(s.data) && !IsTagged(LeafName(identifier))
    ensures var (s', ok) := Add(s, identifier, path);
      && ok
      && Shaped(s'.data)
      && LeafAt(s'.data, KeyPath(identifier)) == Some(path)
      && (forall q :: IsCatAt(s.data, q) ==> IsCatAt(s'.data, q))
      && (forall q :: LeafAt(s.data, q).Some? && q != KeyPath(identifier) ==> LeafAt(s'.data, q) == LeafAt(s.data, q))
  {
    assert At(s.data, []) == Some(s.data);
    WalkInserts(s.data, [], Categories(identifier), LeafName(identifier), path);
    assert [] + Tags(Categories(identifier)) + [LeafName(identifier)] == KeyPath(identifier);
  }

  /** Distinct identifiers have distinct key paths. */
  lemma KeyPathInjective(a: string, b: string)
    requires KeyPath(a) == KeyPath(b)
    ensures a == b
  {
    var ka, kb := Tags(Categories(a)), Tags(Categories(b));
    assert ka == KeyPath(a)[..|KeyPath(a)| - 1];
    assert kb == KeyPath(b)[..|KeyPath(b)| - 1];
    TagsInjective(Categories(a), Categories(b));
    IdentifierParts(a);
    IdentifierParts(b);
  }

  /**
   * A leaf lies as deep as its identifier has delimiters, under one category
   * key per category segment; an identifier without `:` is stored directly
   * under its own name in `data`.
   */
  lemma KeyPathDepth(identifier: string)
    ensures |KeyPath(identifier)| == Count(identifier, Delimiter) + 1
    ensures forall i :: 0 <= i < |KeyPath(identifier)| - 1 ==> KeyPath(identifier)[i] == Tag(Split(identifier)[i])
    ensures KeyPath(identifier)[|KeyPath(identifier)| - 1] == LeafName(identifier)
    ensures Delimiter !in identifier ==> KeyPath(identifier) == [identifier]
  {
    IdentifierParts(identifier);
    var segments := Split(identifier);
    var path := KeyPath(identifier);
    var categories := Categories(identifier);
    assert path == Tags(categories) + [LeafName(identifier)];
    forall i | 0 <= i < |path| - 1 ensures path[i] == Tag(segments[i]) {
      assert path[i] == Tags(categories)[i];
      assert categories[i] == segments[i];
    }
  }

  /**
   * `prepareData` over identifiers whose leaf names do not carry the category
   * prefix completes, leaves a shaped tree, and stores every identifier's path
   * under its key path.
   */
  lemma {:induction false} BuildStoresAll(identifiers: seq<string>, iconpaths: map<string, string>)
    requires AllKnown(identifiers, iconpaths) && Distinct(identifiers) && UntaggedLeaves(identifiers)
    ensures var (s, ok) := Build(identifiers, iconpaths);
      && ok
      && Shaped(s.data)
      && forall i :: 0 <= i < |identifiers| ==> LeafAt(s.data, KeyPath(identifiers[i])) == Some(iconpaths[identifiers[i]])
    decreases |identifiers|
  {
    if identifiers != [] {
      var n := |identifiers| - 1;
      var front := identifiers[..n];
      var last := identifiers[n];
      BuildStoresAll(front, iconpaths);
      var (s, _) := Build(front, iconpaths);
      AddInserts(s, last, iconpaths[last]);
      var (s', _) := Build(identifiers, iconpaths);
      forall i | 0 <= i < |identifiers|
        ensures LeafAt(s'.data, KeyPath(identifiers[i])) == Some(iconpaths[identifiers[i]])
      {
        if i < n {
          assert front[i] == identifiers[i];
          if KeyPath(identifiers[i]) == KeyPath(last) {
            KeyPathInjective(identifiers[i], last);
            assert false;
          }
        }
      }
    }
  }

  /**
   * Each insertion keeps what the earlier ones built: every category object
   * and every leaf of the catalogue after the first `n` identifiers is still
   * there after the next one, apart from a leaf under that one's key path.
   */
  lemma BuildKeepsEarlier(identifiers: seq<string>, iconpaths: map<string, string>, n: nat)
    requires AllKnown(identifiers, iconpaths) && Distinct(identifiers) && UntaggedLeaves(identifiers)
    requires n < |identifiers|
    ensures var (before, _) := Build(identifiers[..n], iconpaths);
      var (after, _) := Build(identifiers[..n + 1], iconpaths);
      && (forall q :: IsCatAt(before.data, q) ==> IsCatAt(after.data, q))
      && (forall q :: LeafAt(before.data, q).Some? && q != KeyPath(identifiers[n]) ==> LeafAt(after.data, q) == LeafAt(before.data, q))
  {
    BuildStoresAll(identifiers[..n], iconpaths);
    BuildNext(identifiers, iconpaths, n);
    AddInserts(Build(identifiers[..n], iconpaths).0, identifiers[n], iconpaths[identifiers[n]]);
  }

  /** Under the same conditions, one more identifier is one more assignment to the index. */
  lemma IndexNext(identifiers: seq<string>, iconpaths: map<string, string>)
    requires AllKnown(identifiers, iconpaths) && Distinct(identifiers) && UntaggedLeaves(identifiers)
    requires identifiers != []
    ensures var n := |identifiers| - 1;
      Build(identifiers, iconpaths).0.srcByName
        == Put(Build(identifiers[..n], iconpaths).0.srcByName, LeafName(identifiers[n]), iconpaths[identifiers[n]])
  {
    var n := |identifiers| - 1;
    BuildStoresAll(identifiers[..n], iconpaths);
    BuildNext(identifiers, iconpaths, n);
    assert identifiers[..n + 1] == identifiers;
  }

  /** The assignments `src_by_name[name] = path`, one per identifier in order, from `{}`. */
  function IndexOf(identifiers: seq<string>, iconpaths: map<string, string>): OMap<string>
    requires AllKnown(identifiers, iconpaths)
    decreases |identifiers|
  {
    if identifiers == [] then Empty()
    else
      var n := |identifiers| - 1;
      Put(IndexOf(identifiers[..n], iconpaths), LeafName(identifiers[n]), iconpaths[identifiers[n]])
  }

  /** When `prepareData` completes, its index is exactly those assignments. */
  lemma {:induction false} BuildIndex(identifiers: seq<string>, iconpaths: map<string, string>)
    requires AllKnown(identifiers, iconpaths) && Distinct(identifiers) && UntaggedLeaves(identifiers)
    ensures Build(identifiers, iconpaths).0.srcByName == IndexOf(identifiers, iconpaths)
    decreases |identifiers|
  {
    if identifiers != [] {
      var n := |identifiers| - 1;
      BuildIndex(identifiers[..n], iconpaths);
      IndexNext(identifiers, iconpaths);
    }
  }

  /** The assignments leave a well-formed object holding exactly the leaf names, in first-occurrence order. */
  lemma {:induction false} IndexKeys(identifiers: seq<string>, iconpaths: map<string, string>)
    requires AllKnown(identifiers, iconpaths)
    ensures var index := IndexOf(identifiers, iconpaths);
      && Valid(index)
      && index.keys == Dedup(LeafNames(identifiers))
      && (forall name :: name in index.vals <==> name in LeafNames(identifiers))
    decreases |identifiers|
  {
    if identifiers != [] {
      var n := |identifiers| - 1;
      var front := identifiers[..n];
      IndexKeys(front, iconpaths);
      assert LeafNames(identifiers) == LeafNames(front) + [LeafName(identifiers[n])];
      assert LeafNames(identifiers)[..n] == LeafNames(front);
    }
  }

  /** Identifier `i` is the last one with its leaf name. */
  predicate LastWithName(identifiers: seq<string>, i: nat)
    requires i < |identifiers|
  {
    forall j :: i < j < |identifiers| ==> LeafName(identifiers[j]) != LeafName(identifiers[i])
  }

  /** After the assignments, each leaf name maps to the path of the last identifier with that name. */
  lemma {:induction false} IndexLastWins(identifiers: seq<string>, iconpaths: map<string, string>, i: nat)
    requires AllKnown(identifiers, iconpaths)
    requires i < |identifiers| && LastWithName(identifiers, i)
    ensures var index := IndexOf(identifiers, iconpaths);
      LeafName(identifiers[i]) in index.vals && index.vals[LeafName(identifiers[i])] == iconpaths[identifiers[i]]
    decreases |identifiers|
  {
    var n := |identifiers| - 1;
    var front := identifiers[..n];
    if i < n {
      assert LeafName(identifiers[n]) != LeafName(identifiers[i]);
      assert front[i] == identifiers[i];
      assert LastWithName(front, i) by {
        forall j | i < j < |front| ensures LeafName(front[j]) != LeafName(front[i]) {
          assert front[j] == identifiers[j];
        }
      }
      IndexLastWins(front, iconpaths, i);
    }
  }

  /**
   * The flat index after `prepareData` is a well-formed object that holds
   * exactly the leaf names, in the order in which each first occurs.
   */
  lemma BuildIndexKeys(identifiers: seq<string>, iconpaths: map<string, string>)
    requires AllKnown(identifiers, iconpaths) && Distinct(identifiers) && UntaggedLeaves(identifiers)
    ensures var index := Build(identifiers, iconpaths).0.srcByName;
      && Valid(index)
      && index.keys == Dedup(LeafNames(identifiers))
      && (forall name :: name in index.vals <==> name in LeafNames(identifiers))
  {
    BuildIndex(identifiers, iconpaths);
    IndexKeys(identifiers, iconpaths);
  }

  /**
   * In the flat index every leaf name maps to the path of the LAST identifier
   * with that leaf name: earlier identifiers with the same name are overwritten.
   */
  lemma BuildIndexLastWins(identifiers: seq<string>, iconpaths: map<string, string>, i: nat)
    requires AllKnown(identifiers, iconpaths) && Distinct(identifiers) && UntaggedLeaves(identifiers)
    requires i < |identifiers| && LastWithName(identifiers, i)
    ensures var index := Build(identifiers, iconpaths).0.srcByName;
      LeafName(identifiers[i]) in index.vals && index.vals[LeafName(identifiers[i])] == iconpaths[identifiers[i]]
  {
    BuildIndex(identifiers, iconpaths);
    IndexLastWins(identifiers, iconpaths, i);
  }
}
