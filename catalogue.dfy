/**
 * The catalogue built at start-up by `prepareData`: the nested object `data`
 * (category keys lead to nested objects, leaf names to resource paths) and
 * the flat index `src_by_name` from leaf name to resource path.
 *
 * The nested objects of `data` are never shared, so they form a tree and are
 * modelled as a value of type `Node`. The `current` reference of the walk is
 * modelled by its key path from `data`: an assignment `current[k] = v` in
 * place is `SetAt(data, current, k, v)`.
 */
module Catalogue {
  import opened JsObject
  import opened Identifiers

  /** A property value of the tree: a resource path (a leaf) or a nested object (a category). */
  datatype Node = Leaf(path: string) | Cat(obj: OMap<Node>)

  /** `{}` */
  const EmptyCat: Node := Cat(Empty())

  /** Every object in the tree is a well-formed ordered dictionary. */
  ghost predicate WellFormed(n: Node)
  {
    match n
    case Leaf(_) => true
    case Cat(o) => Valid(o) && forall k :: k in o.vals ==> WellFormed(o.vals[k])
  }

  /**
   * The key discipline of the tree: in every object, a key holds a nested
   * object exactly when it carries the category prefix, so category keys and
   * leaf names never collide.
   */
  ghost predicate Shaped(n: Node)
  {
    match n
    case Leaf(_) => true
    case Cat(o) => forall k :: k in o.vals ==> (o.vals[k].Cat? <==> IsTagged(k)) && Shaped(o.vals[k])
  }

  /** The value reached from `n` by one property access per key of `p`. */
  function At(n: Node, p: seq<string>): Option<Node>
    decreases |p|
  {
    if p == [] then Some(n)
    else match n
      case Leaf(_) => None
      case Cat(o) => if p[0] in o.vals then At(o.vals[p[0]], p[1..]) else None
  }

  predicate IsCatAt(n: Node, p: seq<string>)
  {
    At(n, p).Some? && At(n, p).value.Cat?
  }

  /** The resource path stored at `p`, if a leaf is stored there. */
  function LeafAt(n: Node, p: seq<string>): Option<string>
  {
    match At(n, p)
    case Some(Leaf(path)) => Some(path)
    case _ => None
  }

  /** `!current[key]` is false: a nested object or a non-empty string. */
  predicate Truthy(e: Option<Node>)
  {
    e.Some? && (e.value.Cat? || e.value.path != "")
  }

  /** `current[k] = v`, where `current` is the object reached from `n` by `p`. */
  function SetAt(n: Node, p: seq<string>, k: string, v: Node): (r: Node)
    requires IsCatAt(n, p)
    ensures r.Cat?
    ensures At(r, p + [k]) == Some(v)
    decreases |p|
  {
    if p == [] then Cat(Put(n.obj, k, v))
    else
      var r := Cat(Put(n.obj, p[0], SetAt(n.obj.vals[p[0]], p[1..], k, v)));
      assert (p + [k])[1..] == p[1..] + [k];
      r
  }

  /**
   * The `while(structure.length)` loop of `prepareData` and the assignment
   * after it, from the object at `current` on, with `levels` still to shift.
   * The flag is false when JavaScript throws: a non-empty string stands where
   * a category object is expected, `current` becomes that string, and the next
   * property assignment on it is a TypeError in strict (module) code. The tree
   * is then as far as the walk had changed it.
   */
  function Walk(data: Node, current: seq<string>, levels: seq<string>, name: string, path: string): (r: (Node, bool))
    requires IsCatAt(data, current)
    ensures r.0.Cat?
    ensures r.1 ==> LeafAt(r.0, current + Tags(levels) + [name]) == Some(path)
    decreases |levels|
  {
    WalkPath(current, levels, name);
    if levels == [] then (SetAt(data, current, name, Leaf(path)), true)
    else
      var level := Tag(levels[0]);
      var e := At(data, current + [level]);
      if !Truthy(e) then
        Walk(SetAt(data, current, level, EmptyCat), current + [level], levels[1..], name, path)
      else if e.value.Leaf? then (data, false)
      else Walk(data, current + [level], levels[1..], name, path)
  }

  /** Shifting one segment moves its key from the levels still to walk onto `current`. */
  lemma WalkPath(current: seq<string>, levels: seq<string>, name: string)
    ensures levels == [] ==> current + Tags(levels) + [name] == current + [name]
    ensures levels != [] ==>
      current + Tags(levels) + [name] == (current + [Tag(levels[0])]) + Tags(levels[1..]) + [name]
  {
    if levels == [] {
      ShiftKey(current, [], [], [name]);
    } else {
      var level, rest := Tag(levels[0]), Tags(levels[1..]);
      assert Tags(levels) == [level] + rest;
      ShiftKey(current, [level], rest, [name]);
    }
  }

  lemma ShiftKey(a: seq<string>, b: seq<string>, c: seq<string>, d: seq<string>)
    ensures a + (b + c) + d == (a + b) + c + d
  {
  }

  /** The globals `data` and `src_by_name`. */
  datatype State = State(data: Node, srcByName: OMap<string>)

  const Initial: State := State(EmptyCat, Empty())

  /** The key path under which the leaf of `identifier` is stored. */
  function KeyPath(identifier: string): seq<string>
  {
    Tags(Categories(identifier)) + [LeafName(identifier)]
  }

  /** One iteration of `identifiers.forEach` in `prepareData`. */
  function Add(s: State, identifier: string, path: string): (r: (State, bool))
    requires s.data.Cat?
    ensures r.0.data.Cat?
    ensures r.0.srcByName == Put(s.srcByName, LeafName(identifier), path)
    ensures r.1 ==> LeafAt(r.0.data, KeyPath(identifier)) == Some(path)
  {
    var name := LeafName(identifier);
    var index := Put(s.srcByName, name, path);
    assert At(s.data, []) == Some(s.data);
    var (data, ok) := Walk(s.data, [], Categories(identifier), name, path);
    assert [] + Tags(Categories(identifier)) + [name] == KeyPath(identifier);
    (State(data, index), ok)
  }

  /** Every identifier has a path in `iconpaths`. */
  predicate AllKnown(identifiers: seq<string>, iconpaths: map<string, string>)
  {
    forall i :: 0 <= i < |identifiers| ==> identifiers[i] in iconpaths
  }

  /**
   * `prepareData` over the sorted identifiers, from empty globals; it stops
   * at the first identifier whose walk throws.
   */
  function Build(identifiers: seq<string>, iconpaths: map<string, string>): (r: (State, bool))
    requires AllKnown(identifiers, iconpaths)
    ensures r.0.data.Cat?
    ensures r.1 && identifiers != [] ==>
      var last := identifiers[|identifiers| - 1];
      LeafAt(r.0.data, KeyPath(last)) == Some(iconpaths[last])
    decreases |identifiers|
  {
    if identifiers == [] then (Initial, true)
    else
      var last := identifiers[|identifiers| - 1];
      var (s, ok) := Build(identifiers[..|identifiers| - 1], iconpaths);
      if !ok then (s, false)
      else Add(s, last, iconpaths[last])
  }

  /** Lexicographic order of strings, as used by `Array.prototype.sort`. */
  predicate LessEq(a: string, b: string)
    decreases |a|
  {
    a == [] || (b != [] && (a[0] < b[0] || (a[0] == b[0] && LessEq(a[1..], b[1..]))))
  }

  /** The identifiers as `Object.keys(iconpaths)` followed by `sort()` gives them. */
  ghost predicate SortedKeys(identifiers: seq<string>, iconpaths: map<string, string>)
  {
    && (forall i, j :: 0 <= i < j < |identifiers| ==> identifiers[i] != identifiers[j] && LessEq(identifiers[i], identifiers[j]))
    && (forall id :: id in iconpaths <==> id in identifiers)
  }

  class Catalogue {
    var data: Node
    var srcByName: OMap<string>

    ghost predicate Valid()
      reads this
    {
      data.Cat? && WellFormed(data) && JsObject.Valid(srcByName)
    }

    function Snapshot(): State
      reads this
    {
      State(data, srcByName)
    }

    /** `const data = {}; const src_by_name = {};` */
    constructor ()
      ensures Valid() && Snapshot() == Initial
    {
      data := EmptyCat;
      srcByName := Empty();
    }

    /** The body of the `forEach` callback of `prepareData` for one identifier. */
    method AddIdentifier(identifier: string, path: string) returns (ok: bool)
      requires Valid()
      modifies this
      ensures Valid()
      ensures (Snapshot(), ok) == Add(old(Snapshot()), identifier, path)
    {
      var structure := Split(identifier);
      var name := structure[|structure| - 1];
      structure := structure[..|structure| - 1];
      srcByName := Put(srcByName, name, path);
      var current: seq<string> := [];
      assert At(data, current) == Some(data);
      ghost var goal := Walk(old(data), [], structure, name, path);
      while structure != []
        invariant IsCatAt(data, current) && data.Cat? && WellFormed(data)
        invariant Walk(data, current, structure, name, path) == goal
        invariant srcByName == Put(old(srcByName), name, path)
        decreases |structure|
      {
        var level := Tag(structure[0]);
        structure := structure[1..];
        var entry := At(data, current + [level]);
        if !Truthy(entry) {
          SetAtWellFormed(data, current, level, EmptyCat);
          data := SetAt(data, current, level, EmptyCat);
        } else if entry.value.Leaf? {
          return false;
        }
        current := current + [level];
      }
      SetAtWellFormed(data, current, name, Leaf(path));
      data := SetAt(data, current, name, Leaf(path));
      ok := true;
    }

    /** `prepareData()` */
    method PrepareData(identifiers: seq<string>, iconpaths: map<string, string>) returns (ok: bool)
      requires Valid() && Snapshot() == Initial
      requires SortedKeys(identifiers, iconpaths)
      modifies this
      ensures Valid()
      ensures (Snapshot(), ok) == Build(identifiers, iconpaths)
    {
      assert AllKnown(identifiers, iconpaths);
      ok := true;
      var i := 0;
      while i < |identifiers|
        invariant 0 <= i <= |identifiers|
        invariant Valid()
        invariant (Snapshot(), true) == Build(identifiers[..i], iconpaths)
      {
        var identifier := identifiers[i];
        BuildNext(identifiers, iconpaths, i);
        ok := AddIdentifier(identifier, iconpaths[identifier]);
        if !ok {
          BuildStops(identifiers, iconpaths, i + 1);
          return;
        }
        i := i + 1;
      }
      assert identifiers[..i] == identifiers;
    }
  }

  /** `Build` on one more identifier is one more iteration, unless the walk threw before. */
  lemma BuildNext(identifiers: seq<string>, iconpaths: map<string, string>, n: nat)
    requires AllKnown(identifiers, iconpaths)
    requires n < |identifiers|
    ensures var (s, ok) := Build(identifiers[..n], iconpaths);
      Build(identifiers[..n + 1], iconpaths) == if ok then Add(s, identifiers[n], iconpaths[identifiers[n]]) else (s, false)
  {
    assert identifiers[..n + 1][..n] == identifiers[..n];
  }

  /** Once an identifier's walk has thrown, nothing after it is processed. */
  lemma {:induction false} BuildStops(identifiers: seq<string>, iconpaths: map<string, string>, n: nat)
    requires AllKnown(identifiers, iconpaths)
    requires n <= |identifiers|
    requires !Build(identifiers[..n], iconpaths).1
    ensures Build(identifiers, iconpaths) == Build(identifiers[..n], iconpaths)
    decreases |identifiers| - n
  {
    if n < |identifiers| {
      BuildNext(identifiers, iconpaths, n);
      BuildStops(identifiers, iconpaths, n + 1);
    } else {
      assert identifiers[..n] == identifiers;
    }
  }

  /** Assigning a well-formed value keeps every object of the tree well-formed. */
  lemma {:induction false} SetAtWellFormed(n: Node, p: seq<string>, k: string, v: Node)
    requires IsCatAt(n, p) && WellFormed(n) && WellFormed(v)
    ensures WellFormed(SetAt(n, p, k, v))
    decreases |p|
  {
    if p != [] {
      SetAtWellFormed(n.obj.vals[p[0]], p[1..], k, v);
    }
  }
}
