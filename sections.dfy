/**
 * `populateSection`: the subtree of one top-level category is laid out as a
 * root wrapper followed by one wrapper per distinct category caption (the key
 * with its prefix stripped), whatever the depth at which that caption occurs.
 * Every leaf becomes an icon in the wrapper of its nearest enclosing category,
 * or in the root wrapper when it has none. DOM elements are reduced to the
 * caption and the icons they hold.
 */
module Sections {
  import opened JsObject
  import opened Identifiers
  import opened Catalogue

  /** The element `appendIcon(name, src, container)` appends. */
  datatype Icon = Icon(name: string, src: string)

  /** The wrapper an icon is appended to: the root wrapper, or `containers[caption]`. */
  datatype Target = Root | Group(caption: string)

  /** One step of the traversal: entering a category, or appending an icon. */
  datatype Event = Enter(caption: string) | Append(target: Target, icon: Icon)

  /**
   * What `processEntry` does, in order, for the keys `ks` of object `n` when
   * their icons go to `target`: depth first, in the enumeration order of each
   * object; a category is entered under its stripped key and its entries go
   * to that caption's wrapper.
   */
  function Entries(n: Node, ks: seq<string>, target: Target): (events: seq<Event>)
    ensures ks == [] || !n.Cat? ==> events == []
    decreases n, |ks|
  {
    if ks == [] || !n.Cat? then []
    else
      var k := ks[|ks| - 1];
      var before := Entries(n, ks[..|ks| - 1], target);
      if k !in n.obj.vals then before
      else
        var value := n.obj.vals[k];
        if value.Leaf? then before + [Append(target, Icon(k, value.path))]
        else before + [Enter(Strip(k))] + Entries(value, value.obj.keys, Group(Strip(k)))
  }

  /** The traversal of a whole section: every entry of `children`, top-level icons to the root wrapper. */
  function SectionEntries(children: Node): seq<Event>
    requires children.Cat?
  {
    Entries(children, children.obj.keys, Root)
  }

  /** The root wrapper's icons and the object `containers` (caption to wrapper icons). */
  datatype Layout = Layout(root: seq<Icon>, containers: OMap<seq<Icon>>)

  /** `root_wrapper` with no icons, and `const containers = {}`. */
  const Start: Layout := Layout([], Empty())

  /** The icons already appended to the wrapper of `caption`. */
  function GroupIcons(l: Layout, caption: string): seq<Icon>
  {
    if caption in l.containers.vals then l.containers.vals[caption] else []
  }

  /** The effect of one traversal step on the layout. */
  function Step(l: Layout, e: Event): (r: Layout)
    ensures Valid(l.containers) ==> Valid(r.containers)
    ensures l.root <= r.root && l.containers.keys <= r.containers.keys
    ensures forall c :: c in l.containers.vals ==> c in r.containers.vals
  {
    match e
    case Enter(caption) =>
      if caption in l.containers.vals then l else l.(containers := Put(l.containers, caption, []))
    case Append(Root, icon) => l.(root := l.root + [icon])
    case Append(Group(caption), icon) => l.(containers := Put(l.containers, caption, GroupIcons(l, caption) + [icon]))
  }

  /** The layout after the steps of `events`, in order. */
  function Replay(l: Layout, events: seq<Event>): (r: Layout)
    ensures Valid(l.containers) ==> Valid(r.containers)
    ensures l.root <= r.root && l.containers.keys <= r.containers.keys
    ensures forall c :: c in l.containers.vals ==> c in r.containers.vals
    decreases |events|
  {
    if events == [] then l else Step(Replay(l, events[..|events| - 1]), events[|events| - 1])
  }

  lemma {:induction false} ReplayAppend(l: Layout, a: seq<Event>, b: seq<Event>)
    ensures Replay(l, a + b) == Replay(Replay(l, a), b)
    decreases |b|
  {
    if b == [] {
      assert a + b == a;
    } else {
      assert (a + b)[..|a + b| - 1] == a + b[..|b| - 1];
      ReplayAppend(l, a, b[..|b| - 1]);
    }
  }

  /**
   * The nested `processEntry` calls for the keys of `n`: each icon goes to
   * `target`; each category gets its wrapper created on first sight and
   * collects its own entries.
   */
  method ProcessEntries(n: Node, target: Target, layout: Layout) returns (r: Layout)
    requires n.Cat?
    ensures r == Replay(layout, Entries(n, n.obj.keys, target))
    decreases n
  {
    r := layout;
    var keys := n.obj.keys;
    for i := 0 to |keys|
      invariant r == Replay(layout, Entries(n, keys[..i], target))
    {
      var key := keys[i];
      ghost var done := Entries(n, keys[..i], target);
      ghost var r0 := r;
      EntriesNext(n, keys, i, target);
      if key in n.obj.vals {
        var value := n.obj.vals[key];
        if value.Leaf? {
          var icon := Icon(key, value.path);
          match target {
            case Root =>
              r := r.(root := r.root + [icon]);
            case Group(caption) =>
              r := r.(containers := Put(r.containers, caption, GroupIcons(r, caption) + [icon]));
          }
          assert r == Step(r0, Append(target, icon));
          ReplaySnoc(layout, done, Append(target, icon));
        } else {
          var caption := Strip(key);
          if caption !in r.containers.vals {
            r := r.(containers := Put(r.containers, caption, []));
          }
          assert r == Step(r0, Enter(caption));
          ReplaySnoc(layout, done, Enter(caption));
          ghost var inner := Entries(value, value.obj.keys, Group(caption));
          r := ProcessEntries(value, Group(caption), r);
          ReplayAppend(layout, done + [Enter(caption)], inner);
        }
      }
    }
    assert keys[..|keys|] == keys;
  }

  lemma ReplaySnoc(l: Layout, events: seq<Event>, e: Event)
    ensures Replay(l, events + [e]) == Step(Replay(l, events), e)
  {
    assert (events + [e])[..|events|] == events;
  }

  /** The traversal of one more key of `n` extends the traversal of the keys before it. */
  lemma EntriesNext(n: Node, keys: seq<string>, i: nat, target: Target)
    requires n.Cat? && i < |keys|
    ensures var k := keys[i];
      var done := Entries(n, keys[..i], target);
      Entries(n, keys[..i + 1], target) ==
        if k !in n.obj.vals then done
        else if n.obj.vals[k].Leaf? then done + [Append(target, Icon(k, n.obj.vals[k].path))]
        else done + [Enter(Strip(k))] + Entries(n.obj.vals[k], n.obj.vals[k].obj.keys, Group(Strip(k)))
  {
    assert keys[..i + 1][..i] == keys[..i];
  }

  /** A wrapper element: its intro caption (none for the root wrapper) and its icons. */
  datatype Section = Section(intro: Option<string>, icons: seq<Icon>)

  /** `[root_wrapper, ...Object.values(containers)]`, each container introduced by its caption. */
  function Render(l: Layout): (sections: seq<Section>)
    requires Valid(l.containers)
    ensures |sections| == 1 + |l.containers.keys|
    ensures sections[0] == Section(None, l.root)
    ensures forall i :: 0 <= i < |l.containers.keys| ==>
      sections[i + 1] == Section(Some(l.containers.keys[i]), l.containers.vals[l.containers.keys[i]])
  {
    var wrappers := Values(l.containers);
    [Section(None, l.root)]
      + seq(|wrappers|, i requires 0 <= i < |wrappers| => Section(Some(l.containers.keys[i]), wrappers[i]))
  }

  /** Wrapper `i` after the root wrapper is the container of the `i`-th key. */
  lemma RenderAt(l: Layout, i: int)
    requires Valid(l.containers) && 1 <= i < |Render(l)|
    ensures Render(l)[i] == Section(Some(l.containers.keys[i - 1]), l.containers.vals[l.containers.keys[i - 1]])
  {
    assert Render(l)[i] == Render(l)[(i - 1) + 1];
  }

  /**
   * After the root wrapper, every container is shown exactly once, with the
   * caption it was created for and the icons appended to it.
   */
  lemma RenderShowsEach(l: Layout)
    requires Valid(l.containers)
    ensures forall i :: 1 <= i < |Render(l)| ==>
      Render(l)[i].intro.Some? && Render(l)[i].intro.value in l.containers.vals
      && Render(l)[i].icons == l.containers.vals[Render(l)[i].intro.value]
    ensures forall c :: c in l.containers.vals ==> exists i :: 1 <= i < |Render(l)| && Render(l)[i].intro == Some(c)
    ensures forall i, j :: 1 <= i < j < |Render(l)| ==> Render(l)[i].intro != Render(l)[j].intro
  {
    var keys := l.containers.keys;
    forall i | 1 <= i < |Render(l)|
      ensures Render(l)[i].intro.Some? && Render(l)[i].intro.value in l.containers.vals
      ensures Render(l)[i].icons == l.containers.vals[Render(l)[i].intro.value]
    {
      RenderAt(l, i);
    }
    forall c | c in l.containers.vals
      ensures exists i :: 1 <= i < |Render(l)| && Render(l)[i].intro == Some(c)
    {
      var j :| 0 <= j < |keys| && keys[j] == c;
      RenderAt(l, j + 1);
    }
    forall i, j | 1 <= i < j < |Render(l)| ensures Render(l)[i].intro != Render(l)[j].intro {
      RenderAt(l, i);
      RenderAt(l, j);
    }
  }

  /** `populateSection(mod, children, container)`: the wrappers that replace the container's children. */
  method PopulateSection(children: Node) returns (sections: seq<Section>)
    requires children.Cat?
    ensures sections == Expected(children)
  {
    var layout := ProcessEntries(children, Root, Start);
    ReplayMatches(children);
    sections := Render(layout);
  }

  // ---------------------------------------------------------------------
  // An independent description of the layout, read off the traversal.

  /** The labels entered, in traversal order, repeats included. */
  function Labels(events: seq<Event>): (captions: seq<string>)
    decreases |events|
  {
    if events == [] then []
    else
      var e := events[|events| - 1];
      Labels(events[..|events| - 1]) + (if e.Enter? then [e.caption] else [])
  }

  /** A caption is listed exactly when its category is entered. */
  lemma {:induction false} LabelsIn(events: seq<Event>, c: string)
    ensures c in Labels(events) <==> Enter(c) in events
    decreases |events|
  {
    if events != [] {
      var n := |events| - 1;
      LabelsIn(events[..n], c);
      assert events == events[..n] + [events[n]];
    }
  }

  /** The icons appended to `t`, in traversal order. */
  function IconsFor(events: seq<Event>, t: Target): (icons: seq<Icon>)
    decreases |events|
  {
    if events == [] then []
    else
      var e := events[|events| - 1];
      IconsFor(events[..|events| - 1], t) + (if e.Append? && e.target == t then [e.icon] else [])
  }

  /**
   * Every icon appended to a category wrapper other than `outer`'s comes after
   * that category was entered.
   */
  ghost predicate EnteredFirst(events: seq<Event>, outer: Target)
  {
    forall i :: 0 <= i < |events| && events[i].Append? && events[i].target.Group? && events[i].target != outer ==>
      Enter(events[i].target.caption) in events[..i]
  }

  /**
   * The wrappers a section shows: the root wrapper with the icons that have
   * no enclosing category, then one wrapper per distinct category caption, in
   * the order the captions are first entered, each with the icons whose nearest
   * enclosing category carries that caption, in traversal order.
   */
  function Expected(children: Node): (sections: seq<Section>)
    requires children.Cat?
    ensures |sections| == 1 + |Dedup(Labels(SectionEntries(children)))|
  {
    var events := SectionEntries(children);
    var captions := Dedup(Labels(events));
    [Section(None, IconsFor(events, Root))]
      + seq(|captions|, i requires 0 <= i < |captions| => Section(Some(captions[i]), IconsFor(events, Group(captions[i]))))
  }

  /** The layout read off the traversal directly: icons per wrapper, captions in first-entered order. */
  function Grouped(events: seq<Event>): Layout
  {
    Layout(IconsFor(events, Root), OMap(Dedup(Labels(events)), Wrappers(events)))
  }

  /** For each entered caption, the icons appended to its wrapper. */
  function Wrappers(events: seq<Event>): map<string, seq<Icon>>
  {
    map c | c in Labels(events) :: IconsFor(events, Group(c))
  }

  lemma LabelsSnoc(front: seq<Event>, e: Event)
    ensures Labels(front + [e]) == Labels(front) + (if e.Enter? then [e.caption] else [])
  {
    assert (front + [e])[..|front|] == front;
  }

  lemma IconsForSnoc(front: seq<Event>, e: Event, t: Target)
    ensures IconsFor(front + [e], t) == IconsFor(front, t) + (if e.Append? && e.target == t then [e.icon] else [])
  {
    assert (front + [e])[..|front|] == front;
  }

  /** The direct description lists each caption once, and lists exactly the captions it holds icons for. */
  lemma GroupedValid(events: seq<Event>)
    ensures Valid(Grouped(events).containers)
  {
  }

  /** Entering a category adds its caption, with no icons yet, unless it was entered before. */
  lemma StepEnterGrouped(front: seq<Event>, caption: string)
    requires EnteredFirst(front, Root)
    ensures Step(Grouped(front), Enter(caption)) == Grouped(front + [Enter(caption)])
  {
    if Enter(caption) in front {
      EnterAgainGrouped(front, caption);
    } else {
      EnterNewGrouped(front, caption);
    }
  }

  /** Entering a caption for the first time adds an empty wrapper for it, enumerated last. */
  lemma EnterNewGrouped(front: seq<Event>, caption: string)
    requires EnteredFirst(front, Root) && Enter(caption) !in front
    ensures Step(Grouped(front), Enter(caption)) == Grouped(front + [Enter(caption)])
  {
    var e := Enter(caption);
    var events := front + [e];
    var labels := Labels(front);
    assert caption !in labels by {
      LabelsIn(front, caption);
    }
    assert Labels(events) == labels + [caption] by {
      LabelsSnoc(front, e);
    }
    assert Dedup(Labels(events)) == Dedup(labels) + [caption] by {
      DedupSnoc(labels, caption);
    }
    assert IconsFor(events, Root) == IconsFor(front, Root) by {
      IconsForSnoc(front, e, Root);
    }
    GroupedValid(front);
    NeverEnteredNoIcons(front, caption);
    EnterNewWrappers(front, caption);
  }

  /** After a first entry the new wrapper is empty and the other wrappers are unchanged. */
  lemma EnterNewWrappers(front: seq<Event>, caption: string)
    requires IconsFor(front, Group(caption)) == []
    ensures Wrappers(front + [Enter(caption)]) == Wrappers(front)[caption := []]
  {
    var e := Enter(caption);
    var labels := Labels(front);
    var w, w' := Wrappers(front), Wrappers(front + [e]);
    assert Labels(front + [e]) == labels + [caption] by {
      LabelsSnoc(front, e);
    }
    forall c ensures c in w' <==> c in labels || c == caption {
      assert c in labels + [caption] <==> c in labels || c == caption;
    }
    forall c | c in w' ensures w'[c] == w[caption := []][c] {
      IconsForSnoc(front, e, Group(c));
    }
  }

  /** Entering a caption again leaves the layout as it is. */
  lemma EnterAgainGrouped(front: seq<Event>, caption: string)
    requires Enter(caption) in front
    ensures Step(Grouped(front), Enter(caption)) == Grouped(front + [Enter(caption)])
  {
    var e := Enter(caption);
    var events := front + [e];
    var labels := Labels(front);
    assert caption in labels by {
      LabelsIn(front, caption);
    }
    assert Labels(events) == labels + [caption] by {
      LabelsSnoc(front, e);
    }
    assert Dedup(Labels(events)) == Dedup(labels) by {
      DedupSnoc(labels, caption);
    }
    assert IconsFor(events, Root) == IconsFor(front, Root) by {
      IconsForSnoc(front, e, Root);
    }
    EnterAgainWrappers(front, caption);
  }

  /** Entering a caption again changes no wrapper. */
  lemma EnterAgainWrappers(front: seq<Event>, caption: string)
    requires caption in Labels(front)
    ensures Wrappers(front + [Enter(caption)]) == Wrappers(front)
  {
    var e := Enter(caption);
    var labels := Labels(front);
    var w, w' := Wrappers(front), Wrappers(front + [e]);
    assert Labels(front + [e]) == labels + [caption] by {
      LabelsSnoc(front, e);
    }
    forall c ensures c in w' <==> c in labels {
      assert c in labels + [caption] <==> c in labels || c == caption;
    }
    forall c | c in w' ensures w'[c] == w[c] {
      IconsForSnoc(front, e, Group(c));
    }
  }

  /** Appending an icon adds it to the end of its wrapper, whose caption was entered before. */
  lemma StepAppendGrouped(front: seq<Event>, t: Target, icon: Icon)
    requires t.Group? ==> Enter(t.caption) in front
    ensures Step(Grouped(front), Append(t, icon)) == Grouped(front + [Append(t, icon)])
  {
    var e := Append(t, icon);
    var events := front + [e];
    var g := Grouped(front);
    assert Labels(events) == Labels(front) by {
      LabelsSnoc(front, e);
    }
    assert IconsFor(events, Root) == if t == Root then g.root + [icon] else g.root by {
      IconsForSnoc(front, e, Root);
    }
    match t {
      case Root =>
        AppendWrappers(front, t, icon);
      case Group(caption) =>
        assert caption in Labels(front) by {
          LabelsIn(front, caption);
        }
        AppendWrappers(front, t, icon);
    }
  }

  /** Appending an icon adds it to its own wrapper and to no other. */
  lemma AppendWrappers(front: seq<Event>, t: Target, icon: Icon)
    requires t.Group? ==> t.caption in Labels(front)
    ensures var w := Wrappers(front);
      Wrappers(front + [Append(t, icon)]) == if t.Group? then w[t.caption := w[t.caption] + [icon]] else w
  {
    var e := Append(t, icon);
    var w, w' := Wrappers(front), Wrappers(front + [e]);
    var expected := if t.Group? then w[t.caption := w[t.caption] + [icon]] else w;
    assert Labels(front + [e]) == Labels(front) by {
      LabelsSnoc(front, e);
    }
    assert w'.Keys == expected.Keys;
    forall c | c in w' ensures w'[c] == expected[c] {
      IconsForSnoc(front, e, Group(c));
    }
  }

  /** One more step of the traversal turns the direct description of the layout into the next one. */
  lemma StepGrouped(front: seq<Event>, e: Event)
    requires EnteredFirst(front + [e], Root)
    ensures Step(Grouped(front), e) == Grouped(front + [e])
  {
    var events := front + [e];
    match e {
      case Enter(caption) =>
        EnteredFirstFront(front, e, Root);
        StepEnterGrouped(front, caption);
      case Append(t, icon) =>
        assert events[..|front|] == front && events[|front|] == e;
        StepAppendGrouped(front, t, icon);
    }
  }

  /** What holds of a traversal holds of its beginning. */
  lemma EnteredFirstFront(front: seq<Event>, e: Event, outer: Target)
    requires EnteredFirst(front + [e], outer)
    ensures EnteredFirst(front, outer)
  {
    var events := front + [e];
    forall i | 0 <= i < |front| ensures front[..i] == events[..i] && front[i] == events[i] { }
  }

  /** The layout the traversal steps build is the layout read off the traversal. */
  lemma {:induction false} ReplayGrouped(events: seq<Event>)
    requires EnteredFirst(events, Root)
    ensures Replay(Start, events) == Grouped(events)
    decreases |events|
  {
    if events == [] {
      assert Wrappers(events) == map[];
    } else {
      var n := |events| - 1;
      var front := events[..n];
      assert events == front + [events[n]];
      EnteredFirstFront(front, events[n], Root);
      ReplayGrouped(front);
      StepGrouped(front, events[n]);
    }
  }

  /** Before a caption is entered, its wrapper has received nothing. */
  lemma NeverEnteredNoIcons(events: seq<Event>, caption: string)
    requires EnteredFirst(events, Root) && Enter(caption) !in events
    ensures IconsFor(events, Group(caption)) == []
  {
  }

  /** The traversal of a subtree enters every category before appending to its wrapper. */
  lemma {:induction false} EntriesEnteredFirst(n: Node, ks: seq<string>, target: Target)
    ensures EnteredFirst(Entries(n, ks, target), target)
    decreases n, |ks|
  {
    if ks != [] && n.Cat? {
      var k := ks[|ks| - 1];
      var before := Entries(n, ks[..|ks| - 1], target);
      EntriesEnteredFirst(n, ks[..|ks| - 1], target);
      var events := Entries(n, ks, target);
      if k in n.obj.vals {
        var value := n.obj.vals[k];
        if value.Leaf? {
          assert events == before + [Append(target, Icon(k, value.path))];
          forall i | 0 <= i < |before| ensures events[..i] == before[..i] && events[i] == before[i] { }
        } else {
          var caption := Strip(k);
          var inner := Entries(value, value.obj.keys, Group(caption));
          EntriesEnteredFirst(value, value.obj.keys, Group(caption));
          var head := before + [Enter(caption)];
          assert events == head + inner;
          forall i | 0 <= i < |events| && events[i].Append? && events[i].target.Group? && events[i].target != target
            ensures Enter(events[i].target.caption) in events[..i]
          {
            if i < |before| {
              assert events[i] == before[i];
              assert events[..i] == before[..i];
            } else if i > |before| {
              var j := i - |head|;
              assert events[i] == inner[j];
              assert events[..i] == head + inner[..j];
              assert Enter(caption) in head;
            }
          }
        }
      }
    }
  }

  /** The layout the traversal of a section builds renders as the expected wrappers. */
  lemma ReplayMatches(children: Node)
    requires children.Cat?
    ensures Valid(Replay(Start, SectionEntries(children)).containers)
    ensures Render(Replay(Start, SectionEntries(children))) == Expected(children)
  {
    var events := SectionEntries(children);
    EntriesEnteredFirst(children, children.obj.keys, Root);
    assert EnteredFirst(events, Root);
    ReplayGrouped(events);
    GroupedValid(events);
    var l := Replay(Start, events);
    var captions := Dedup(Labels(events));
    forall i | 0 <= i < |captions| ensures l.containers.vals[captions[i]] == IconsFor(events, Group(captions[i])) {
      assert captions[i] in Labels(events);
    }
  }

  // ---------------------------------------------------------------------
  // The layout in terms of the tree: where each leaf and category ends up.

  /** An icon appended to a wrapper is among that wrapper's icons. */
  lemma {:induction false} AppendedIcon(events: seq<Event>, t: Target, icon: Icon)
    requires Append(t, icon) in events
    ensures icon in IconsFor(events, t)
    decreases |events|
  {
    var n := |events| - 1;
    assert events == events[..n] + [events[n]];
    if events[n] != Append(t, icon) {
      AppendedIcon(events[..n], t, icon);
    }
  }

  /** An icon among a wrapper's icons was appended to that wrapper. */
  lemma {:induction false} IconAppended(events: seq<Event>, t: Target, icon: Icon)
    requires icon in IconsFor(events, t)
    ensures Append(t, icon) in events
    decreases |events|
  {
    var n := |events| - 1;
    assert events == events[..n] + [events[n]];
    if icon in IconsFor(events[..n], t) {
      IconAppended(events[..n], t, icon);
    }
  }

  /** The traversal of `ks` extends the traversal of all but the last key. */
  lemma EntriesPrefix(n: Node, ks: seq<string>, target: Target)
    requires n.Cat? && ks != []
    ensures Entries(n, ks[..|ks| - 1], target) <= Entries(n, ks, target)
  {
  }

  /** The traversal of keys ending in a category key ends with that category's traversal. */
  lemma EntriesCategory(n: Node, ks: seq<string>, target: Target)
    requires n.Cat? && ks != [] && ks[|ks| - 1] in n.obj.vals && n.obj.vals[ks[|ks| - 1]].Cat?
    ensures var k := ks[|ks| - 1];
      var value := n.obj.vals[k];
      Entries(n, ks, target)
        == Entries(n, ks[..|ks| - 1], target) + [Enter(Strip(k))] + Entries(value, value.obj.keys, Group(Strip(k)))
  {
  }

  /** One property access on an object, then the rest of the path. */
  lemma AtCons(n: Node, q: seq<string>)
    requires n.Cat? && |q| >= 1 && q[0] in n.obj.vals
    ensures At(n, q) == At(n.obj.vals[q[0]], q[1..])
  {
  }

  /**
   * The leaf at key path `q` below `n` (whose first key is among `ks`) is
   * appended to `target` when it lies directly in `n`, and otherwise to the
   * wrapper of its parent category's caption.
   */
  lemma {:induction false} LeafEvent(n: Node, ks: seq<string>, target: Target, q: seq<string>, path: string)
    requires n.Cat? && WellFormed(n) && |q| >= 1 && q[0] in ks && LeafAt(n, q) == Some(path)
    ensures |q| == 1 ==> Append(target, Icon(q[0], path)) in Entries(n, ks, target)
    ensures |q| >= 2 ==> Append(Group(Strip(q[|q| - 2])), Icon(q[|q| - 1], path)) in Entries(n, ks, target)
    decreases n, |ks|
  {
    var k := ks[|ks| - 1];
    EntriesPrefix(n, ks, target);
    if q[0] != k {
      assert q[0] in ks[..|ks| - 1];
      LeafEvent(n, ks[..|ks| - 1], target, q, path);
    } else {
      assert q[0] in n.obj.vals;
      AtCons(n, q);
      var value := n.obj.vals[k];
      if |q| >= 2 {
        assert value.Cat?;
        EntriesCategory(n, ks, target);
        InnerLeaf(n, k, q, path);
        LeafEvent(value, value.obj.keys, Group(Strip(k)), q[1..], path);
        assert q[1..][|q| - 2] == q[|q| - 1];
        if |q| >= 3 {
          assert q[1..][|q| - 3] == q[|q| - 2];
        }
      }
    }
  }

  /** Below a category key, the rest of a leaf's path starts with one of the category's keys. */
  lemma InnerLeaf(n: Node, k: string, q: seq<string>, path: string)
    requires n.Cat? && WellFormed(n) && |q| >= 2 && q[0] == k && k in n.obj.vals
    requires n.obj.vals[k].Cat? && LeafAt(n.obj.vals[k], q[1..]) == Some(path)
    ensures WellFormed(n.obj.vals[k]) && q[1] in n.obj.vals[k].obj.keys
  {
    var value := n.obj.vals[k];
    assert q[1..][0] == q[1];
    assert q[1] in value.obj.vals;
  }

  /** Every category at key path `q` below `n` (first key among `ks`) is entered under its stripped key. */
  lemma {:induction false} CategoryEntered(n: Node, ks: seq<string>, target: Target, q: seq<string>)
    requires n.Cat? && WellFormed(n) && |q| >= 1 && q[0] in ks && IsCatAt(n, q)
    ensures Enter(Strip(q[|q| - 1])) in Entries(n, ks, target)
    decreases n, |ks|
  {
    var k := ks[|ks| - 1];
    EntriesPrefix(n, ks, target);
    if q[0] != k {
      assert q[0] in ks[..|ks| - 1];
      CategoryEntered(n, ks[..|ks| - 1], target, q);
    } else {
      assert q[0] in n.obj.vals;
      AtCons(n, q);
      var value := n.obj.vals[k];
      assert value.Cat?;
      EntriesCategory(n, ks, target);
      if |q| >= 2 {
        assert q[1] in value.obj.keys;
        CategoryEntered(value, value.obj.keys, Group(Strip(k)), q[1..]);
        assert q[1..][|q| - 2] == q[|q| - 1];
      }
    }
  }

  /** Every caption entered is the stripped key of some category below `n`. */
  lemma {:induction false} EnteredCategory(n: Node, ks: seq<string>, target: Target, c: string)
    requires n.Cat? && Enter(c) in Entries(n, ks, target)
    ensures exists q :: |q| >= 1 && IsCatAt(n, q) && Strip(q[|q| - 1]) == c
    decreases n, |ks|
  {
    var k := ks[|ks| - 1];
    var before := Entries(n, ks[..|ks| - 1], target);
    if Enter(c) in before {
      EnteredCategory(n, ks[..|ks| - 1], target, c);
    } else {
      assert k in n.obj.vals && n.obj.vals[k].Cat?;
      var value := n.obj.vals[k];
      EntriesCategory(n, ks, target);
      if c == Strip(k) {
        CatAtCons(n, k, []);
        assert IsCatAt(n, [k] + []) && ([k] + [])[0] == k;
      } else {
        EnteredCategory(value, value.obj.keys, Group(Strip(k)), c);
        var q' :| |q'| >= 1 && IsCatAt(value, q') && Strip(q'[|q'| - 1]) == c;
        CatAtCons(n, k, q');
        var q := [k] + q';
        assert |q| - 1 == |q'| && q[|q| - 1] == q'[|q'| - 1];
        assert IsCatAt(n, q);
      }
    }
  }

  /** A category below the value of key `k` lies below `n` at the key path extended by `k`. */
  lemma CatAtCons(n: Node, k: string, q: seq<string>)
    requires n.Cat? && k in n.obj.vals && IsCatAt(n.obj.vals[k], q)
    ensures IsCatAt(n, [k] + q) && (|q| >= 1 ==> ([k] + q)[|q|] == q[|q| - 1])
  {
    assert ([k] + q)[1..] == q;
    AtCons(n, [k] + q);
  }

  /**
   * Each leaf of a section is shown in exactly the wrapper its position
   * calls for: a leaf stored directly in the section's object is in the root
   * wrapper, any deeper leaf is in the wrapper captioned with its parent
   * category's stripped key, and that wrapper is shown.
   */
  lemma LeafPlacement(children: Node, q: seq<string>, path: string)
    requires children.Cat? && WellFormed(children) && LeafAt(children, q) == Some(path)
    ensures |q| >= 1
    ensures |q| == 1 ==> Icon(q[0], path) in IconsFor(SectionEntries(children), Root)
    ensures |q| >= 2 ==> Icon(q[|q| - 1], path) in IconsFor(SectionEntries(children), Group(Strip(q[|q| - 2])))
    ensures |q| >= 2 ==> Strip(q[|q| - 2]) in Dedup(Labels(SectionEntries(children)))
  {
    var events := SectionEntries(children);
    assert q[0] in children.obj.keys;
    LeafEvent(children, children.obj.keys, Root, q, path);
    if |q| == 1 {
      AppendedIcon(events, Root, Icon(q[0], path));
    } else {
      AppendedIcon(events, Group(Strip(q[|q| - 2])), Icon(q[|q| - 1], path));
      var parent := q[..|q| - 1];
      ParentIsCategory(children, q, path);
      CategoryEntered(children, children.obj.keys, Root, parent);
      LabelsIn(events, Strip(q[|q| - 2]));
    }
  }

  /** The key path above a leaf leads to a category. */
  lemma {:induction false} ParentIsCategory(n: Node, q: seq<string>, path: string)
    requires |q| >= 2 && LeafAt(n, q) == Some(path)
    ensures IsCatAt(n, q[..|q| - 1])
    decreases |q|
  {
    var value := n.obj.vals[q[0]];
    assert At(n, q) == At(value, q[1..]);
    assert q[..|q| - 1][1..] == q[1..][..|q| - 2];
    if |q| > 2 {
      ParentIsCategory(value, q[1..], path);
    }
  }

  /**
   * A section shows a wrapper captioned `c` exactly when some category of
   * the section, at any depth, has the stripped key `c`.
   */
  lemma Captions(children: Node, c: string)
    requires children.Cat? && WellFormed(children)
    ensures c in Dedup(Labels(SectionEntries(children))) <==> exists q :: |q| >= 1 && IsCatAt(children, q) && Strip(q[|q| - 1]) == c
  {
    var events := SectionEntries(children);
    LabelsIn(events, c);
    if c in Dedup(Labels(events)) {
      EnteredCategory(children, children.obj.keys, Root, c);
    }
    if q :| |q| >= 1 && IsCatAt(children, q) && Strip(q[|q| - 1]) == c {
      CategoryEntered(children, children.obj.keys, Root, q);
    }
  }

  /**
   * The wrapper a leaf at key path `q` goes to when the traversal of its
   * first object sends icons to `target`: `target` itself for a leaf stored
   * directly there, otherwise the wrapper of its parent category's caption.
   */
  function ParentTarget(q: seq<string>, target: Target): Target
    requires |q| >= 1
  {
    if |q| == 1 then target else Group(Strip(q[|q| - 2]))
  }

  /** The value of key `k` followed by `q` is the value of `n` followed by `[k] + q`. */
  lemma LeafAtCons(n: Node, k: string, q: seq<string>)
    requires n.Cat? && k in n.obj.vals
    ensures LeafAt(n, [k] + q) == LeafAt(n.obj.vals[k], q)
  {
    assert ([k] + q)[1..] == q;
    AtCons(n, [k] + q);
  }

  /**
   * Every icon the traversal of `ks` appends comes from a leaf below `n`:
   * the icon carries the leaf's name and path, and it goes to the wrapper
   * the leaf's position calls for.
   */
  lemma {:induction false} AppendedLeaf(n: Node, ks: seq<string>, target: Target, t: Target, icon: Icon)
    requires n.Cat? && Append(t, icon) in Entries(n, ks, target)
    ensures exists q ::
      (|q| >= 1 && q[0] in ks && LeafAt(n, q) == Some(icon.src)
       && q[|q| - 1] == icon.name && t == ParentTarget(q, target))
    decreases n, |ks|
  {
    var k := ks[|ks| - 1];
    var front := ks[..|ks| - 1];
    var before := Entries(n, front, target);
    if Append(t, icon) in before {
      AppendedLeaf(n, front, target, t, icon);
      var q :| |q| >= 1 && q[0] in front && LeafAt(n, q) == Some(icon.src)
        && q[|q| - 1] == icon.name && t == ParentTarget(q, target);
      assert q[0] in ks;
    } else {
      assert k in n.obj.vals;
      var value := n.obj.vals[k];
      LeafAtCons(n, k, []);
      assert [k] + [] == [k];
      if value.Leaf? {
        assert Entries(n, ks, target) == before + [Append(target, Icon(k, value.path))];
        assert t == target && icon == Icon(k, value.path);
        assert LeafAt(n, [k]) == Some(icon.src);
        assert t == ParentTarget([k], target);
      } else {
        EntriesCategory(n, ks, target);
        assert Append(t, icon) in Entries(value, value.obj.keys, Group(Strip(k)));
        AppendedInner(n, k, t, icon);
      }
    }
  }

  /** An icon appended below category key `k` of `n` comes from a leaf below `n` under `k`. */
  lemma AppendedInner(n: Node, k: string, t: Target, icon: Icon)
    requires n.Cat? && k in n.obj.vals && n.obj.vals[k].Cat?
    requires Append(t, icon) in Entries(n.obj.vals[k], n.obj.vals[k].obj.keys, Group(Strip(k)))
    ensures exists q ::
      (|q| >= 2 && q[0] == k && LeafAt(n, q) == Some(icon.src)
       && q[|q| - 1] == icon.name && t == Group(Strip(q[|q| - 2])))
    decreases n, 0
  {
    var value := n.obj.vals[k];
    var target := Group(Strip(k));
    AppendedLeaf(value, value.obj.keys, target, t, icon);
    var q' :| |q'| >= 1 && q'[0] in value.obj.keys && LeafAt(value, q') == Some(icon.src)
      && q'[|q'| - 1] == icon.name && t == ParentTarget(q', target);
    LeafAtCons(n, k, q');
    var q := [k] + q';
    assert |q| == |q'| + 1 && q[0] == k && q[|q| - 1] == q'[|q'| - 1];
    if |q'| >= 2 {
      assert q[|q| - 2] == q'[|q'| - 2];
    }
    assert LeafAt(n, q) == Some(icon.src);
  }

  /**
   * Conversely, every icon a section shows comes from one of its leaves,
   * with the leaf's name and path: an icon in the root wrapper from a leaf
   * stored directly in the section, an icon in the wrapper captioned `c`
   * from a deeper leaf whose parent category's key strips to `c`.
   */
  lemma IconOrigin(children: Node, t: Target, icon: Icon)
    requires children.Cat? && icon in IconsFor(SectionEntries(children), t)
    ensures exists q ::
      (|q| >= 1 && LeafAt(children, q) == Some(icon.src) && q[|q| - 1] == icon.name
       && (t == Root <==> |q| == 1) && (t.Group? ==> |q| >= 2 && Strip(q[|q| - 2]) == t.caption))
  {
    IconAppended(SectionEntries(children), t, icon);
    AppendedLeaf(children, children.obj.keys, Root, t, icon);
    var q :| |q| >= 1 && q[0] in children.obj.keys && LeafAt(children, q) == Some(icon.src)
      && q[|q| - 1] == icon.name && t == ParentTarget(q, Root);
    assert (t == Root <==> |q| == 1) && (t.Group? ==> |q| >= 2 && Strip(q[|q| - 2]) == t.caption);
  }
}
