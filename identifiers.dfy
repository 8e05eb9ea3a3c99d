/**
 * Icon identifiers and category keys.
 *
 * An identifier such as `"Std:Sub:LeafName"` is a list of segments joined by
 * `:`; its last segment is the leaf name and the others are its category path.
 * Inside the catalogue tree a category segment `s` is stored under the key
 * `"{LEVEL}" + s`, and a label is recovered with `key.replace("{LEVEL}", "")`.
 */
module Identifiers {
  import opened JsObject

  const Delimiter: char := ':'

  /** `level_prefix` */
  const LevelPrefix: string := "{LEVEL}"

  /** Number of occurrences of `c` in `s`. */
  function Count(s: string, c: char): nat
  {
    if s == [] then 0 else (if s[0] == c then 1 else 0) + Count(s[1..], c)
  }

  /**
   * `s.split(":")`: the pieces between delimiters, empty pieces included,
   * so that `""` gives `[""]` and `"a::b"` gives `["a", "", "b"]`.
   */
  function Split(s: string): (r: seq<string>)
    ensures |r| == Count(s, Delimiter) + 1
    ensures forall i :: 0 <= i < |r| ==> Delimiter !in r[i]
    ensures |r| == 1 ==> r[0] == s
    decreases |s|
  {
    if s == [] then [""]
    else
      var rest := Split(s[1..]);
      if s[0] == Delimiter then [""] + rest
      else
        assert |rest| == 1 ==> [s[0]] + rest[0] == s;
        [[s[0]] + rest[0]] + rest[1..]
  }

  /** `segments.join(":")` */
  function Join(segments: seq<string>): string
    requires |segments| >= 1
    decreases |segments|
  {
    if |segments| == 1 then segments[0]
    else segments[0] + [Delimiter] + Join(segments[1..])
  }

  lemma {:induction false} JoinCons(c: char, segments: seq<string>)
    requires |segments| >= 1
    ensures Join([[c] + segments[0]] + segments[1..]) == [c] + Join(segments)
  {
    var t := [[c] + segments[0]] + segments[1..];
    assert t[1..] == segments[1..];
  }

  /** Splitting and joining again gives back the identifier. */
  lemma {:induction false} JoinSplit(s: string)
    ensures Join(Split(s)) == s
    decreases |s|
  {
    if s != [] {
      var rest := Split(s[1..]);
      JoinSplit(s[1..]);
      if s[0] == Delimiter {
        assert ([""] + rest)[1..] == rest;
      } else {
        JoinCons(s[0], rest);
      }
    }
  }

  lemma {:induction false} SplitAppend(x: string, y: string)
    requires Delimiter !in x
    ensures Split(x + y) == [x + Split(y)[0]] + Split(y)[1..]
    decreases |x|
  {
    if x != [] {
      assert (x + y)[1..] == x[1..] + y;
      SplitAppend(x[1..], y);
      assert [x[0]] + (x[1..] + Split(y)[0]) == x + Split(y)[0];
    } else {
      assert x + y == y && x + Split(y)[0] == Split(y)[0];
      assert Split(y) == [Split(y)[0]] + Split(y)[1..];
    }
  }

  /** Joining segments that contain no delimiter and splitting again gives back the segments. */
  lemma {:induction false} SplitJoin(segments: seq<string>)
    requires |segments| >= 1
    requires forall i :: 0 <= i < |segments| ==> Delimiter !in segments[i]
    ensures Split(Join(segments)) == segments
    decreases |segments|
  {
    var x := segments[0];
    if |segments| == 1 {
      SplitAppend(x, []);
      assert x + [] == x;
    } else {
      var y := [Delimiter] + Join(segments[1..]);
      SplitJoin(segments[1..]);
      SplitAppend(x, y);
      assert y[1..] == Join(segments[1..]);
      assert x + [Delimiter] + Join(segments[1..]) == x + y;
      assert Split(y) == [""] + segments[1..];
      assert x + "" == x;
    }
  }

  /** `structure.pop()`: the leaf name of an identifier. */
  function LeafName(identifier: string): (name: string)
    ensures Delimiter !in name
    ensures Categories(identifier) == [] ==> name == identifier
  {
    var segments := Split(identifier);
    segments[|segments| - 1]
  }

  /** What `structure` holds after the pop: the category path, outermost first. */
  function Categories(identifier: string): (categories: seq<string>)
    ensures |categories| == Count(identifier, Delimiter)
    ensures forall i :: 0 <= i < |categories| ==> Delimiter !in categories[i]
  {
    var segments := Split(identifier);
    segments[..|segments| - 1]
  }

  /**
   * The identifier is its category path and its leaf name joined again; the
   * path has one segment per delimiter, so an identifier without `:` is a bare
   * leaf name with an empty path.
   */
  lemma IdentifierParts(identifier: string)
    ensures Join(Categories(identifier) + [LeafName(identifier)]) == identifier
    ensures |Categories(identifier)| == Count(identifier, Delimiter)
    ensures Delimiter !in LeafName(identifier)
    ensures Delimiter !in identifier ==> Categories(identifier) == [] && LeafName(identifier) == identifier
  {
    var segments := Split(identifier);
    Unpop(segments);
    JoinSplit(identifier);
    if Delimiter !in identifier {
      CountAbsent(identifier, Delimiter);
    }
  }

  /** A non-empty sequence is its front followed by its last element. */
  lemma Unpop(s: seq<string>)
    requires |s| >= 1
    ensures s[..|s| - 1] + [s[|s| - 1]] == s
  {
  }

  lemma {:induction false} CountAbsent(s: string, c: char)
    requires c !in s
    ensures Count(s, c) == 0
    decreases |s|
  {
    if s != [] {
      assert c !in s[1..];
      CountAbsent(s[1..], c);
    }
  }

  /** The key of category segment `segment`: `level_prefix + segment`. */
  function Tag(segment: string): (key: string)
    ensures IsTagged(key)
    ensures key[|LevelPrefix|..] == segment
  {
    LevelPrefix + segment
  }

  /** `key` starts with `level_prefix`. */
  predicate IsTagged(key: string)
  {
    LevelPrefix <= key
  }

  /** Category keys of a whole category path. */
  function Tags(segments: seq<string>): (keys: seq<string>)
    ensures |keys| == |segments|
    ensures forall i :: 0 <= i < |segments| ==> keys[i] == Tag(segments[i])
    decreases |segments|
  {
    if segments == [] then [] else [Tag(segments[0])] + Tags(segments[1..])
  }

  /** Distinct category paths have distinct key paths. */
  lemma TagsInjective(a: seq<string>, b: seq<string>)
    requires Tags(a) == Tags(b)
    ensures a == b
  {
    assert |a| == |b|;
    forall i | 0 <= i < |a| ensures a[i] == b[i] {
      assert Tag(a[i])[|LevelPrefix|..] == a[i];
      assert Tag(b[i])[|LevelPrefix|..] == b[i];
    }
  }

  /** `pat` occurs in `s` at position `i`. */
  predicate OccursAt(s: string, pat: string, i: nat)
  {
    i + |pat| <= |s| && s[i..i + |pat|] == pat
  }

  /** The first position at or after `from` where `pat` occurs in `s`, if any. */
  function FindFrom(s: string, pat: string, from: nat): (r: Option<nat>)
    ensures r.Some? ==> from <= r.value && OccursAt(s, pat, r.value)
    ensures r.Some? ==> forall j :: from <= j < r.value ==> !OccursAt(s, pat, j)
    ensures r.None? ==> forall j :: from <= j ==> !OccursAt(s, pat, j)
    decreases |s| - from
  {
    if from + |pat| > |s| then None
    else if s[from..from + |pat|] == pat then Some(from)
    else FindFrom(s, pat, from + 1)
  }

  /**
   * `key.replace(level_prefix, "")`: a string pattern replaces only its first
   * occurrence, wherever that is; a key without the prefix is returned as is.
   */
  function Strip(key: string): (stripped: string)
    ensures IsTagged(key) ==> key == LevelPrefix + stripped
  {
    match FindFrom(key, LevelPrefix, 0)
    case None => key
    case Some(i) => key[..i] + key[i + |LevelPrefix|..]
  }

  /**
   * What `replace` does with the prefix: a key without it is returned as is,
   * and otherwise its first occurrence, wherever it stands, is cut out.
   */
  lemma StripFirst(key: string)
    ensures (forall j :: !OccursAt(key, LevelPrefix, j)) ==> Strip(key) == key
    ensures forall i: nat ::
      (OccursAt(key, LevelPrefix, i) && (forall j: nat :: j < i ==> !OccursAt(key, LevelPrefix, j))
       ==> Strip(key) == key[..i] + key[i + |LevelPrefix|..])
  {
  }

  /** Stripping the key of a category segment gives back the segment. */
  lemma StripTag(segment: string)
    ensures Strip(Tag(segment)) == segment
  {
  }
}
