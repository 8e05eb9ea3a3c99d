/**
 * The file names of the generated variants. Clicking an icon draws it on the
 * four canvases made by `prepareCanvases`: the first keeps a transparent
 * background and each of the others is filled with one of the `backgrounds`
 * colours. Every canvas records the file name it is copied or downloaded
 * under, tagged with the icon name and the variant.
 */
module Variants {
  import opened JsObject

  /** `backgrounds`: the fill colour of each opaque variant, in declaration order. */
  const Backgrounds: OMap<string> := OMap(["dark", "gray", "light"],
    map["dark" := "hsl(0 0% 10%)", "gray" := "hsl(0 0% 50%)", "light" := "hsl(0 0% 90%)"])

  /** `prepareCanvases` makes this many canvases. */
  const CanvasCount: nat := 4

  /** The variant key of canvas `slot`: `transparent` for the first, then `bg_keys` in order. */
  function VariantKey(slot: nat): (tag: string)
    requires slot < CanvasCount
    ensures '-' !in tag
  {
    if slot == 0 then "transparent" else Backgrounds.keys[slot - 1]
  }

  /** `name + "-" + tag + ".png"`: the file name recorded on canvas `slot` for icon `name`. */
  function VariantName(name: string, slot: nat): (file: string)
    requires slot < CanvasCount
    ensures |file| == |name| + |VariantKey(slot)| + 5
    ensures file[..|name|] == name
  {
    name + Ending(slot)
  }

  /**
   * `printIcons`, restricted to what it records: `names[i]` is the file name
   * of canvas `i` and `fills[i]` the background colour drawn on it.
   */
  method PrintIcons(names: array<string>, fills: array<string>, name: string)
    requires names.Length == CanvasCount && fills.Length == CanvasCount && names != fills
    modifies names, fills
    ensures forall i :: 0 <= i < CanvasCount ==> names[i] == VariantName(name, i)
    ensures fills[0] == old(fills[0])
    ensures forall i :: 1 <= i < CanvasCount ==> fills[i] == Fill(i)
  {
    names[0] := name + "-transparent.png";
    TransparentEnding(name);
    BackgroundsValid();
    var bgKeys := Backgrounds.keys;
    var bgValues := Values(Backgrounds);
    for index := 0 to |bgKeys|
      invariant names[0] == VariantName(name, 0)
      invariant fills[0] == old(fills[0])
      invariant forall i :: 1 <= i <= index ==> names[i] == VariantName(name, i) && fills[i] == Fill(i)
    {
      BackgroundSlot(name, index, bgValues);
      fills[index + 1] := bgValues[index];
      names[index + 1] := name + "-" + bgKeys[index] + ".png";
    }
  }

  /** The background colour drawn on canvas `slot`. */
  function Fill(slot: nat): string
    requires 1 <= slot < CanvasCount
  {
    Backgrounds.vals[VariantKey(slot)]
  }

  lemma BackgroundsValid()
    ensures Valid(Backgrounds)
  {
  }

  lemma TransparentEnding(name: string)
    ensures name + "-transparent.png" == VariantName(name, 0)
  {
    assert Ending(0) == "-transparent.png";
  }

  /** What the callback records on canvas `index + 1`, in terms of `bg_keys` and `bg_values`. */
  lemma BackgroundSlot(name: string, index: nat, bgValues: seq<string>)
    requires index < |Backgrounds.keys| && bgValues == Values(Backgrounds)
    ensures name + "-" + Backgrounds.keys[index] + ".png" == VariantName(name, index + 1)
    ensures bgValues[index] == Fill(index + 1)
  {
    assert name + "-" + VariantKey(index + 1) + ".png" == name + ("-" + VariantKey(index + 1) + ".png");
  }

  /** If `a + x == b + y` and `x` is no longer than `y`, then `x` ends `y`. */
  lemma SharedEnd(a: string, x: string, b: string, y: string)
    requires a + x == b + y && |x| <= |y|
    ensures y[|y| - |x|..] == x
    ensures a == b + y[..|y| - |x|]
  {
    var s := a + x;
    assert s[|a|..] == x && s[|b|..] == y;
    assert s[|a|..] == s[|b|..][|y| - |x|..];
    assert s[..|a|] == a && s[..|b|] == b;
    assert s[..|a|] == s[..|b|] + s[|b|..][..|y| - |x|];
  }

  /**
   * A variant file name determines both the icon and the variant: no tag is a
   * final segment of another, so two different icons or two different canvases
   * never share a file name.
   */
  lemma VariantNameInjective(a: string, i: nat, b: string, j: nat)
    requires i < CanvasCount && j < CanvasCount
    requires VariantName(a, i) == VariantName(b, j)
    ensures a == b && i == j
  {
    var x, y := Ending(i), Ending(j);
    if |x| <= |y| {
      SharedEnd(a, x, b, y);
      EndingsDistinct(i, j);
      assert y[..|y| - |x|] == [];
      assert b + [] == b;
    } else {
      SharedEnd(b, y, a, x);
      EndingsDistinct(j, i);
    }
  }

  /** The part of a variant file name after the icon name. */
  function Ending(slot: nat): string
    requires slot < CanvasCount
  {
    "-" + VariantKey(slot) + ".png"
  }

  /** An ending is a dash, the variant key and `.png`, with no other dash. */
  lemma EndingShape(slot: nat)
    requires slot < CanvasCount
    ensures var e := Ending(slot);
      && |e| == |VariantKey(slot)| + 5 && e[0] == '-' && e[1..|e| - 4] == VariantKey(slot)
      && forall k :: 0 < k < |e| ==> e[k] != '-'
  {
    var key := VariantKey(slot);
    var e := Ending(slot);
    assert forall k :: 0 < k < |e| ==> e[k] == if k <= |key| then key[k - 1] else ".png"[k - 1 - |key|];
  }

  /** Among the four variant endings, one ends another only when they are the same. */
  lemma EndingsDistinct(i: nat, j: nat)
    requires i < CanvasCount && j < CanvasCount
    requires |Ending(i)| <= |Ending(j)| && Ending(j)[|Ending(j)| - |Ending(i)|..] == Ending(i)
    ensures i == j
  {
    var x, y := Ending(i), Ending(j);
    EndingShape(i);
    EndingShape(j);
    assert y[|y| - |x|] == x[0];
    assert x == y;
    VariantKeysDistinct(i, j);
  }

  /** The four variant keys are pairwise different. */
  lemma VariantKeysDistinct(i: nat, j: nat)
    requires i < CanvasCount && j < CanvasCount && VariantKey(i) == VariantKey(j)
    ensures i == j
  {
    assert VariantKey(0) == "transparent" && VariantKey(1) == "dark" && VariantKey(2) == "gray" && VariantKey(3) == "light";
    assert VariantKey(0)[0] == 't' && VariantKey(1)[0] == 'd' && VariantKey(2)[0] == 'g' && VariantKey(3)[0] == 'l';
  }

  /** The four file names recorded by one click are pairwise different. */
  lemma VariantNamesDistinct(name: string, i: nat, j: nat)
    requires i < j < CanvasCount
    ensures VariantName(name, i) != VariantName(name, j)
  {
    if VariantName(name, i) == VariantName(name, j) {
      VariantNameInjective(name, i, name, j);
    }
  }
}
