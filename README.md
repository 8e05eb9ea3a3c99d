# Icon browser catalogue, verified

The icon browser loads a table `iconpaths` from icon identifiers such as
`"Std:Sub:LeafName"` to image paths. At start-up, `prepareData` builds two
structures from that table:

- a nested object `data`, where each category segment is a key carrying the
  prefix `{LEVEL}` that leads to a nested object, and each leaf name is a key
  holding the image path;
- the flat index `src_by_name`, from leaf name to path.

`populateSection` lays out one top-level category. It creates a root wrapper,
then one wrapper per distinct category caption, where a caption is the key
with the prefix removed. Each icon goes into the wrapper of its nearest
enclosing category. Clicking an icon (`printIcons`) fills four canvases and
records a file name on each: `name-transparent.png`, `name-dark.png`,
`name-gray.png` and `name-light.png`.

The Dafny modules are:

- `JsObject` (`js_object.dfy`): a JavaScript object used as a dictionary. It
  is an insertion-ordered map `OMap`. Assignment is `Put`, and `Dedup` gives
  the enumeration order that repeated assignments produce.
- `Identifiers` (`identifiers.dfy`): `split(":")` and `pop()` on identifiers,
  `Tag` (adds the category prefix) and `Strip`. `Strip` is
  `key.replace("{LEVEL}", "")`, which removes the first occurrence of the
  prefix wherever it is.
- `Catalogue` (`catalogue.dfy`): the tree `Node` and the class `Catalogue`.
  - The class holds the fields `data` and `srcByName`.
  - `AddIdentifier` is the imperative `while` loop that moves `current` down
    the tree.
  - `PrepareData` is the `forEach` over the identifiers.
  - Both are proved equal to the functions `Add` and `Build`.
  - The nested objects are never shared, so `current` is modelled as its key
    path from `data`.
  - In module code, assigning a property of a non-empty string throws a
    `TypeError`. This case is modelled as a `false` outcome that stops the
    build.
- `CatalogueProofs` (`catalogue_proofs.dfy`): what `Build` guarantees about
  the tree and the index.
- `CatalogueOrder` (`catalogue_order.dfy`): the enumeration order of the keys
  inside every object of the tree. `populateSection` shows categories and
  icons in this order.
- `Sections` (`sections.dfy`): `populateSection`.
  - The traversal is modelled as a sequence of events. There is one `Enter`
    per category object and one `Append` per icon.
  - `ProcessEntries` replays the events and is proved against `Replay`.
  - `Grouped` is an independent description of the result: root icons,
    distinct captions in first-entered order, and each caption's icons.
- `Variants` (`variants.dfy`): the file names and background fills that
  `printIcons` records on the canvases.

## Model

| member | source | states |
|---|---|---|
| JsObject.Put | js/index.js:318 | assigning a key replaces its value; a present key keeps its place in the enumeration order, a new key is enumerated last; distinct, complete key order is preserved (the same assignment is `containers[key] = ...` at js/index.js:204 and `current[...] = ...` at js/index.js:325 and js/index.js:330) |
| JsObject.Values | js/index.js:190 | `Object.values` lists one value per key, in enumeration order |
| JsObject.ValuesExactly | js/index.js:190 | `Object.values` holds the value of every key and no other value |
| JsObject.ValuesPut | js/index.js:204 | after an assignment, a new key's value is listed last and an existing key's value is replaced where it stands |
| JsObject.Dedup | js/index.js:190 | the enumeration order after a series of assignments holds exactly the assigned keys, each once |
| Identifiers.Split | js/index.js:312 | `split(":")` yields one piece more than there are delimiters, and no piece contains a delimiter |
| Identifiers.JoinSplit | js/index.js:312 | joining the pieces of `split(":")` with `:` gives back the identifier |
| Identifiers.SplitJoin | js/index.js:312 | splitting segments joined by `:` gives back the segments, when no segment contains `:` |
| Identifiers.LeafName | js/index.js:314 | the name `pop()` returns contains no `:`, and an identifier with no category segments is its own leaf name |
| Identifiers.Categories | js/index.js:312-314 | what remains after `pop()` has one segment per delimiter, none containing `:` |
| Identifiers.IdentifierParts | js/index.js:312-314 | after `pop()` the categories and the leaf name join back to the identifier; there is one category per delimiter; the leaf name has no `:`; an identifier without `:` is a bare leaf name |
| Identifiers.Tag | js/index.js:323 | a category key carries the prefix and the segment follows it |
| Identifiers.TagsInjective | js/index.js:322-323 | different category paths give different key paths |
| Identifiers.FindFrom | js/index.js:202 | the position found is an occurrence of the pattern, and there is none before it; no result means no occurrence |
| Identifiers.Strip | js/index.js:202 | on a key that starts with the prefix, the result is what follows the prefix |
| Identifiers.StripFirst | js/index.js:202 | a key without the prefix is returned unchanged; otherwise the first occurrence of the prefix, wherever it stands, is cut out and the rest is kept |
| Identifiers.StripTag | js/index.js:202 | stripping the key made for a category segment gives back the segment |
| Catalogue.SetAt | js/index.js:325 | after `current[k] = v` the value at `current` then `k` is `v` |
| Catalogue.SetAtWellFormed | js/index.js:325 | assigning a well-formed value keeps every object well-formed |
| Catalogue.Walk | js/index.js:320-330 | the `while` loop and the final `current[name] = path`: the root stays an object, and when no `TypeError` is thrown the path is stored under the walked category keys followed by the leaf name |
| Catalogue.Add | js/index.js:311-331 | one `forEach` callback: the index gets `src_by_name[name] = path` whether or not the walk throws, and when it does not throw the path is found at the identifier's key path |
| Catalogue.Build | js/index.js:307-332 | `prepareData` from empty globals, stopping at the first callback that throws: the root stays an object, and after a complete build the last identifier's path is at its key path |
| Catalogue.Catalogue.constructor | js/index.js:3-4 | `data` and `src_by_name` start empty |
| Catalogue.Catalogue.AddIdentifier | js/index.js:311-331 | the `forEach` callback with its `while` loop leaves exactly the state and the outcome of `Add` |
| Catalogue.Catalogue.PrepareData | js/index.js:307-332 | the loop over the sorted identifiers leaves exactly the state and the outcome of `Build` |
| Catalogue.BuildNext | js/index.js:311-331 | one more identifier is one more callback, unless an earlier one threw |
| Catalogue.BuildStops | js/index.js:311-331 | once a callback throws, no later identifier changes anything |
| CatalogueProofs.WalkInserts | js/index.js:320-330 | in a shaped tree the walk does not throw, keeps the tree shaped, stores the path under the category keys and the leaf name, keeps every category object, and leaves every other leaf unchanged |
| CatalogueProofs.StoreLeafKeeps | js/index.js:330 | `current[name] = path` keeps the tree shaped, stores the path, keeps every object and changes no other leaf |
| CatalogueProofs.NewCategoryKeeps | js/index.js:324-326 | `current[level] = {}` under an absent key creates an object there and keeps every object and every leaf |
| CatalogueProofs.NotUnderLeafName | js/index.js:323-330 | in a shaped tree a leaf name never leads to an object, so nothing lies below it |
| CatalogueProofs.AddInserts | js/index.js:311-331 | inserting one identifier does not throw, stores its path under its key path, and keeps all earlier category objects and all other leaves |
| CatalogueProofs.KeyPathInjective | js/index.js:312-323 | distinct identifiers have distinct key paths in the tree |
| CatalogueProofs.KeyPathDepth | js/index.js:312-330 | a leaf lies under one category key per delimiter, in segment order; an identifier without `:` is stored directly in `data` |
| CatalogueProofs.BuildStoresAll | js/index.js:307-332 | `prepareData` completes, leaves a shaped tree, and every identifier's path is found by following its key path |
| CatalogueProofs.BuildKeepsEarlier | js/index.js:324-327 | each insertion reuses existing category objects and never removes one; earlier leaves stay, except at the new key path |
| CatalogueProofs.IndexNext | js/index.js:318 | each identifier assigns its path to its leaf name in the index |
| CatalogueProofs.BuildIndex | js/index.js:308-318 | when `prepareData` completes, its index is exactly the assignments `src_by_name[name] = path` in identifier order |
| CatalogueProofs.IndexKeys | js/index.js:318 | those assignments leave a well-formed object holding exactly the leaf names, ordered by first occurrence |
| CatalogueProofs.IndexLastWins | js/index.js:318 | after those assignments each leaf name maps to the path of the last identifier with that name |
| CatalogueProofs.BuildIndexKeys | js/index.js:308-318 | the index is a well-formed object holding exactly the leaf names, ordered by first occurrence |
| CatalogueProofs.BuildIndexLastWins | js/index.js:308-318 | the index maps each leaf name to the path of the last identifier with that leaf name |
| CatalogueOrder.SetAtKeys | js/index.js:325 | `current[k] = v` puts `k` last in the enumeration order of the object at `current` unless it is already there, and changes the key order of no other object outside `v` |
| CatalogueOrder.PathKeyPresent | js/index.js:322-328 | every object on the way to an existing entry already holds the next key of the way, so following existing category objects adds no key |
| CatalogueOrder.StoreLeafKeys | js/index.js:330 | `current[name] = path` puts the leaf name last in the object at `current` unless it is already there, and changes no other object's key order |
| CatalogueOrder.InsertedCategoryKeys | js/index.js:324-326 | creating a missing category object gives its parent the category key and the new object no keys yet, as the final key order of the walk requires |
| CatalogueOrder.WalkKeys | js/index.js:320-330 | the walk for one identifier appends each key of its key path to the object it passes through, unless that object already holds it, and changes no other object's key order |
| CatalogueOrder.WalkWellFormed | js/index.js:320-330 | the walk keeps every object well-formed |
| CatalogueOrder.BuildWellFormed | js/index.js:307-332 | `prepareData` leaves every object of the catalogue well-formed |
| CatalogueOrder.BuildLast | js/index.js:311-331 | one more identifier changes the key order of the catalogue's objects exactly as its walk does |
| CatalogueOrder.UnreachedNone | js/index.js:320-330 | no identifier's key path passes below a place where the catalogue holds no object |
| CatalogueOrder.BuildTreeOrder | js/index.js:307-332 | sibling order: the keys of every object in the catalogue are the next keys of the identifiers that pass through it, each once, in the order the sorted identifiers first reach them |
| Sections.Entries | js/index.js:198-215 | the order in which `traverseObject` (js/index.js:300-305) and `processEntry` visit a subtree: depth first, each object's keys in enumeration order, a category entered under its stripped key; its contract states only that no keys give no events, and the lemmas `LeafPlacement`, `IconOrigin`, `CategoryEntered` and `EnteredCategory` state what it visits |
| Sections.Step | js/index.js:199-210 | the effect of one `processEntry` step on the layout keeps `containers` well-formed, never removes or reorders a wrapper, and only extends the root wrapper |
| Sections.Replay | js/index.js:186-215 | the steps in order keep `containers` well-formed, never remove or reorder a wrapper, and only extend the root wrapper |
| Sections.ProcessEntries | js/index.js:198-215 | the nested `processEntry` calls leave exactly the layout that replaying the traversal events gives |
| Sections.PopulateSection | js/index.js:181-190 | the wrappers placed in the container are the expected ones: the root wrapper, then one wrapper per distinct caption, each holding its icons |
| Sections.Expected | js/index.js:190 | there is one wrapper more than there are distinct captions |
| Sections.ReplayMatches | js/index.js:181-216 | rendering the replayed layout gives the expected wrappers |
| Sections.ReplayGrouped | js/index.js:186-215 | replaying the traversal gives the direct description: root icons, captions in first-entered order, and each caption's icons in traversal order |
| Sections.StepGrouped | js/index.js:198-213 | one more step of the traversal keeps the layout equal to the direct description |
| Sections.StepEnterGrouped | js/index.js:202-209 | entering a category keeps the layout equal to the direct description |
| Sections.EnterNewGrouped | js/index.js:203-209 | a caption seen for the first time gets a new, empty wrapper, enumerated last |
| Sections.EnterNewWrappers | js/index.js:203-209 | on a first entry the new wrapper is empty and the other wrappers keep their icons |
| Sections.EnterAgainGrouped | js/index.js:203-210 | a caption seen before reuses its wrapper, whatever the depth |
| Sections.EnterAgainWrappers | js/index.js:203-210 | entering a caption again changes no wrapper |
| Sections.StepAppendGrouped | js/index.js:199-200 | an icon goes at the end of the wrapper of its nearest enclosing category, or of the root wrapper |
| Sections.AppendWrappers | js/index.js:199-200 | an appended icon goes at the end of its own wrapper and of no other |
| Sections.EnteredFirstFront | js/index.js:201-213 | every category of a partial traversal is entered before its icons are appended |
| Sections.EntriesEnteredFirst | js/index.js:201-213 | each category is entered before any icon is appended to its wrapper |
| Sections.NeverEnteredNoIcons | js/index.js:203-209 | the wrapper of a caption never entered holds no icons |
| Sections.LabelsIn | js/index.js:202 | a caption is listed exactly when a category with that caption was entered |
| Sections.Render | js/index.js:190 | the container receives the root wrapper, then the wrapper of each caption in the enumeration order of `containers`, with that caption's icons |
| Sections.RenderShowsEach | js/index.js:190 | after the root wrapper, every container is shown exactly once, under its caption and with its own icons |
| Sections.LeafEvent | js/index.js:198-213 | the traversal appends a leaf stored directly in the traversed object to that object's wrapper, and a deeper leaf to the wrapper of its parent category's caption |
| Sections.CategoryEntered | js/index.js:201-213 | every category object below the traversed object, at any depth, is entered under its stripped key |
| Sections.EnteredCategory | js/index.js:201-213 | every caption entered is the stripped key of some category object below the traversed object |
| Sections.LeafPlacement | js/index.js:181-216 | in terms of the tree: a leaf directly in the section is in the root wrapper; any deeper leaf is in the wrapper captioned with its parent category's stripped key, and that wrapper is shown |
| Sections.Captions | js/index.js:181-216 | a wrapper captioned `c` is shown exactly when some category of the section, at any depth, has the stripped key `c` |
| Sections.IconAppended | js/index.js:199-200 | an icon in a wrapper was appended to that wrapper by the traversal |
| Sections.AppendedLeaf | js/index.js:198-215 | every icon the traversal appends comes from a leaf below the traversed object, with that leaf's name and path, and goes to the wrapper the leaf's position calls for |
| Sections.AppendedInner | js/index.js:209-213 | an icon appended below a category key comes from a leaf under that key, and goes to the wrapper of its parent category's caption |
| Sections.IconOrigin | js/index.js:181-216 | conversely to `LeafPlacement`: every icon in the root wrapper is a leaf stored directly in the section, and every icon in the wrapper captioned `c` is a deeper leaf whose parent category strips to `c` |
| Sections.ReplayAppend | js/index.js:211-213 | replaying two runs of events one after the other is replaying their concatenation |
| Variants.VariantName | js/index.js:254 | the file name starts with the icon name and is five characters longer than the name plus its variant key |
| Variants.PrintIcons | js/index.js:242-266 | canvas 0 is named `name-transparent.png` and keeps its fill; canvas i > 0 is named `name-` plus `bg_keys[i-1]` plus `.png` and is filled with the colour of that key |
| Variants.BackgroundSlot | js/index.js:259-266 | the callback for `index` records the name and the fill of canvas `index + 1` |
| Variants.TransparentEnding | js/index.js:254 | `name + "-transparent.png"` is the variant name of canvas 0 |
| Variants.EndingShape | js/index.js:254-266 | a variant ending is a dash, the variant key and `.png`, with no other dash |
| Variants.VariantKeysDistinct | js/index.js:232-238 | the four variant keys are pairwise different |
| Variants.EndingsDistinct | js/index.js:254-266 | no variant ending is a final segment of another |
| Variants.VariantNameInjective | js/index.js:254-266 | a variant file name determines both the icon name and the canvas |
| Variants.VariantNamesDistinct | js/index.js:254-266 | the four file names recorded by one click are pairwise different |

## Left out

- Catalogue.Catalogue.PrepareData: `Object.keys(iconpaths)` and `sort()` are not modelled. The identifiers arrive as a parameter, and a precondition requires them to be distinct, to be exactly the keys of `iconpaths`, and to be in order. `LessEq` compares characters, not UTF-16 code units. The lemmas about `Build` hold for any order of distinct identifiers.
- CatalogueProofs.BuildStoresAll, BuildKeepsEarlier, IndexNext, BuildIndex, BuildIndexKeys, BuildIndexLastWins, AddInserts, WalkInserts, StoreLeafKeeps and NotUnderLeafName, and CatalogueOrder.WalkKeys, BuildLast, UnreachedNone and BuildTreeOrder, require that no leaf name starts with `{LEVEL}`. `Build` models what happens with such a name (the walk can throw, or a leaf can overwrite a category object), but no lemma describes those outcomes.
- A `TypeError` thrown by `prepareData` also stops the rest of `createInterface`. The model stops the build and returns `false`.
- The `iconpaths` module is not part of this model. It is a parameter.
- DOM construction, buttons and event listeners are left out (js/index.js:21-78, 133-179, 218-227). This includes the button label at js/index.js:49, which uses the same `Strip`, and its lookup of a `Workbench` icon. In `Sections`, a wrapper is reduced to its caption and its icons, and an icon element to its name and path.
- Sections.PopulateSection: `containers` is treated as a plain dictionary. Captions that name inherited properties (`constructor`, `__proto__`) behave differently in JavaScript, and that is not modelled.
- JsObject: integer-like keys, which JavaScript enumerates first in numeric order, are not modelled. Every key is enumerated in insertion order.
- JsObject.Put: a key named `__proto__` is stored like any other. In JavaScript, assigning a string to `obj["__proto__"]` runs the inherited setter, which ignores it, so a leaf named `__proto__` is stored neither in `src_by_name` (js/index.js:318) nor in `data` (js/index.js:330).
- Variants.PrintIcons: it records only the file names and background fills. Canvas sizing, text metrics and drawing (`printIcon`) depend on browser floating-point metrics and are left out.
- Clipboard and downloads (js/index.js:334-383), search with regular expressions and debouncing (js/index.js:80-127), and the status timer are asynchronous browser behaviour and are left out.
