# Tree editor core, modelled in Dafny

The hardware-hierarchy visualizer is a browser page for building a tree of
named nodes. The user can add nodes and pick one by clicking it. A tree can be
loaded from a JSON file, and it is drawn with D3. Its state is two globals. One
is the tree `treeData`, a root object `{name, children}`. The other is the
selected node `selectedNode`. The behaviour modelled here:

- `addNode` appends a fresh leaf `{name, children: []}` under a parent, which is
  the root by default.
- `addChildToSelected` appends under the selected node.
- Clicking a drawn node selects it.
- `validateTreeStructure` checks a parsed file.
- `loadTreeFromJSON` swaps in a new tree and resets the selection to it.
- The button handlers trim the typed name, ignore a blank one, and check a
  file's tree before loading it.

The model is split into five modules:

- `JsonValues` (json.dfy) holds what `JSON.parse` produces: null, booleans,
  numbers, strings, arrays and objects. It also has JavaScript truthiness and
  property reads. A tree is walked through its `children` arrays, and a node
  is named by its path of child indices (`IsPath`, `NodeAt`).
- `Validation` (validation.dfy) is `validateTreeStructure` as a recursive
  function with three outcomes: accepted, rejected, or a TypeError. The error
  comes from reading `null.name`. `every` stops at the first child that fails,
  from left to right. The module proves that the validator accepts exactly the
  trees of a stated shape (`IsTree`).
- `Trees` (trees.dfy) is the append as a function on values, with its frame:
  what stays the same.
- `Text` (text.dfy) is `String.prototype.trim`, with ECMAScript's whitespace
  and line-terminator characters.
- `Editor` (editor.dfy) is the live state as a class `TreeEditor`. It has the
  fields `root` and `selection`; the selection is a path. Its methods are the
  operations and the button handlers.

The tree is kept as the parsed JSON value itself. It is not normalised into a
fixed record type, because a loaded tree is whatever object the file held. It
may have no `children` field, a falsy one such as `null`, or extra keys.
`JSON.parse` is an input: each load receives the parse result, or the fact that
parsing failed.

The load handler's alert (public/js/main.js:206) describes an accepted file as
one whose JSON "must contain "name" and optional "children" properties". The
validator's code differs from that description in three ways, and the model of
the validator follows the code:

- The validator also rejects an empty or non-string `name`.
- A `children` field that is falsy (`null`, `false`, `0`, `""`) counts as
  absent; it is not rejected as a non-array.
- A `null` where the validator expects a node raises a TypeError from
  `null.name`. That is the parsed value itself, or an element of a `children`
  array reached before any rejected sibling. The load handler catches it and
  reports "Invalid JSON file". A `null` as `name` is rejected, and a `null` as
  `children` counts as absent.

## Model

| member | source | states |
|---|---|---|
| `JsonValues.Truthy` | public/js/main.js:157-160 | undefined and null are falsy; every array and object is truthy (booleans, nonzero numbers and non-empty strings as in JavaScript) |
| `JsonValues.IsObject` | public/js/main.js:142 | a value passing `data && typeof data === 'object'` is truthy and not null |
| `Validation.NameOk` | public/js/main.js:157 | the name test passes exactly when the node is an object whose `name` is a non-empty string |
| `Validation.Validate` | public/js/main.js:156-167 | the validator itself: an accepted node is an object with a good name, and an exception comes only from a null node or from a child of a `children` array (fully characterised by `ValidateIsTree` and `ThrowsOnlyOnNull`) |
| `Validation.ValidateEvery` | public/js/main.js:164 | the check over the children, when it does not accept, returns the outcome of one of the children (characterised by `ValidateEveryAll` and `ValidateEveryFirstFailure`) |
| `Validation.ValidateCases` | public/js/main.js:156-167 | a null node raises; a node without a non-empty string `name` is rejected; with a good name, an absent or falsy `children` is accepted and a truthy non-array `children` is rejected |
| `Validation.ValidateEveryAll` | public/js/main.js:164 | the check over the children accepts exactly when every child is accepted |
| `Validation.ValidateEveryFirstFailure` | public/js/main.js:164 | the check over the children reports the outcome of the first child that is not accepted (false or the exception), whatever follows it |
| `Validation.FirstNotAccepted` | public/js/main.js:164 | when the check over the children fails, some first child caused it: all before it were accepted and its outcome is the result |
| `Validation.ValidateIsTree` | public/js/main.js:156-167 | the validator accepts a value if and only if it is an object with a non-empty string name whose truthy `children` is an array of such trees |
| `Validation.ThrowsOnlyOnNull` | public/js/main.js:156-167 | the validator raises only on a value that holds a `null` at the node or under it |
| `Validation.AcceptedDescendants` | public/js/main.js:164 | in an accepted tree every node is accepted, so one invalid descendant makes the whole tree invalid |
| `Trees.Leaf` | public/js/main.js:11 | the new node has the given name and no children, and passes the validator exactly when the name is non-empty |
| `Trees.PushAsWritten` | public/js/main.js:11-12 | the push as written succeeds exactly when the node is an object whose `children` is an array; then the node keeps every other field and its children become the old ones plus the new leaf at the end |
| `Trees.Push` | public/js/main.js:11-12 | corrected push: on success the node keeps every other field and its children become the old children plus the new one at the end |
| `Trees.PushAsWrittenFailsOnLoadedLeaf` | public/js/main.js:12 | `{"name":"X"}` passes the validator, yet pushing a child onto it as written raises |
| `Trees.PushAgreesWhereAsWrittenWorks` | public/js/main.js:12 | wherever the push as written succeeds, the corrected push gives the same node |
| `Trees.PushOnAcceptedNode` | public/js/main.js:11-12 | on every node the validator accepts, the corrected push succeeds and keeps the node accepted when the new child is |
| `Trees.AddAt` | public/js/main.js:10-12 | appending under the node a path leads to leaves that path valid, and the target's children become the old children plus the new one |
| `Trees.AcceptedIsEditable` | public/js/main.js:156-167 | every tree the validator accepts has a node or an array wherever a child can be appended |
| `Trees.AddAtOnEditable` | public/js/main.js:10-12 | on an editable tree, appending under any node succeeds and keeps the tree editable when the new child is |
| `Trees.AddAtKeepsAccepted` | public/js/main.js:11 | appending an accepted child (a leaf with a non-empty name) anywhere in an accepted tree leaves it accepted |
| `Trees.AddAtFrame` | public/js/main.js:12 | after an append every old path is still valid, every node off the way to the target is unchanged, and nodes on the way keep all fields but `children` and, above the target, the number of their children |
| `Text.Trim` | public/js/main.js:180 | the trimmed name is no longer than the input and neither starts nor ends with whitespace (fully characterised by `TrimKeepsMiddle`) |
| `Text.LeadingEnd` | public/js/main.js:180 | every character before the returned index is whitespace, and the one at it (if any) is not |
| `Text.TrailingStart` | public/js/main.js:180 | every character from the returned index on is whitespace, and the one just before it (if any) is not |
| `Text.TrimKeepsMiddle` | public/js/main.js:180 | `trim` keeps a contiguous middle of the input, drops only whitespace on both sides, and keeps no whitespace at either end |
| `Text.TrimEmptyIffBlank` | public/js/main.js:181 | the trimmed name is empty if and only if the typed text is all whitespace |
| `Editor.InitialTree` | public/js/main.js:2-5 | the start-up tree `{name:'Root', children:[]}` passes the validator and has no children |
| `Editor.TreeEditor.constructor` | public/js/main.js:2-7 | the editor starts with the initial tree, the selection at the root, and the state invariant holding |
| `Editor.TreeEditor.AddNode` | public/js/main.js:10-15 | the parent gains the new leaf at the end of its children with its other fields unchanged; every node off the way to the parent is unchanged; the selection stays; a non-empty name keeps an accepted tree accepted |
| `Editor.TreeEditor.AddChildToSelected` | public/js/main.js:17-21 | the selected node gains the new leaf at the end of its children; the selection stays |
| `Editor.TreeEditor.Select` | public/js/main.js:70-73 | a click on a node of the current tree makes it the selection and leaves the tree unchanged |
| `Editor.TreeEditor.LoadTreeFromJSON` | public/js/main.js:139-154 | a parsed object the validator accepted becomes the tree and the selection goes to its root; a failed parse or a value failing `data && typeof data === 'object'` leaves tree and selection unchanged |
| `Editor.TreeEditor.ClickAddNode` | public/js/main.js:179-185 | a blank name changes nothing and stays in the field; otherwise the trimmed name is appended under the root and the field is cleared; the invariant and validity are kept |
| `Editor.TreeEditor.ClickAddChild` | public/js/main.js:187-193 | a blank name changes nothing; otherwise the trimmed name is appended under the selected node and the field is cleared; the invariant and validity are kept |
| `Editor.TreeEditor.ClickLoad` | public/js/main.js:195-217 | no file, a failed parse, a rejected tree or a validator exception each give their alert and leave tree and selection unchanged; an accepted tree replaces the tree and resets the selection |

## Left out

- D3 drawing is not modelled: `createTreeVisualization`, `createRadialVisualization` and the layout-mode selector (public/js/main.js:29-118, 232). They use a foreign library and floating-point geometry.
- `updateVisualization` and `updateTreePreview` are not modelled: they are DOM writes (public/js/main.js:120-136). Nothing records that a redraw is due after a mutation.
- `JSON.parse` is an input to the load operations, either its value or a parse failure. `JSON.stringify`, the preview text and the export download (public/js/main.js:135, 219-230) are not modelled. Object key order is not kept.
- The `FileReader` callback is collapsed into one call of `ClickLoad`, which takes what was read. Alerts are shown as `LoadOutcome` values. `console.error` is not modelled.
- `Editor.TreeEditor.LoadTreeFromJSON`: its requires admits only objects the validator accepted, which is all its one caller passes. Its own "Invalid JSON format" alert is not modelled; only its `false` result is.
- `Editor.TreeEditor.ClickLoad`: the JavaScript call stack is finite and is not modelled. `validateTreeStructure` recurses once per nesting level, so a file nested deeply enough makes it raise a RangeError. The handler catches it and alerts "Invalid JSON file", leaving the state unchanged. The model instead loads such a file when its shape is accepted.
- `Editor.TreeEditor.Select`: the clicked node is assumed to be a node of the current tree, as the drawing only shows those. The radial layout has no click handler.
- `Editor.TreeEditor.AddNode`: it uses the corrected append described under Findings. As written, appending under a node without a `children` array raises a TypeError and adds nothing (`Trees.PushAsWritten`). Its callers `Editor.TreeEditor.AddChildToSelected`, `Editor.TreeEditor.ClickAddNode` and `Editor.TreeEditor.ClickAddChild` inherit this. For example, on a loaded root `{"name":"X"}` the Add button raises at public/js/main.js:12, before line 183 clears the name field. The model appends the node and clears the field.
- Object identity is not modelled. Nodes are values and the selection is a path. Both `JSON.parse` and `addNode` create fresh objects, so the tree never shares a node and the path denotes the same node as the reference would.
- A number is held as the exact real its text denotes. `JSON.parse` yields a double, rounded, or Infinity for a literal such as `1e400`. The editor only asks whether a number is truthy. An Infinity is nonzero like the real it stands for, so it behaves the same. The one exception is a nonzero literal that underflows to 0, such as `"children": 1e-400`. JavaScript reads it as a falsy `children` and accepts the node; the model reads it as a truthy non-array and rejects it.
- `trim` is modelled on Unicode characters rather than UTF-16 code units. Every character `trim` removes lies in the Basic Multilingual Plane, so the two agree.

## Findings

| source | as written | input that shows it | evidently intended | confidence | as-written member | corrected member |
|---|---|---|---|---|---|---|
| public/js/main.js:12 | `addNode` calls `push` on `parentNode.children`, but the validator (lines 156-166) accepts nodes whose `children` is absent or falsy | load a file holding `{"name":"X"}`, then add a node named "A": `children` is undefined, the push raises a TypeError and nothing is added | every tree the loader accepts can be extended; an absent or falsy `children` acts as an empty list | high; not executed | `Trees.PushAsWrittenFailsOnLoadedLeaf` | `Trees.PushOnAcceptedNode` |
