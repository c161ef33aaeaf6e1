# as-enclosure: a verified model of the tree builder and the hierarchy normaliser

as-enclosure draws a repository as nested circles, one per folder and file. This
project models in Dafny the part of it that is plain logic, in two pieces.

1. **The builder behind `readFromStdin`** (`src/read-from-stdin.ts`). Each input
   line has the form `dir/dir/file:count`. `parseLine` splits such a line into
   folders, a file name and a count, and the count goes through JavaScript's
   `parseInt`. `updateTree` then walks down the mutable tree from the root
   `{name: ".", path: "", size: 4096}`. At each folder it reuses the first
   child with the same name or pushes a new folder. At the end it pushes a leaf
   for the file. The mutable tree is a class (`StdinBuilder.StdinTree`) that
   holds node objects in an arena, with indices standing for object references.
   Its methods are proved against a pure insertion on tree values
   (`TreeInsert.Insert`), and the properties of the builder are proved about
   that insertion.
2. **The normaliser and layout bookkeeping in `src/Tree.tsx`.**
   - `processChild` rewrites the tree:
     - it merges single-child chains;
     - it derives the extension;
     - it moves the root's loose files into one bucket;
     - it computes the capped weight.
   - `getSortOrder` and `getColor` pick each node's sort key and colour.
   - The sibling comparator and the legend list are modelled as functions.
   - The refill of the sort-key and position caches after a layout is modelled.
   - Three parts of `reflowSiblings` are modelled:
     - seeding each sibling from the cache;
     - rigidly translating a moved circle's subtree;
     - shifting the cached positions before a nested relaxation.

JavaScript values are modelled explicitly in `JsValues`:
- Numbers are integers or NaN. `parseInt` yields NaN, and NaN propagates through `Math.min`, `+` and `-`.
- A value that may be `undefined` is an `Option`.
- Truthiness is spelled out: `0`, NaN, `undefined` and `""` are falsy, and an empty array is truthy.

A missing `children` property and an empty `children` array are two different
values (`Children.Absent` versus `Listed([])`), because `?.length`, `??=` and
`if (d.children)` treat them differently.

Line splitting follows JavaScript's `String.prototype.split` on a one-character
separator:
- there is always at least one piece;
- an empty string gives `[""]`;
- a trailing separator gives a trailing empty piece.

Some field values are taken from the code exactly:
- The path of every file leaf is the literal text `$currentPath/$name`. At
  src/read-from-stdin.ts:50 the template has no `${}`, so nothing is interpolated.
- A collapsed folder keeps its own `size` and, through `...child`, the weight
  `value` is computed from that size, not from the merged child's. Only name,
  path and children come from the child: src/Tree.tsx:322-324 reassign them, and
  src/Tree.tsx:344 spreads the original node.
- `isRoot` is "the original node's `path` is empty". So any folder whose path
  is empty is bucketed, not just the top one. A line starting with `/` produces
  such a folder.

## Model

| member | source | states |
|---|---|---|
| Strings.Split | src/read-from-stdin.ts:57-58 | `split` on one character: at least one piece, no piece contains the separator, and there are two or more pieces exactly when the separator occurs |
| Strings.JoinSplit | src/read-from-stdin.ts:58 | joining the pieces of a split with the separator gives back the string |
| LineParser.PathTextPrefix | src/read-from-stdin.ts:57 | the path part holds no `:` and is either the whole line or the text before the first `:` |
| LineParser.ParseLinePath | src/read-from-stdin.ts:57-62 | `dirs + [name]` is the path split on `/`, and joining them with `/` gives the path back |
| LineParser.ParseLineCount | src/read-from-stdin.ts:57-63 | the count is NaN when the line has no `:`, otherwise `parseInt` of the text between the first and the second `:` |
| LineParser.ParseIntText | src/read-from-stdin.ts:63 | `parseInt` reads back any decimal integer written out, whatever non-digit text follows it |
| LineParser.ParseIntSkipsSpace | src/read-from-stdin.ts:63 | `parseInt` skips leading JavaScript white space |
| LineParser.ParseIntMinus | src/read-from-stdin.ts:63 | a leading `-` negates the digits that follow it |
| LineParser.ParseFormatLine | src/read-from-stdin.ts:55-65 | a line written as `dir/.../name:count`, with no `/` or `:` inside its pieces, parses back to exactly those folders, that name and that count |
| TreeInsert.PathAfterJoin | src/read-from-stdin.ts:20-24 | after the folders, `currentPath` is the folders joined with `/`, leading empty folder names dropped |
| TreeInsert.NoLeadingSlash | src/read-from-stdin.ts:23-24 | `currentPath` never starts with `/` when no folder name contains one |
| TreeInsert.FirstNamed | src/read-from-stdin.ts:29 | `find` by name: the first child with that name, or none when no child has it |
| TreeInsert.DescendFound | src/read-from-stdin.ts:29-31 | when a child with the folder's name exists, the rest of the insertion happens inside the first such child |
| TreeInsert.DescendNew | src/read-from-stdin.ts:32-41 | otherwise `{name: dir, path: currentPath, size: 4096, children: []}` is appended at the end and the rest of the insertion happens inside it |
| TreeInsert.InsertLeaf | src/read-from-stdin.ts:19-53 | the insertion follows a valid route whose names are the folders, and the node at its end has the new leaf (name, size = count, literal path) as its last child |
| TreeInsert.InsertFreshPaths | src/read-from-stdin.ts:20-41 | into a node without children, every created folder's path is `currentPath` after that many folders |
| TreeInsert.InsertCount | src/read-from-stdin.ts:26-52 | the node count grows by the number of missing folders plus one |
| TreeInsert.InsertEmbeds | src/read-from-stdin.ts:26-52 | nothing is removed or reordered: every node keeps its name, path and size, and its old children stay a prefix of its new ones |
| TreeInsert.AddLinesCount | src/read-from-stdin.ts:12-14 | each line adds at least one node |
| StdinBuilder.StdinTree.constructor | src/read-from-stdin.ts:6-10 | the builder starts as the root `{name: ".", path: "", size: 4096}` without children |
| StdinBuilder.StdinTree.Find | src/read-from-stdin.ts:29 | the loop finds the position of the first child with that name, or the number of children when none has it |
| StdinBuilder.StdinTree.Push | src/read-from-stdin.ts:46-52 | `children ??= []` then `push`: the node object gets the new object as its last child and the rest of the tree is unchanged |
| StdinBuilder.StdinTree.Descend | src/read-from-stdin.ts:22-41 | one turn of the folder loop moves the remaining insertion one level down, into the found or the new folder |
| StdinBuilder.StdinTree.UpdateTree | src/read-from-stdin.ts:19-53 | the in-place update leaves exactly the tree that the pure insertion of the parsed line produces |
| StdinBuilder.StdinTree.ReadLines | src/read-from-stdin.ts:12-14 | after the loop, the tree is the old tree with every line inserted in turn |
| StdinBuilder.ReadFromStdin | src/read-from-stdin.ts:3-17 | the returned tree is the root with every line inserted in order |
| Normalizer.Branches | src/Tree.tsx:333 | every kept child has a non-empty `children` array |
| Normalizer.Loose | src/Tree.tsx:331 | no kept child has a non-empty `children` array |
| Normalizer.BucketPartition | src/Tree.tsx:330-341 | folders and loose children together are exactly the children, none lost and none duplicated |
| Normalizer.BucketOrder | src/Tree.tsx:331-333 | both groups keep the children's original order |
| Normalizer.BucketedShape | src/Tree.tsx:332-340 | the result ends with one bucket named and pathed `__structure_loose_file__`, size 0, that holds the loose children; every entry before it has children |
| Normalizer.RootBucketing | src/Tree.tsx:330-341 | at the root, the children are the folder children in order followed by the bucket of the leaves in order, as a permutation |
| Normalizer.MappedChildren | src/Tree.tsx:318-320 | each child is rewritten with its own index; a missing `children` stays missing |
| Normalizer.CollapseRule | src/Tree.tsx:321-325 | with exactly one rewritten child, the name becomes `name/childName` and the child's path is taken over; below the root the child's children are taken over too (at the root they are then bucketed) |
| Normalizer.NoCollapseRule | src/Tree.tsx:314-325 | otherwise name, path and size stay; below the root the children are the rewritten ones, and a missing `children` stays missing |
| Normalizer.ProcessNoChains | src/Tree.tsx:308-366 | in a tree below the root, no rewritten node has exactly one child, at any depth |
| Normalizer.RootNoChains | src/Tree.tsx:308-366 | no child of the normalised root, nor any node below it, has exactly one child, except the loose-files bucket, which may hold a single file |
| Normalizer.FilterKeeps | src/Tree.tsx:331-333 | the filters only keep children that were there |
| Normalizer.ExtensionRule | src/Tree.tsx:326-327 | the extension is the text after the last `.` of the final name, or the whole name; `pathWithoutExtension` is the path before its last `.`, or empty |
| Normalizer.Value | src/Tree.tsx:351-358 | 100 + i for font and image extensions; otherwise min(size, 15000) + i for an extension with a colour and min(size, 9000) + i for one without, both below and above the cap; NaN only for a NaN size |
| Normalizer.ValueRule | src/Tree.tsx:351-358 | the rewritten node's weight follows those three cases, and value − i is at most 15000, and at most 9000 for a colourless extension |
| Normalizer.CachedKeyWins | src/Tree.tsx:503 | a truthy cached key is returned whatever the name, weight and index, and it is a nonzero number |
| Normalizer.UncachedKey | src/Tree.tsx:502-509 | without a cached key and outside `public`, the index cancels: the key is the capped size |
| Normalizer.SortOrderRule | src/Tree.tsx:362-363 | the rewritten node's sort key follows that precedence on its final path and name |
| Normalizer.MainExtension | src/Tree.tsx:61-62 | the chosen extension occurs among the children at least as often as any other, the bucket counting as `"undefined"`; `"undefined"` when there are no children |
| Normalizer.MainExtensionFirst | src/Tree.tsx:62 | on a tie, the extension that occurs first among the children wins |
| Normalizer.ColorRule | src/Tree.tsx:58-66 | a node with a `children` array takes the colour of a most frequent child extension; a node without one takes the colour of its own extension |
| Layout.RecordLastWins | src/Tree.tsx:93-104 | after the writes, a path maps to the value of the last circle that carries it |
| Layout.RecordUntouched | src/Tree.tsx:93-104 | a path that no circle carries keeps its old entry, or stays absent |
| Layout.RecordKeys | src/Tree.tsx:93-104 | the keys after the writes are the old keys plus the circles' paths |
| Layout.RecordAppend | src/Tree.tsx:98 | writing two lists in turn is writing their concatenation |
| LayoutCache.Cache.constructor | src/Tree.tsx:93-94 | both caches start empty |
| LayoutCache.Cache.SaveOrder | src/Tree.tsx:95-100 | the recursive walk writes every circle's sort key under its path, in pre-order, and leaves the positions alone |
| LayoutCache.Cache.Refill | src/Tree.tsx:93-104 | given the packer's list of exactly the tree's circles, the keys are those written by the walk from the root and the positions those written by the pass over the list, both from empty maps, and both caches hold the same paths |
| LayoutCache.RefillKeys | src/Tree.tsx:93-101 | after the refill, the sort-key cache has exactly the paths of the tree as keys |
| LayoutCache.RefillSameKeys | src/Tree.tsx:93-104 | whatever order the packer lists the circles in, the position cache and the sort-key cache end up with the same paths |
| LayoutCache.RefillEntry | src/Tree.tsx:95-101 | a node whose path no later node repeats has its own sort key cached |
| LayoutCache.KeyPersists | src/Tree.tsx:95-101 | in the next pass, a node at the same path gets back the same nonzero sort key |
| Reflow.SeedRule | src/Tree.tsx:375-383 | each coordinate starts from the cached one when it is present and not 0, and from the packed one when it is missing or 0; the packed centre is kept as the original, and data and children are kept |
| Reflow.ShiftCompose | src/Tree.tsx:440-450 | translating by (a, b) and then by (c, d) is translating by (a + c, b + d) |
| Reflow.ShiftZero | src/Tree.tsx:440-450 | translating by (0, 0) changes nothing |
| Reflow.ShiftErase | src/Tree.tsx:440-450 | translation keeps the tree's shape and every node's data |
| Reflow.ShiftPreorder | src/Tree.tsx:440-450 | the nodes of the translated tree are, in walk order, the translated nodes of the tree |
| Reflow.ShiftMovesEveryNode | src/Tree.tsx:440-450 | the same node count and data, and every centre moved by exactly (dx, dy) |
| Reflow.ShiftCacheChild | src/Tree.tsx:474-489 | a child whose path no sibling shares maps to its cached position plus the parent's offset from its own cached position, or to its current centre when it had no entry |
| Reflow.ShiftCacheOthers | src/Tree.tsx:474-489 | every other entry is unchanged |
| Reflow.NestedCache | src/Tree.tsx:460-489 | the loop over the children leaves the copied cache in the shifted state |
| Reflow.RepositionOne | src/Tree.tsx:452-497 | one turn of the loop: the item's subtrees move by its relaxation offset, and the cache is shifted by its offset from its cached centre when it has more than 4 children |
| Reflow.RepositionItems | src/Tree.tsx:451-497 | every item's subtrees move with the item's relaxation offset; the shifted cache is prepared only for an item with more than 4 children |
| SiblingOrder.Compare | src/Tree.tsx:72-75 | the comparator never returns 0 |
| SiblingOrder.KeyedOrder | src/Tree.tsx:72-75 | a larger sort key goes first; on equal keys the larger name goes first |
| SiblingOrder.UnkeyedOrder | src/Tree.tsx:72-75 | with a missing or NaN key on either side, only the names decide |
| SiblingOrder.CompareAntisymmetric | src/Tree.tsx:72-75 | swapping the arguments flips the order, unless the names are equal and the keys tie |
| SiblingOrder.SameNameTie | src/Tree.tsx:72-75 | two siblings with the same name and tied keys each compare as going after the other |
| SiblingOrder.BeforeTransitive | src/Tree.tsx:72-75 | among keyed siblings with distinct names the order is transitive |
| Legend.InsertSorted | src/Tree.tsx:109-111 | adding one extension keeps the list sorted and duplicate-free |
| Legend.FileTypes | src/Tree.tsx:109-111 | the legend is strictly sorted and holds exactly the non-empty extensions that have a colour, among the laid-out nodes |
| Legend.SortedUnique | src/Tree.tsx:110 | a strictly sorted list is determined by its elements |
| Legend.FileTypesOrderFree | src/Tree.tsx:109-111 | the legend depends only on which nodes are laid out, not on their order or repetition |
| JsValues.Min | src/Tree.tsx:355-357 | `Math.min`: NaN when an argument is NaN, else the smaller argument |

## Left out

- The d3 library is not modelled: `hierarchy`, `sum`, `sort`, `pack`, the padding callback and `descendants()`. Floating-point circle packing is out of reach here. The list `descendants()` returns is a parameter of `LayoutCache.Cache.Refill`: it is required to hold exactly the circles of the tree, and its order is left open. The comparator is modelled, but not d3's use of it.
- The force simulation and the 290-tick relaxation in `reflowSiblings` are not modelled: forces, collisions, `keepBetween` and `keepCircleInsideCircle` are d3 floating-point numerics. The items reach `Reflow.RepositionItems` with the centres the relaxation produced.
- Reflow.RepositionItems: it does not make the recursive `reflowSiblings` call on the prepared cache. It returns the caches the nested calls would receive, not their results.
- `truncateString` lives in `./utils`, which is not part of this model. The label is an injected function in `Normalizer.Env`.
- The colour table `language-colors.json` is an injected map.
- Normalizer.MainExtension: JavaScript object key order (integer-like keys first in `countBy`) is not modelled. The model breaks a tie by the first occurrence, and `Normalizer.ColorRule` promises only a most frequent extension.
- Circle centres are real numbers, not doubles, so rounding is not modelled.
- Sizes, counts, weights and parsed integers are unbounded integers. JavaScript's 2^53 limit on exact integers is not modelled: rounding of large sums, and `parseInt` of a long digit run (rounded, or `Infinity`).
- Strings are sequences of code points. JavaScript compares and splits UTF-16 code units, which differ only outside the Basic Multilingual Plane. Legend sorting and name comparison order by code points.
- Prototype keys such as `constructor` are not modelled: map lookups see only the keys actually stored.
- `processChild`'s `if (!child) return` is not modelled, because the trees here never hold nulls.
- The readline loop is not modelled: the input lines are a parameter, and there is no I/O.
- `src/process-dir.ts`, the filesystem walk, is not part of this model.
- `src/index.tsx`, the command line, is not part of this model.
- React state (`useRef`, `useMemo`), the SVG markup and the legend markup are not modelled. The caches are fields of `LayoutCache.Cache`.
- LayoutCache.RefillEntry: the entry is stated only for a node whose path no later node repeats. A repeated path keeps the last node's key, as `Layout.RecordLastWins` states.
