# Flat tree of a terminal file navigator

This project models `src/flat_tree.rs` of broot, a terminal file navigator. The displayed
file-system tree is stored as an ordered sequence of lines. Each line carries:

- its depth;
- one "draw a connector here" flag per ancestor level;
- a key string encoding its ancestor sibling ranks;
- its path;
- its content: a file, a directory or a Pruning placeholder.

The tree holds these lines and the index of the selected line. Keyboard navigation and search
move that selection.

The model is split into five modules:

- `Wrappers` (`wrappers.dfy`): `Option`.
- `KeyCodec` (`key_codec.dfy`): `index_to_char`, and the key that `fill_key` builds, as pure
  functions with their injectivity, prefix and ordering lemmas.
- `TreeLines` (`tree_line.dfy`): the `LineType` datatype and the `TreeLine` class. It has the
  constructor `Create`, the queries `IsDir` and `Name`, and the in-place `FillKey` loop.
- `Selection` (`selection.dfy`): value-level specifications of the four selection operations.
  They are written over the sequences of keys, contents and scores of the lines, with the
  lemmas about them. These cover cyclic stepping, termination of the move loop, earliest-maximum
  best match and the cyclic next-match scan.
- `FlatTree` (`flat_tree.dfy`): the `Tree` class with fields `lines` and `selection`. Its
  mutators are methods with loops. They `modify` only `selection`, and each `ensures` ties the
  new selection to the matching `Selection` function.

The source's outside calls become parameters:

- `fs::metadata(&path)` becomes `metadata: Option<bool>`: `None` when the lookup fails,
  otherwise whether the path is a directory.
- `path.file_name()` becomes `fileName: Option<string>`.
- `Pattern::test` becomes `pattern: string -> Option<int>`, the score of a match, if any.

Two behaviours of the code worth knowing:

- `try_select` (src/flat_tree.rs:110-118) does not look at the content, so a Pruning line with the
  key can be selected. `TrySelect` does the same and promises nothing about `Valid()`.
  `MoveSelection`, `TrySelectBestMatch` and `TrySelectNextMatch` do keep `Valid()`.
- The best-match scan sets the selection only on a score above the running best, which starts at
  0 (src/flat_tree.rs:149-156). So on false the selection is unchanged, as the comment at
  src/flat_tree.rs:146-147 says; `BestScan`'s contract states this.

## Model

| member | source | states |
|---|---|---|
| `KeyCodec.IndexToChar` | src/flat_tree.rs:37-44 | ranks 1..26 give exactly 'a'..'z', 27..36 exactly '0'..'9', 37..60 exactly 'A'..'X'; every other rank gives ' ' |
| `KeyCodec.IndexToCharRoundTrip` | src/flat_tree.rs:37-44 | decoding the code character of a rank in 1..60 gives that rank back |
| `KeyCodec.CharToIndexRoundTrip` | src/flat_tree.rs:37-44 | every character of the code alphabet is the code of the rank it decodes to |
| `KeyCodec.IndexToCharInjective` | src/flat_tree.rs:37-44 | distinct ranks in 1..60 have distinct code characters |
| `KeyCodec.IndexToCharMonotone` | src/flat_tree.rs:37-44 | within each band (letters, digits, capitals) the code order follows the rank order |
| `KeyCodec.KeyCode` | src/flat_tree.rs:83-87 | the appended key part has exactly `depth` characters; character i is the code of `ranks[i + 1]` |
| `KeyCodec.KeyCodePrefix` | src/flat_tree.rs:83-87 | the key built to a shallower depth is a prefix of the key built from the same ranks to a deeper one |
| `KeyCodec.KeyCodeInjective` | src/flat_tree.rs:83-87 | with ranks in 1..60, equal keys mean equal ranks at levels 1..depth |
| `KeyCodec.KeyCodeLowercase` | src/flat_tree.rs:83-87 | ranks in 1..26 give a key of lower-case letters only |
| `KeyCodec.KeyCodeLastRankOrder` | src/flat_tree.rs:83-87 | two rank paths differing only in the last rank (both in 1..26) give keys in the same lexicographic order as those ranks |
| `KeyCodec.KeyCodeLastRankOrderIff` | src/flat_tree.rs:83-87 | for paths differing only in the last rank (both in 1..26), the keys are in lexicographic order exactly when the last ranks are in numeric order |
| `TreeLines.LineName` | src/flat_tree.rs:49-52 | the final path component when there is one, otherwise "???" |
| `TreeLines.ContentOf` | src/flat_tree.rs:53-64 | the error flag is set exactly when metadata fails, and then the content is `File`; the content is `Dir` with 0 unlisted exactly when metadata says directory; never `Pruning`; the name is kept |
| `TreeLines.TreeLine.Create` | src/flat_tree.rs:47-73 | `depth` flags, all false; empty key; path and depth stored; error flag exactly on failed metadata, then `File`; `Dir` with 0 unlisted exactly on a directory; the name is the final component, or "???" when there is none |
| `TreeLines.TreeLine.IsDir` | src/flat_tree.rs:74-82 | true exactly when the content is `Dir`, and then the line has a name |
| `TreeLines.TreeLine.Name` | src/flat_tree.rs:88-94 | `None` exactly for `Pruning` content, otherwise the name of the `File` or `Dir` |
| `TreeLines.TreeLine.FillKey` | src/flat_tree.rs:83-87 | only the key changes: it becomes the old key followed by `KeyCode(ranks, depth)`; it requires `ranks[depth]` to exist when depth > 0 |
| `FlatTree.Tree.HasBranch` | src/flat_tree.rs:98-107 | false for a line index past the end or a depth at least the line's depth, otherwise the line's flag at that depth; reads only; requires the flag to exist when the depth is below the line's depth, where the source would panic |
| `Selection.FirstIndexOf` | src/flat_tree.rs:110-118 | some index is found exactly when the key occurs; it is the smallest index holding the key |
| `FlatTree.Tree.TrySelect` | src/flat_tree.rs:108-118 | returns true exactly when some line has the key, and then selects the first such line; otherwise the selection is unchanged |
| `Selection.FirstIndexOfDistinct` | src/flat_tree.rs:108-118 | with unique keys, searching for the key of line s finds s: re-selecting the current key keeps the selection |
| `FlatTree.Tree.Valid` | src/flat_tree.rs:34 | there is always a selection: it is inside the tree and on a named (not Pruning) line |
| `Selection.StepDefined` | src/flat_tree.rs:121-122 | the guard of the move: a non-empty tree (no `% 0`) and `l as i32 + dy` within `i32` and non-negative for the `usize` cast |
| `Selection.Step` | src/flat_tree.rs:121-122 | one step of the move lands inside the tree, given the `i32`/`usize` cast guard |
| `Selection.FirstSelectableStep` | src/flat_tree.rs:119-136 | the least step count in k..n that lands on a non-Pruning line, every earlier count landing on Pruning; `None` when all counts up to n land on Pruning |
| `Selection.IterClosedForm` | src/flat_tree.rs:119-136 | k steps from s land on line `(s + k * dy) mod n` |
| `Selection.Periodic` | src/flat_tree.rs:120-135 | the orbit of the move loop repeats every n steps |
| `Selection.OrbitLands` | src/flat_tree.rs:120-135 | a selectable line reached after any number of steps is reached within n steps, so `MoveSelection`'s precondition is exactly "the loop's orbit reaches a selectable line" |
| `Selection.Iter` | src/flat_tree.rs:120-135 | where k passes of the move loop lead; after at least one pass the selection is inside the tree |
| `Selection.IterForward` | src/flat_tree.rs:119-136 | moving by +1, k steps from line s land on `(s + k) mod n` |
| `Selection.StepsTo` | src/flat_tree.rs:119-136 | with dy = +1 or -1, every line is reached within 1..n steps |
| `Selection.MoveTerminates` | src/flat_tree.rs:119-136 | with dy = +1 or -1 and at least one non-Pruning line, the move loop reaches a selectable line, so `MoveSelection`'s precondition holds |
| `Selection.MoveForwardNoPruning` | src/flat_tree.rs:119-136 | with no Pruning lines, a move by +1 takes one step, from s to `(s + 1) mod n` |
| `FlatTree.Tree.MoveSelection` | src/flat_tree.rs:119-136 | only the selection changes; the new selection is the first point of the dy-orbit that is not Pruning; it is in bounds and selectable afterwards |
| `FlatTree.Tree.Key` | src/flat_tree.rs:137-139 | the key of the selected line (which needs an in-bounds selection); `try_select` on it finds a line |
| `FlatTree.Tree.SelectedLine` | src/flat_tree.rs:140-142 | the line at the selection index, which must be in bounds |
| `FlatTree.Tree.Root` | src/flat_tree.rs:143-145 | the path of line 0, for a non-empty tree |
| `Selection.MatchScore` | src/flat_tree.rs:151-152 | unnamed (Pruning) lines are never tested; a named line gets the pattern's verdict on its name |
| `Selection.BestScan` | src/flat_tree.rs:148-160 | best score >= 0; when it is 0 the selection is unchanged and no line scores above 0; otherwise the selected line has that score, no line scores higher, and every earlier line scores strictly lower |
| `Selection.BestScanFound` | src/flat_tree.rs:160 | the best score is above 0 exactly when some line scores above 0 |
| `Selection.BestScanExample` | src/flat_tree.rs:146-161 | the higher-scored "app" beats "apple"; on a tie the earlier line wins |
| `FlatTree.Tree.TrySelectBestMatch` | src/flat_tree.rs:146-161 | only the selection changes; true exactly on a score above 0; the result and the new selection are those of `BestScan` on the lines' scores; on true, a named line is selected |
| `Selection.ScanIndex` | src/flat_tree.rs:164 | the line tested at offset di after s lies inside the tree |
| `Selection.NextMatchFrom` | src/flat_tree.rs:163-172 | the first offset whose line `(s + di + 1) mod n` matches, every earlier offset not matching; `None` when no offset matches |
| `Selection.OffsetOf` | src/flat_tree.rs:163-164 | every line is tested at some offset in 0..n-1 |
| `Selection.NextMatchNone` | src/flat_tree.rs:162-173 | the cyclic scan finds nothing exactly when no named line matches |
| `Selection.NextMatchCurrentLast` | src/flat_tree.rs:162-173 | the current line is tested last: when it is the only match, the scan goes all the way round and returns to it |
| `Selection.NextMatchExample` | src/flat_tree.rs:162-173 | matches "foo" (1) and "food" (3) from line 0 reach 1, then 3, then wrap back to 1 |
| `FlatTree.Tree.TrySelectNextMatch` | src/flat_tree.rs:162-173 | only the selection changes; true exactly when `NextMatchFrom` finds an offset, and then the selected line is the one tested at that offset and is named; on false the selection is unchanged (always on an empty tree) |

## Left out

- `fs::metadata`, `PathBuf::file_name` and `to_string_lossy` are file-system and OS-string calls. Their outcomes are inputs to `TreeLines.TreeLine.Create`, and a path is a plain string.
- `Pattern::test` and its scoring belong to another module. The pattern is an arbitrary function from a name to an optional score.
- The filtered view (`filtered_tree`) is only a commented-out stub in the source.
- Building the tree: enumerating directories, assigning sibling ranks and setting the connector flags. `Tree` therefore has no constructor. `left_branchs`, a boxed slice the builder fills in place, is a `seq<bool>` field the builder would reassign.
- Machine widths: `depth` (`u16`), the line count, the selection and the score are unbounded naturals or integers. The overflow of `selection + (l + dy)` in `usize` is not modelled. The only bounds kept are those of the `i32`/`usize` casts of `move_selection`, stated by `Selection.StepDefined`.
- FlatTree.Tree.MoveSelection: requires the dy-orbit to reach a selectable line within one full cycle of n steps. `Selection.Periodic` and `Selection.OrbitLands` prove this is the same as reaching one at all. The source loops forever otherwise, and that case is excluded rather than modelled.
- Source panics are excluded by preconditions, not modelled as outcomes: `v[i + 1]` out of range in `fill_key` (`KeyCodec.KeyCode`, `TreeLines.TreeLine.FillKey`); `left_branchs[depth]` on a slice shorter than the line's depth in `has_branch` (`FlatTree.Tree.HasBranch`); `lines[self.selection]` out of range in `key` and `selected_line` (`FlatTree.Tree.Key`, `FlatTree.Tree.SelectedLine`); `lines[0]` on an empty tree in `root` (`FlatTree.Tree.Root`); `% l` with `l == 0` in `move_selection` (`FlatTree.Tree.MoveSelection`, through `Selection.StepDefined`).
- `#[derive(Debug)]` formatting is not modelled.
