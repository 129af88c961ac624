# spaceman core, modelled in Dafny

spaceman is a disk-usage viewer. A background scanner walks a directory tree and inserts
every entry into an arena-backed tree. Each node lives at the index equal to its id, points
to its parent by index, and carries a size that `add_elem` propagates to every ancestor. A
treemap widget lays the tree out by repeatedly sorting a group of nodes by size, cutting it
where the running size first reaches half the total, and cutting the bounding rectangle in
the same proportion. The widget hit-tests the pointer against the rectangles. It polls the
tree on a timer to detect the end of the scan, and recomputes the layout only when that is
invalidated or the window is resized. Small helpers format byte counts, abbreviate labels,
colour boxes by depth and choose the mounts offered as scan roots.

The project has one module per source file:

| module | file | models |
|---|---|---|
| `Wrappers` | `wrappers.dfy` | Rust's `Option` and `Result` |
| `FileTree` | `filetree.dfy` | `src/filetree.rs`: the `Tree` class over a `seq<Node>` arena, with `propagate_child_size` and `get_full_path` as loops |
| `Squarify` | `squarify.dfy` | `src/squarify.rs`: `squarify` as a method with its accumulation loop, the corrected cut and the recursive layout as functions, and `compute_gui_nodes`' map-building loop |
| `Scan` | `scan.dfy` | `src/scan.rs`: the insertion loop of `walk_into_tree` over a sequence of walker entries and terminate-flag observations; `is_same_device` |
| `TreemapWidget` | `treemap_widget.dfy` | `src/gui/treemap_widget/imp.rs`: `locate_node`, `refresh`, `constructed` and the layout half of `snapshot` |
| `BytesDisplay` | `bytes_display.dfy` | `bytes_display`, present identically in `src/bytes_display.rs` and `src/utils.rs` |
| `Utils` | `utils.dfy` | `abbreviate_string` over UTF-8 byte offsets |
| `NodeColors` | `node_color.dfy` | `depth_color` |
| `Mounts` | `mounts.dfy` | the filter of `get_mounts` |

Choices made in the model:
- The platform (`cfg!(unix)`) is a `unix: bool` parameter.
- The walker is a sequence of entries: a readable entry with depth, name, kind and size; a metadata error; or a read error.
- The terminate flag is the sequence of values the loop observes, one per iteration.
- Sizes are unbounded naturals.
- Rectangles are over the reals.
- The tree carries a ghost record, `own`, of the size each node was added with. It is used only to state how sizes accumulate.

A directory is added with its own metadata size, and its children's sizes are added on top
(`src/scan.rs:117-130`). So each node's size is its own size plus its children's sizes
(`FileTree.AddPreservesAggregate`). One of the findings below follows from this.

## Model

| member | source | states |
|---|---|---|
| FileTree.Tree.constructor | src/filetree.rs:23-31 | `Tree::new` leaves exactly one node at index 0: the given name, size 0, depth 0, no parent, no children; `last_id` is 0, and the tree is well formed |
| FileTree.FreshArena | src/filetree.rs:23-31 | a lone root, as `Tree::new` leaves it, is a well-formed arena |
| FileTree.WellFormedDepths | src/filetree.rs:53-66 | in a well-formed arena the root is at depth 0 and every other node one level below its parent |
| FileTree.Tree.Default | src/filetree.rs:84-88 | the default tree is the single root with the empty name |
| FileTree.Tree.TruncateTree | src/filetree.rs:71-74 | the arena is emptied and `last_id` reset to 0 |
| FileTree.Tree.SetRoot | src/filetree.rs:75-81 | after truncation a single root with the given name remains, `last_id` is 0 and the tree is well formed again |
| FileTree.Tree.GetElem | src/filetree.rs:68-70 | the node stored at `id` carries `id` as its own id |
| FileTree.Tree.PropagateChildSize | src/filetree.rs:32-37 | the loop adds `size` to exactly the strict ancestors of `node` and changes nothing else |
| FileTree.AddToAncestors | src/filetree.rs:32-37 | the arena with `size` added to every strict ancestor of the node, only sizes changing and the length kept; `Tree.PropagateChildSize` is proved to compute it |
| FileTree.Tree.AddElem | src/filetree.rs:53-67 | `last_id` grows by one; the arena becomes `AddedElems`; the tree stays well formed with `elems.len() == last_id + 1` and sizes accumulating upward |
| FileTree.AddElemEffect | src/filetree.rs:53-67 | the new node has the new id, the parent, the parent's depth plus 1 and no children. The parent's children gain the new id at the end, and no other node's children, name, depth, kind or parent change. `size` is added to exactly the parent and its ancestors |
| FileTree.AddPreservesWellFormed | src/filetree.rs:53-66 | `add_elem` keeps ids equal to indexes, parents below children, depths one below the parent, and child lists increasing and pointing back to the parent |
| FileTree.AddPreservesAggregate | src/filetree.rs:32-37 | after `add_elem`, every node's size is still the size it was added with plus the sizes of its direct children; the root's own part is 0 |
| FileTree.AddedDepths | src/filetree.rs:59-61 | `add_elem` keeps every depth and parent link and places the new node one level below its parent |
| FileTree.AddKeepsParentsBelow | src/filetree.rs:54-61 | parent ids stay strictly below child ids, the measure of every upward walk |
| FileTree.PathUp | src/filetree.rs:39-51 | the upward loop builds exactly `FullPath`: the parent's path, a separator unless the parent's name already ends in one, then the name |
| FileTree.FullPath | src/filetree.rs:38-52 | the path of a node: its parent's path, a separator unless the parent's name already ends in one, then its own name; the root's path is its name |
| FileTree.Tree.GetFullPath | src/filetree.rs:38-52 | `get_full_path` returns `FullPath` of the node |
| FileTree.FullPathFromRoot | src/filetree.rs:38-52 | every full path begins with the root's name |
| FileTree.FullPathEndsWithName | src/filetree.rs:38-52 | every full path ends with the node's own name |
| FileTree.RootSeparatorNotDoubled | src/filetree.rs:41-47 | under a root named "/" (or "\\"), a child named `a` gets the path "/a", without a doubled separator |
| Scan.WalkUp | src/scan.rs:136-142 | walking parent links, clamped at the root, stays inside the arena and never moves to a larger id |
| Scan.ParentFor | src/scan.rs:129-143 | the chosen parent, when there is one, is a node of the arena |
| Scan.Step | src/scan.rs:115-146 | one iteration: read and metadata errors change nothing; a readable entry adds exactly one node when a parent is found for it and none otherwise; parent ids stay below child ids |
| Scan.Walk | src/scan.rs:110-147 | the loop applies one `Step` per entry, in order, until the entries run out or the flag is seen; each entry adds at most one node |
| Scan.StepPlaces | src/scan.rs:129-146 | an entry goes under the parent chosen from the last depth and node; the new last node is `last_id` even when nothing was added |
| Scan.AddEntry | src/scan.rs:126-147 | the three branches and the walk-up loop perform exactly one `Step`, keeping the tree well formed |
| Scan.WalkIntoTree | src/scan.rs:108-154 | the loop leaves the tree as `Walk` of the entries and the flag observations says, keeps it well formed, and reports completion |
| Scan.WalkStops | src/scan.rs:110-114 | once the flag is seen or the entries run out, nothing further is applied |
| Scan.TerminateTruncates | src/scan.rs:110-114 | a scan with a terminate flag equals an unsignalled scan of the entries before the first observed signal |
| Scan.ErrorsSkipped | src/scan.rs:115-123 | read errors and metadata errors change neither the tree nor the last depth and node: only readable entries matter |
| Scan.WalkUpDepth | src/scan.rs:136-142 | walking `k` links up from a node at least `k` deep reaches depth `depth - k` |
| Scan.ParentOneUp | src/scan.rs:129-143 | for an entry at most one level deeper than the last, the chosen parent sits exactly one level above the entry |
| Scan.StepAddsAtDepth | src/scan.rs:129-146 | such an entry adds one node whose tree depth is the walker's depth |
| Scan.NestedEntriesKeepDepth | src/scan.rs:108-147 | properly nested entries append nodes whose tree depths are the walker's depths, in order |
| Scan.PreOrderDepths | src/scan.rs:108-147 | a pre-order walk starting with the root at depth 0 and never descending more than one level per step builds a tree whose depths are the walker's depths |
| Scan.RootDevice.IsSame | src/scan.rs:55-70 | `is_same_device` answers and updates the recorded device as `IsSameDevice` |
| Scan.IsSameDevice | src/scan.rs:55-70 | a recorded device is never replaced; on unix a device is recorded after the call and the answer is whether the device is the recorded one; elsewhere the answer is true and nothing is recorded |
| Scan.LatchHolds | src/scan.rs:58-64 | once recorded, the device never changes and each answer is whether the device equals it |
| Scan.LatchFromEmpty | src/scan.rs:55-70 | on unix the first device is latched and later answers compare with it; elsewhere every answer is true and the slot stays empty |
| Scan.NonUnixAlwaysSame | src/scan.rs:67-70 | off unix every answer is true and the slot is untouched |
| Scan.ListingAsWritten | src/scan.rs:85-104 | as written the slot starts empty in every directory listing, so on unix each subdirectory is descended exactly when it is on the device of the listing's first subdirectory; off unix every one is |
| Scan.ListingFromRoot | src/scan.rs:83-104 | with the slot holding the root's device for the whole walk, on unix exactly the subdirectories on the root's device are descended; off unix every one is |
| Scan.MountPointFirstPrunes | src/scan.rs:85-104 | a listing whose first subdirectory is a mount point on another device: as written the mount point is descended and its sibling on the root's device pruned |
| Squarify.SortBySize | src/squarify.rs:110 | `sort_by_key` on the size, as an insertion sort: the result has the input's length; its order, permutation and stability are `SortSorts`, `SortPermutes` and `SortIsStable` |
| Squarify.InsertBySize | src/squarify.rs:110 | inserting one node makes the list one longer; `InsertMembers` and `InsertKeepsSorted` say what it holds and in what order |
| Squarify.InsertMembers | src/squarify.rs:110 | inserting adds exactly the node and keeps every other |
| Squarify.InsertKeepsSorted | src/squarify.rs:110 | inserting into a list ordered by size keeps it ordered |
| Squarify.SortSorts | src/squarify.rs:110 | the sort orders by size |
| Squarify.SortPermutes | src/squarify.rs:110 | the sort is a permutation of its input |
| Squarify.SortIsStable | src/squarify.rs:110 | nodes of equal size keep their input order |
| Squarify.SortOfSorted | src/squarify.rs:110 | sorting a sorted list changes nothing |
| Squarify.Reach | src/squarify.rs:114-117 | the loop stops at the shortest prefix whose size reaches half the total, or runs off the end when none does |
| Squarify.ReachFails | src/squarify.rs:114-117 | the loop runs off the end exactly when all sizes together stay below half the total |
| Squarify.SplitAsWrittenPanics | src/squarify.rs:114-117 | as written, `nodes[split]` is read out of bounds exactly when the group's sizes sum to less than `total_size / 2` |
| Squarify.SplitAsWrittenEmptyA | src/squarify.rs:112-121 | for two nodes or more, group A comes out empty exactly when `total_size < 2` |
| Squarify.Squarify | src/squarify.rs:103-172 | where the loop stays in bounds, `squarify` returns the sorted list cut as `SplitAsWritten` says and the two bounds cut in proportion to `size_a`, padded for single-node groups |
| Squarify.SplitPoint | src/squarify.rs:112-121 | the corrected cut is inside the list and leaves group B non-empty, and also group A for two nodes or more |
| Squarify.SplitPointAgrees | src/squarify.rs:112-121 | wherever the code as written neither panics nor empties group A, the corrected cut is the same |
| Squarify.SplitPointIsShortest | src/squarify.rs:112-117 | group A is the shortest sorted prefix reaching half the total when that is reached before the last node |
| Squarify.SplitPointBacksOff | src/squarify.rs:118-121 | when only the whole list reaches half the total, the last node is given back to group B |
| Squarify.Fraction | src/squarify.rs:129 | `size_a / total_size` lies between 0 and 1 |
| Squarify.Share | src/squarify.rs:129 | a share between none and all of an extent stays within it |
| Squarify.CutAcross | src/squarify.rs:127-138 | the horizontal cut leaves two side-by-side pieces of the full height that tile the bound |
| Squarify.CutDown | src/squarify.rs:139-150 | the vertical cut leaves two stacked pieces of the full width that tile the bound |
| Squarify.CutTiles | src/squarify.rs:127-151 | before padding, the two bounds lie within the bound, do not overlap and their areas add up to it; the cut runs along the width when it exceeds the height, along the height otherwise |
| Squarify.DivideTiles | src/squarify.rs:127-151 | the same for the cut at `size_a / total_size` |
| Squarify.CutProportional | src/squarify.rs:127-151 | the first piece gets the share `f` of the area and the second the rest |
| Squarify.DivideProportional | src/squarify.rs:129-141 | `bound_a` gets `size_a / total_size` of the area and `bound_b` the rest |
| Squarify.PaddedInside | src/squarify.rs:153-169 | a padded bound shrinks by `PAD` on every side and stays within the bound |
| Squarify.Inset | src/squarify.rs:58-66 | a directory's children are laid out within its rectangle less 3 on the left, right and bottom and the label height 13 on top; the inset lies within the rectangle |
| Squarify.Squarified | src/squarify.rs:103-172 | with the corrected cut, group A followed by group B is the sorted input, B is never empty (nor A for two nodes or more), and the bounds are the padded proportional cut |
| Squarify.SmallerFirst | src/squarify.rs:110-124 | every node of group A is no larger than any node of group B |
| Squarify.TwoChildrenCut | src/squarify.rs:60-65 | a 100 by 100 directory with children of sizes 3 and 1: after the inset, the small child gets a quarter of the width and the large one the rest, each padded by 1 |
| Squarify.Layout | src/squarify.rs:27-101 | nothing is laid out past depth 16, for bounds under 20 wide or high, or for no nodes; a single node first yields its own bound; every rectangle is at least 20 by 20 and lies within the bound |
| Squarify.LayoutOfGroup | src/squarify.rs:70-98 | a group of two or more nodes yields nothing of its own: its layout is that of its two halves, cut by `Squarified`, at the same directory level |
| Squarify.LayoutOfDirectory | src/squarify.rs:48-98 | a single directory yields its own rectangle first, then the layout of its children, cut within the inset rectangle, one directory level deeper |
| Squarify.SquarifiedInside | src/squarify.rs:123-169 | whatever lies within either group's bound, padded or not, lies within the bound |
| Squarify.AggregateFits | src/squarify.rs:76-78 | in a tree built by `add_elem`, every directory's children together are no larger than the directory, so the layout's total covers them |
| Squarify.ToMap | src/squarify.rs:18-25 | every laid-out id is in the map, and each id maps to one of its GUINodes |
| Squarify.ToMapKeepsLast | src/squarify.rs:21-23 | an id maps to the last GUINode produced for it, as `HashMap::insert` overwrites |
| Squarify.ComputeGuiNodes | src/squarify.rs:18-25 | the loop builds the map of the root's layout |
| Squarify.MapWithinBound | src/squarify.rs:18-25 | every rectangle in the map lies within the window's bound and is at least 20 by 20 |
| Squarify.SplitAsWritten | src/squarify.rs:112-121 | the cut as written, `None` where the loop reads past the end; otherwise group B is non-empty, `size_a` is group A's size, and it reaches half the total unless the last node was given back |
| Squarify.DirectoryOverruns | src/squarify.rs:114-117 | a directory of own size 4096 holding one 10-byte file makes the loop read past its single child |
| Squarify.AsWrittenGroupRepeats | src/squarify.rs:112-124 | as written, a sorted group of two or more nodes totalling 1 is cut into nothing and itself, with the whole bound |
| Squarify.SmallFilesRepeat | src/squarify.rs:86-97 | a root holding files of sizes 0, 1 and 1 produces such a group |
| TreemapWidget.LastHit | src/gui/treemap_widget/imp.rs:52-64 | the answer, if any, is visited and hit; no answer means nothing visited is hit |
| TreemapWidget.LastHitIsLast | src/gui/treemap_widget/imp.rs:57-61 | nothing visited after the answer is hit: later matches override earlier ones |
| TreemapWidget.LastHitAppend | src/gui/treemap_widget/imp.rs:57-61 | a hit in a later child's visit overrides any earlier one |
| TreemapWidget.LocateNode | src/gui/treemap_widget/imp.rs:45-65 | `locate_node` returns the last node, in pre-order, of those visited whose rectangle contains the point; a returned node is in the map and its rectangle contains the point |
| TreemapWidget.VisibleClosed | src/gui/treemap_widget/imp.rs:53-63 | everything visited has a rectangle, descends from the start node, and has its parent visited too |
| TreemapWidget.VisitedThroughMapped | src/gui/treemap_widget/imp.rs:53-64 | every node between the start and a visited node has a rectangle, so nothing below an unmapped node is ever returned |
| TreemapWidget.LocateSelf | src/gui/treemap_widget/imp.rs:54-56 | a mapped node containing the point, with no match below it, is returned itself |
| TreemapWidget.RefreshStep | src/gui/treemap_widget/imp.rs:107-124 | no effect once the scan is complete; otherwise the layout is invalidated, and the scan is marked complete exactly when the length equals the recorded one, which is updated otherwise |
| TreemapWidget.RefreshRunCompletes | src/gui/treemap_widget/imp.rs:107-124 | a run of ticks ends with the scan complete exactly when some tick saw the same length as the tick before it |
| TreemapWidget.CompleteIsFinal | src/gui/treemap_widget/imp.rs:109 | once complete, further ticks change nothing |
| TreemapWidget.SnapshotSettles | src/gui/treemap_widget/imp.rs:227-246 | from the state a snapshot leaves (flag cleared, size recorded), a second snapshot at the same size recomputes exactly when a tick of a running scan came between |
| TreemapWidget.TreeMapWidget.constructor | src/gui/treemap_widget/imp.rs:21-31 | the widget's default state: an empty-named root, no map, flags clear, zero sizes |
| TreemapWidget.TreeMapWidget.Constructed | src/gui/treemap_widget/imp.rs:151-162 | the scan is marked incomplete and the tree reset to the root "/"; nothing else changes |
| TreemapWidget.TreeMapWidget.Refresh | src/gui/treemap_widget/imp.rs:107-124 | the widget's flags change as `RefreshStep` says, and the timer is kept running |
| TreemapWidget.TreeMapWidget.Snapshot | src/gui/treemap_widget/imp.rs:221-247 | the map is recomputed from the root exactly when the flag was set or the width or height changed; the size is recorded and the flag cleared |
| BytesDisplay.UnitFor | src/bytes_display.rs:3-11 | exactly one unit applies, with strict thresholds: B up to 1024, KB up to 1024², MB up to 1024³, GB above |
| BytesDisplay.UnitMonotone | src/bytes_display.rs:3-11 | a larger count never gets a smaller unit |
| BytesDisplay.ScaledInRange | src/bytes_display.rs:3-8 | a scaled count is above 1, and at most 1024 below GB |
| BytesDisplay.DecimalDigits | src/bytes_display.rs:10 | `{}` renders digits only, at least one, without a leading zero |
| BytesDisplay.DecimalRoundTrip | src/bytes_display.rs:10 | reading the rendering back gives the count |
| BytesDisplay.DecimalInjective | src/bytes_display.rs:10 | different counts render differently |
| BytesDisplay.Display | src/bytes_display.rs:1-12 | every output ends in 'B'; counts up to 1024 are their decimal digits and "B"; larger ones the two-decimal quotient and the unit's suffix |
| BytesDisplay.KiBShownExactly | src/bytes_display.rs:7-10 | 1024 renders as "1024B" |
| Utils.CharsBefore | src/utils.rs:15-17 | a byte offset is a character boundary exactly when some character count has that offset |
| Utils.AbbreviateAsWritten | src/utils.rs:14-19 | text of at most `max_chars` characters is returned unchanged; longer text gives the text up to three bytes before character `max_chars`, then "..."; it panics (`None`) exactly when no character boundary lies three bytes before that character |
| Utils.AsciiAbbreviated | src/utils.rs:15-17 | longer ASCII text becomes its first `max_chars - 3` characters and "...", `max_chars` characters in all |
| Utils.ShortLimitPanics | src/utils.rs:17 | a limit below 3 on longer ASCII text underflows `idx - 3` and panics |
| Utils.MultiByteCutPanics | src/utils.rs:17 | "ééééé" cut at 3 slices inside a character and panics |
| Utils.Abbreviate | src/utils.rs:14-19 | the corrected shortening keeps `max_chars - 3` characters and "...", `max_chars` characters in all |
| Utils.AsciiAgrees | src/utils.rs:14-19 | on ASCII text the code as written returns the corrected result |
| Utils.AbbreviateIdempotent | src/utils.rs:14-19 | shortening twice is shortening once |
| NodeColors.DepthColor | src/gui/treemap_widget/imp/node_color.rs:59-69 | the shade is the depth modulo 5, so the fallback arm is never taken |
| NodeColors.DepthColorPeriodic | src/gui/treemap_widget/imp/node_color.rs:59-60 | two depths get the same colour exactly when they agree modulo 5 |
| NodeColors.ConsecutiveDiffer | src/gui/treemap_widget/imp/node_color.rs:59-66 | a box and a box directly inside it get different colours |
| NodeColors.FirstDepthsInOrder | src/gui/treemap_widget/imp/node_color.rs:61-66 | depths 0 to 4 get Blue1 to Blue5 in order |
| Mounts.Keep | src/mounts.rs:14-21 | on unix a mount is kept exactly when it comes from a "/dev/" device and is not mounted at "/esp", "/efi" or "/boot/efi"; elsewhere every mount is kept |
| Mounts.FilterMounts | src/mounts.rs:11-23 | every kept mount passes the filter, and each mount that passes is kept as often as it is listed |
| Mounts.FilterIsSubsequence | src/mounts.rs:11-23 | the kept mounts keep the listing's order |
| Mounts.NonUnixKeepsAll | src/mounts.rs:19-21 | off unix every mount is kept |
| Mounts.GetMounts | src/mounts.rs:3-24 | a listing error gives no mounts; otherwise the filtered listing |
| Mounts.EspLeftOut | src/mounts.rs:14-18 | "/boot/efi" mounted from a device is dropped and "/" kept |

## Left out

- Concurrency: the scan thread, `Arc<Mutex<Tree>>`, the atomic flags and `Drop` signalling in `src/scan.rs`. The terminate flag is an input sequence and `complete` a returned boolean.
- The directory walker's configuration and `process_read_dir` (`src/scan.rs:86-107`). The walker is the entry sequence. The device check is modelled for one directory listing (`Scan.RootDevice`, `Scan.ListingAsWritten`): in the source the slot lasts only for one listing, because both closures are `move` and `Option<u64>` is `Copy` (see Findings). Which subtrees the check prunes from the walk is not modelled.
- `Scan::new`, `Scan::progress` and `preliminary_progress_count`: file-system calls and floating-point progress.
- The `println!` diagnostics and the `unwrap_or_default` of entry names: a name is given as a string.
- Squarify.Layout: `compute_gui_nodes_imp`'s recursion is modelled with the corrected cut (see Findings). The model does not capture the panic or the infinite recursion of the code as written.
- Squarify.Squarify: requires the group's sizes to sum to at least half the total. That is where the loop as written stays in bounds; outside it, the code panics, as `Squarify.SplitAsWrittenPanics` shows.
- f32 arithmetic: rectangles are over the reals, so rounding, NaN and infinities are not modelled. A total of 0 gives the fraction 0 where f32 gives NaN.
- BytesDisplay.Display: the `{:.2}` rendering of a float quotient is the parameter `fixed2`, because float formatting is not modelled.
- u64 wrap-around of sizes and `usize` ids: sizes and ids are unbounded.
- Drawing: `update_rects`, pango layouts, `get_rgba`'s colour constants, the tooltip text and tip area, and the `todo!()` property accessors.
- The thread spawn and timer registration in `constructed`. The call at `src/gui/treemap_widget/imp.rs:164` names a one-argument `walk_into_tree` that `src/filetree.rs` does not define.
- `get_sys_info`'s mount listing is foreign; it is the `listed` parameter of `Mounts.GetMounts`.
- `snapshot`'s `last_width` and `last_height` are compared exactly, as f32 values are.

## Findings

| source | as written | input that shows it | evidently intended | confidence | as-written member | corrected member |
|---|---|---|---|---|---|---|
| src/squarify.rs:114-117 | the accumulation loop reads `nodes[split]` while `size_a < total_size / 2`. For a directory, `total_size` is its own size, which includes its own metadata size on top of its children's | a directory of own size 4096 holding one 10-byte file: total 4106, half 2053, and the loop reads `nodes[1]` of a one-element list | the cut stops at the end of the group | not executed | Squarify.SplitAsWritten, Squarify.DirectoryOverruns | Squarify.SplitPoint, Squarify.SplitPointIsShortest |
| src/squarify.rs:112-124 | for a group of two or more nodes totalling less than 2, the loop does not run, group A is empty, and group B is the whole group with the whole bound. The recursion then repeats its caller's arguments | a root holding files of sizes 0, 1 and 1: its children are cut after the first two, and that group is cut into nothing and itself, forever | group A is non-empty for two nodes or more, so each recursion works on a shorter group | not executed | Squarify.AsWrittenGroupRepeats, Squarify.SmallFilesRepeat | Squarify.SplitPoint, Squarify.Squarified |
| src/utils.rs:17 | `s[..idx - 3]` slices at a byte offset, which may fall inside a multi-byte character, and `idx - 3` underflows for limits below 3 | `abbreviate_string("ééééé", 3)`: `idx` is 6, and byte 3 is inside the second character | keep the first `max_chars - 3` characters, then "..." | not executed | Utils.AbbreviateAsWritten, Utils.MultiByteCutPanics | Utils.Abbreviate, Utils.AsciiAgrees |
| src/scan.rs:85-104 | both closures given to `process_read_dir` are `move` and `Option<u64>` is `Copy`, so every directory listing starts with an empty device slot: the check compares with the listing's first subdirectory, not with the root | on unix, the root on device 1 listing a mount point on device 2 first and a directory on device 1 second: the mount point is descended and the directory pruned | descend exactly the directories on the root's device | not executed | Scan.ListingAsWritten, Scan.MountPointFirstPrunes | Scan.ListingFromRoot |
