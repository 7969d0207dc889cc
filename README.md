# sunmao panel layout, modelled in Dafny

sunmao composes matplotlib figures out of panels. A root `mortise` holds a nominal size. It grows
"tenons" (child panels) on its four sides, and tenons can grow tenons of their own. Rendering
solves the sizes of a panel and its direct tenons into an envelope. It then places the panel
and runs a cursor along each side to place the tenons next to one another. Each tenon is
rendered recursively into its slot. A legend manager collects the labelled entries of the panels
registered with it. It shows them as one figure legend with duplicate labels merged, as one
legend per panel, as both, or as an automatic choice between these.

The model has six modules:

- `Outcomes`: `Option` and `Result`.
- `Geometry`: sides, sizes, rectangles, view ranges, the size solver, the own-rectangle formula,
  the cursor runs of same-side siblings, and the tiling and containment lemmas about them.
- `Tree`: the panel tree as an arena `seq<Node>`.
  - Node 0 is the root, and every parent index is smaller than its child's index.
  - It covers ancestry, the rectangle each node is given when a subtree is rendered, the
    outermost-tenon walk, and the pure part of attaching a tenon.
  - `Shape` is the tree invariant. It includes "at most one tenon per side", which `tenon`
    maintains.
- `LegendInfo`: the value side of legends.
  - What `collect_legends` gathers, and the `dict(zip(labels, handles))` deduplication.
  - The local legends placed on canvases, the auto-mode cascade, clearing, and the
    `LegendPosition` table and heuristic.
  - Handles are an abstract type parameter.
- `Legends`: the class `LegendManager`.
  - It has the registered panels (`mortises`) and the figure legend (`globalLegend`) as
    fields, and one method per operation.
  - Every method is proved against the specification functions of `LegendInfo`.
- `Panels`: the class `Layout`, which holds all of the mutable `mortise` state.
  - `nodes` is the tree.
  - `axes` holds each panel's axes or None. An axes is its rectangle, its x and y view
    limits, and its canvas (labelled entries and local legend).
  - `figure` says whether the root owns the figure, i.e. whether `root._fig` is set.
  - `managers` maps panel ids to the legend managers those panels hold.
  - Its methods are `tenon`, `calculate_layout`, `render` / `_render_tenons`, the re-render
    inside `tenon`, `_auto_align_new_tenon`, `align_axes`, `plot`, `get_legend_manager`,
    `create_legend` and `clear_legends`.

`sunmao/mortise_tenson.py` also carries its own copy of `LegendManager` and `LegendPosition`
(lines 910-1200), with the same behaviour as `sunmao/legend_manager.py`. `Legends` and
`LegendInfo` model both copies at once. The table below cites `legend_manager.py`. In the copy:

- the constructor is at lines 921-932 and `add_mortise` at 934-936;
- `collect_legends` is at 938-965 and `create_global_legend` at 967-1001;
- `create_local_legends` is at 1003-1031 and `create_mixed_legends` at 1033-1056;
- `auto_layout_legends` is at 1058-1090 and `clear_all_legends` at 1117-1129;
- `LegendPosition.get_position` is at 1156-1158 and `calculate_optimal_position` at 1161-1200.

The invariant `Layout.Valid()` combines `Shape`, one axes slot per panel, and distinct managers
for distinct panels. It also requires that once the root owns a figure, every panel is
rendered. `Tenon` re-renders the whole tree whenever it attaches below a rendered panel of a
figure-owning root, which is what keeps this invariant.

## Behaviour the model keeps as the code has it

- **Duplicate labels in the global legend.** The global legend deduplicates with
  `dict(zip(labels, handles))`. A label keeps the position of its first occurrence but carries
  the handle of its **last** occurrence. A first-seen-wins reading, where the first handle for a
  label is kept, does not match the code. `LegendInfo.DictZipOrder` and `LegendInfo.DictZipValues` prove the behaviour of the
  code.
- **Which panels `get_legend_manager` registers.** It registers only the panels whose own
  manager is set. The walk of `_add_all_mortises_to_legend_manager` adds each panel it reaches
  to that panel's **own** manager, and it only descends through panels that hold a manager.
  - On a fresh tree, the new manager therefore holds just the calling panel.
  - A manager created earlier below the caller gets its own panel appended once more.
  - `Panels.ReachIsOwnedPath` states exactly which panels are reached.
- **Attaching `bottom` to a tenon whose bottom side is free.** `examples/new_api_example.py`
  expects this to fail, but it succeeds: the side is empty, so there is no error.

## Model

| member | source | states |
|---|---|---|
| Geometry.ParseSide | sunmao/mortise_tenson.py:167-168 | a position is accepted iff it is one of `top`, `bottom`, `left`, `right`, and then names that side |
| Geometry.Solve | sunmao/mortise_tenson.py:464-503 | with positive sizes: total width ≥ left offset + own width > left offset ≥ 0; the same holds for heights and the bottom offset |
| Geometry.OwnRect | sunmao/mortise_tenson.py:519-526 | definition: the panel's own axes rectangle, offset into the allotment by `offset / total` of its width and height and scaled by `own / total`; its properties are `OwnRectInside` |
| Geometry.HRun | sunmao/mortise_tenson.py:575-599 | definition: a left/right run, one rectangle per tenon at a cursor advanced by each tenon's width share, all on the same row; one rectangle per tenon |
| Geometry.VRun | sunmao/mortise_tenson.py:603-627 | definition: a top/bottom run, one rectangle per tenon at a cursor advanced by each tenon's height share, all in the same column; one rectangle per tenon |
| Geometry.SideAllocs | sunmao/mortise_tenson.py:568-627 | definition: the run of each side with the cursor start and fixed coordinate of that branch of `_render_tenons`; one rectangle per tenon; its properties are `SideTiles`, `RunAt` and `AllocAt` |
| Geometry.OwnRectInside | sunmao/mortise_tenson.py:519-526 | the panel's own rectangle has positive area and lies inside the rectangle allotted to the panel |
| Geometry.RunAt | sunmao/mortise_tenson.py:573-627 | the k-th tenon of a side starts where the run of that side starts plus the earlier siblings' share; its extent is its own share; it shares the panel's band and has positive area |
| Geometry.RunEndAt | sunmao/mortise_tenson.py:573-627 | each side's run has the length of that side's share of the envelope, and it lies within the allotted rectangle |
| Geometry.RunBounds | sunmao/mortise_tenson.py:573-627 | every tenon slot lies between the start and the end of its side's run |
| Geometry.SideTiles | sunmao/mortise_tenson.py:573-627 | the slots of a side start at the run start, end at the run end and abut one another; each slot has positive area, shares the panel's band, does not overlap the panel, and lies inside the allotted rectangle |
| Geometry.AllocAt | sunmao/mortise_tenson.py:575-627 | the k-th slot has the cursor formula of `_render_tenons`: the cursor starts at the side's start and is advanced by the earlier siblings' panel widths or heights |
| Geometry.ChildrenDisjoint | sunmao/mortise_tenson.py:568-627 | the slots of tenons on two different sides of one panel never overlap one another, and none overlaps the panel's own rectangle |
| Tree.EnvPositive | sunmao/mortise_tenson.py:182-189 | in a well-formed tree all sizes are positive, and left/right tenons have their parent's height while top/bottom tenons have its width |
| Tree.Env | sunmao/mortise_tenson.py:464-503 | the envelope of a panel has positive totals (rendering never divides by zero) |
| Tree.PlacedInside | sunmao/mortise_tenson.py:568-627 | rendering a subtree into a rectangle gives every panel of it a rectangle of positive area inside that rectangle |
| Tree.ChildrenTile | sunmao/mortise_tenson.py:568-627 | a panel's tenon on a side fills the run of that side exactly, shares the panel's band, does not overlap the panel, and lies inside the panel's allotment |
| Tree.AllocShift | sunmao/mortise_tenson.py:584 | rendering a tenon into its slot places its subtree exactly where rendering the parent places it |
| Tree.RootReaches | sunmao/mortise_tenson.py:453-462 | every panel is below the root |
| Tree.GetRoot | sunmao/mortise_tenson.py:453-462 | `get_root` returns node 0, which has no parent and is an ancestor of the start panel |
| Tree.OnlyRootIsParentless | sunmao/mortise_tenson.py:460-462 | a panel has no parent iff it is the root |
| Tree.Outermost | sunmao/mortise_tenson.py:218-241 | the end of the chain of first tenons on a side: below the start panel, reached through first tenons of that side, with that side empty; it is the start panel iff its side is empty |
| Tree.FindOutermost | sunmao/mortise_tenson.py:236-241 | the `while` loop returns `Outermost` |
| Tree.TenonSize | sunmao/mortise_tenson.py:182-189 | a top/bottom tenon has the parent's width and `size` times its height; a left/right tenon has `size` times its width and the parent's height; both are positive for a positive `size` |
| Tree.AttachShape | sunmao/mortise_tenson.py:191-199 | attaching to a free side keeps the tree well formed (so at most one tenon per side); the side now lists exactly the new panel; the new panel is the leaf with its parent, title, title position and pad; the other panels' sizes, parents and tenon lists are unchanged |
| Tree.Leaf | sunmao/mortise_tenson.py:182-189 | definition: the new panel of `tenon`, with the scaled size, its parent, no tenons, and the stored title, title position and pad |
| Tree.Attach | sunmao/mortise_tenson.py:191-199 | definition: the tree with the new leaf as the next node and recorded as the parent's tenon on the side; one node more; its properties are `AttachShape` and `AttachKeepsEnv` |
| Tree.AttachKeepsEnv | sunmao/mortise_tenson.py:464-503 | `calculate_layout` counts direct tenons only: attaching under a panel changes that panel's envelope alone, which gains the new tenon's size on the side; every other panel's envelope is unchanged |
| Tree.AllocFrom | sunmao/mortise_tenson.py:505-627 | definition: the rectangle `render` allots to a node of the subtree, the start rectangle for the subtree's root and the parent's slot for that node otherwise; its properties are `AllocShift` and `AllocOfChild` |
| Tree.PlacedRect | sunmao/mortise_tenson.py:519-526 | definition: the own rectangle of a node inside its allotment; its properties are `PlacedInside`, `PlacedSelf` and `LeafFills` |
| Tree.PlacedSelf | sunmao/mortise_tenson.py:519-526 | the root of a rendered subtree gets its own rectangle within the start rectangle |
| Tree.LeafFills | sunmao/mortise_tenson.py:519-526 | a panel without tenons fills its whole allotted rectangle |
| Panels.GetTenon | sunmao/mortise_tenson.py:426-451 | an unknown side is an error; otherwise the result is the tenon at `index`, or at `len + index` for a negative index; it is None iff the index is out of range; a returned panel is a tenon of that side |
| Panels.Target | sunmao/mortise_tenson.py:167-179 | `tenon` fails iff the side is unknown or is occupied on a panel other than the root; otherwise it attaches at the outermost panel of that side's chain, which has the side free, and at the panel itself iff its side is free |
| Panels.FigureRect | sunmao/mortise_tenson.py:209 | after a full render into the figure inset, every panel has a rectangle of positive area inside the inset (0.1, 0.1, 0.8, 0.8) |
| Panels.AlignNew | sunmao/mortise_tenson.py:382-401 | a top/bottom tenon takes its parent's x limits and keeps its y limits; a left/right tenon takes the parent's y limits and keeps its x limits; rectangle and canvas are kept |
| Panels.AlignTargets | sunmao/mortise_tenson.py:757-765 | the default targets are the top and bottom tenons when x is aligned and the left and right tenons when y is aligned, and nothing else |
| Panels.Aligned1 | sunmao/mortise_tenson.py:773-779 | a rendered target gets the caller's x limits ('x' or 'both') and y limits ('y' or 'both') and keeps everything else; an unrendered target stays unrendered |
| Panels.AlignAll | sunmao/mortise_tenson.py:773-779 | the loop gives every listed panel its aligned axes and leaves every other panel unchanged |
| Panels.OrDefault | sunmao/mortise_tenson.py:846 | `position or default`: a missing or empty position takes the default |
| Panels.ReachIsOwnedPath | sunmao/mortise_tenson.py:821-828 | the registering walk from a panel reaches exactly the panels below it whose whole path from it consists of panels holding a manager |
| Panels.Redrawn | sunmao/mortise_tenson.py:202-214 | after the re-render inside `tenon`, every panel has new axes at its place in the figure inset, with nothing drawn on them; a panel that had axes before keeps its saved limits |
| Panels.RedrawnIs | sunmao/mortise_tenson.py:205-214 | the figure rendered afresh with the saved limits restored, followed by the auto-alignment of the new panel, is exactly `Redrawn` |
| Panels.Dispatch | sunmao/mortise_tenson.py:844-858 | 'global' places the figure legend at `position` or 'upper center'; 'local' places local legends at `positions`; 'mixed' does both; 'auto' chooses the mode by the number of distinct labels and registered panels. The stored figure legend becomes the new one when one is created and is kept otherwise, in every mode; the registered panels are kept |
| Panels.Layout.constructor | sunmao/mortise_tenson.py:74-127 | a single root panel of the figure's size; with `auto_render` it owns a figure and is rendered over the whole inset |
| Panels.Layout.SumWidths | sunmao/mortise_tenson.py:476-483 | the summing loop returns the sum of the listed panels' widths |
| Panels.Layout.SumHeights | sunmao/mortise_tenson.py:486-493 | the summing loop returns the sum of the listed panels' heights |
| Panels.Layout.CalculateLayout | sunmao/mortise_tenson.py:464-503 | returns the envelope of the panel: its own size plus its direct tenons' sizes, with the left and bottom offsets |
| Panels.Layout.Render | sunmao/mortise_tenson.py:505-566 | every panel of the subtree gets new axes at the rectangle `PlacedRect` gives it inside the allotted rectangle; panels outside the subtree keep their axes |
| Panels.Layout.RenderSides | sunmao/mortise_tenson.py:566-627 | the four side loops of `_render_tenons` together give every panel strictly below the node new axes at `PlacedRect`, and leave the node itself and every panel outside its subtree unchanged |
| Panels.Layout.RenderSide | sunmao/mortise_tenson.py:573-627 | the cursor loop over one side renders each tenon's subtree into that tenon's slot and leaves every other panel unchanged |
| Panels.Layout.RenderNext | sunmao/mortise_tenson.py:576-585 | one turn of the cursor loop takes the state with the first k tenons of the side rendered to the state with the first k + 1 rendered, and the cursor to the start plus the first k + 1 shares |
| Panels.Layout.RenderTenon | sunmao/mortise_tenson.py:576-585 | one step of the cursor loop renders the k-th tenon into the k-th slot and advances the cursor by that slot's extent |
| Panels.LocateTarget | sunmao/mortise_tenson.py:167-179 | the side parsing and pass-down at the start of `tenon` compute exactly `Target` |
| Panels.Layout.AttachLeaf | sunmao/mortise_tenson.py:181-199 | the new panel becomes the last node, as `Attach` builds it, unrendered, and the tree stays well formed |
| Panels.Layout.Tenon | sunmao/mortise_tenson.py:147-216 | an error (unknown side, or occupied side of a non-root) changes nothing; otherwise the new panel is attached where `Target` says. If that panel is rendered and the root owns a figure, the whole figure is re-rendered to `Redrawn`; otherwise the new panel is unrendered. The invariant is kept |
| Panels.Layout.Redraw | sunmao/mortise_tenson.py:202-214 | the re-render inside `tenon` leaves the axes at `Redrawn` of the axes before the call |
| Panels.Layout.RenderRestored | sunmao/mortise_tenson.py:207-211 | after `fig.clear()`, the render into the inset and `_restore_styles`, every panel has new axes at `FigureRect`, carrying its saved limits when it had axes before |
| Panels.Layout.AlignRedrawn | sunmao/mortise_tenson.py:212-214 | from the restored figure, the optional alignment of the new panel with its parent leaves the axes at `Redrawn` |
| Panels.Layout.RenderFigure | sunmao/mortise_tenson.py:208-209 | `fig.clear()` followed by rendering the root into the inset gives every panel new axes at `FigureRect` |
| Panels.Layout.RestoreStyles | sunmao/mortise_tenson.py:314-380 | every panel that had axes when the styles were saved, and has axes now, gets its saved x and y limits back; nothing else changes |
| Panels.Layout.AutoAlignNewTenon | sunmao/mortise_tenson.py:382-401 | with both panels rendered, the new tenon gets `AlignNew` of its parent; otherwise nothing changes |
| Panels.Layout.Draw | sunmao/mortise_tenson.py:655-705 | plotting on a rendered panel appends the labelled entries to its canvas and changes nothing else; on an unrendered panel it is an error that changes nothing |
| Panels.Layout.AlignAxes | sunmao/mortise_tenson.py:749-779 | it is an error iff a direction is aligned and the caller is unrendered, and then nothing changes; otherwise every target gets `Aligned1` with the caller's limits as read before the loop, and every other panel is unchanged |
| Panels.Layout.GetLegendManager | sunmao/mortise_tenson.py:806-819 | an existing manager is returned and nothing changes; with an unrendered root, nothing is created; otherwise a fresh manager holding just the caller is created, and every other manager gains its own panel iff the walk reaches that panel |
| Panels.Layout.Register | sunmao/mortise_tenson.py:821-828 | every manager gains its own panel iff the walk from the caller reaches that panel; figure legends are unchanged |
| Panels.Layout.LegendOn | sunmao/mortise_tenson.py:844-858 | the dispatch on one manager, over the rendered panels' canvases: each mode's legends as `Dispatch` gives them, with the placed local legends written back onto the axes; the stored figure legend is replaced only by a newly created one; the registered panels are unchanged |
| Panels.Layout.CreateLegend | sunmao/mortise_tenson.py:806-860 | the manager is fetched first, exactly as `GetLegendManager` does it (an existing one keeps every manager; a new one holds the caller, and each other manager gains its own panel iff the walk reaches it), also when the mode is then rejected. An unknown mode is an error; without a manager any valid mode is an error; otherwise each mode gives the legend of its layout over the caller's registered panels, the local legends it places are written onto the canvases, and the caller's figure legend is replaced only by a newly created one. No other manager's figure legend changes |
| Panels.Layout.LegendFor | sunmao/mortise_tenson.py:846-860 | after the manager is fetched: an unknown mode is an error and changes nothing; no manager with a valid mode is an error; otherwise the caller's manager gives the legends of `LegendsShown`, and no manager's registered panels and no other manager's figure legend change |
| Panels.Layout.ClearLegends | sunmao/mortise_tenson.py:862-865 | with a manager, its figure legend is gone and every registered rendered panel shows no legend, with its entries kept; without one, nothing changes. Only the caller's manager may change; the others keep their panels and figure legends |
| Panels.Layout.WriteBack | sunmao/mortise_tenson.py:844-858 | the canvases, with the legends placed on them, are written into the rendered panels' axes, and the invariant is kept |
| LegendInfo.Zip | sunmao/legend_manager.py:94 | `zip(labels, handles)` has the length of the shorter list |
| LegendInfo.Insert | sunmao/legend_manager.py:94 | one `d[label] = handle` of the dictionary build keeps keys and values the same length |
| LegendInfo.DictZip | sunmao/legend_manager.py:94 | `dict(zip(...))` built pair by pair keeps keys and values the same length; its properties are `DictZipKeys`, `DictZipOrder` and `DictZipValues` |
| LegendInfo.ZipUnzip | sunmao/legend_manager.py:93-98 | zipping the labels and handles of a list of entries gives back the entries |
| LegendInfo.DictZipKeys | sunmao/legend_manager.py:93-98 | the deduplicated legend has distinct labels, exactly the collected labels |
| LegendInfo.DictZipOrder | sunmao/legend_manager.py:93-98 | the deduplicated labels come in the order of each label's first occurrence |
| LegendInfo.DictZipValues | sunmao/legend_manager.py:93-98 | each deduplicated label carries the handle of its last occurrence |
| LegendInfo.Collected | sunmao/legend_manager.py:46-73 | definition: the handles, labels, groups and unique labels `collect_legends` gathers from the registered panels in order; its properties are `CollectStep`, `FlatEmpty`, `FlatCovers` and `UniqueIsUnionOfGroups` |
| LegendInfo.CollectStep | sunmao/legend_manager.py:57-71 | one more registered panel extends handles and labels by its entries and the unique labels by its labels, and adds group `i` iff the panel is labelled |
| LegendInfo.FlatEmpty | sunmao/legend_manager.py:88-91 | nothing is collected iff no registered panel is labelled |
| LegendInfo.FlatCovers | sunmao/legend_manager.py:46-73 | every registered panel's labels are among the unique labels |
| LegendInfo.UniqueIsUnionOfGroups | sunmao/legend_manager.py:46-73 | the unique labels are exactly the labels of the groups |
| LegendInfo.ColumnsFor | sunmao/legend_manager.py:97-98 | definition: the given `ncol`, else `min(len(by_label), 4)`; its property is part of `GlobalLegendSpec` |
| LegendInfo.GlobalFor | sunmao/legend_manager.py:75-109 | definition: None when nothing is collected, else the deduplicated legend at `position` with `ColumnsFor` columns; its properties are `GlobalLegendSpec` |
| LegendInfo.GlobalLegendSpec | sunmao/legend_manager.py:75-109 | the global legend exists iff some registered panel is labelled; it is at `position`, deduplicated as in `DictZipKeys`, `DictZipOrder` and `DictZipValues`, and has `ncol` columns when given, else `min(distinct, 4)`, between 1 and 4 |
| LegendInfo.LocalsFor | sunmao/legend_manager.py:111-138 | definition: one local legend per labelled registered panel, keyed by its place in the registration order, at `positions` or 'upper right'; its properties are `LocalKeysAreGroupKeys` |
| LegendInfo.AfterLocals | sunmao/legend_manager.py:111-138 | definition: the canvases after the local legends are placed, one registration at a time; its properties are `AfterLocalsFrame` |
| LegendInfo.AfterLocalsFrame | sunmao/legend_manager.py:111-138 | placing local legends keeps every canvas's entries; each labelled registered panel shows a legend of its own entries; other canvases are unchanged |
| LegendInfo.LocalKeysAreGroupKeys | sunmao/legend_manager.py:111-138 | the local legends are keyed like the collected groups, show the group's entries, and are at `positions[key]` or 'upper right' |
| LegendInfo.MixedKeepsLocalLabels | sunmao/legend_manager.py:155-161 | every label shown in a local legend is also in the global legend of mixed mode |
| LegendInfo.ParseMode | sunmao/legend_manager.py:183-194 | a mode is accepted iff it is 'global', 'local' or 'mixed' |
| LegendInfo.ChooseMode | sunmao/legend_manager.py:174-181 | auto mode picks global iff ≤ 3 labels and ≤ 2 panels; otherwise local iff > 6 labels or > 4 panels; otherwise mixed |
| LegendInfo.ChooseModeMonotone | sunmao/legend_manager.py:174-181 | more labels or more panels never move the choice from local towards global |
| LegendInfo.ChooseModeBoundaries | sunmao/legend_manager.py:174-181 | the thresholds sit at 3/4 labels and 6/7 labels and at 2/3 and 4/5 panels |
| LegendInfo.Cleared | sunmao/legend_manager.py:221-233 | clearing keeps the set of canvases; its other properties are `ClearedIdempotent` |
| LegendInfo.ClearedIdempotent | sunmao/legend_manager.py:221-233 | clearing twice is clearing once; entries are kept; every registered panel shows no legend |
| LegendInfo.GetPosition | sunmao/legend_manager.py:259-262 | a known name gives its table entry, an unknown name gives (0.98, 0.98) |
| LegendInfo.PositionPlacement | sunmao/legend_manager.py:243-262 | a name's position lies strictly inside the unit square of axes coordinates iff it is not one of the four `outside_*` names |
| LegendInfo.UnknownPositionIsTopRight | sunmao/legend_manager.py:243-262 | an unknown name is placed like 'top_right' |
| LegendInfo.OptimalPosition | sunmao/legend_manager.py:264-304 | the result is a key of the table: 'top_right' without positioned panels, else the centre-y then centre-x cascade on the mean centre |
| LegendInfo.Cascade | sunmao/legend_manager.py:294-304 | definition: the centre-y then centre-x cascade; its properties are `OptimalPosition` and `HighPanelsPutLegendBelow` |
| LegendInfo.HighPanelsPutLegendBelow | sunmao/legend_manager.py:291-296 | when every panel's centre is above 0.7, the legend goes to 'bottom_center' |
| Legends.LegendManager.constructor | sunmao/legend_manager.py:29-40 | a new manager has no registered panel and no figure legend |
| Legends.LegendManager.AddMortise | sunmao/legend_manager.py:42-44 | appends exactly the one panel and keeps the figure legend |
| Legends.LegendManager.CollectLegends | sunmao/legend_manager.py:46-73 | the loop returns `Collected` of the registered panels |
| Legends.LegendManager.CreateGlobalLegend | sunmao/legend_manager.py:75-109 | returns `GlobalFor`; the stored figure legend changes iff one is created |
| Legends.LegendManager.CreateLocalLegends | sunmao/legend_manager.py:111-138 | returns `LocalsFor` and the canvases `AfterLocals` |
| Legends.LegendManager.CreateMixedLegends | sunmao/legend_manager.py:140-161 | returns the global legend and the local legends, as the two methods do |
| Legends.LegendManager.AutoLayoutLegends | sunmao/legend_manager.py:163-194 | an unknown mode is an error that changes nothing; each mode, or for 'auto' the chosen one, gives that layout with its default arguments |
| Legends.LegendManager.ClearAllLegends | sunmao/legend_manager.py:221-233 | the figure legend is None and the canvases are `Cleared` |

## Left out

- The matplotlib side is reduced to what the layout reads and writes: each axes' rectangle,
  view limits and labelled entries. Left out are:
  - figure creation;
  - title text and its placement;
  - spine and tick hiding for `axoff`;
  - `imshow`, `scatter` and the `set_*` pass-throughs;
  - matplotlib keyword arguments;
  - the `__getattr__` delegation and the `__new__` tuple return.
- `share_axes`, `structure` / `_build_structure` and `optimize_legend_layout` are not part of
  this model. They bind live matplotlib axes, format floats, or measure pixel extents.
- Styles other than the view limits are not modelled in the save/restore around a re-render.
  Left out are the facecolor, title, axis labels, ticks and grid, as well as the widening of
  limits that restoring ticks can cause. This omission does not touch legends:
  `_collect_styles` saves each panel's own legend (sunmao/mortise_tenson.py:300-303), but
  `_apply_styles` (sunmao/mortise_tenson.py:317-380) never puts it back. So in the source, as in
  `Restored`, a re-rendered panel comes back with no legend and nothing drawn.
- Drawing does not autoscale the view limits in the model, and matplotlib's filtering of labels
  that start with `_` is not modelled.
- Panels.Layout.Tenon: requires a positive `size`, which the source does not check. A
  non-positive size would make the envelope or the rectangles degenerate.
- Panels.Layout.Tenon: when a tenon is attached below a rendered panel of a root that never
  owned a figure, the model skips the re-render. The source instead reads the missing `_fig`
  attribute and raises.
- Panels.Layout.constructor: requires a positive figure size, which the source does not check.
- Panels.Layout.Register: visits panels in id order instead of the depth-first order of the
  recursion. Each manager receives at most its own panel, so the order cannot be observed.
- Panels.Layout.RestoreStyles: visits panels in id order instead of recursing over the tree;
  every panel is below the root (`Tree.RootReaches`), so the same panels are visited.
- Panels.Layout.CreateLegend: passes no extra keyword arguments. The local positions of
  'local' and 'mixed' are an explicit parameter, and 'auto' runs its layouts with their
  defaults.
- Panels.Layout.AlignAxes: an unrendered caller is an error whatever exception the source
  raises on the way (a missing `_fig` attribute, or `None` axes).
- The `_calculated_size` and `position` caches are not kept as fields. `position` is the
  rectangle of the panel's axes.
- The figure legend objects that `fig.clear()` removes during a re-render are not modelled.
  The manager keeps its `globalLegend` value.
- The legend key `'mortise_{i}'` is modelled as the registration index `i`.
- Floating point is exact `real` arithmetic, and `np.mean` is sum divided by count.
