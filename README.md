# Tab bar state model

A Dafny model of the tab-list logic of the `TabList` React component
(`src/components/Tabs/TabList.jsx`). The component shows a browser-like strip of
navigation tabs. The tabs can be pinned, closed and reordered by dragging, and
tabs that do not fit go into an overflow menu. The tab layout is kept in local
storage between sessions.

The model covers the component's five state operations and the effects that
follow them:

- **Initial load** (`TabLoad`). The saved layout is restored and each saved tab
  gets its icon back from the id-to-icon table. Catalog tabs missing from the
  saved layout are appended. When nothing usable is saved, the hard-coded
  catalog of fourteen tabs is used.
- **Layout** (`TabLayout`). The resize handler makes one greedy pass with a
  running width: 40 for a pinned tab, 150 for an unpinned one. It compares
  against the container width minus a 100-unit buffer and sends each tab either
  to the visible strip or to the overflow list.
  - `HandleResize` is the loop, written imperatively.
  - `LayoutOf` is its reference definition. It decides the last tab from the
    total width of the tabs already made visible.
- **togglePin** (`TabPin`). Flip `pinned` on the tabs with the given id. Then
  do a stable partition that puts pinned tabs first.
- **closeTab** (`TabClose`). Filter out every tab with the given id.
- **Drag reorder** (`TabReorder`). `findIndex` for both ids, then `arrayMove`
  with splice semantics.
- **The component** (`TabListComponent.TabList`). A class holding the
  component's state: `tabs`, the container width, the visible and overflow
  lists, the active id, the menu flag and the stored layout. After every change
  to `tabs` its methods run the two effects: save without icons, then
  recompute the layout.

Inputs from the browser are parameters:

- the stored layout is `Option<seq<PlainTab>>`: `None` stands for "absent",
  "empty string" and "parse failed";
- the container's `offsetWidth` is an `int`.

Icons are an enumeration. A tab's icon is derived from its id.

Behaviour of the code worth noting:

- Selecting a tab in the overflow menu does not move it into the strip; it
  only sets the active id and closes the menu (`TabList.Select`).
- The layout pass does not send every tab after the first misfit to overflow: a later,
  narrower pinned tab can still be visible (`LayoutSkipsToNarrowerTab`).
- With equal widths `w`, the strict `<` gives `(limit - 1) / w` visible tabs,
  where `limit` is the container width minus the buffer. That is one fewer than
  `floor(limit / w)` when `limit` is an exact multiple of `w` (`LayoutUniform`).
- Dragging `a` onto `b` and then `b` onto `a` restores the list when the two
  tabs are neighbours (`DragEndAdjacentRoundTrip`), but not in general: on
  `[a, x, b]` it ends at `[x, a, b]` (`DragEndDistantNoRoundTrip`). In general, the undo is
  to drop `a` on the tab that now stands at `a`'s old index (`DragEndUndo`).
  At the index level, moving `i→j` and then `j→i` always restores the list
  (`ArrayMoveRoundTrip`).
- `closeTab` does not protect pinned tabs. The strip hides the close button
  of a pinned tab, but the overflow menu offers it for every tab.

## Model

| member | source | states |
|---|---|---|
| `Tabs.CatalogIconsMatch` | src/components/Tabs/TabList.jsx:21-57 | every tab of the catalog `InitialTabs` carries the icon the id-to-icon table `IconMap` gives its id |
| `Tabs.IconFor` | src/components/Tabs/TabList.jsx:42-62 | definition: the mapped icon, or `Package` for an unknown id; properties in `Tabs.StripAttach`, `Tabs.AttachStrip` and `TabLoad.LoadIcons` |
| `Tabs.Strip` | src/components/Tabs/TabList.jsx:94 | definition; properties in `Tabs.StripAttach` and `Tabs.AttachStrip` |
| `Tabs.Attach` | src/components/Tabs/TabList.jsx:62 | definition; properties in `Tabs.StripAttach` and `Tabs.AttachStrip` |
| `Tabs.StripAll` | src/components/Tabs/TabList.jsx:94 | definition; properties in `Tabs.StripAttachAll`, `Tabs.AttachStripAll` and `TabLoad.SaveLoadRoundTrip` |
| `Tabs.AttachAll` | src/components/Tabs/TabList.jsx:62 | definition; properties in `Tabs.StripAttachAll`, `Tabs.AttachStripAll`, `TabLoad.LoadMerge` and `TabLoad.LoadIcons` |
| `Tabs.CatalogUniqueIds` | src/components/Tabs/TabList.jsx:21-36 | the fourteen catalog ids are pairwise distinct |
| `Tabs.StripAttach` | src/components/Tabs/TabList.jsx:62 | restoring a stored record keeps id, title, url and pinned, and gives it its mapped icon, or `Package` for an unknown id |
| `Tabs.AttachStrip` | src/components/Tabs/TabList.jsx:94 | dropping the icon and re-attaching it is the identity exactly on tabs whose icon is the mapped one |
| `Tabs.StripAttachAll` | src/components/Tabs/TabList.jsx:62 | restoring and then saving a stored list gives the stored list back |
| `Tabs.AttachStripAll` | src/components/Tabs/TabList.jsx:94 | saving and then restoring a list whose tabs carry their mapped icons is the identity |
| `Tabs.SubseqUniqueIds` | src/components/Tabs/TabList.jsx:67 | deleting tabs from a list with distinct ids leaves distinct ids |
| `TabLoad.Load` | src/components/Tabs/TabList.jsx:40-79 | definition; properties in `TabLoad.LoadFallback`, `TabLoad.LoadMerge` and the other `Load*` lemmas |
| `TabLoad.Merge` | src/components/Tabs/TabList.jsx:59-72 | definition; properties in the `Merge*` lemmas and `TabLoad.LoadMerge` |
| `TabLoad.MissingTabsCounts` | src/components/Tabs/TabList.jsx:67 | the filtered catalog holds each tab with an unsaved id as often as the catalog does, and none with a saved id |
| `TabLoad.MissingTabs` | src/components/Tabs/TabList.jsx:67 | the filtered catalog holds exactly the catalog tabs whose id is not saved, in catalog order |
| `TabLoad.LoadFallback` | src/components/Tabs/TabList.jsx:73-78 | with nothing stored, or an unparsable entry, the list is the catalog |
| `TabLoad.LoadEmptySaved` | src/components/Tabs/TabList.jsx:59-72 | a stored empty list also loads as the full catalog |
| `TabLoad.MergeEmptySaved` | src/components/Tabs/TabList.jsx:59-72 | over any catalog, merging an empty saved list gives the catalog |
| `TabLoad.MergeNothingMissing` | src/components/Tabs/TabList.jsx:67-72 | over any catalog, when every catalog id is saved, the merge is exactly the restored saved list |
| `TabLoad.MergeCoversCatalog` | src/components/Tabs/TabList.jsx:59-72 | over any catalog, every catalog id is in the merged list |
| `TabLoad.LoadMerge` | src/components/Tabs/TabList.jsx:59-72 | the saved tabs come first, in saved order, with all stored fields kept; after them come exactly the catalog tabs with unsaved ids, in catalog order |
| `TabLoad.MissingNoneAbsent` | src/components/Tabs/TabList.jsx:67 | when every catalog id is saved, nothing is missing |
| `TabLoad.LoadNothingMissing` | src/components/Tabs/TabList.jsx:69-72 | when every catalog id is saved, the load is exactly the restored saved list |
| `TabLoad.LoadCoversCatalog` | src/components/Tabs/TabList.jsx:40-79 | after any load, every catalog id is in the list |
| `TabLoad.LoadIcons` | src/components/Tabs/TabList.jsx:62 | every loaded tab carries the icon its id maps to |
| `TabLoad.LoadUniqueIds` | src/components/Tabs/TabList.jsx:59-72 | a saved list without duplicate ids loads into a list without duplicate ids |
| `TabLoad.SaveLoadRoundTrip` | src/components/Tabs/TabList.jsx:93-95 | saving a list that holds every catalog id and has mapped icons, then loading it, gives the same list |
| `TabLoad.CatalogRoundTrip` | src/components/Tabs/TabList.jsx:93-95 | saving the catalog and loading it restores the catalog |
| `TabLayout.LayoutOf` | src/components/Tabs/TabList.jsx:101-114 | reference definition of the pass; properties in the `Layout*` lemmas, and `TabLayout.HandleResize` is proved equal to it |
| `TabLayout.WidthSum` | src/components/Tabs/TabList.jsx:107 | the width of a run of tabs is never negative and is at least one pinned width when the run is non-empty |
| `TabLayout.HandleResize` | src/components/Tabs/TabList.jsx:98-118 | the loop's two lists are the reference split for `offsetWidth - 100`; their lengths add up to the number of tabs; a non-empty visible list is narrower than the limit |
| `TabLayout.LayoutPartition` | src/components/Tabs/TabList.jsx:103-114 | every tab lands in exactly one list; both lists keep the order of the tabs; the two together hold each tab as often as the input |
| `TabLayout.LayoutVisibleFits` | src/components/Tabs/TabList.jsx:108-110 | a non-empty visible list is strictly narrower than the available width |
| `TabLayout.LayoutOverflowDoesNotFit` | src/components/Tabs/TabList.jsx:108-113 | no overflowed tab would fit after the final visible list |
| `TabLayout.LayoutPrefixStable` | src/components/Tabs/TabList.jsx:106-114 | laying out a prefix of the tabs gives a prefix of each list, so no placement depends on later tabs |
| `TabLayout.LayoutUniform` | src/components/Tabs/TabList.jsx:101-113 | with all tabs of one width `w`, the visible list is the first `(limit - 1) / w` tabs, capped at the list's length; none are visible when `limit <= 0`; the rest overflow in order |
| `TabLayout.LayoutSkipsToNarrowerTab` | src/components/Tabs/TabList.jsx:106-114 | the pass does not stop at the first tab that fails to fit: a later pinned tab can still be visible |
| `TabLayout.CountFits` | src/components/Tabs/TabList.jsx:108 | `k` tabs of width `w` fit strictly below `limit` exactly when `k <= (limit - 1) / w` |
| `TabPin.Flip` | src/components/Tabs/TabList.jsx:141 | definition; properties in `TabPin.FlipOnlyMatching`, `TabPin.FlipTwice` and `TabPin.FlipAbsent` |
| `TabPin.PinnedFirst` | src/components/Tabs/TabList.jsx:143 | definition; properties in `TabPin.PinnedFirstGrouped` and `TabPin.TogglePinStable` |
| `TabPin.TogglePin` | src/components/Tabs/TabList.jsx:139-145 | definition; properties in the `TogglePin*` lemmas |
| `TabPin.FiltersSubseq` | src/components/Tabs/TabList.jsx:143 | each filter keeps the order of the list: it is a subsequence of it |
| `TabPin.TogglePinUniqueIds` | src/components/Tabs/TabList.jsx:139-145 | a toggle keeps the ids of a list pairwise distinct |
| `TabPin.PinnedTabs` | src/components/Tabs/TabList.jsx:143 | every tab the pinned filter keeps is pinned, and the filter is no longer than the list |
| `TabPin.UnpinnedTabs` | src/components/Tabs/TabList.jsx:143 | every tab the unpinned filter keeps is unpinned, and the filter is no longer than the list |
| `TabPin.FiltersMembers` | src/components/Tabs/TabList.jsx:143 | the pinned filter holds exactly the pinned tabs of the list, the unpinned filter exactly the others |
| `TabPin.FiltersPermutation` | src/components/Tabs/TabList.jsx:143 | the two filters together hold each tab as often as the list |
| `TabPin.FlipOnlyMatching` | src/components/Tabs/TabList.jsx:141 | the flip keeps positions and all fields except `pinned`, which changes exactly on tabs with the given id |
| `TabPin.FlipAbsent` | src/components/Tabs/TabList.jsx:141 | flipping an id that no tab has changes nothing |
| `TabPin.FlipTwice` | src/components/Tabs/TabList.jsx:141 | flipping the same id twice restores the list |
| `TabPin.TogglePinGroups` | src/components/Tabs/TabList.jsx:139-145 | after a toggle, every pinned tab stands before every unpinned tab |
| `TabPin.TogglePinPermutation` | src/components/Tabs/TabList.jsx:139-145 | a toggle keeps the length and only reorders the flipped list |
| `TabPin.TogglePinStable` | src/components/Tabs/TabList.jsx:143 | within each group, the tabs keep the order they had after the flip |
| `TabPin.TogglePinAbsent` | src/components/Tabs/TabList.jsx:139-145 | toggling an absent id only applies the stable partition |
| `TabPin.PinnedFirstGrouped` | src/components/Tabs/TabList.jsx:143 | the partition leaves an already grouped list unchanged |
| `TabPin.TogglePinAbsentReorders` | src/components/Tabs/TabList.jsx:143 | the partition does reorder an ungrouped list, even when no tab matches the id |
| `TabPin.TogglePinDashboard` | src/components/Tabs/TabList.jsx:139-145 | pinning `dashboard` in the catalog leaves it at index 1 and changes nothing else |
| `TabClose.CloseTab` | src/components/Tabs/TabList.jsx:147-149 | a tab survives exactly when it was in the list and its id differs; pinned tabs are closed like any other |
| `TabClose.CloseTabKeepsOthers` | src/components/Tabs/TabList.jsx:148 | the survivors keep their order; every tab with another id keeps its multiplicity; none with the id is left |
| `TabClose.CloseTabAbsent` | src/components/Tabs/TabList.jsx:148 | closing an absent id changes nothing |
| `TabClose.CloseTabRemovesOne` | src/components/Tabs/TabList.jsx:148 | with distinct ids, closing a present id removes exactly one tab and keeps ids distinct |
| `TabClose.CloseThenReload` | src/components/Tabs/TabList.jsx:67-70 | after a catalog tab is closed and saved, the next load appends it again after the restored tabs |
| `TabReorder.FindIndex` | src/components/Tabs/TabList.jsx:132-133 | the result is -1 exactly when the id is absent; otherwise it is the first index holding the id |
| `TabReorder.ArrayMove` | src/components/Tabs/TabList.jsx:134 | the moved element lands at the target index; every other index takes the element the splice shifts there; same length, same elements |
| `TabReorder.SpliceKeepsElements` | src/components/Tabs/TabList.jsx:134 | splicing an element out and back in keeps the list's elements |
| `TabReorder.ArrayMoveRoundTrip` | src/components/Tabs/TabList.jsx:134 | moving `i` to `j` and then `j` to `i` restores the list |
| `TabReorder.ArrayMoveAdjacent` | src/components/Tabs/TabList.jsx:134 | between neighbouring indices, a move is the same in both directions |
| `TabReorder.ArrayMoveUniqueIds` | src/components/Tabs/TabList.jsx:134 | a move keeps ids distinct |
| `TabReorder.FindIndexUnique` | src/components/Tabs/TabList.jsx:132-133 | with distinct ids, a tab's id finds exactly that tab's index |
| `TabReorder.DragEnd` | src/components/Tabs/TabList.jsx:128-137 | definition; properties in `TabReorder.DragEndMoves`, `TabReorder.DragEndUndo` and `TabReorder.DragEndAdjacentRoundTrip` |
| `TabReorder.DragEndMoves` | src/components/Tabs/TabList.jsx:128-137 | for distinct ids, the dragged tab lands at the target's index; the tabs in between shift by one; the list keeps its length and elements |
| `TabReorder.DragEndUndo` | src/components/Tabs/TabList.jsx:128-137 | dropping the dragged tab back on the tab now at its old index restores the list |
| `TabReorder.DragEndDistantNoRoundTrip` | src/components/Tabs/TabList.jsx:128-137 | on `[a, x, b]`, dragging `a` onto `b` and then `b` onto `a` gives `[x, a, b]`, not the original list |
| `TabReorder.DragEndAdjacentRoundTrip` | src/components/Tabs/TabList.jsx:128-137 | for neighbouring tabs, dragging `a` onto `b` and then `b` onto `a` restores the list |
| `TabListComponent.TabList.constructor` | src/components/Tabs/TabList.jsx:40-126 | on mount, the tabs are the loaded list and the first tab is active; the layout is stored without icons and split for the container width |
| `TabListComponent.TabList.RunEffects` | src/components/Tabs/TabList.jsx:93-126 | the save effect stores the icon-free projection of `tabs`; the resize effect recomputes the split; nothing else changes |
| `TabListComponent.TabList.Resize` | src/components/Tabs/TabList.jsx:97-123 | a resize recomputes the split for the new width and leaves the tabs and storage alone |
| `TabListComponent.TabList.TogglePin` | src/components/Tabs/TabList.jsx:139-145 | the tabs become the toggled list, and the effects follow |
| `TabListComponent.TabList.CloseTab` | src/components/Tabs/TabList.jsx:147-149 | the tabs become the filtered list, and the effects follow |
| `TabListComponent.TabList.HandleDragEnd` | src/components/Tabs/TabList.jsx:128-137 | the tabs become the reordered list, unchanged for equal ids, and the effects follow |
| `TabListComponent.TabList.SelectInStrip` | src/components/Tabs/TabList.jsx:169 | the strip's `onSelect` handler sets the active id; the menu flag, the tabs and both lists stay as they were |
| `TabListComponent.TabList.Select` | src/components/Tabs/TabList.jsx:198-201 | selecting sets the active id and closes the menu; the tabs and both lists stay as they were |
| `TabListComponent.TabList.ToggleOverflow` | src/components/Tabs/TabList.jsx:181 | a click on the trigger negates the menu flag and changes nothing else |
| `TabListComponent.TabList.SetOverflowOpen` | src/components/Tabs/OverflowMenu.jsx:8-21 | the menu's `onToggle` (wired to the flag setter at `TabList.jsx` line 197) sets the flag to the given value and changes nothing else; the menu calls it with `false` on a press outside itself |

## Left out

- Rendering, styling and the `cn` helper: the markup of `TabItem` and `OverflowMenu`, the active-tab highlight and the overflow badge are presentation only. The overflow menu's state changes are its callbacks, modelled as `SetOverflowOpen`, `Select` and `CloseTab`; the menu offers no pin action (it does not take `onPin`), so a tab is pinned only from a strip tab's context menu.
- `TabItem`'s own UI state is not modelled: its context-menu flag and position (`showMenu`, `menuPos`) and the window click listener that clears the flag. The strip callbacks it starts are modelled as `SelectInStrip`, `CloseTab` and `TogglePin`.
- `TabListComponent.TabList.ToggleOverflow`: models the click alone. The order of browser events is not modelled: while the menu is open, any mouse press outside it first reaches the menu's outside-press listener, which runs `SetOverflowOpen(false)`, before the handler the press leads to. That handler can be `SelectInStrip`, `CloseTab`, `TogglePin` (through the strip tab's context menu) or `HandleDragEnd`, so each of them leaves the menu closed in the browser even though its own contract keeps the flag. For the trigger itself, the click that follows negates the now-closed flag, so the menu opens again rather than closing.
- The drag-and-drop library is left out: its sensors, collision detection and `useSortable`. Only the drop callback is modelled, and `arrayMove` is given its splice semantics.
- `TabReorder.DragEnd`: requires both ids to be in the list. The library only reports drops between rendered tabs. A missing id would make `findIndex` return -1, and the library's negative-index handling of `arrayMove` is not part of this model. A drop with no target (`over` null) throws in the source and is not modelled.
- `TabListComponent.TabList.Resize`: assumes the container element exists. The early return when the ref is empty (line 99) is not modelled.
- `localStorage` and `JSON.parse` are inputs: the stored entry is an optional list of plain records. Stored records with missing or extra fields, and non-array JSON (which makes `parsed.map` throw and so falls back to the catalog), are folded into that option.
- `Tabs.IconFor`: treats ids that name inherited object properties (such as `constructor`) like unknown ids, giving `Package`. The source's plain-object lookup would return the inherited value instead.
- `TabLoad.LoadUniqueIds`: needs distinct ids in the stored list. The source neither checks nor removes duplicate saved ids; they are kept as they are.
- React scheduling: state updates and effects are applied at once and in order. Batching and re-render timing are not modelled.
- Error logging (`console.error`) is left out.
- The remote store and authentication service (`src/firebase/tabsService.js`) are not part of this model. Neither is `src/firebase/defaultTabs.js`, which repeats the catalog, nor `src/App.jsx`, which only composes the component.
