# mantine-datatable state engine in Dafny

This project models the interactive state engine of the `DataTable` component of
mantine-datatable (`package/DataTable.tsx`). It covers four parts:

- the header "select all" checkbox: its checked / indeterminate state and the selection it
  proposes when toggled;
- the per-row selection checkbox: plain toggles and shift-click range toggles around the
  anchor row, the last row whose checkbox changed;
- the four scroll-edge flags (`scrolledToTop`, `scrolledToBottom`, `scrolledToLeft`,
  `scrolledToRight`), recomputed after a scroll or a size change;
- the row context-menu slot: which gesture opens it on a row, when it closes, which row is
  shown as its target, and the order of the menu write and the host callbacks.

Record identity (`getValueAtPath(record, idAccessor)`) is an abstract key function
`key: T -> K`. The component imports `uniqBy` and `differenceBy` from `./utils`, which
is not part of this model. The model assumes they have the meaning of the lodash
functions of the same names and defines them so: `uniqBy` keeps the first record of each
key, in order; `differenceBy` keeps the records of the first list whose key does not
occur in the second, in order, every copy of each.

Layout:

- `optional.dfy`: `Option`.
- `keyed_seq.dfy` (module `KeyedSeq`): `KeysOf`, an indexed `Filter`, `Without`,
  `DifferenceBy` and `UniqBy`, with lemmas on membership, order and key uniqueness.
- `selection.dfy` (module `Selection`): the header checkbox state, the header and row
  selection proposals (pure functions of the inputs), and the shift-click target range.
- `scroll_edges.dfy` (module `ScrollEdges`): the edge-flag decision table.
- `context_menu.dfy` (module `ContextMenu`): the menu gesture, target matching and
  clickable items.
- `engine.dfy` (module `Engine`): class `TableEngine`. It holds the state slots the
  component keeps between renders: the four edge flags, `contextMenu` and
  `lastSelectionChangeIndex`. Its methods are the event handlers. Every call the host can
  observe is appended to the field `calls`: a write of the menu slot, `onRowClick`,
  `onSelectedRecordsChange`, or a menu item's `onClick`. Contracts can then state the
  order of these calls.

`checked` is `every` over the selectable keys (`package/DataTable.tsx:233-234`), so with
no selectable record and a non-empty selection it is true, and toggling the header
proposes the selection unchanged (`Selection.HeaderWithoutSelectableRecords`).

The functions that compute what the component computes, and the lines they model:

- `Selection.HeaderState`: `checked` and `indeterminate` of the header checkbox
  (`package/DataTable.tsx:224-236`, `300-301`).
- `Selection.HeaderToggle`: the selection the header handler proposes
  (`package/DataTable.tsx:240-245`).
- `Selection.TargetRange`: the shift-click target records (`package/DataTable.tsx:328-338`).
- `Selection.RowToggle`: the selection the row handler proposes, shift-click and plain
  (`package/DataTable.tsx:327-350`).
- `ScrollEdges.VerticalEdges` and `ScrollEdges.HorizontalEdges`: the edge flags of each axis
  (`package/DataTable.tsx:185-192` and `194-201`).
- `ContextMenu.RowMenuGesture`: `showContextMenuOnClick` / `showContextMenuOnRightClick`
  (`package/DataTable.tsx:311-322`).
- `ContextMenu.MenuVisibleOnRow`: the row's `contextMenuVisible` (`package/DataTable.tsx:389-391`).
- `ContextMenu.Clickable`: an item entry renders as a clickable item (`package/DataTable.tsx:462-464`).
- `KeyedSeq.Filter`: `Array.prototype.filter` with the index argument
  (`package/DataTable.tsx:230`, `328`); `KeyedSeq.UniqBy` (`244`, `342`, `348`);
  `KeyedSeq.DifferenceBy` (`341`); `KeyedSeq.Without`: filtering out records by key
  (`243`, `347`).

## Model

| member | source | states |
|---|---|---|
| KeyedSeq.UniqByFirstOccurrences | package/DataTable.tsx:244 | `uniqBy` keeps exactly the records whose key does not occur earlier in the input, in input order |
| KeyedSeq.UniqByKeys | package/DataTable.tsx:244 | the result of `uniqBy` has no two records with the same key and has the same set of keys as its input |
| KeyedSeq.UniqByNoDup | package/DataTable.tsx:244 | `uniqBy` leaves a list without duplicate keys unchanged |
| KeyedSeq.UniqByAppend | package/DataTable.tsx:244 | `uniqBy(a ++ b)` is `uniqBy(a)` followed by the records of `uniqBy(b)` whose key is not in `a` |
| KeyedSeq.UniqByAppendFresh | package/DataTable.tsx:348 | appending a record with a new key to a list without duplicate keys is unchanged by `uniqBy` |
| KeyedSeq.DifferenceBySpec | package/DataTable.tsx:341 | `differenceBy(a, b)` is an order-preserving sub-list of `a` holding exactly the records of `a` whose key is not a key of `b`, each with as many copies as in `a`, and keeps keys unique |
| KeyedSeq.WithoutCount | package/DataTable.tsx:242-243 | filtering by "key not in ids" keeps every copy of a record whose key is not among the ids and no copy of the others |
| KeyedSeq.WithoutMembers | package/DataTable.tsx:242-243 | filtering by "key not in ids" keeps exactly the records whose key is not among the ids |
| KeyedSeq.WithoutSubsequence | package/DataTable.tsx:242-243 | filtering by "key not in ids" keeps the remaining records in their original order |
| KeyedSeq.FilterMembers | package/DataTable.tsx:230 | `records.filter(p)` holds exactly the records at the indices where `p(record, index)` holds |
| KeyedSeq.FilterSubsequence | package/DataTable.tsx:230 | `records.filter(p)` keeps the order of the records |
| Selection.SelectableKeys | package/DataTable.tsx:230-231 | a key is a selectable key iff some record at an index accepted by `isRecordSelectable` has it, or any record when no predicate is given |
| Selection.HeaderStateSpec | package/DataTable.tsx:224-236 | `checked` iff records and a non-empty selection are present and every selectable record's key is selected; `indeterminate` iff some selectable key is selected and `checked` is false; never both |
| Selection.HeaderToggleDeselects | package/DataTable.tsx:242-243 | when `checked`, the proposal keeps exactly the selected records whose key is not selectable, in their original order and with as many copies as before |
| Selection.HeaderToggleSelects | package/DataTable.tsx:244 | otherwise the proposal has no duplicate keys, holds every key of the selection and of the selectable records, lists the de-duplicated selection first and has the old selection as a prefix when it had no duplicate keys |
| Selection.HeaderSelectAllChecks | package/DataTable.tsx:238-247 | after "select all" with a non-empty result, the header checkbox reads as checked |
| Selection.HeaderToggleTwice | package/DataTable.tsx:238-247 | toggling the header twice from an unchecked state, starting from any selection without duplicate keys (the empty one included), removes the selectable records from the original selection and keeps the rest in order |
| Selection.HeaderWithoutSelectableRecords | package/DataTable.tsx:230-244 | with no selectable record and a non-empty selection the header reads as checked and toggling it proposes the selection unchanged |
| Selection.TargetRangeSymmetric | package/DataTable.tsx:328-338 | the shift-click range is the selectable records with index between `min(anchor, i)` and `max(anchor, i)`, whichever side the anchor is on |
| Selection.TargetRangeMembers | package/DataTable.tsx:328-338 | the range is an order-preserving sub-list of the records holding exactly the selectable records of the index span |
| Selection.TargetRangeHasKey | package/DataTable.tsx:328-338 | a key is in the range iff some selectable record of the index span has it |
| Selection.RowTogglePlainDeselects | package/DataTable.tsx:345-347 | a plain click on a selected row removes every record with that row's key and keeps the rest in order, each with as many copies as before |
| Selection.RowTogglePlainSelects | package/DataTable.tsx:345-348 | a plain click on an unselected row appends it after the de-duplicated selection, so its key appears exactly once |
| Selection.RowToggleShiftDeselects | package/DataTable.tsx:326-341 | a shift-click on a selected row with an anchor only removes records, exactly those whose key is in the range, keeping order and the number of copies of the rest; the clicked row, when selectable, ends up unselected |
| Selection.RowToggleShiftSelects | package/DataTable.tsx:326-342 | a shift-click on an unselected row with an anchor adds the range after the de-duplicated selection without duplicate keys; every added key belongs to a selectable record between anchor and clicked row; the clicked row, when selectable, ends up selected |
| Selection.RowTogglePlainTwice | package/DataTable.tsx:345-349 | two plain clicks on the same unselected row give back the original selection when it had no duplicate keys |
| ScrollEdges.Round | package/DataTable.tsx:191 | `Math.round` returns the integer within half a unit of its argument, halves rounding up |
| ScrollEdges.EndEdgeTolerance | package/DataTable.tsx:191 | the end-edge test holds when the remaining size equals the viewport size and fails when they differ by a pixel or more |
| ScrollEdges.VerticalOverflowShowsAShadow | package/DataTable.tsx:185-192 | when not fetching and the table is at least a pixel taller than the viewport, top and bottom are never both reached |
| ScrollEdges.SubPixelOverflowReadsAsFitting | package/DataTable.tsx:185-192 | a 500.4 px table in a 500.1 px viewport at offset 0 reads as showing both its top and its bottom |
| ScrollEdges.NarrowTableReadsRightEdgeUnreached | package/DataTable.tsx:185-201 | a table a pixel or more narrower than its viewport reads left-reached but right-unreached, while the same sizes vertically read both reached |
| ContextMenu.RowMenuGesture | package/DataTable.tsx:313-322 | a row opens the menu iff a menu is configured and `hidden` is unset, false, or false for the row; it opens on click iff the trigger is `'click'`, otherwise on right-click |
| ContextMenu.MenuVisibleExactlyOnTarget | package/DataTable.tsx:389-391 | with unique record keys, a menu opened on row `i` marks exactly row `i` as its target |
| Engine.TableEngine.constructor | package/DataTable.tsx:166-178 | a new table has no open menu, no anchor row and the given initial edge flags |
| Engine.TableEngine.OnScrollPositionChange | package/DataTable.tsx:180-202 | the menu is closed (and that write logged) iff not fetching and a menu is configured; the flags of each axis are that axis's decision table; fetching sets all four; the anchor is unchanged |
| Engine.TableEngine.HandleHeaderSelectionChange | package/DataTable.tsx:238-247 | calls `onSelectedRecordsChange` once with the header proposal |
| Engine.TableEngine.HandleSelectionChange | package/DataTable.tsx:324-352 | calls `onSelectedRecordsChange` once with the row proposal computed from the previous anchor; a shift-click before any toggle proposes what a plain click does; the clicked row becomes the anchor |
| Engine.TableEngine.HandleRowClick | package/DataTable.tsx:355-365 | with the click trigger the menu opens on the row and is written before `onRowClick` is called; otherwise only `onRowClick` is called, when given |
| Engine.TableEngine.HandleRowContextMenu | package/DataTable.tsx:367-373 | a right-click opens the menu on the row iff the row's gesture is right-click; otherwise nothing changes |
| Engine.TableEngine.CloseMenu | package/DataTable.tsx:450-457 | dismissing the open menu empties the slot |
| Engine.TableEngine.ActivateMenuItem | package/DataTable.tsx:459-476 | clicking a rendered item of the open menu empties the slot before the item's `onClick` is called |

## Left out

- DOM measurement: `useElementSize` and the scroll viewport's `scrollTop` / `scrollLeft` are inputs of `OnScrollPositionChange` (a `Layout` and two offsets).
- Effect scheduling: the `useEffect` that re-runs `onScrollPositionChange` when its dependencies change is not modelled; the method is the effect's body.
- `handlePageChange`: `scrollTo` is DOM I/O and `onPageChange` is a host callback; pagination itself lives in the footer, which is not part of this model.
- `e.preventDefault()` in the right-click handler is DOM I/O.
- ScrollEdges.Round: sizes and offsets are exact reals, so IEEE double rounding of `tableHeight - scrollTop` is not modelled.
- The bodies of `useScrollStatus` (debouncing, initial values: the constructor takes the initial flags), `useRowContextMenu` (its reset of the menu while fetching), `useLastSelectionChangeIndex` (its reset when the record ids change) and `useRowExpansion` are not part of this model; only their state slots and the writes visible in `DataTable.tsx` are.
- `getValueAtPath` is the abstract key function; `humanize` (default item titles) is not modelled.
- `uniqBy` and `differenceBy` come from `./utils`, which is not part of this model; their lodash meaning is an assumption.
- Item rendering details: titles, icons and colours are not modelled.
- Engine.TableEngine.ActivateMenuItem: the item's `disabled` flag is passed to the menu item component, which is not part of this model; the method treats every rendered item (neither a divider nor hidden) as clickable.
- Engine.TableEngine.HandleHeaderSelectionChange: the handler is installed whenever `onSelectedRecordsChange` is given (`package/DataTable.tsx:239-246`), even when `records` is undefined; clicking the header then throws while spreading the undefined selectable records (line 244). The model takes `records` and `selectedRecords` as present and does not model that crash or the absent handler.
- Engine.TableEngine.HandleSelectionChange: the handler is installed only when `onSelectedRecordsChange` is given, and the row checkbox is shown only when `selectedRecords` is given (line 382); the model takes both as present and does not model the absent handler.
- Engine.TableEngine.HandleRowClick, Engine.TableEngine.HandleRowContextMenu: the handler is installed only when it does something; the model's call with nothing to do leaves the state unchanged instead.
- Styling, JSX markup, the header component and the prop type declarations carry no state and are not modelled.
