/**
 * The state a table instance keeps between renders, and the event handlers that change
 * it: the four scroll-edge flags, the context-menu slot and the anchor of shift-click
 * selection. The selection itself belongs to the host; handlers only propose a new one.
 *
 * Every call a handler makes that the host can observe (a write of the menu slot, or
 * one of the host's callbacks) is appended to `calls`, so that contracts can state the
 * order in which they happen.
 */
module Engine {
  import opened Optional
  import opened KeyedSeq
  import opened Selection
  import opened ScrollEdges
  import opened ContextMenu

  /** An observable call made by a handler. */
  datatype Call<T> =
    | SetMenu(menu: Option<MenuInfo<T>>)       // setRowContextMenuInfo
    | RowClicked(record: T, recordIndex: nat)   // the host's onRowClick
    | SelectionChanged(selection: seq<T>)       // the host's onSelectedRecordsChange
    | ItemClicked(itemKey: string)              // the clicked menu item's onClick

  /** Measured sizes of the table element and of the scroll viewport. */
  datatype Layout = Layout(tableWidth: real, tableHeight: real, viewportWidth: real, viewportHeight: real)

  class TableEngine<T> {
    var scrolledToTop: bool
    var scrolledToBottom: bool
    var scrolledToLeft: bool
    var scrolledToRight: bool
    var contextMenu: Option<MenuInfo<T>>
    var lastSelectionChangeIndex: Option<nat>
    var calls: seq<Call<T>>

    /** A fresh table: no menu open, no row toggled yet, given initial edge flags. */
    constructor (top: bool, bottom: bool, left: bool, right: bool)
      ensures scrolledToTop == top && scrolledToBottom == bottom
      ensures scrolledToLeft == left && scrolledToRight == right
      ensures contextMenu == None && lastSelectionChangeIndex == None && calls == []
    {
      scrolledToTop, scrolledToBottom := top, bottom;
      scrolledToLeft, scrolledToRight := left, right;
      contextMenu := None;
      lastSelectionChangeIndex := None;
      calls := [];
    }

    /**
     * Recomputes the four edge flags after a scroll or a size change. When not fetching
     * and a row context menu is configured, the open menu is closed first.
     */
    method OnScrollPositionChange(fetching: bool, menuConfigured: bool, layout: Layout, scrollTop: real, scrollLeft: real)
      modifies this
      ensures contextMenu == (if !fetching && menuConfigured then None else old(contextMenu))
      ensures calls == old(calls) + (if !fetching && menuConfigured then [SetMenu(None)] else [])
      ensures AxisEdges(scrolledToTop, scrolledToBottom) ==
                VerticalEdges(fetching, layout.tableHeight, layout.viewportHeight, scrollTop)
      ensures AxisEdges(scrolledToLeft, scrolledToRight) ==
                HorizontalEdges(fetching, layout.tableWidth, layout.viewportWidth, scrollLeft)
      ensures fetching ==> scrolledToTop && scrolledToBottom && scrolledToLeft && scrolledToRight
      ensures lastSelectionChangeIndex == old(lastSelectionChangeIndex)
    {
      if !fetching && menuConfigured {
        contextMenu := None;
        calls := calls + [SetMenu(None)];
      }

      if fetching || layout.tableHeight <= layout.viewportHeight {
        scrolledToTop := true;
        scrolledToBottom := true;
      } else {
        scrolledToTop := scrollTop == 0.0;
        scrolledToBottom := Round(layout.tableHeight - scrollTop) == Round(layout.viewportHeight);
      }

      if fetching || layout.tableWidth == layout.viewportWidth {
        scrolledToLeft := true;
        scrolledToRight := true;
      } else {
        scrolledToLeft := scrollLeft == 0.0;
        scrolledToRight := Round(layout.tableWidth - scrollLeft) == Round(layout.viewportWidth);
      }
    }

    /** The header checkbox changed: propose the selection `HeaderToggle` computes. */
    method HandleHeaderSelectionChange<K(==)>(key: T -> K, records: seq<T>, isSelectable: SelectablePredicate<T>,
                                              selected: seq<T>)
      modifies this`calls
      ensures calls == old(calls) + [SelectionChanged(HeaderToggle(key, records, isSelectable, selected))]
    {
      calls := calls + [SelectionChanged(HeaderToggle(key, records, isSelectable, selected))];
    }

    /**
     * The checkbox of row `recordIndex` changed: propose the selection `RowToggle`
     * computes from the current anchor, then make that row the anchor. A shift-click
     * before any toggle is a plain click.
     */
    method HandleSelectionChange<K(==)>(key: T -> K, records: seq<T>, isSelectable: SelectablePredicate<T>,
                                        selected: seq<T>, recordIndex: nat, shiftKey: bool)
      requires recordIndex < |records|
      modifies this`calls, this`lastSelectionChangeIndex
      ensures calls == old(calls) +
                [SelectionChanged(RowToggle(key, records, isSelectable, selected, recordIndex,
                                            old(lastSelectionChangeIndex), shiftKey))]
      ensures old(lastSelectionChangeIndex).None? ==>
                calls == old(calls) +
                  [SelectionChanged(RowToggle(key, records, isSelectable, selected, recordIndex, None, false))]
      ensures lastSelectionChangeIndex == Some(recordIndex)
    {
      var proposal := RowToggle(key, records, isSelectable, selected, recordIndex, lastSelectionChangeIndex, shiftKey);
      calls := calls + [SelectionChanged(proposal)];
      lastSelectionChangeIndex := Some(recordIndex);
    }

    /**
     * A click on row `recordIndex`. With the click trigger (and the menu not hidden for
     * the row) the menu opens on the row before `onRowClick`, when given, is called.
     */
    method HandleRowClick(config: Option<MenuConfig<T>>, hasRowClickHandler: bool, records: seq<T>, recordIndex: nat,
                          clientX: int, clientY: int)
      requires recordIndex < |records|
      modifies this`contextMenu, this`calls
      ensures var opens := RowMenuGesture(config, records[recordIndex], recordIndex) == OpenOnClick;
              var target := Some(MenuInfo(clientX, clientY, records[recordIndex], recordIndex));
              && contextMenu == (if opens then target else old(contextMenu))
              && calls == old(calls) + (if opens then [SetMenu(target)] else []) +
                          (if hasRowClickHandler then [RowClicked(records[recordIndex], recordIndex)] else [])
    {
      var record := records[recordIndex];
      if RowMenuGesture(config, record, recordIndex) == OpenOnClick {
        contextMenu := Some(MenuInfo(clientX, clientY, record, recordIndex));
        calls := calls + [SetMenu(contextMenu)];
        if hasRowClickHandler {
          calls := calls + [RowClicked(record, recordIndex)];
        }
      } else if hasRowClickHandler {
        calls := calls + [RowClicked(record, recordIndex)];
      }
    }

    /** A right-click on row `recordIndex` opens the menu there unless the click trigger is configured or the row hides it. */
    method HandleRowContextMenu(config: Option<MenuConfig<T>>, records: seq<T>, recordIndex: nat,
                                clientX: int, clientY: int)
      requires recordIndex < |records|
      modifies this`contextMenu, this`calls
      ensures var opens := RowMenuGesture(config, records[recordIndex], recordIndex) == OpenOnRightClick;
              var target := Some(MenuInfo(clientX, clientY, records[recordIndex], recordIndex));
              && contextMenu == (if opens then target else old(contextMenu))
              && calls == old(calls) + (if opens then [SetMenu(target)] else [])
    {
      var record := records[recordIndex];
      if RowMenuGesture(config, record, recordIndex) == OpenOnRightClick {
        contextMenu := Some(MenuInfo(clientX, clientY, record, recordIndex));
        calls := calls + [SetMenu(contextMenu)];
      }
    }

    /** The open menu is dismissed (a click elsewhere). */
    method CloseMenu()
      requires contextMenu.Some?
      modifies this`contextMenu, this`calls
      ensures contextMenu == None
      ensures calls == old(calls) + [SetMenu(None)]
    {
      contextMenu := None;
      calls := calls + [SetMenu(None)];
    }

    /**
     * The item at `position` of the open menu's item list is clicked: the menu is
     * closed, and only then is the item's action called.
     */
    method ActivateMenuItem(items: (T, nat) -> seq<MenuItem>, position: nat)
      requires contextMenu.Some?
      requires position < |items(contextMenu.value.record, contextMenu.value.recordIndex)|
      requires Clickable(items(contextMenu.value.record, contextMenu.value.recordIndex)[position])
      modifies this`contextMenu, this`calls
      ensures contextMenu == None
      ensures calls == old(calls) +
                [SetMenu(None), ItemClicked(items(old(contextMenu).value.record, old(contextMenu).value.recordIndex)[position].key)]
    {
      var item := items(contextMenu.value.record, contextMenu.value.recordIndex)[position];
      contextMenu := None;
      calls := calls + [SetMenu(None)];
      calls := calls + [ItemClicked(item.key)];
    }
  }
}
