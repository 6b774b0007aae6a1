/**
 * The row context menu: which gesture opens it on a given row, what the open menu
 * records, which row shows itself as the menu's target, and which of the host's menu
 * items can be clicked.
 */
module ContextMenu {
  import opened Optional
  import opened KeyedSeq

  /** The open menu: the pointer position and the row it was opened on. */
  datatype MenuInfo<T> = MenuInfo(x: int, y: int, record: T, recordIndex: nat)

  /** `rowContextMenu.trigger`: `'click'`, or anything else (right-click, the default). */
  datatype Trigger = Click | ContextMenuEvent

  /** `rowContextMenu.hidden`: absent, a constant, or a per-row function. */
  datatype Hidden<!T> = NotSet | Constant(hidden: bool) | PerRow(isHidden: (T, nat) -> bool)

  /** The parts of the `rowContextMenu` prop that decide whether and how a row opens the menu. */
  datatype MenuConfig<!T> = MenuConfig(trigger: Trigger, hidden: Hidden<T>)

  /** What a row does with the menu: nothing, open it on click, or open it on right-click. */
  datatype RowGesture = NoMenu | OpenOnClick | OpenOnRightClick

  /** The parts of an entry of `rowContextMenu.items(record, index)` that decide whether it renders as an item; absent booleans read as false. */
  datatype MenuItem = MenuItem(key: string, hidden: bool, divider: bool)

  /** Whether `hidden` leaves the menu available on the row at `recordIndex`. */
  function MenuAllowed<T>(hidden: Hidden<T>, record: T, recordIndex: nat): bool
  {
    match hidden
    case NotSet => true
    case Constant(b) => !b
    case PerRow(f) => !f(record, recordIndex)
  }

  /** How the row at `recordIndex` opens the menu, given the (optional) menu configuration. */
  function RowMenuGesture<T>(config: Option<MenuConfig<T>>, record: T, recordIndex: nat): (g: RowGesture)
    ensures g != NoMenu <==> config.Some? && MenuAllowed(config.value.hidden, record, recordIndex)
    ensures g == OpenOnClick <==> config.Some? && MenuAllowed(config.value.hidden, record, recordIndex) &&
                                  config.value.trigger == Click
  {
    if config.Some? && MenuAllowed(config.value.hidden, record, recordIndex) then
      if config.value.trigger == Click then OpenOnClick else OpenOnRightClick
    else NoMenu
  }

  /** Whether a row renders as the target of the open menu: its key is the target's key. */
  function MenuVisibleOnRow<T, K(==)>(key: T -> K, menu: Option<MenuInfo<T>>, record: T): bool
  {
    menu.Some? && key(menu.value.record) == key(record)
  }

  /** A menu entry renders as a clickable item when it is neither a divider nor hidden. */
  predicate Clickable(item: MenuItem)
  {
    !item.divider && !item.hidden
  }

  /**
   * With record keys unique, a menu opened on row `i` marks exactly row `i` among the
   * current records as its target.
   */
  lemma MenuVisibleExactlyOnTarget<T, K>(key: T -> K, records: seq<T>, x: int, y: int, i: nat)
    requires i < |records| && NoDupKeys(key, records)
    ensures forall j :: 0 <= j < |records| ==>
              (MenuVisibleOnRow(key, Some(MenuInfo(x, y, records[i], i)), records[j]) <==> j == i)
  {
    forall j | 0 <= j < |records| && j != i
      ensures !MenuVisibleOnRow(key, Some(MenuInfo(x, y, records[i], i)), records[j])
    {
      if j < i {
        assert key(records[j]) != key(records[i]);
      } else {
        assert key(records[i]) != key(records[j]);
      }
    }
  }
}
