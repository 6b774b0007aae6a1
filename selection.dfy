/**
 * The selection engine of the table: the header "select all" checkbox (its derived
 * checked / indeterminate state and the selection it proposes when toggled) and the
 * per-row checkbox (plain click and shift-click range selection around an anchor).
 *
 * The table never changes the selection itself: each handler proposes a complete
 * replacement sequence to the host, modelled here as the result of a pure function.
 */
module Selection {
  import opened Optional
  import opened KeyedSeq

  /** The optional host predicate `isRecordSelectable(record, index)`. */
  type SelectablePredicate<!T> = Option<(T, nat) -> bool>

  /** Whether the record at `index` is selectable; without a predicate every record is. */
  function Passes<T>(isSelectable: SelectablePredicate<T>, r: T, index: nat): bool
  {
    isSelectable.None? || isSelectable.value(r, index)
  }

  /** `isRecordSelectable ? records.filter(isRecordSelectable) : records`. */
  function SelectableRecords<T>(records: seq<T>, isSelectable: SelectablePredicate<T>): seq<T>
  {
    match isSelectable
    case None => records
    case Some(p) => Filter(records, p)
  }

  function Min(a: nat, b: nat): nat { if a <= b then a else b }

  function Max(a: nat, b: nat): nat { if a <= b then b else a }

  /** `xs.every((id) => ys.includes(id))` */
  predicate AllIn<K(==)>(xs: seq<K>, ys: seq<K>)
  {
    forall i :: 0 <= i < |xs| ==> xs[i] in ys
  }

  /** `xs.some((id) => ys.includes(id))` */
  predicate AnyIn<K(==)>(xs: seq<K>, ys: seq<K>)
  {
    exists i :: 0 <= i < |xs| && xs[i] in ys
  }

  /** The header checkbox as rendered: `checked` and `indeterminate`. */
  datatype HeaderCheckbox = HeaderCheckbox(checked: bool, indeterminate: bool)

  /**
   * The header checkbox state derived from the current props. `records` and `selected`
   * are absent when the host passes `undefined`.
   */
  function HeaderState<T, K(==)>(key: T -> K, records: Option<seq<T>>, isSelectable: SelectablePredicate<T>,
                                 selected: Option<seq<T>>): HeaderCheckbox
  {
    var hasRecordsAndSelectedRecords := records.Some? && selected.Some? && |selected.value| > 0;
    var selectedIds := if selected.Some? then KeysOf(key, selected.value) else [];
    var selectableIds := if records.Some? then KeysOf(key, SelectableRecords(records.value, isSelectable)) else [];
    var allSelected := hasRecordsAndSelectedRecords && AllIn(selectableIds, selectedIds);
    var someSelected := hasRecordsAndSelectedRecords && AnyIn(selectableIds, selectedIds);
    HeaderCheckbox(allSelected, someSelected && !allSelected)
  }

  /** The selection proposed when the header checkbox is toggled. */
  function HeaderToggle<T, K(==)>(key: T -> K, records: seq<T>, isSelectable: SelectablePredicate<T>,
                                  selected: seq<T>): seq<T>
  {
    var selectable := SelectableRecords(records, isSelectable);
    if HeaderState(key, Some(records), isSelectable, Some(selected)).checked
    then Without(key, selected, KeysOf(key, selectable))
    else UniqBy(key, selected + selectable)
  }

  /**
   * The records a shift-click on row `recordIndex` acts on, with the previous toggle at
   * row `anchor`: the selectable records between the two rows, both included.
   */
  function TargetRange<T>(records: seq<T>, isSelectable: SelectablePredicate<T>, anchor: nat, recordIndex: nat): seq<T>
  {
    if recordIndex > anchor then
      Filter(records, (r: T, index: nat) => index >= anchor && index <= recordIndex && Passes(isSelectable, r, index))
    else
      Filter(records, (r: T, index: nat) => index >= recordIndex && index <= anchor && Passes(isSelectable, r, index))
  }

  /**
   * The selection proposed when the checkbox of row `recordIndex` is toggled, given the
   * anchor (the last toggled row, if any) and whether Shift was held.
   */
  function RowToggle<T, K(==)>(key: T -> K, records: seq<T>, isSelectable: SelectablePredicate<T>, selected: seq<T>,
                               recordIndex: nat, anchor: Option<nat>, shiftKey: bool): seq<T>
    requires recordIndex < |records|
  {
    var record := records[recordIndex];
    var isSelected := key(record) in KeysOf(key, selected);
    if shiftKey && anchor.Some? then
      var targets := TargetRange(records, isSelectable, anchor.value, recordIndex);
      if isSelected then DifferenceBy(key, selected, targets) else UniqBy(key, selected + targets)
    else if isSelected then Without(key, selected, [key(record)])
    else UniqBy(key, selected + [record])
  }

  // ---------------------------------------------------------------------------
  // Selectable records

  /** A key is a selectable key iff some record at a selectable index has it. */
  lemma SelectableKeys<T, K>(key: T -> K, records: seq<T>, isSelectable: SelectablePredicate<T>, k: K)
    ensures k in KeysOf(key, SelectableRecords(records, isSelectable)) <==>
              exists i :: 0 <= i < |records| && Passes(isSelectable, records[i], i) && key(records[i]) == k
  {
    var sel := SelectableRecords(records, isSelectable);
    if isSelectable.Some? {
      FilterMembers(records, isSelectable.value);
      if k in KeysOf(key, sel) {
        var j :| 0 <= j < |sel| && KeysOf(key, sel)[j] == k;
        assert sel[j] in sel;
      }
      if exists i :: 0 <= i < |records| && Passes(isSelectable, records[i], i) && key(records[i]) == k {
        var i :| 0 <= i < |records| && Passes(isSelectable, records[i], i) && key(records[i]) == k;
        assert records[i] in sel;
        var j :| 0 <= j < |sel| && sel[j] == records[i];
        assert KeysOf(key, sel)[j] == k;
      }
    } else {
      if k in KeysOf(key, sel) {
        var j :| 0 <= j < |sel| && KeysOf(key, sel)[j] == k;
        assert Passes(isSelectable, records[j], j);
      }
    }
  }

  // ---------------------------------------------------------------------------
  // Header checkbox

  /**
   * `checked` holds iff records are present, the selection is non-empty and the key of
   * every record at a selectable index is selected (vacuously so when no record is
   * selectable); `indeterminate` holds iff some such key is selected while `checked`
   * does not hold. The two are never both set.
   */
  lemma HeaderStateSpec<T, K>(key: T -> K, records: Option<seq<T>>, isSelectable: SelectablePredicate<T>,
                              selected: Option<seq<T>>)
    ensures HeaderState(key, records, isSelectable, selected).checked <==>
              records.Some? && selected.Some? && |selected.value| > 0 &&
              forall i :: 0 <= i < |records.value| && Passes(isSelectable, records.value[i], i) ==>
                key(records.value[i]) in KeysOf(key, selected.value)
    ensures HeaderState(key, records, isSelectable, selected).indeterminate <==>
              !HeaderState(key, records, isSelectable, selected).checked &&
              records.Some? && selected.Some? &&
              exists i :: 0 <= i < |records.value| && Passes(isSelectable, records.value[i], i) &&
                key(records.value[i]) in KeysOf(key, selected.value)
    ensures !(HeaderState(key, records, isSelectable, selected).checked &&
              HeaderState(key, records, isSelectable, selected).indeterminate)
  {
    if records.Some? && selected.Some? {
      var rs, ss := records.value, selected.value;
      var ids := KeysOf(key, SelectableRecords(rs, isSelectable));
      var chosen := KeysOf(key, ss);
      assert (forall j :: 0 <= j < |ids| ==> ids[j] in chosen) <==>
             (forall i :: 0 <= i < |rs| && Passes(isSelectable, rs[i], i) ==> key(rs[i]) in chosen) by {
        if forall j :: 0 <= j < |ids| ==> ids[j] in chosen {
          forall i | 0 <= i < |rs| && Passes(isSelectable, rs[i], i) ensures key(rs[i]) in chosen {
            SelectableKeys(key, rs, isSelectable, key(rs[i]));
            var j :| 0 <= j < |ids| && ids[j] == key(rs[i]);
          }
        }
        if forall i :: 0 <= i < |rs| && Passes(isSelectable, rs[i], i) ==> key(rs[i]) in chosen {
          forall j | 0 <= j < |ids| ensures ids[j] in chosen {
            assert ids[j] in ids;
            SelectableKeys(key, rs, isSelectable, ids[j]);
          }
        }
      }
      assert (exists j :: 0 <= j < |ids| && ids[j] in chosen) <==>
             (exists i :: 0 <= i < |rs| && Passes(isSelectable, rs[i], i) && key(rs[i]) in chosen) by {
        if exists j :: 0 <= j < |ids| && ids[j] in chosen {
          var j :| 0 <= j < |ids| && ids[j] in chosen;
          assert ids[j] in ids;
          SelectableKeys(key, rs, isSelectable, ids[j]);
        }
        if exists i :: 0 <= i < |rs| && Passes(isSelectable, rs[i], i) && key(rs[i]) in chosen {
          var i :| 0 <= i < |rs| && Passes(isSelectable, rs[i], i) && key(rs[i]) in chosen;
          SelectableKeys(key, rs, isSelectable, key(rs[i]));
          var j :| 0 <= j < |ids| && ids[j] == key(rs[i]);
        }
      }
      assert HeaderState(key, records, isSelectable, selected) ==
             HeaderCheckbox(|ss| > 0 && AllIn(ids, chosen), |ss| > 0 && AnyIn(ids, chosen) && !(|ss| > 0 && AllIn(ids, chosen)));
    }
  }

  /**
   * Toggling a checked header removes from the selection exactly the records whose key
   * belongs to a selectable record, keeping the others (selected records that are not
   * selectable included) in their order and with as many copies as before.
   */
  lemma HeaderToggleDeselects<T, K>(key: T -> K, records: seq<T>, isSelectable: SelectablePredicate<T>, selected: seq<T>)
    requires HeaderState(key, Some(records), isSelectable, Some(selected)).checked
    ensures SubsequenceOf(HeaderToggle(key, records, isSelectable, selected), selected)
    ensures forall x :: x in HeaderToggle(key, records, isSelectable, selected) <==>
              x in selected &&
              forall i :: 0 <= i < |records| && Passes(isSelectable, records[i], i) ==> key(records[i]) != key(x)
    ensures forall x :: multiset(HeaderToggle(key, records, isSelectable, selected))[x] ==
              if key(x) in KeysOf(key, SelectableRecords(records, isSelectable)) then 0 else multiset(selected)[x]
  {
    var ids := KeysOf(key, SelectableRecords(records, isSelectable));
    WithoutSubsequence(key, selected, ids);
    WithoutMembers(key, selected, ids);
    WithoutCount(key, selected, ids);
    forall x ensures key(x) in ids <==> exists i :: 0 <= i < |records| && Passes(isSelectable, records[i], i) && key(records[i]) == key(x) {
      SelectableKeys(key, records, isSelectable, key(x));
    }
  }

  /**
   * Toggling an unchecked header proposes the selection followed by the selectable
   * records it lacks: no key twice, every key of either input present, and the
   * selection itself kept as a prefix when it had no repeated key.
   */
  lemma HeaderToggleSelects<T, K>(key: T -> K, records: seq<T>, isSelectable: SelectablePredicate<T>, selected: seq<T>)
    requires !HeaderState(key, Some(records), isSelectable, Some(selected)).checked
    ensures var r := HeaderToggle(key, records, isSelectable, selected);
            var selectable := SelectableRecords(records, isSelectable);
            && NoDupKeys(key, r)
            && (forall k :: k in KeysOf(key, r) <==> k in KeysOf(key, selected) || k in KeysOf(key, selectable))
            && r == UniqBy(key, selected) + Without(key, UniqBy(key, selectable), KeysOf(key, selected))
            && (NoDupKeys(key, selected) ==> |selected| <= |r| && r[..|selected|] == selected)
  {
    var selectable := SelectableRecords(records, isSelectable);
    UniqByNoDupKeys(key, selected + selectable);
    forall k ensures k in KeysOf(key, UniqBy(key, selected + selectable)) <==>
                     k in KeysOf(key, selected) || k in KeysOf(key, selectable) {
      UniqByAppendHasKey(key, selected, selectable, k);
    }
    UniqByAppend(key, selected, selectable);
    if NoDupKeys(key, selected) {
      UniqByNoDup(key, selected);
    }
  }

  /**
   * After "select all" proposes a non-empty selection, the header reads checked on the
   * next render.
   */
  lemma HeaderSelectAllChecks<T, K>(key: T -> K, records: seq<T>, isSelectable: SelectablePredicate<T>, selected: seq<T>)
    requires !HeaderState(key, Some(records), isSelectable, Some(selected)).checked
    requires |HeaderToggle(key, records, isSelectable, selected)| > 0
    ensures HeaderState(key, Some(records), isSelectable, Some(HeaderToggle(key, records, isSelectable, selected))).checked
  {
    var r := HeaderToggle(key, records, isSelectable, selected);
    var selectable := SelectableRecords(records, isSelectable);
    assert r == UniqBy(key, selected + selectable);
    HeaderStateSpec(key, Some(records), isSelectable, Some(r));
    forall i | 0 <= i < |records| && Passes(isSelectable, records[i], i) ensures key(records[i]) in KeysOf(key, r) {
      SelectableKeys(key, records, isSelectable, key(records[i]));
      UniqByAppendHasKey(key, selected, selectable, key(records[i]));
    }
  }

  /**
   * "Select all" followed by "deselect all" gives back the original selection minus the
   * selectable records: records that are not selectable stay selected. This holds for any
   * selection without a repeated key, the empty one included.
   */
  lemma HeaderToggleTwice<T, K>(key: T -> K, records: seq<T>, isSelectable: SelectablePredicate<T>, selected: seq<T>)
    requires !HeaderState(key, Some(records), isSelectable, Some(selected)).checked
    requires NoDupKeys(key, selected)
    ensures var once := HeaderToggle(key, records, isSelectable, selected);
            HeaderToggle(key, records, isSelectable, once) ==
              Without(key, selected, KeysOf(key, SelectableRecords(records, isSelectable)))
  {
    var selectable := SelectableRecords(records, isSelectable);
    var ids := KeysOf(key, selectable);
    var once := HeaderToggle(key, records, isSelectable, selected);
    var extra := Without(key, UniqBy(key, selectable), KeysOf(key, selected));
    assert once == selected + extra by {
      HeaderToggleSelects(key, records, isSelectable, selected);
      UniqByNoDup(key, selected);
    }
    if |once| == 0 {
      // Nothing selected and nothing selectable: both toggles propose the empty selection.
      assert selected == [] && extra == [];
      assert selected + selectable == selectable && once + selectable == selectable;
      assert HeaderToggle(key, records, isSelectable, once) == once;
      return;
    }
    assert HeaderToggle(key, records, isSelectable, once) == Without(key, once, ids) by {
      HeaderSelectAllChecks(key, records, isSelectable, selected);
    }
    WithoutAppend(key, selected, extra, ids);
    forall i | 0 <= i < |extra| ensures key(extra[i]) in ids {
      var k := key(extra[i]);
      assert KeysOf(key, extra)[i] == k;
      WithoutHasKey(key, UniqBy(key, selectable), KeysOf(key, selected), k);
      UniqByHasKey(key, selectable, k);
    }
    WithoutEverything(key, extra, ids);
  }

  /**
   * With records present, a non-empty selection and no selectable record, the header
   * reads checked and toggling it proposes the selection unchanged.
   */
  lemma HeaderWithoutSelectableRecords<T, K>(key: T -> K, records: seq<T>, isSelectable: SelectablePredicate<T>, selected: seq<T>)
    requires |selected| > 0
    requires forall i :: 0 <= i < |records| ==> !Passes(isSelectable, records[i], i)
    ensures HeaderState(key, Some(records), isSelectable, Some(selected)).checked
    ensures HeaderToggle(key, records, isSelectable, selected) == selected
  {
    HeaderStateSpec(key, Some(records), isSelectable, Some(selected));
    forall i | 0 <= i < |selected| ensures key(selected[i]) !in KeysOf(key, SelectableRecords(records, isSelectable)) {
      SelectableKeys(key, records, isSelectable, key(selected[i]));
    }
    WithoutNothing(key, selected, KeysOf(key, SelectableRecords(records, isSelectable)));
  }

  // ---------------------------------------------------------------------------
  // Shift-click range

  /**
   * The target range is the filter of `records` by "index between the two rows and
   * selectable", so it does not depend on which side of the clicked row the anchor lies.
   */
  lemma TargetRangeSymmetric<T>(records: seq<T>, isSelectable: SelectablePredicate<T>, anchor: nat, recordIndex: nat)
    ensures TargetRange(records, isSelectable, anchor, recordIndex) ==
              Filter(records, (r: T, index: nat) =>
                Min(anchor, recordIndex) <= index <= Max(anchor, recordIndex) && Passes(isSelectable, r, index))
    ensures TargetRange(records, isSelectable, anchor, recordIndex) == TargetRange(records, isSelectable, recordIndex, anchor)
  {
    var span := (r: T, index: nat) => Min(anchor, recordIndex) <= index <= Max(anchor, recordIndex) && Passes(isSelectable, r, index);
    if recordIndex > anchor {
      assert Min(anchor, recordIndex) == anchor && Max(anchor, recordIndex) == recordIndex;
      FilterCongruent(records,
        (r: T, index: nat) => index >= anchor && index <= recordIndex && Passes(isSelectable, r, index), span);
    } else {
      assert Min(anchor, recordIndex) == recordIndex && Max(anchor, recordIndex) == anchor;
      FilterCongruent(records,
        (r: T, index: nat) => index >= recordIndex && index <= anchor && Passes(isSelectable, r, index), span);
    }
  }

  /**
   * The target range holds exactly the selectable records whose index lies between the
   * anchor and the clicked row (both included), in the order of `records`.
   */
  lemma TargetRangeMembers<T>(records: seq<T>, isSelectable: SelectablePredicate<T>, anchor: nat, recordIndex: nat)
    ensures SubsequenceOf(TargetRange(records, isSelectable, anchor, recordIndex), records)
    ensures forall x :: x in TargetRange(records, isSelectable, anchor, recordIndex) <==>
              exists i :: Min(anchor, recordIndex) <= i <= Max(anchor, recordIndex) && i < |records| &&
                          Passes(isSelectable, records[i], i) && records[i] == x
  {
    if recordIndex > anchor {
      var keep := (r: T, index: nat) => index >= anchor && index <= recordIndex && Passes(isSelectable, r, index);
      FilterSubsequence(records, keep);
      FilterMembers(records, keep);
    } else {
      var keep := (r: T, index: nat) => index >= recordIndex && index <= anchor && Passes(isSelectable, r, index);
      FilterSubsequence(records, keep);
      FilterMembers(records, keep);
    }
  }

  /** Key-level view of the target range. */
  lemma TargetRangeHasKey<T, K>(key: T -> K, records: seq<T>, isSelectable: SelectablePredicate<T>,
                                anchor: nat, recordIndex: nat, k: K)
    ensures k in KeysOf(key, TargetRange(records, isSelectable, anchor, recordIndex)) <==>
              exists i :: Min(anchor, recordIndex) <= i <= Max(anchor, recordIndex) && i < |records| &&
                          Passes(isSelectable, records[i], i) && key(records[i]) == k
  {
    var targets := TargetRange(records, isSelectable, anchor, recordIndex);
    var lo, hi := Min(anchor, recordIndex), Max(anchor, recordIndex);
    TargetRangeMembers(records, isSelectable, anchor, recordIndex);
    if k in KeysOf(key, targets) {
      var j :| 0 <= j < |targets| && KeysOf(key, targets)[j] == k;
      assert targets[j] in targets;
      var i :| lo <= i <= hi && i < |records| && Passes(isSelectable, records[i], i) && records[i] == targets[j];
    }
    if exists i :: lo <= i <= hi && i < |records| && Passes(isSelectable, records[i], i) && key(records[i]) == k {
      var i :| lo <= i <= hi && i < |records| && Passes(isSelectable, records[i], i) && key(records[i]) == k;
      assert records[i] in targets;
      var j :| 0 <= j < |targets| && targets[j] == records[i];
      assert KeysOf(key, targets)[j] == k;
    }
  }

  // ---------------------------------------------------------------------------
  // Row toggle

  /**
   * Plain click (or shift-click before any toggle) on a selected row: every entry with
   * that row's key is removed and the rest keep their order and their number of copies.
   */
  lemma RowTogglePlainDeselects<T, K>(key: T -> K, records: seq<T>, isSelectable: SelectablePredicate<T>, selected: seq<T>,
                                      recordIndex: nat, anchor: Option<nat>, shiftKey: bool)
    requires recordIndex < |records| && !(shiftKey && anchor.Some?)
    requires key(records[recordIndex]) in KeysOf(key, selected)
    ensures var r := RowToggle(key, records, isSelectable, selected, recordIndex, anchor, shiftKey);
            && SubsequenceOf(r, selected)
            && key(records[recordIndex]) !in KeysOf(key, r)
            && (forall x :: x in r <==> x in selected && key(x) != key(records[recordIndex]))
            && (forall x :: multiset(r)[x] == if key(x) == key(records[recordIndex]) then 0 else multiset(selected)[x])
  {
    var k := key(records[recordIndex]);
    var r := RowToggle(key, records, isSelectable, selected, recordIndex, anchor, shiftKey);
    assert r == Without(key, selected, [k]);
    WithoutSubsequence(key, selected, [k]);
    WithoutMembers(key, selected, [k]);
    WithoutCount(key, selected, [k]);
    WithoutHasKey(key, selected, [k], k);
  }

  /**
   * Plain click (or shift-click before any toggle) on an unselected row: the row is
   * appended after the de-duplicated selection, so its key then occurs exactly once.
   */
  lemma RowTogglePlainSelects<T, K>(key: T -> K, records: seq<T>, isSelectable: SelectablePredicate<T>, selected: seq<T>,
                                    recordIndex: nat, anchor: Option<nat>, shiftKey: bool)
    requires recordIndex < |records| && !(shiftKey && anchor.Some?)
    requires key(records[recordIndex]) !in KeysOf(key, selected)
    ensures var r := RowToggle(key, records, isSelectable, selected, recordIndex, anchor, shiftKey);
            && r == UniqBy(key, selected) + [records[recordIndex]]
            && NoDupKeys(key, r)
            && key(records[recordIndex]) in KeysOf(key, r)
            && (NoDupKeys(key, selected) ==> r == selected + [records[recordIndex]])
  {
    var x := records[recordIndex];
    var r := RowToggle(key, records, isSelectable, selected, recordIndex, anchor, shiftKey);
    assert r == UniqBy(key, selected + [x]);
    assert r == UniqBy(key, selected) + [x] by {
      UniqByAppend(key, selected, [x]);
      assert [x][..0] == [];
      assert UniqBy(key, [x]) == [x];
      assert Without(key, [x], KeysOf(key, selected)) == [x];
    }
    assert KeysOf(key, r)[|r| - 1] == key(x);
    UniqByNoDupKeys(key, selected + [x]);
    if NoDupKeys(key, selected) {
      UniqByNoDup(key, selected);
    }
  }

  /**
   * Shift-click on a selected row after an earlier toggle: the target range is removed
   * from the selection by key; the remaining entries, those outside the range included,
   * stay in their order and keep their number of copies.
   */
  lemma RowToggleShiftDeselects<T, K>(key: T -> K, records: seq<T>, isSelectable: SelectablePredicate<T>, selected: seq<T>,
                                      recordIndex: nat, anchor: nat)
    requires recordIndex < |records|
    requires key(records[recordIndex]) in KeysOf(key, selected)
    ensures var r := RowToggle(key, records, isSelectable, selected, recordIndex, Some(anchor), true);
            var targets := TargetRange(records, isSelectable, anchor, recordIndex);
            && SubsequenceOf(r, selected)
            && (forall x :: x in r <==> x in selected && key(x) !in KeysOf(key, targets))
            && (forall x :: multiset(r)[x] == if key(x) in KeysOf(key, targets) then 0 else multiset(selected)[x])
            && (Passes(isSelectable, records[recordIndex], recordIndex) ==> key(records[recordIndex]) !in KeysOf(key, r))
  {
    var r := RowToggle(key, records, isSelectable, selected, recordIndex, Some(anchor), true);
    var targets := TargetRange(records, isSelectable, anchor, recordIndex);
    var k := key(records[recordIndex]);
    assert r == DifferenceBy(key, selected, targets);
    DifferenceBySpec(key, selected, targets);
    if Passes(isSelectable, records[recordIndex], recordIndex) {
      assert k in KeysOf(key, targets) by {
        TargetRangeHasKey(key, records, isSelectable, anchor, recordIndex, k);
        assert Min(anchor, recordIndex) <= recordIndex <= Max(anchor, recordIndex);
      }
      WithoutHasKey(key, selected, KeysOf(key, targets), k);
    }
  }

  /**
   * Shift-click on an unselected row after an earlier toggle: the target range is added
   * after the existing selection, no key twice; every key added belongs to a selectable
   * record between the anchor and the clicked row, and the clicked row, when selectable,
   * ends up selected.
   */
  lemma RowToggleShiftSelects<T, K>(key: T -> K, records: seq<T>, isSelectable: SelectablePredicate<T>, selected: seq<T>,
                                    recordIndex: nat, anchor: nat)
    requires recordIndex < |records|
    requires key(records[recordIndex]) !in KeysOf(key, selected)
    ensures var r := RowToggle(key, records, isSelectable, selected, recordIndex, Some(anchor), true);
            var targets := TargetRange(records, isSelectable, anchor, recordIndex);
            && NoDupKeys(key, r)
            && r == UniqBy(key, selected) + Without(key, UniqBy(key, targets), KeysOf(key, selected))
            && (forall k :: k in KeysOf(key, r) <==> k in KeysOf(key, selected) || k in KeysOf(key, targets))
            && (forall k :: k in KeysOf(key, r) && k !in KeysOf(key, selected) ==>
                  exists i :: Min(anchor, recordIndex) <= i <= Max(anchor, recordIndex) && i < |records| &&
                              Passes(isSelectable, records[i], i) && key(records[i]) == k)
            && (Passes(isSelectable, records[recordIndex], recordIndex) ==> key(records[recordIndex]) in KeysOf(key, r))
  {
    var r := RowToggle(key, records, isSelectable, selected, recordIndex, Some(anchor), true);
    var targets := TargetRange(records, isSelectable, anchor, recordIndex);
    assert r == UniqBy(key, selected + targets);
    UniqByNoDupKeys(key, selected + targets);
    UniqByAppend(key, selected, targets);
    forall k ensures k in KeysOf(key, r) <==> k in KeysOf(key, selected) || k in KeysOf(key, targets) {
      UniqByAppendHasKey(key, selected, targets, k);
    }
    forall k | k in KeysOf(key, r) && k !in KeysOf(key, selected)
      ensures exists i :: Min(anchor, recordIndex) <= i <= Max(anchor, recordIndex) && i < |records| &&
                          Passes(isSelectable, records[i], i) && key(records[i]) == k
    {
      UniqByAppendHasKey(key, selected, targets, k);
      TargetRangeHasKey(key, records, isSelectable, anchor, recordIndex, k);
    }
    if Passes(isSelectable, records[recordIndex], recordIndex) {
      var k := key(records[recordIndex]);
      TargetRangeHasKey(key, records, isSelectable, anchor, recordIndex, k);
      assert Min(anchor, recordIndex) <= recordIndex <= Max(anchor, recordIndex);
      UniqByAppendHasKey(key, selected, targets, k);
    }
  }

  /**
   * Two plain clicks on a row that was not selected give back the original selection,
   * when that selection had no repeated key.
   */
  lemma RowTogglePlainTwice<T, K>(key: T -> K, records: seq<T>, isSelectable: SelectablePredicate<T>, selected: seq<T>,
                                  recordIndex: nat)
    requires recordIndex < |records|
    requires key(records[recordIndex]) !in KeysOf(key, selected) && NoDupKeys(key, selected)
    ensures var once := RowToggle(key, records, isSelectable, selected, recordIndex, None, false);
            RowToggle(key, records, isSelectable, once, recordIndex, None, false) == selected
  {
    var x := records[recordIndex];
    var once := RowToggle(key, records, isSelectable, selected, recordIndex, None, false);
    RowTogglePlainSelects(key, records, isSelectable, selected, recordIndex, None, false);
    assert once == selected + [x];
    assert KeysOf(key, once)[|selected|] == key(x);
    WithoutAppend(key, selected, [x], [key(x)]);
    assert [x][..0] == [];
    forall i | 0 <= i < |selected| ensures key(selected[i]) !in [key(x)] {
      assert KeysOf(key, selected)[i] == key(selected[i]);
    }
    WithoutNothing(key, selected, [key(x)]);
  }
}
