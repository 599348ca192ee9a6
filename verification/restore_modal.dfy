/** The "Restore Backup" dialog (frontend/src/components/RestoreModal.tsx): a two-step
    confirmation with a toggle-set of items for a selective restore. The dialog is a state
    machine over five fields; `Step` applies one user action as the rendered controls
    allow it. */
module RestoreModal {
  import opened Wrappers
  import opened Seqs

  /** The options handed to `onRestore`. */
  datatype RestoreOptions = RestoreOptions(
    dropExisting: bool,
    selectiveRestore: bool,
    selectedItems: seq<string>)

  datatype RestoreState = RestoreState(
    dropExisting: bool,
    selectiveRestore: bool,
    selectedItems: seq<string>,
    loading: bool,
    confirmed: bool)

  /** The items offered for a selective restore. */
  const AvailableItems: seq<string> :=
    ["users", "products", "orders", "categories", "settings", "customers", "inventory"]

  /** `resetState`: every flag off and nothing selected; also the state the dialog opens in. */
  const ResetState := RestoreState(false, false, [], false, false)

  // ---------------------------------------------------------------- toggleItem

  function IsNot(item: string): string -> bool {
    (x: string) => x != item
  }

  /** `toggleItem`: a selected item is removed (every copy of it); any other is appended. */
  function Toggle(items: seq<string>, item: string): (r: seq<string>)
    ensures item in r <==> item !in items
    ensures forall i :: 0 <= i < |items| && items[i] != item ==> items[i] in r
    ensures forall i :: 0 <= i < |r| ==> r[i] == item || r[i] in items
  {
    if item in items then Filter(items, IsNot(item)) else items + [item]
  }

  /** Toggling an item twice gives back the same set of selected items. */
  lemma ToggleTwiceSameSet(items: seq<string>, item: string)
    ensures forall x :: x in Toggle(Toggle(items, item), item) <==> x in items
  {
    var once := Toggle(items, item);
    var twice := Toggle(once, item);
    forall x ensures x in twice <==> x in items {
      if x != item && x in items {
        var i :| 0 <= i < |items| && items[i] == x;
        assert x in once;
        var j :| 0 <= j < |once| && once[j] == x;
      }
      if x in twice && x != item {
        var i :| 0 <= i < |twice| && twice[i] == x;
        assert x in once;
        var j :| 0 <= j < |once| && once[j] == x;
      }
    }
  }

  /** Selecting an item that was not selected and then unselecting it gives back exactly
      the same list. */
  lemma ToggleTwiceUnselected(items: seq<string>, item: string)
    requires item !in items
    ensures Toggle(Toggle(items, item), item) == items
  {
    FilterAppend(items, [item], IsNot(item));
    FilterKeepsAll(items, IsNot(item));
    assert Filter([item], IsNot(item)) == [];
    assert items + [] == items;
  }

  /** Toggling never creates duplicates. */
  lemma ToggleNoDuplicates(items: seq<string>, item: string)
    requires NoDuplicates(items)
    ensures NoDuplicates(Toggle(items, item))
  {
    if item in items {
      FilterNoDuplicates(items, IsNot(item));
    } else {
      var r := items + [item];
      forall i, j | 0 <= i < j < |r| ensures r[i] != r[j] {
        if j == |items| {
          assert r[i] == items[i];
        }
      }
    }
  }

  // ---------------------------------------------------------------- handleRestore

  /** What one call of `handleRestore` leads to: the new state, and the options passed to
      `onRestore` when the restore goes ahead. */
  datatype RestoreStep = RestoreStep(state: RestoreState, restore: Option<RestoreOptions>)

  /** `handleRestore`: the first press only asks for confirmation; a confirmed press starts
      loading and passes the three options on. */
  function HandleRestore(s: RestoreState): (r: RestoreStep)
    ensures !s.confirmed ==> r.restore.None? && r.state == s.(confirmed := true)
    ensures s.confirmed ==>
      && r.restore == Some(RestoreOptions(s.dropExisting, s.selectiveRestore, s.selectedItems))
      && r.state == s.(loading := true)
  {
    if !s.confirmed then RestoreStep(s.(confirmed := true), None)
    else RestoreStep(s.(loading := true),
                     Some(RestoreOptions(s.dropExisting, s.selectiveRestore, s.selectedItems)))
  }

  /** Two presses are needed: from an unconfirmed state the restore happens on the second. */
  lemma TwoPressesToRestore(s: RestoreState)
    requires !s.confirmed
    ensures HandleRestore(s).restore.None?
    ensures HandleRestore(HandleRestore(s).state).restore
         == Some(RestoreOptions(s.dropExisting, s.selectiveRestore, s.selectedItems))
  {
  }

  /** The restore button is disabled while loading, and during a selective restore with
      nothing selected. */
  predicate SubmitDisabled(s: RestoreState) {
    s.loading || (s.selectiveRestore && |s.selectedItems| == 0)
  }

  // ---------------------------------------------------------------- the dialog

  /** The user actions the dialog renders. `ToggleItem(k)` is the checkbox of the k-th
      available item; `Finish` is the end of the delay after a confirmed restore, which
      calls `onRestore` and closes the dialog. */
  datatype Action =
    | SetDropExisting(on: bool)
    | SetSelectiveRestore(on: bool)
    | ToggleItem(k: nat)
    | PressRestore
    | Close
    | Finish

  /** The dialog after one action, with the options handed to `onRestore` if any. The
      switches and checkboxes are only shown before confirmation, the checkboxes only
      during a selective restore, and the restore button only acts when enabled. */
  function Step(s: RestoreState, a: Action): (r: RestoreStep)
    ensures a.Close? || a.Finish? ==> r.state == ResetState
    ensures r.restore.Some? ==> a.PressRestore? && s.confirmed && !SubmitDisabled(s)
    ensures SubmitDisabled(s) && a.PressRestore? ==> r.state == s
  {
    match a
    case SetDropExisting(on) =>
      RestoreStep(if s.confirmed then s else s.(dropExisting := on), None)
    case SetSelectiveRestore(on) =>
      RestoreStep(if s.confirmed then s else s.(selectiveRestore := on), None)
    case ToggleItem(k) =>
      if !s.confirmed && s.selectiveRestore && k < |AvailableItems| then
        RestoreStep(s.(selectedItems := Toggle(s.selectedItems, AvailableItems[k])), None)
      else RestoreStep(s, None)
    case PressRestore =>
      if SubmitDisabled(s) then RestoreStep(s, None) else HandleRestore(s)
    case Close => RestoreStep(ResetState, None)
    case Finish => RestoreStep(ResetState, None)
  }

  /** The selection is a duplicate-free list of available items. */
  predicate SelectionValid(s: RestoreState) {
    && NoDuplicates(s.selectedItems)
    && forall i :: 0 <= i < |s.selectedItems| ==> s.selectedItems[i] in AvailableItems
  }

  /** Every action keeps the selection valid. */
  lemma StepKeepsSelectionValid(s: RestoreState, a: Action)
    requires SelectionValid(s)
    ensures SelectionValid(Step(s, a).state)
  {
    match a
    case ToggleItem(k) =>
      if !s.confirmed && s.selectiveRestore && k < |AvailableItems| {
        ToggleNoDuplicates(s.selectedItems, AvailableItems[k]);
        var r := Toggle(s.selectedItems, AvailableItems[k]);
        forall i | 0 <= i < |r| ensures r[i] in AvailableItems {
          if r[i] != AvailableItems[k] {
            assert r[i] in s.selectedItems;
            var j :| 0 <= j < |s.selectedItems| && s.selectedItems[j] == r[i];
          }
        }
      }
    case _ =>
  }

  /** Options handed to `onRestore` from a valid state name a valid, duplicate-free
      selection, and a selective restore always names at least one item. */
  lemma RestoredOptionsValid(s: RestoreState, a: Action)
    requires SelectionValid(s)
    requires Step(s, a).restore.Some?
    ensures var o := Step(s, a).restore.value;
      && NoDuplicates(o.selectedItems)
      && (forall i :: 0 <= i < |o.selectedItems| ==> o.selectedItems[i] in AvailableItems)
      && (o.selectiveRestore ==> |o.selectedItems| > 0)
  {
  }

  /** Turning the selective restore off keeps the selection, so a non-selective restore
      can still carry selected items. */
  lemma SelectiveOffKeepsItems(s: RestoreState)
    requires !s.confirmed
    ensures Step(s, SetSelectiveRestore(false)).state.selectedItems == s.selectedItems
  {
  }
}
