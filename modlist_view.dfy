/**
 * The mod list window's code-behind: routing a tree selection to the
 * information grid, the preview list or a cleared list; the cancellation
 * token of the preview task; the enabled state of the toggle and delete
 * buttons; flipping the enabled flag of the selected rows; and deleting the
 * selected rows one by one.
 *
 * The modding framework's toggle and delete calls are recorded in a call
 * log and otherwise left to the framework: the manifest each later step
 * reads is a parameter. Cancellation tokens are numbered; cancelling and
 * disposing one appends its number to `cancelled`.
 */
module ModListViews {
  import opened Wrappers
  import opened Manifest
  import opened ModTree
  import opened PreviewRows
  import opened ModPackSummary
  import opened ModListViewModels

  /** A call into the modding framework. */
  datatype Call =
    | ToggleModPackStatus(pack: string, enable: bool)
    | ToggleModStatus(path: string, enable: bool)
    | DeleteMod(path: string)
    | DeleteModPack(pack: string)

  /** Where a tree selection is routed. */
  datatype Route = GridRoute | ListRoute | ClearRoute

  /** The name of the node's `ParentCategory`: `None` when it has none. */
  function ParentName(roots: seq<Root>, a: Address): (r: Option<string>)
    requires ModTree.Valid(roots, a)
    ensures r.None? <==> a.steps == [] && !roots[a.root].underModPacks
    ensures a.steps != [] ==> r == Some(NodeAt(roots, ParentOf(a)).name)
  {
    if a.steps != [] then Some(NodeAt(roots, ParentOf(a)).name)
    else if roots[a.root].underModPacks then Some(ModPacksLabel)
    else None
  }

  /**
   * The selected node (`None`: nothing selected) is routed to the information
   * grid when its parent is named "ModPacks", to the preview list when it has
   * another parent, and to a cleared list when it has none.
   */
  function RouteOf(roots: seq<Root>, sel: Option<Address>): (r: Route)
    requires sel.Some? ==> ModTree.Valid(roots, sel.value)
  {
    if sel.None? then ClearRoute
    else match ParentName(roots, sel.value)
      case None => ClearRoute
      case Some(p) => if p == ModPacksLabel then GridRoute else ListRoute
  }

  /** Every node of a pack-mode tree's top level, and every pack node under item mode's "ModPacks" branch, shows the grid. */
  lemma PackNodesRouteToGrid(roots: seq<Root>, a: Address)
    requires ModTree.Valid(roots, a)
    requires (a.steps == [] && roots[a.root].underModPacks)
          || (|a.steps| == 1 && roots[a.root].node.name == ModPacksLabel)
    ensures RouteOf(roots, Some(a)) == GridRoute
  {
    if |a.steps| == 1 {
      assert ParentOf(a).steps == [];
    }
  }

  /** A top-level node of an item-mode tree has no parent: the list is cleared. */
  lemma ItemModeTopLevelClears(roots: seq<Root>, i: nat)
    requires i < |roots| && !roots[i].underModPacks
    ensures RouteOf(roots, Some(Address(i, []))) == ClearRoute
  {
  }

  /** The toggle label a selected row shows: the action that would change its mod's status. */
  function SelectionLabel(m: ModEntry): (r: string)
    ensures r == DisableText <==> m.enabled
    ensures r == EnableText <==> !m.enabled
  {
    if m.enabled then DisableText else EnableText
  }

  /** Toggling does nothing for a row whose mod and original offsets are equal (an added texture). */
  predicate Toggleable(m: ModEntry) {
    m.modOffset != m.originalOffset
  }

  /** A row after its mod is toggled: the opposite status, with the visuals to match. */
  function Flip(row: Row): (r: Row)
    ensures r.mod == row.mod.(enabled := !row.mod.enabled)
    ensures r.look == StatusLook(!row.mod.enabled) && ShowsEnabled(r.look) == r.mod.enabled
    ensures r.(mod := row.mod, look := row.look) == row
  {
    var enabled := !row.mod.enabled;
    row.(mod := row.mod.(enabled := enabled), look := StatusLook(enabled))
  }

  /** The list after toggling the rows with these identities: each toggleable one is flipped. */
  function FlipSelected(s: seq<Shown>, ids: set<nat>): (r: seq<Shown>)
    ensures |r| == |s|
    ensures forall i | 0 <= i < |s| :: r[i].id == s[i].id
    ensures forall i | 0 <= i < |s| ::
      r[i].row == if s[i].id in ids && Toggleable(s[i].row.mod) then Flip(s[i].row) else s[i].row
  {
    if s == [] then []
    else
      var x := s[0];
      [if x.id in ids && Toggleable(x.row.mod) then Shown(x.id, Flip(x.row)) else x] + FlipSelected(s[1..], ids)
  }

  /** Toggling keeps identities, keeps every row's visuals in step with its mod, and keeps the list's mods otherwise. */
  lemma FlipSelectedKeepsWellFormed(s: seq<Shown>, nextId: nat, ids: set<nat>)
    requires RowsWellFormed(s, nextId)
    ensures RowsWellFormed(FlipSelected(s, ids), nextId)
  {
    var r := FlipSelected(s, ids);
    forall i, j | 0 <= i < j < |r| ensures r[i].id != r[j].id {
      assert s[i].id != s[j].id;
    }
  }

  /** Toggling the same rows twice gives back a list whose visuals are in step with its mods. */
  lemma FlipSelectedTwice(s: seq<Shown>, ids: set<nat>)
    requires forall i | 0 <= i < |s| :: s[i].row.look == StatusLook(s[i].row.mod.enabled)
    ensures FlipSelected(FlipSelected(s, ids), ids) == s
  {
    var r := FlipSelected(FlipSelected(s, ids), ids);
    forall i | 0 <= i < |s| ensures r[i] == s[i] {
      var x := s[i];
      if x.id in ids && Toggleable(x.row.mod) {
        assert Flip(Flip(x.row)).mod == x.row.mod;
      }
    }
  }

  /** Toggling one more row: the rows toggled so far, then that row. */
  lemma FlipSelectedStep(s: seq<Shown>, ids: set<nat>, id: nat)
    requires id !in ids
    ensures FlipSelected(FlipSelected(s, ids), {id}) == FlipSelected(s, ids + {id})
  {
  }

  /** The first row with this identity. */
  function Find(s: seq<Shown>, id: nat): (r: Option<Shown>)
    ensures r.Some? <==> exists i | 0 <= i < |s| :: s[i].id == id
    ensures r.Some? ==> r.value in s && r.value.id == id
  {
    if s == [] then None
    else if s[0].id == id then Some(s[0])
    else
      var r := Find(s[1..], id);
      assert forall i | 1 <= i < |s| :: s[1..][i - 1] == s[i];
      r
  }

  /** After toggling: an untouched identity finds the row it found before; a touched toggleable one its flip. */
  lemma {:induction false} FindAfterFlip(s: seq<Shown>, ids: set<nat>, id: nat)
    ensures var f := Find(s, id);
      Find(FlipSelected(s, ids), id) ==
        if f.Some? && id in ids && Toggleable(f.value.row.mod) then Some(Shown(id, Flip(f.value.row))) else f
  {
    if s != [] && s[0].id != id {
      FindAfterFlip(s[1..], ids, id);
    }
  }

  /** With unique identities, toggling a row that is absent or not toggleable changes nothing. */
  lemma FlipSelectedNothing(s: seq<Shown>, id: nat)
    requires UniqueIds(s)
    requires Find(s, id).None? || !Toggleable(Find(s, id).value.row.mod)
    ensures FlipSelected(s, {id}) == s
  {
    forall i | 0 <= i < |s| && s[i].id == id ensures !Toggleable(s[i].row.mod) {
      FindUnique(s, id, i);
    }
  }

  lemma {:induction false} FindUnique(s: seq<Shown>, id: nat, i: nat)
    requires UniqueIds(s) && i < |s| && s[i].id == id
    ensures Find(s, id) == Some(s[i])
  {
    if i > 0 {
      assert s[0].id != id;
      FindUnique(s[1..], id, i - 1);
    }
  }

  /** A pass for an identity not toggled yet sees the row as it was before the loop. */
  lemma PassUnaffected(s: seq<Shown>, done: set<nat>, id: nat, text0: string)
    requires id !in done
    ensures LabelStep(FlipSelected(s, done), id, text0) == LabelStep(s, id, text0)
    ensures ToggleCall(FlipSelected(s, done), id) == ToggleCall(s, id)
  {
    FindAfterFlip(s, done, id);
  }

  /** Pass `k` of the toggle loop over a selection without repeats extends the first `k` passes. */
  lemma ToggleLoopStep(s: seq<Shown>, sel: seq<nat>, k: nat, text0: string)
    requires k < |sel| && forall i, j | 0 <= i < j < |sel| :: sel[i] != sel[j]
    ensures FlipSelected(FlipSelected(s, IdSet(sel[..k])), {sel[k]}) == FlipSelected(s, IdSet(sel[..k + 1]))
    ensures LabelStep(FlipSelected(s, IdSet(sel[..k])), sel[k], LabelAfter(s, sel[..k], text0))
      == LabelAfter(s, sel[..k + 1], text0)
    ensures ToggleCalls(s, sel[..k]) + ToggleCall(FlipSelected(s, IdSet(sel[..k])), sel[k]) == ToggleCalls(s, sel[..k + 1])
  {
    var ids := IdSet(sel[..k]);
    var id := sel[k];
    assert sel[..k + 1][..k] == sel[..k];
    assert id !in ids;
    assert IdSet(sel[..k + 1]) == ids + {id};
    PassUnaffected(s, ids, id, LabelAfter(s, sel[..k], text0));
    FlipSelectedStep(s, ids, id);
  }

  /** The set of the identities in a selection. */
  function IdSet(ids: seq<nat>): (r: set<nat>)
    ensures forall x :: x in r <==> x in ids
  {
    set x | x in ids
  }

  function RowIds(rows: seq<Shown>): (r: set<nat>)
    ensures forall x :: x in r <==> exists i | 0 <= i < |rows| :: rows[i].id == x
  {
    set i | 0 <= i < |rows| :: rows[i].id
  }

  /** The label after the toggle loop's pass for `id`: set from the row's status before its flip when it is toggleable. */
  function LabelStep(s: seq<Shown>, id: nat, text0: string): string {
    match Find(s, id)
    case None => text0
    case Some(x) => if Toggleable(x.row.mod) then (if x.row.mod.enabled then EnableText else DisableText) else text0
  }

  /**
   * The toggle label after the loop over the selection `sel` of list `s`:
   * set by every toggleable selected row from its status before the flip.
   */
  function LabelAfter(s: seq<Shown>, sel: seq<nat>, text0: string): string {
    if sel == [] then text0 else LabelStep(s, sel[|sel| - 1], LabelAfter(s, sel[..|sel| - 1], text0))
  }

  /**
   * The label the loop leaves is the one a fresh selection of the last
   * toggled row would show: the toggle and the selection rule agree.
   */
  lemma {:induction false} LabelAfterAgreesWithSelection(s: seq<Shown>, sel: seq<nat>, text0: string)
    requires sel != [] && Find(s, sel[|sel| - 1]).Some? && Toggleable(Find(s, sel[|sel| - 1]).value.row.mod)
    requires forall i, j | 0 <= i < j < |sel| :: sel[i] != sel[j]
    ensures var flipped := Find(FlipSelected(s, IdSet(sel)), sel[|sel| - 1]);
      flipped.Some? && LabelAfter(s, sel, text0) == SelectionLabel(flipped.value.row.mod)
  {
    FindAfterFlip(s, IdSet(sel), sel[|sel| - 1]);
  }

  /** The framework call of the toggle loop's pass for `id`: none unless the row is toggleable. */
  function ToggleCall(s: seq<Shown>, id: nat): (r: seq<Call>)
  {
    match Find(s, id)
    case None => []
    case Some(x) => if Toggleable(x.row.mod) then [ToggleModStatus(x.row.mod.fullPath, !x.row.mod.enabled)] else []
  }

  /** The framework calls of toggling: one per toggleable selected row, to its opposite status. */
  function ToggleCalls(s: seq<Shown>, sel: seq<nat>): (r: seq<Call>)
  {
    if sel == [] then [] else ToggleCalls(s, sel[..|sel| - 1]) + ToggleCall(s, sel[|sel| - 1])
  }

  // ---------------------------------------------------------------------------
  // Deleting rows
  // ---------------------------------------------------------------------------

  /**
   * The delete loop's effects so far: the tree, the list, the number of
   * rows whose mod was deleted, and whether `RemoveItem` faulted on the
   * last of them (ending the loop).
   */
  datatype Deletion = Deletion(roots: seq<Root>, preview: seq<Shown>, done: nat, thrown: bool)

  /**
   * The loop over the selection snapshot `rows`: each row's mod is deleted,
   * then `RemoveItem` runs against the manifest as it reads after that
   * delete (`manifests`); a fault ends the loop.
   */
  function DeleteRows(roots: seq<Root>, preview: seq<Shown>, packMode: bool, rows: seq<Shown>, sel: Address,
                      manifests: seq<Option<ModList>>): (d: Deletion)
    requires |manifests| == |rows|
    ensures d.done <= |rows| && (d.thrown ==> d.done > 0) && (!d.thrown ==> d.done == |rows|)
  {
    if rows == [] then Deletion(roots, preview, 0, false)
    else
      var n := |rows| - 1;
      DeleteNext(DeleteRows(roots, preview, packMode, rows[..n], sel, manifests[..n]), packMode, rows[n], sel, manifests[n])
  }

  /** One pass of the delete loop: nothing after a fault, else `RemoveItem` on the row. */
  function DeleteNext(d: Deletion, packMode: bool, row: Shown, sel: Address, manifest: Option<ModList>): Deletion {
    if d.thrown then d
    else match AfterRemove(d.roots, d.preview, packMode, row, sel, manifest)
      case None => Deletion(d.roots, d.preview, d.done + 1, true)
      case Some(e) => Deletion(e.0, e.1, d.done + 1, false)
  }

  /** The number of snapshot rows a deletion state has removed from the list. */
  function Removed(d: Deletion): nat {
    if d.thrown && d.done > 0 then d.done - 1 else d.done
  }

  /** The framework's delete call for each row, in order. */
  function DeleteCalls(rows: seq<Shown>): seq<Call> {
    if rows == [] then [] else DeleteCalls(rows[..|rows| - 1]) + [DeleteMod(rows[|rows| - 1].row.mod.fullPath)]
  }

  /**
   * Each snapshot row is removed from the list exactly once: without a
   * fault the list loses exactly the snapshot's rows, and after a fault
   * exactly the rows before the faulting one.
   */
  lemma {:induction false} DeleteRowsRemovesEachOnce(roots: seq<Root>, preview: seq<Shown>, packMode: bool,
                                                     rows: seq<Shown>, sel: Address, manifests: seq<Option<ModList>>)
    requires |manifests| == |rows|
    ensures var d := DeleteRows(roots, preview, packMode, rows, sel, manifests);
      d.preview == Without(preview, RowIds(rows[..Removed(d)]))
  {
    if rows == [] {
      WithoutAbsent(preview, {});
      assert RowIds(rows[..0]) == {};
    } else {
      var n := |rows| - 1;
      DeleteRowsRemovesEachOnce(roots, preview, packMode, rows[..n], sel, manifests[..n]);
      var d := DeleteRows(roots, preview, packMode, rows[..n], sel, manifests[..n]);
      assert rows[..n][..Removed(d)] == rows[..Removed(d)];
      DeleteNextRemoves(preview, packMode, rows, sel, d, manifests[n]);
    }
  }

  /** The inductive step of `DeleteRowsRemovesEachOnce`: the pass over the last row of the snapshot. */
  lemma DeleteNextRemoves(preview: seq<Shown>, packMode: bool, rows: seq<Shown>, sel: Address, d: Deletion,
                          manifest: Option<ModList>)
    requires rows != [] && d.done <= |rows| - 1 && (d.thrown ==> d.done > 0) && (!d.thrown ==> d.done == |rows| - 1)
    requires d.preview == Without(preview, RowIds(rows[..Removed(d)]))
    ensures var r := DeleteNext(d, packMode, rows[|rows| - 1], sel, manifest);
      r.preview == Without(preview, RowIds(rows[..Removed(r)]))
  {
    var n := |rows| - 1;
    var r := DeleteNext(d, packMode, rows[n], sel, manifest);
    if d.thrown {
      assert r == d;
    } else {
      var e := AfterRemove(d.roots, d.preview, packMode, rows[n], sel, manifest);
      if e.Some? {
        assert r.preview == Without(d.preview, {rows[n].id}) && Removed(r) == n + 1;
        WithoutTwice(preview, RowIds(rows[..n]), {rows[n].id});
        RowIdsSnoc(rows, n);
      } else {
        assert r.preview == d.preview && Removed(r) == n;
      }
    }
  }

  lemma RowIdsSnoc(rows: seq<Shown>, n: nat)
    requires n < |rows|
    ensures RowIds(rows[..n + 1]) == RowIds(rows[..n]) + {rows[n].id}
  {
    forall x ensures x in RowIds(rows[..n]) + {rows[n].id} <==> x in RowIds(rows[..n + 1]) {
      if x in RowIds(rows[..n + 1]) {
        var i :| 0 <= i < n + 1 && rows[..n + 1][i].id == x;
        if i < n { assert rows[..n][i].id == x; }
      }
      if x in RowIds(rows[..n]) {
        var i :| 0 <= i < n && rows[..n][i].id == x;
        assert rows[..n + 1][i].id == x;
      }
    }
  }

  /** Row `k` of the delete loop extends the first `k` rows. */
  lemma DeleteStep(roots: seq<Root>, preview: seq<Shown>, packMode: bool,
                   rows: seq<Shown>, sel: Address, manifests: seq<Option<ModList>>, k: nat)
    requires |manifests| == |rows| && k < |rows|
    ensures DeleteRows(roots, preview, packMode, rows[..k + 1], sel, manifests[..k + 1]) ==
      DeleteNext(DeleteRows(roots, preview, packMode, rows[..k], sel, manifests[..k]), packMode, rows[k], sel, manifests[k])
    ensures DeleteCalls(rows[..k + 1]) == DeleteCalls(rows[..k]) + [DeleteMod(rows[k].row.mod.fullPath)]
  {
    assert rows[..k + 1][..k] == rows[..k] && manifests[..k + 1][..k] == manifests[..k];
  }

  /** Once a removal has faulted, the rest of the snapshot is not looked at. */
  lemma {:induction false} DeleteRowsAfterFault(roots: seq<Root>, preview: seq<Shown>, packMode: bool,
                                                rows: seq<Shown>, sel: Address, manifests: seq<Option<ModList>>, k: nat)
    requires |manifests| == |rows| && k <= |rows|
    requires DeleteRows(roots, preview, packMode, rows[..k], sel, manifests[..k]).thrown
    ensures DeleteRows(roots, preview, packMode, rows, sel, manifests)
         == DeleteRows(roots, preview, packMode, rows[..k], sel, manifests[..k])
    decreases |rows| - k
  {
    if k < |rows| {
      assert rows[..k + 1][..k] == rows[..k] && manifests[..k + 1][..k] == manifests[..k];
      DeleteRowsAfterFault(roots, preview, packMode, rows, sel, manifests, k + 1);
    } else {
      assert rows[..k] == rows && manifests[..k] == manifests;
    }
  }

  /** Every step keeps the list's identities unique and its rows in step with their mods. */
  lemma {:induction false} DeleteRowsKeepsWellFormed(roots: seq<Root>, preview: seq<Shown>, nextId: nat, packMode: bool,
                                                     rows: seq<Shown>, sel: Address, manifests: seq<Option<ModList>>)
    requires |manifests| == |rows| && RowsWellFormed(preview, nextId)
    ensures RowsWellFormed(DeleteRows(roots, preview, packMode, rows, sel, manifests).preview, nextId)
  {
    var d := DeleteRows(roots, preview, packMode, rows, sel, manifests);
    DeleteRowsRemovesEachOnce(roots, preview, packMode, rows, sel, manifests);
    var ids := RowIds(rows[..Removed(d)]);
    WithoutKeepsUnique(preview, ids);
    assert forall x | x in d.preview :: x in preview;
  }

  // ---------------------------------------------------------------------------
  // The window
  // ---------------------------------------------------------------------------

  class ModListView {
    /** The window's data context. */
    const vm: ModListViewModel
    /** `_cts`: the current token, and the next number to give out. */
    var cts: Option<nat>
    var nextToken: nat
    /** The tokens cancelled and disposed, in order. */
    var cancelled: seq<nat>
    /** `ModListTreeView.SelectedItem` and `ModItemList.SelectedItems` (row identities). */
    var selected: Option<Address>
    var selection: seq<nat>
    var toggleEnabled: bool
    var deleteEnabled: bool
    /** The calls made to the modding framework, in order. */
    var calls: seq<Call>

    /** A selection always has a token; the current token was never cancelled; the view model's rows are well formed. */
    predicate Valid()
      reads this`selected, this`cts, this`nextToken, this`cancelled, vm`preview, vm`nextId
    {
      && vm.WellFormed()
      && (selected.Some? ==> cts.Some?)
      && (cts.Some? ==> cts.value < nextToken && cts.value !in cancelled)
      && (forall i | 0 <= i < |cancelled| :: cancelled[i] < nextToken)
    }

    constructor(vm: ModListViewModel)
      requires vm.WellFormed()
      ensures this.vm == vm && Valid()
      ensures cts.None? && selected.None? && selection == [] && cancelled == [] && calls == []
    {
      this.vm := vm;
      cts := None;
      nextToken := 0;
      cancelled := [];
      selected := None;
      selection := [];
      toggleEnabled := false;
      deleteEnabled := false;
      calls := [];
    }

    /** Swaps the token: the previous one (if a node was selected) is cancelled and disposed, then a new one is made. */
    method RenewToken()
      requires Valid()
      modifies this`cts, this`nextToken, this`cancelled
      ensures Valid()
      ensures cancelled == old(cancelled) + (if selected.Some? then [old(cts).value] else [])
      ensures cts == Some(old(nextToken)) && nextToken == old(nextToken) + 1
    {
      if selected.Some? {
        cancelled := cancelled + [cts.value];
      }
      cts := Some(nextToken);
      nextToken := nextToken + 1;
    }

    /**
     * `TreeView_SelectedItemChanged` with new selection `sel`: the token is
     * renewed, then the node goes to the information grid (with both
     * buttons on unless the grid faults), to the preview list (run with
     * cancellation from checkpoint `cancelFrom`), or the list is cleared and
     * both buttons turned off.
     */
    method SelectNode(sel: Option<Address>, manifest: Option<ModList>, services: Services, cancelFrom: nat)
      returns (route: Route)
      requires Valid() && (sel.Some? ==> ModTree.Valid(vm.roots, sel.value))
      modifies this`cts, this`nextToken, this`cancelled, this`selected, this`toggleEnabled, this`deleteEnabled
      modifies vm`preview, vm`nextId, vm`listVisible, vm`infoGridVisible, vm`progressValue, vm`progressText, vm`messages
      modifies vm`content, vm`author, vm`version, vm`title, vm`countLabel, vm`toggleText
      ensures Valid() && selected == sel && vm.roots == old(vm.roots)
      ensures cancelled == old(cancelled) + (if old(selected).Some? then [old(cts).value] else [])
      ensures cts == Some(old(nextToken))
      ensures route == RouteOf(vm.roots, sel)
      ensures route == ClearRoute ==> vm.preview == [] && vm.listVisible && !vm.infoGridVisible && !toggleEnabled && !deleteEnabled
      ensures route == GridRoute ==>
        var grid := GridOf(manifest, NodeAt(vm.roots, sel.value).name);
        && !vm.listVisible && vm.infoGridVisible
        && (grid.Some? ==>
              grid.value == Grid(vm.title, vm.author, vm.version, vm.countLabel, vm.content, vm.toggleText)
              && toggleEnabled && deleteEnabled)
        && (grid.None? ==> toggleEnabled == old(toggleEnabled) && deleteEnabled == old(deleteEnabled))
      ensures route == ListRoute ==>
        && vm.listVisible && !vm.infoGridVisible
        && vm.Shows(ListTask(vm.roots, sel.value, vm.modPackFilter, manifest, services, cancelFrom), old(vm.messages))
        && toggleEnabled == old(toggleEnabled) && deleteEnabled == old(deleteEnabled)
    {
      RenewToken();
      selected := sel;
      route := ShowNode(sel, manifest, services, cancelFrom);
    }

    /** The routing of `SelectNode` once the token is renewed: the grid, the preview list, or a cleared list. */
    method ShowNode(sel: Option<Address>, manifest: Option<ModList>, services: Services, cancelFrom: nat)
      returns (route: Route)
      requires vm.WellFormed() && (sel.Some? ==> ModTree.Valid(vm.roots, sel.value))
      modifies this`toggleEnabled, this`deleteEnabled
      modifies vm`preview, vm`nextId, vm`listVisible, vm`infoGridVisible, vm`progressValue, vm`progressText, vm`messages
      modifies vm`content, vm`author, vm`version, vm`title, vm`countLabel, vm`toggleText
      ensures vm.WellFormed() && route == RouteOf(vm.roots, sel)
      ensures route == ClearRoute ==> vm.preview == [] && vm.listVisible && !vm.infoGridVisible && !toggleEnabled && !deleteEnabled
      ensures route == GridRoute ==>
        var grid := GridOf(manifest, NodeAt(vm.roots, sel.value).name);
        && !vm.listVisible && vm.infoGridVisible
        && (grid.Some? ==>
              grid.value == Grid(vm.title, vm.author, vm.version, vm.countLabel, vm.content, vm.toggleText)
              && toggleEnabled && deleteEnabled)
        && (grid.None? ==> toggleEnabled == old(toggleEnabled) && deleteEnabled == old(deleteEnabled))
      ensures route == ListRoute ==>
        && vm.listVisible && !vm.infoGridVisible
        && vm.Shows(ListTask(vm.roots, sel.value, vm.modPackFilter, manifest, services, cancelFrom), old(vm.messages))
        && toggleEnabled == old(toggleEnabled) && deleteEnabled == old(deleteEnabled)
    {
      route := RouteOf(vm.roots, sel);
      if route == GridRoute {
        var thrown := vm.UpdateInfoGrid(NodeAt(vm.roots, sel.value).name, manifest);
        if !thrown {
          toggleEnabled := true;
          deleteEnabled := true;
        }
      } else if route == ListRoute {
        var _ := vm.UpdateList(sel.value, manifest, services, cancelFrom);
      } else {
        vm.ClearList();
        toggleEnabled := false;
        deleteEnabled := false;
      }
    }

    /**
     * `ListBox_SelectionChanged`: a selected row sets the toggle label from
     * its mod's status, enables toggling only when its offsets differ, and
     * enables deleting; no selected row changes nothing.
     */
    method SelectRow(row: Option<Shown>)
      modifies this`toggleEnabled, this`deleteEnabled, vm`toggleText
      ensures row.Some? ==>
        vm.toggleText == SelectionLabel(row.value.row.mod) && toggleEnabled == Toggleable(row.value.row.mod) && deleteEnabled
      ensures row.None? ==>
        vm.toggleText == old(vm.toggleText) && toggleEnabled == old(toggleEnabled) && deleteEnabled == old(deleteEnabled)
    {
      if row.Some? {
        var m := row.value.row.mod;
        vm.toggleText := if m.enabled then DisableText else EnableText;
        if m.modOffset == m.originalOffset {
          toggleEnabled := false;
        } else {
          toggleEnabled := true;
        }
        deleteEnabled := true;
      }
    }

    /** The list box's selected rows, by identity. */
    method SetSelection(ids: seq<nat>)
      modifies this`selection
      ensures selection == ids
    {
      selection := ids;
    }

    /**
     * One pass of the toggle loop, for the selected row with identity `id`:
     * when its offsets differ, the framework toggles its mod, the label is
     * set from its status and the row is flipped; otherwise nothing changes.
     */
    method ToggleOne(id: nat) returns (made: seq<Call>)
      requires Valid()
      modifies vm`toggleText, vm`preview
      ensures Valid()
      ensures vm.preview == FlipSelected(old(vm.preview), {id})
      ensures vm.toggleText == LabelStep(old(vm.preview), id, old(vm.toggleText))
      ensures made == ToggleCall(old(vm.preview), id)
    {
      made := [];
      var found := Find(vm.preview, id);
      FlipSelectedKeepsWellFormed(vm.preview, vm.nextId, {id});
      if found.Some? && Toggleable(found.value.row.mod) {
        var m := found.value.row.mod;
        made := [ToggleModStatus(m.fullPath, !m.enabled)];
        vm.toggleText := if m.enabled then EnableText else DisableText;
        vm.preview := FlipSelected(vm.preview, {id});
      } else {
        FlipSelectedNothing(vm.preview, id);
      }
    }

    /** Pass `k` of the toggle loop: the effects of the first `k` passes become those of the first `k + 1`. */
    method ToggleAt(ghost s: seq<Shown>, ids: seq<nat>, k: nat, ghost text0: string) returns (made: seq<Call>)
      requires Valid() && k < |ids| && forall i, j | 0 <= i < j < |ids| :: ids[i] != ids[j]
      requires vm.preview == FlipSelected(s, IdSet(ids[..k])) && vm.toggleText == LabelAfter(s, ids[..k], text0)
      modifies vm`toggleText, vm`preview
      ensures Valid()
      ensures vm.preview == FlipSelected(s, IdSet(ids[..k + 1])) && vm.toggleText == LabelAfter(s, ids[..k + 1], text0)
      ensures ToggleCalls(s, ids[..k]) + made == ToggleCalls(s, ids[..k + 1])
    {
      ToggleLoopStep(s, ids, k, text0);
      made := ToggleOne(ids[k]);
    }

    /**
     * The toggle loop over the selected rows, in selection order: each row whose offsets differ
     * is toggled in the framework, the label set from its status, and its
     * status and visuals flipped; the others are skipped.
     */
    method ToggleRows()
      requires Valid() && forall i, j | 0 <= i < j < |selection| :: selection[i] != selection[j]
      modifies this`calls, vm`toggleText, vm`preview
      ensures Valid()
      ensures vm.preview == FlipSelected(old(vm.preview), IdSet(selection))
      ensures vm.toggleText == LabelAfter(old(vm.preview), selection, old(vm.toggleText))
      ensures calls == old(calls) + ToggleCalls(old(vm.preview), selection)
    {
      ghost var s, text0 := vm.preview, vm.toggleText;
      var ids := selection;
      var toggled: seq<Call> := [];
      for k := 0 to |ids|
        invariant Valid()
        invariant vm.preview == FlipSelected(s, IdSet(ids[..k]))
        invariant vm.toggleText == LabelAfter(s, ids[..k], text0)
        invariant toggled == ToggleCalls(s, ids[..k]) && calls == old(calls)
      {
        var made := ToggleAt(s, ids, k, text0);
        toggled := toggled + made;
      }
      assert ids[..|ids|] == ids;
      calls := calls + toggled;
    }

    /**
     * `modToggleButton_Click`. For a pack node the whole pack is switched by
     * the label (Enable switches it on) and the grid is redrawn from the
     * manifest as it reads afterwards (`after`); for another node the
     * selected rows are toggled. `thrown` when there is no selected node or
     * it has no parent, and when the grid redraw faults (no manifest, or the
     * pack is not in it): the handler has no catch, so that fault escapes
     * after the pack was already switched.
     */
    method ToggleClick(after: Option<ModList>) returns (thrown: bool)
      requires Valid() && (selected.Some? ==> ModTree.Valid(vm.roots, selected.value))
      requires forall i, j | 0 <= i < j < |selection| :: selection[i] != selection[j]
      modifies this`calls, vm`toggleText, vm`preview
      modifies vm`listVisible, vm`infoGridVisible, vm`content, vm`progressValue, vm`progressText
      modifies vm`author, vm`version, vm`title, vm`countLabel
      ensures Valid()
      ensures selected.None? || ParentName(vm.roots, selected.value).None? ==>
        thrown && calls == old(calls) && vm.preview == old(vm.preview) && vm.toggleText == old(vm.toggleText)
      ensures selected.Some? && ParentName(vm.roots, selected.value) == Some(ModPacksLabel) ==>
        var name := NodeAt(vm.roots, selected.value).name;
        && (thrown <==> GridOf(after, name).None?)
        && calls == old(calls) + [ToggleModPackStatus(name, old(vm.toggleText) == EnableText)]
        && vm.infoGridVisible && vm.preview == old(vm.preview)
        && (!thrown ==>
              GridOf(after, name) == Some(Grid(vm.title, vm.author, vm.version, vm.countLabel, vm.content, vm.toggleText)))
        && (thrown ==>
              vm.content == "" && vm.toggleText == if old(vm.toggleText) == EnableText then DisableText else EnableText)
      ensures selected.Some? && ParentName(vm.roots, selected.value).Some?
                && ParentName(vm.roots, selected.value) != Some(ModPacksLabel) ==>
        && !thrown
        && vm.preview == FlipSelected(old(vm.preview), IdSet(selection))
        && vm.toggleText == LabelAfter(old(vm.preview), selection, old(vm.toggleText))
        && calls == old(calls) + ToggleCalls(old(vm.preview), selection)
    {
      if selected.None? || ParentName(vm.roots, selected.value).None? {
        return true;
      }
      var node := selected.value;
      if ParentName(vm.roots, node) == Some(ModPacksLabel) {
        var name := NodeAt(vm.roots, node).name;
        if vm.toggleText == EnableText {
          calls := calls + [ToggleModPackStatus(name, true)];
          vm.toggleText := DisableText;
        } else {
          calls := calls + [ToggleModPackStatus(name, false)];
          vm.toggleText := EnableText;
        }
        thrown := vm.UpdateInfoGrid(name, after);
        return;
      }
      ToggleRows();
      return false;
    }

    /**
     * `modDeleteButton_Click`. For a pack node, once confirmed, the pack is
     * deleted and the tree rebuilt. For another node the selection is copied
     * first, then each copied row's mod is deleted and the row removed
     * (`RemoveItem` reading `manifests[k]` for row `k`) until a removal
     * faults. `thrown` when there is no selected node or it has no parent,
     * or a removal faulted.
     */
    method DeleteClick(confirmed: bool, manifests: seq<Option<ModList>>) returns (thrown: bool)
      requires Valid() && (selected.Some? ==> ModTree.Valid(vm.roots, selected.value))
      requires |manifests| == |Snapshot(vm.preview, selection)|
      modifies this`calls, vm`roots, vm`preview, vm`pending
      ensures Valid()
      ensures selected.None? || ParentName(old(vm.roots), selected.value).None? ==>
        thrown && calls == old(calls) && vm.roots == old(vm.roots) && vm.preview == old(vm.preview)
      ensures selected.Some? && ParentName(old(vm.roots), selected.value) == Some(ModPacksLabel) ==>
        && !thrown && vm.preview == old(vm.preview)
        && (confirmed ==>
              && calls == old(calls) + [DeleteModPack(NodeAt(old(vm.roots), selected.value).name)]
              && vm.roots == [] && vm.pending == old(vm.pending) + [if vm.itemFilter then ItemBuild else ModPackBuild])
        && (!confirmed ==> calls == old(calls) && vm.roots == old(vm.roots))
      ensures selected.Some? && ParentName(old(vm.roots), selected.value).Some?
                && ParentName(old(vm.roots), selected.value) != Some(ModPacksLabel) ==>
        var rows := Snapshot(old(vm.preview), selection);
        var d := DeleteRows(old(vm.roots), old(vm.preview), vm.modPackFilter, rows, selected.value, manifests);
        && thrown == d.thrown && vm.roots == d.roots && vm.preview == d.preview
        && calls == old(calls) + DeleteCalls(rows[..d.done])
    {
      if selected.None? || ParentName(vm.roots, selected.value).None? {
        return true;
      }
      var node := selected.value;
      if ParentName(vm.roots, node) == Some(ModPacksLabel) {
        if confirmed {
          calls := calls + [DeleteModPack(NodeAt(vm.roots, node).name)];
          vm.RemoveModPack();
        }
        return false;
      }
      var snapshot := Snapshot(vm.preview, selection);
      var made;
      thrown, made := DeleteEach(snapshot, node, manifests);
      calls := calls + made;
    }

    /**
     * The per-row loop of the delete button over the selection snapshot
     * `rows`: the row's mod is deleted (`made` records the calls), then the
     * row removed; the loop ends at the first removal that faults.
     */
    method DeleteEach(rows: seq<Shown>, node: Address, manifests: seq<Option<ModList>>)
      returns (thrown: bool, made: seq<Call>)
      requires Valid() && |manifests| == |rows|
      modifies vm`roots, vm`preview
      ensures Valid()
      ensures var d := DeleteRows(old(vm.roots), old(vm.preview), vm.modPackFilter, rows, node, manifests);
        && thrown == d.thrown && vm.roots == d.roots && vm.preview == d.preview
        && made == DeleteCalls(rows[..d.done])
    {
      ghost var roots0, preview0 := vm.roots, vm.preview;
      ghost var st := Deletion(roots0, preview0, 0, false);
      thrown := false;
      made := [];
      var k := 0;
      while k < |rows|
        invariant 0 <= k <= |rows| && Valid()
        invariant st == DeleteRows(roots0, preview0, vm.modPackFilter, rows[..k], node, manifests[..k])
        invariant !st.thrown && st.done == k && vm.roots == st.roots && vm.preview == st.preview
        invariant made == DeleteCalls(rows[..k])
        decreases |rows| - k
      {
        DeleteStep(roots0, preview0, vm.modPackFilter, rows, node, manifests, k);
        made := made + [DeleteMod(rows[k].row.mod.fullPath)];
        thrown := RemoveRow(rows[k], node, manifests[k], st);
        st := DeleteNext(st, vm.modPackFilter, rows[k], node, manifests[k]);
        k := k + 1;
        if thrown {
          DeleteRowsAfterFault(roots0, preview0, vm.modPackFilter, rows, node, manifests, k);
          return;
        }
      }
      assert rows[..k] == rows && manifests[..k] == manifests;
    }

    /** One pass of the delete loop: `RemoveItem` on the row, which moves the loop's state on by `DeleteNext`. */
    method RemoveRow(row: Shown, node: Address, manifest: Option<ModList>, ghost st: Deletion) returns (thrown: bool)
      requires Valid() && !st.thrown && vm.roots == st.roots && vm.preview == st.preview
      modifies vm`roots, vm`preview
      ensures Valid()
      ensures var next := DeleteNext(st, vm.modPackFilter, row, node, manifest);
        thrown == next.thrown && vm.roots == next.roots && vm.preview == next.preview
    {
      thrown := vm.RemoveItem(row, node, manifest);
    }

    /** When the window closes: the view model gives the settings to store, and the tree and list are dropped. */
    method Close() returns (filter: string, sorting: string)
      modifies vm`roots, vm`preview
      ensures (filter, sorting) == Prefs(vm.modPackFilter, vm.nameSort)
      ensures vm.roots == [] && vm.preview == []
    {
      filter, sorting := vm.Dispose();
    }
  }

  /** The selected rows, in selection order: `SelectedItems.OfType<...>().ToArray()`. */
  function Snapshot(preview: seq<Shown>, selection: seq<nat>): (r: seq<Shown>)
    ensures |r| <= |selection|
    ensures forall x | x in r :: x in preview && x.id in selection
    ensures forall k {:trigger Find(preview, selection[k])} | 0 <= k < |selection| && Find(preview, selection[k]).Some? ::
      Find(preview, selection[k]).value in r
  {
    if selection == [] then []
    else
      var before := Snapshot(preview, selection[..|selection| - 1]);
      assert forall k | 0 <= k < |selection| - 1 :: selection[..|selection| - 1][k] == selection[k];
      match Find(preview, selection[|selection| - 1])
      case None => before
      case Some(x) => before + [x]
  }

  /** The positions in `selection` of the ids that have a row in `preview`, ascending. */
  function SelectedHits(preview: seq<Shown>, selection: seq<nat>): seq<nat> {
    if selection == [] then []
    else
      var acc := SelectedHits(preview, selection[..|selection| - 1]);
      if Find(preview, selection[|selection| - 1]).Some? then acc + [|selection| - 1] else acc
  }

  /** One more selected id: its row, when it has one, is appended to the snapshot. */
  lemma SnapshotStep(preview: seq<Shown>, selection: seq<nat>)
    requires selection != []
    ensures var f := Find(preview, selection[|selection| - 1]);
      Snapshot(preview, selection) == Snapshot(preview, selection[..|selection| - 1]) + (if f.Some? then [f.value] else [])
  {
  }

  /** One more selected id: its position, when it has a row, is appended to the hits. */
  lemma HitsStep(preview: seq<Shown>, selection: seq<nat>)
    requires selection != []
    ensures var f := Find(preview, selection[|selection| - 1]);
      SelectedHits(preview, selection) == SelectedHits(preview, selection[..|selection| - 1]) + (if f.Some? then [|selection| - 1] else [])
  {
  }

  /** The hits are ascending positions of the selection, and every selected id with a row is among them. */
  lemma {:induction false} HitsAscending(preview: seq<Shown>, selection: seq<nat>)
    ensures var ix := SelectedHits(preview, selection);
      && (forall j | 0 <= j < |ix| :: ix[j] < |selection|)
      && (forall j, l | 0 <= j < l < |ix| :: ix[j] < ix[l])
      && (forall k {:trigger Find(preview, selection[k])} | 0 <= k < |selection| && Find(preview, selection[k]).Some? :: k in ix)
  {
    if selection != [] {
      var init := selection[..|selection| - 1];
      HitsAscending(preview, init);
      HitsStep(preview, selection);
      var ix0, ix := SelectedHits(preview, init), SelectedHits(preview, selection);
      forall k | 0 <= k < |selection| && Find(preview, selection[k]).Some?
        ensures k in ix
      {
        if k < |init| {
          assert init[k] == selection[k];
          assert k in ix0;
          var j :| 0 <= j < |ix0| && ix0[j] == k;
          assert ix[j] == k;
        } else {
          assert ix == ix0 + [k];
          assert ix[|ix0|] == k;
        }
      }
    }
  }

  /** The snapshot holds, hit by hit, the row of the selected id at that position. */
  lemma {:induction false} SnapshotThroughHits(preview: seq<Shown>, selection: seq<nat>)
    ensures var ix := SelectedHits(preview, selection);
      var r := Snapshot(preview, selection);
      && |ix| == |r|
      && forall j | 0 <= j < |ix| :: ix[j] < |selection| && Find(preview, selection[ix[j]]) == Some(r[j])
  {
    if selection != [] {
      var init := selection[..|selection| - 1];
      SnapshotThroughHits(preview, init);
      SnapshotStep(preview, selection);
      HitsStep(preview, selection);
      var ix0 := SelectedHits(preview, init);
      forall j | 0 <= j < |ix0|
        ensures selection[ix0[j]] == init[ix0[j]]
      {
      }
    }
  }

  /**
   * Order and multiplicity of the snapshot: it is the selection read through a
   * strictly increasing index map that hits every selected id with a row,
   * each mapped to its row.
   */
  lemma SnapshotOrder(preview: seq<Shown>, selection: seq<nat>)
    ensures var ix := SelectedHits(preview, selection);
      var r := Snapshot(preview, selection);
      && |ix| == |r|
      && (forall j | 0 <= j < |ix| :: ix[j] < |selection| && Find(preview, selection[ix[j]]) == Some(r[j]))
      && (forall j, l | 0 <= j < l < |ix| :: ix[j] < ix[l])
      && (forall k {:trigger Find(preview, selection[k])} | 0 <= k < |selection| && Find(preview, selection[k]).Some? :: k in ix)
  {
    HitsAscending(preview, selection);
    SnapshotThroughHits(preview, selection);
  }
}
