/**
 * The mod list view model: the tree's top-level nodes, the preview rows, the
 * filter and sort flags, the visibility of the list and of the information
 * grid, and the labels the window binds to.
 *
 * Reading the manifest file is a parameter of each operation that reads it.
 * The tree builders run as background tasks that read the sort flag when
 * they run, so a rebuild is modelled as a request (`SetFilter`) followed by
 * its completion (`CompleteBuild`). The preview task runs within
 * `UpdateList`, with the cancellation given by its first cancelled
 * checkpoint. Preview rows carry an id that stands for their object
 * identity.
 */
module ModListViewModels {
  import opened Wrappers
  import opened Text
  import opened Manifest
  import opened ItemClassifier
  import opened Categories
  import opened CategoryTrees
  import opened TreeBuilders
  import opened ModTree
  import opened PreviewRows
  import opened ModPackSummary

  /** Which builder a rebuild request runs. */
  datatype BuildKind = ItemBuild | ModPackBuild

  /** A preview row object: `id` is its identity, `row` its contents. */
  datatype Shown = Shown(id: nat, row: Row)

  function RowsOf(s: seq<Shown>): (r: seq<Row>)
    ensures |r| == |s| && forall i | 0 <= i < |s| :: r[i] == s[i].row
  {
    seq(|s|, i requires 0 <= i < |s| => s[i].row)
  }

  predicate UniqueIds(s: seq<Shown>) {
    forall i, j | 0 <= i < j < |s| :: s[i].id != s[j].id
  }

  /** Row identities are unique and below `nextId`; every row shows its mod's status. */
  predicate RowsWellFormed(s: seq<Shown>, nextId: nat) {
    && UniqueIds(s)
    && (forall i | 0 <= i < |s| :: s[i].id < nextId)
    && (forall i | 0 <= i < |s| :: s[i].row.look == StatusLook(s[i].row.mod.enabled))
  }

  /** Adding a row under a fresh identity keeps the rows well formed and appends its contents. */
  lemma PushRow(s: seq<Shown>, nextId: nat, row: Row)
    requires RowsWellFormed(s, nextId) && row.look == StatusLook(row.mod.enabled)
    ensures RowsWellFormed(s + [Shown(nextId, row)], nextId + 1)
    ensures RowsOf(s + [Shown(nextId, row)]) == RowsOf(s) + [row]
  {
  }

  /** `list.Remove(item)`: the first row with this identity is taken out. */
  function RemoveId(s: seq<Shown>, id: nat): (r: seq<Shown>)
    ensures |r| <= |s|
  {
    if s == [] then []
    else if s[0].id == id then s[1..]
    else [s[0]] + RemoveId(s[1..], id)
  }

  /** The rows whose identity is not in `ids`, in order. */
  function Without(s: seq<Shown>, ids: set<nat>): (r: seq<Shown>)
    ensures forall x :: x in r <==> x in s && x.id !in ids
  {
    if s == [] then []
    else (if s[0].id in ids then [] else [s[0]]) + Without(s[1..], ids)
  }

  /** With unique identities, removing one row is filtering out its identity. */
  lemma {:induction false} RemoveIdIsWithout(s: seq<Shown>, id: nat)
    requires UniqueIds(s)
    ensures RemoveId(s, id) == Without(s, {id})
  {
    if s != [] {
      RemoveIdIsWithout(s[1..], id);
      if s[0].id == id {
        WithoutAbsent(s[1..], {id});
      }
    }
  }

  /** Filtering out identities that do not occur changes nothing. */
  lemma {:induction false} WithoutAbsent(s: seq<Shown>, ids: set<nat>)
    requires forall i | 0 <= i < |s| :: s[i].id !in ids
    ensures Without(s, ids) == s
  {
    if s != [] {
      WithoutAbsent(s[1..], ids);
    }
  }

  /** Filtering twice is filtering once by both sets. */
  lemma {:induction false} WithoutTwice(s: seq<Shown>, a: set<nat>, b: set<nat>)
    ensures Without(Without(s, a), b) == Without(s, a + b)
  {
    if s != [] {
      WithoutTwice(s[1..], a, b);
      if s[0].id !in a {
        assert Without(s, a) == [s[0]] + Without(s[1..], a);
        assert Without(s, a)[1..] == Without(s[1..], a);
      } else {
        assert Without(s, a) == Without(s[1..], a);
      }
    }
  }

  lemma {:induction false} WithoutKeepsUnique(s: seq<Shown>, ids: set<nat>)
    requires UniqueIds(s)
    ensures UniqueIds(Without(s, ids))
  {
    if s != [] {
      WithoutKeepsUnique(s[1..], ids);
      var r := Without(s[1..], ids);
      assert forall x | x in r :: x in s[1..];
    }
  }

  /**
   * The tree and the list after `RemoveItem` of row `item`: `None` when it
   * faults (no manifest, or no node for the mod's category once no mod of
   * its name remains).
   */
  function AfterRemove(roots: seq<Root>, preview: seq<Shown>, packMode: bool, item: Shown, sel: Address,
                       manifest: Option<ModList>): (r: Option<(seq<Root>, seq<Shown>)>)
    ensures r.Some? ==> r.value.1 == Without(preview, {item.id})
    ensures r.None? <==> (manifest.None? ||
      (NameCount(manifest.value.mods, item.row.mod.name) == 0 && RemoveLeaf(roots, packMode, item.row.mod.category, sel).None?))
  {
    if manifest.None? then None
    else if NameCount(manifest.value.mods, item.row.mod.name) == 0 then
      match RemoveLeaf(roots, packMode, item.row.mod.category, sel)
      case None => None
      case Some(pruned) => Some((pruned, Without(preview, {item.id})))
    else Some((roots, Without(preview, {item.id})))
  }

  // ---------------------------------------------------------------------------
  // Stored preferences
  // ---------------------------------------------------------------------------

  /** The stored sorting and filter settings read at construction: name sort, item filter. */
  function ReadSort(sorting: string): bool { sorting == "NameSort" }
  function ReadFilter(filter: string): bool { filter == "Item" }

  /** The settings `Dispose` stores: the filter, then the sorting. */
  function Prefs(modPackFilter: bool, nameSort: bool): (r: (string, string))
    ensures r.0 == (if modPackFilter then "ModPack" else "Item")
    ensures r.1 == (if nameSort then "NameSort" else "DateSort")
  {
    (if modPackFilter then "ModPack" else "Item", if nameSort then "NameSort" else "DateSort")
  }

  /**
   * Storing the flags of a window opened from stored settings gives back
   * settings that open the same window; from the second time on the stored
   * values do not change.
   */
  lemma PrefsRoundTrip(filter: string, sorting: string)
    ensures var p := Prefs(!ReadFilter(filter), ReadSort(sorting));
      && ReadFilter(p.0) == ReadFilter(filter) && ReadSort(p.1) == ReadSort(sorting)
      && Prefs(!ReadFilter(p.0), ReadSort(p.1)) == p
      && (filter in {"Item", "ModPack"} && sorting in {"NameSort", "DateSort"} ==> p == (filter, sorting))
  {
  }

  /** The build a filter name requests; an unknown name requests none. */
  function Requested(kind: string): (r: seq<BuildKind>)
    ensures |r| <= 1
  {
    if kind == "ItemFilter" then [ItemBuild] else if kind == "ModPackFilter" then [ModPackBuild] else []
  }

  /** What a build request produces with the current sort flag. */
  function BuildOutcome(kind: BuildKind, manifest: Option<ModList>, nameSort: bool): Outcome {
    if kind == ItemBuild then ItemForest(manifest, nameSort) else ModPackForest(manifest, nameSort)
  }

  /** The nodes a build adds, with their parent link: the detached "ModPacks" node in mod-pack mode. */
  function Tops(forest: seq<Category>, underModPacks: bool): (r: seq<Root>)
    ensures |r| == |forest| && forall i | 0 <= i < |r| :: r[i] == Root(forest[i], underModPacks)
  {
    if forest == [] then [] else Tops(forest[..|forest| - 1], underModPacks) + [Root(forest[|forest| - 1], underModPacks)]
  }

  // ---------------------------------------------------------------------------
  // The preview task
  // ---------------------------------------------------------------------------

  /**
   * Mod-pack mode: `Some(name)` of the pack node the walk up from `sel`
   * stops at, or `None` when it meets a node without a parent.
   */
  function PackFilterOf(roots: seq<Root>, sel: Address): Option<string>
    requires ModTree.Valid(roots, sel)
  {
    match EnclosingPack(roots, sel)
    case None => None
    case Some(a) =>
      assert ModTree.Valid(roots, a) by { EnclosingPackIsValid(roots, sel); }
      Some(NodeAt(roots, a).name)
  }

  lemma {:induction false} EnclosingPackIsValid(roots: seq<Root>, a: Address)
    requires ModTree.Valid(roots, a)
    ensures EnclosingPack(roots, a).Some? ==> ModTree.Valid(roots, EnclosingPack(roots, a).value)
    decreases |a.steps|
  {
    if a.steps != [] && NodeAt(roots, ParentOf(a)).name != ModPacksLabel {
      EnclosingPackIsValid(roots, ParentOf(a));
    }
  }

  /**
   * The preview task of `UpdateList` for the node at `sel`: nothing for a
   * node without an item; in mod-pack mode the walk to the enclosing pack,
   * then the manifest; then the loop over the listed mods.
   */
  function ListTask(roots: seq<Root>, sel: Address, packMode: bool, manifest: Option<ModList>,
                    services: Services, cancelFrom: nat): RunState
    requires ModTree.Valid(roots, sel)
  {
    var node := NodeAt(roots, sel);
    if node.item.None? then Initial
    else if packMode && PackFilterOf(roots, sel).None? then Initial.(stop := Some(Faulted(NoPackParent)))
    else if manifest.None? then Initial.(stop := Some(Faulted(NoManifest)))
    else
      var item := node.item.value;
      var pack := if packMode then PackFilterOf(roots, sel) else None;
      var items := SelectMods(manifest.value.mods, item.name, pack);
      Run(Context(item.primaryCategory, services, |items|, cancelFrom), items)
  }

  /**
   * Every row the preview task adds is a manifest mod with the selected
   * item's name (in mod-pack mode, one that is standalone or of the
   * enclosing pack), rows follow the manifest's order, each row shows its
   * mod's status, and progress counts up by one against the listed total.
   */
  lemma ListTaskRows(roots: seq<Root>, sel: Address, packMode: bool, manifest: Option<ModList>,
                     services: Services, cancelFrom: nat)
    requires ModTree.Valid(roots, sel)
    ensures var t := ListTask(roots, sel, packMode, manifest, services, cancelFrom);
            var node := NodeAt(roots, sel);
      && (t.rows != [] ==> node.item.Some? && manifest.Some?)
      && (forall j | 0 <= j < |t.rows| ::
            t.rows[j].mod in manifest.value.mods
            && Selected(t.rows[j].mod, node.item.value.name, if packMode then PackFilterOf(roots, sel) else None))
      && (forall j | 0 <= j < |t.rows| :: ShowsEnabled(t.rows[j].look) == t.rows[j].mod.enabled)
      && (forall j | 0 <= j < |t.progress| :: t.progress[j].current == j + 1)
  {
    var t := ListTask(roots, sel, packMode, manifest, services, cancelFrom);
    var node := NodeAt(roots, sel);
    if node.item.Some? && !(packMode && PackFilterOf(roots, sel).None?) && manifest.Some? {
      var item := node.item.value;
      var pack := if packMode then PackFilterOf(roots, sel) else None;
      var items := SelectMods(manifest.value.mods, item.name, pack);
      var ctx := Context(item.primaryCategory, services, |items|, cancelFrom);
      RunKeepsInvariant(ctx, items);
      forall j | 0 <= j < |t.rows|
        ensures t.rows[j].mod in manifest.value.mods && Selected(t.rows[j].mod, item.name, pack)
      {
        assert t.rows[j].mod == items[j];
        assert items[j] in items;
      }
    }
  }

  /** A node without an item (a category or pack node) lists nothing and reports nothing. */
  lemma NodeWithoutItemListsNothing(roots: seq<Root>, sel: Address, packMode: bool, manifest: Option<ModList>,
                                    services: Services, cancelFrom: nat)
    requires ModTree.Valid(roots, sel) && NodeAt(roots, sel).item.None?
    ensures ListTask(roots, sel, packMode, manifest, services, cancelFrom) == Initial
  {
  }

  /** `ProgressText` after a report. */
  function ProgressLine(p: Progress): string {
    NatToString(p.current) + " / " + NatToString(p.total)
  }

  /** `ProgressValue` after a report: the percentage done, rounded down. */
  function Percent(p: Progress): (r: int)
    ensures p.total > 0 && p.current <= p.total ==> 0 <= r <= 100
    ensures p.total > 0 && p.current == p.total ==> r == 100
  {
    if p.total == 0 then 0
    else
      PercentBounds(p.current, p.total);
      p.current * 100 / p.total
  }

  lemma PercentBounds(current: nat, total: nat)
    requires total > 0
    ensures current <= total ==> 0 <= current * 100 / total <= 100
    ensures current == total ==> current * 100 / total == 100
  {
    var a := current * 100;
    var q := a / total;
    assert q * total <= a < q * total + total;
    MulMonotone(total, 101, q);
    MulMonotone(total, q + 1, 100);
  }

  lemma MulMonotone(x: nat, a: int, b: int)
    ensures a <= b ==> a * x <= b * x
  {
  }

  /** The progress labels after a sequence of reports: the last one, or the reset values. */
  function ProgressTextOf(ps: seq<Progress>): string {
    if ps == [] then "" else ProgressLine(ps[|ps| - 1])
  }

  function ProgressValueOf(ps: seq<Progress>): int {
    if ps == [] then 0 else Percent(ps[|ps| - 1])
  }

  /** A run that lists every mod ends with the bar full. */
  lemma CompleteRunFillsBar(ctx: Context, items: seq<ModEntry>)
    requires items != [] && Run(ctx, items).stop.None? && ctx.cancelFrom >= 2 * |items| && ctx.total == |items|
    ensures ProgressValueOf(Run(ctx, items).progress) == 100
    ensures ProgressTextOf(Run(ctx, items).progress) == NatToString(|items|) + " / " + NatToString(|items|)
  {
    CompleteRunListsEveryMod(ctx, items);
    RunKeepsInvariant(ctx, items);
  }

  /**
   * The listed mods, in manifest order: those with the item's name; in
   * mod-pack mode (`pack` present) a mod of another pack is skipped.
   */
  method SelectListed(mods: seq<ModEntry>, name: string, pack: Option<string>) returns (items: seq<ModEntry>)
    ensures items == SelectMods(mods, name, pack)
  {
    items := [];
    for j := 0 to |mods|
      invariant items == SelectMods(mods[..j], name, pack)
    {
      SelectModsStep(mods, j, name, pack);
      var m := mods[j];
      if m.name != name {
        continue;
      }
      if pack.Some? && m.modPack.Some? {
        if m.modPack.value.name == pack.value {
          items := items + [m];
        }
      } else {
        items := items + [m];
      }
    }
    assert mods[..|mods|] == mods;
  }

  /** The pack node's mods, in manifest order. */
  method SelectPackListed(mods: seq<ModEntry>, node: string) returns (listed: seq<ModEntry>)
    ensures listed == ListedMods(mods, node)
  {
    listed := [];
    for j := 0 to |mods|
      invariant listed == ListedMods(mods[..j], node)
    {
      assert mods[..j + 1][..j] == mods[..j];
      var m := mods[j];
      if node == Standalone {
        if m.name != "" && m.modPack.None? {
          listed := listed + [m];
        }
      } else if m.modPack.Some? && m.modPack.value.name == node {
        listed := listed + [m];
      }
    }
    assert mods[..|mods|] == mods;
  }

  /** The counting loop: enabled and disabled counters and the name dictionary. */
  method CountMods(listed: seq<ModEntry>) returns (t: Tally)
    ensures t == TallyOf(listed)
  {
    var enabledCount: nat := 0;
    var disabledCount: nat := 0;
    var names: seq<string> := [];
    var counts: seq<nat> := [];
    for j := 0 to |listed|
      invariant TallyOf(listed[..j]) == Tally(enabledCount, disabledCount, names, counts)
    {
      assert listed[..j + 1][..j] == listed[..j];
      var m := listed[j];
      if m.enabled {
        enabledCount := enabledCount + 1;
      } else {
        disabledCount := disabledCount + 1;
      }
      if m.name !in names {
        names := names + [m.name];
        counts := counts + [1];
      } else {
        var i := IndexIn(names, m.name);
        counts := counts[i := counts[i] + 1];
      }
    }
    assert listed[..|listed|] == listed;
    t := Tally(enabledCount, disabledCount, names, counts);
  }

  lemma RenderStep(names: seq<string>, counts: seq<nat>, i: nat)
    requires |names| == |counts| && i < |names|
    ensures Render(names[..i + 1], counts[..i + 1]) == Render(names[..i], counts[..i]) + Line(names[i], counts[i])
  {
    assert names[..i + 1][..i] == names[..i];
    assert counts[..i + 1][..i] == counts[..i];
  }

  // ---------------------------------------------------------------------------
  // The view model
  // ---------------------------------------------------------------------------

  class ModListViewModel {
    /** `Categories`: the tree's top-level nodes. */
    var roots: seq<Root>
    /** `ModListPreviewList` and the next row identity. */
    var preview: seq<Shown>
    var nextId: nat
    /** Rebuilds requested and not yet run. */
    var pending: seq<BuildKind>
    var itemFilter: bool
    var modPackFilter: bool
    var nameSort: bool
    var dateSort: bool
    var listVisible: bool
    var infoGridVisible: bool
    var toggleText: string
    var progressValue: int
    var progressText: string
    var title: string
    var author: string
    var version: string
    var countLabel: string
    var content: string
    /** The message boxes shown, in order. */
    var messages: seq<Report>

    /** Row identities are unique and already issued; every row shows its mod's status. */
    predicate WellFormed()
      reads this`preview, this`nextId
    {
      RowsWellFormed(preview, nextId)
    }

    /** Opens with the stored sorting and filter, and requests the first build. */
    constructor(sorting: string, filter: string)
      ensures nameSort == ReadSort(sorting) && dateSort == !nameSort
      ensures itemFilter == ReadFilter(filter) && modPackFilter == !itemFilter
      ensures pending == [if itemFilter then ItemBuild else ModPackBuild]
      ensures roots == [] && preview == [] && messages == []
      ensures listVisible && !infoGridVisible && toggleText == EnableDisableText
      ensures WellFormed()
    {
      roots := [];
      preview := [];
      nextId := 0;
      pending := [];
      listVisible := true;
      infoGridVisible := false;
      toggleText := EnableDisableText;
      progressValue := 0;
      progressText := "";
      title, author, version, countLabel, content := "", "", "", "", "";
      messages := [];
      nameSort := false;
      dateSort := false;
      itemFilter := false;
      modPackFilter := false;
      new;
      if sorting == "NameSort" {
        nameSort := true;
      } else {
        dateSort := true;
      }
      if filter == "Item" {
        itemFilter := true;
        SetFilter("ItemFilter");
      } else {
        modPackFilter := true;
        SetFilter("ModPackFilter");
      }
    }

    /** Replaces the tree by an empty one and requests the named build. */
    method SetFilter(kind: string)
      modifies this`roots, this`pending
      ensures pending == old(pending) + Requested(kind)
      ensures roots == if Requested(kind) == [] then old(roots) else []
    {
      if kind == "ItemFilter" {
        roots := [];
        pending := pending + [ItemBuild];
      } else if kind == "ModPackFilter" {
        roots := [];
        pending := pending + [ModPackBuild];
      }
    }

    /**
     * The oldest requested build runs with the sort flag as it is now and
     * adds its top-level nodes one by one to the current collection; a fault
     * leaves the nodes added before it.
     */
    method CompleteBuild(manifest: Option<ModList>) returns (error: Option<BuildError>)
      requires pending != []
      modifies this`roots, this`pending
      ensures pending == old(pending)[1..]
      ensures var o := BuildOutcome(old(pending)[0], manifest, nameSort);
        roots == old(roots) + Tops(o.forest, old(pending)[0] == ModPackBuild) && error == o.error
    {
      var kind := pending[0];
      pending := pending[1..];
      var o: Outcome;
      if kind == ItemBuild {
        o := BuildItemForest(manifest, nameSort);
      } else {
        o := BuildModPackForest(manifest, nameSort);
      }
      AddRoots(o.forest, kind == ModPackBuild);
      return o.error;
    }

    /** Adds a build's top-level nodes to the collection one by one. */
    method AddRoots(forest: seq<Category>, underModPacks: bool)
      modifies this`roots
      ensures roots == old(roots) + Tops(forest, underModPacks)
    {
      for k := 0 to |forest|
        invariant roots == old(roots) + Tops(forest[..k], underModPacks)
      {
        assert forest[..k + 1][..k] == forest[..k];
        roots := roots + [Root(forest[k], underModPacks)];
      }
      assert forest[..|forest|] == forest;
    }

    method SetItemFilter(value: bool)
      modifies this`roots, this`pending, this`itemFilter
      ensures itemFilter == value
      ensures value && !old(itemFilter) ==> roots == [] && pending == old(pending) + [ItemBuild]
      ensures !(value && !old(itemFilter)) ==> roots == old(roots) && pending == old(pending)
    {
      if value && !itemFilter {
        SetFilter("ItemFilter");
      }
      itemFilter := value;
    }

    method SetModPackFilter(value: bool)
      modifies this`roots, this`pending, this`modPackFilter
      ensures modPackFilter == value
      ensures value && !old(modPackFilter) ==> roots == [] && pending == old(pending) + [ModPackBuild]
      ensures !(value && !old(modPackFilter)) ==> roots == old(roots) && pending == old(pending)
    {
      if value && !modPackFilter {
        SetFilter("ModPackFilter");
      }
      modPackFilter := value;
    }

    /** The builds a sort change requests: the mod-pack build, then the item build, for the filters that are on. */
    static function Rebuilds(modPackFilter: bool, itemFilter: bool): (r: seq<BuildKind>)
      ensures |r| == (if modPackFilter then 1 else 0) + (if itemFilter then 1 else 0)
      ensures ModPackBuild in r <==> modPackFilter
      ensures ItemBuild in r <==> itemFilter
    {
      (if modPackFilter then [ModPackBuild] else []) + (if itemFilter then [ItemBuild] else [])
    }

    method SetNameSort(value: bool)
      modifies this`roots, this`pending, this`nameSort
      ensures nameSort == value
      ensures pending == old(pending) + (if value && !old(nameSort) then Rebuilds(modPackFilter, itemFilter) else [])
      ensures roots == if value && !old(nameSort) && (modPackFilter || itemFilter) then [] else old(roots)
    {
      if value && !nameSort {
        if modPackFilter {
          SetFilter("ModPackFilter");
        }
        if itemFilter {
          SetFilter("ItemFilter");
        }
      }
      nameSort := value;
    }

    method SetDateSort(value: bool)
      modifies this`roots, this`pending, this`dateSort
      ensures dateSort == value
      ensures pending == old(pending) + (if value && !old(dateSort) then Rebuilds(modPackFilter, itemFilter) else [])
      ensures roots == if value && !old(dateSort) && (modPackFilter || itemFilter) then [] else old(roots)
    {
      if value && !dateSort {
        if modPackFilter {
          SetFilter("ModPackFilter");
        }
        if itemFilter {
          SetFilter("ItemFilter");
        }
      }
      dateSort := value;
    }

    /** The walk up the parent links until the parent is named "ModPacks"; `None` at a node without a parent. */
    method WalkToPack(sel: Address) returns (r: Option<Address>)
      requires ModTree.Valid(roots, sel)
      ensures r == EnclosingPack(roots, sel)
    {
      var cur := sel;
      while true
        invariant ModTree.Valid(roots, cur) && EnclosingPack(roots, cur) == EnclosingPack(roots, sel)
        decreases |cur.steps|
      {
        if cur.steps == [] {
          if !roots[cur.root].underModPacks {
            return None;
          }
          return Some(cur);
        }
        if NodeAt(roots, ParentOf(cur)).name == ModPacksLabel {
          return Some(cur);
        }
        cur := ParentOf(cur);
      }
    }

    /** The list and the labels show run state `st`, after the message boxes in `base`. */
    predicate Shows(st: RunState, base: seq<Report>)
      reads this`preview, this`nextId, this`messages, this`progressText, this`progressValue
    {
      && WellFormed()
      && RowsOf(preview) == st.rows
      && messages == base + st.reports
      && progressText == ProgressTextOf(st.progress) && progressValue == ProgressValueOf(st.progress)
    }

    /** The progress handler: the percentage done and the `current / total` text. */
    method ReportProgress(p: Progress)
      modifies this`progressValue, this`progressText
      ensures progressValue == Percent(p) && progressText == ProgressLine(p)
    {
      progressValue := if p.total == 0 then 0 else p.current * 100 / p.total;
      progressText := NatToString(p.current) + " / " + NatToString(p.total);
    }

    /** Adds a row object with a fresh identity to the list. */
    method AddRow(row: Row)
      requires WellFormed() && row.look == StatusLook(row.mod.enabled)
      modifies this`preview, this`nextId
      ensures WellFormed() && RowsOf(preview) == RowsOf(old(preview)) + [row]
    {
      PushRow(preview, nextId, row);
      preview := preview + [Shown(nextId, row)];
      nextId := nextId + 1;
    }

    /**
     * The effects of one pass of the loop over the listed mods, entry `k`
     * processed as `e`, with `modNum` progress reports made so far: the list
     * and labels then show `Advance`.
     */
    method PreviewEntry(ctx: Context, k: nat, e: Entry, ghost st: RunState, ghost base: seq<Report>, modNum: nat)
      returns (stop: Option<Stop>, modNum': nat)
      requires st.stop.None? && Shows(st, base) && modNum == |st.progress|
      requires e.outcome.Ready? ==> e.outcome.row.look == StatusLook(e.outcome.row.mod.enabled)
      modifies this`preview, this`nextId, this`progressValue, this`progressText, this`messages
      ensures var next := Advance(ctx, st, k, e);
        Shows(next, base) && stop == next.stop && modNum' == |next.progress|
    {
      ghost var read := st.(textureReads := st.textureReads + (if e.textureRead then [Prefetch(ctx.total)] else []));
      modNum' := modNum;
      match e.outcome {
        case Threw(f) =>
          assert Advance(ctx, st, k, e) == read.(stop := Some(Faulted(f)));
          return Some(Faulted(f)), modNum';
        case Aborted(r) =>
          assert Advance(ctx, st, k, e) == read.(reports := read.reports + [r], stop := Some(Returned));
          messages := messages + [r];
          return Some(Returned), modNum';
        case Ready(row, report) =>
          if report.Some? {
            messages := messages + [report.value];
          }
          ghost var reported := read.(reports := read.reports + ReportList(report));
          assert Advance(ctx, st, k, e) == AfterRow(ctx, reported, k, row);
          stop, modNum' := ListRow(ctx, k, row, reported, base, modNum);
      }
    }

    /** The rest of a pass once the row is made: the list and labels then show `AfterRow`. */
    method ListRow(ctx: Context, k: nat, row: Row, ghost st: RunState, ghost base: seq<Report>, modNum: nat)
      returns (stop: Option<Stop>, modNum': nat)
      requires st.stop.None? && Shows(st, base) && modNum == |st.progress| && row.look == StatusLook(row.mod.enabled)
      modifies this`preview, this`nextId, this`progressValue, this`progressText
      ensures var next := AfterRow(ctx, st, k, row);
        Shows(next, base) && stop == next.stop && modNum' == |next.progress|
    {
      modNum' := modNum;
      if ctx.cancelFrom <= 2 * k {
        return Some(Cancelled), modNum';
      }
      modNum' := modNum + 1;
      ghost var progress := st.progress + [Progress(modNum', ctx.total)];
      ReportProgress(Progress(modNum', ctx.total));
      assert progressText == ProgressTextOf(progress) && progressValue == ProgressValueOf(progress);
      if ctx.cancelFrom > 2 * k + 1 {
        AddRow(row);
        assert RowsOf(preview) == st.rows + [row];
      }
      return None, modNum';
    }

    /**
     * The loop over the listed mods, after the list and the progress labels
     * are cleared: each mod is processed, then its effects applied; rows,
     * message boxes and progress reports are as `Run` says.
     */
    method RunPreview(ctx: Context, items: seq<ModEntry>) returns (stop: Option<Stop>)
      requires WellFormed() && preview == [] && progressValue == 0 && progressText == ""
      modifies this`preview, this`nextId, this`progressValue, this`progressText, this`messages
      ensures var t := Run(ctx, items); Shows(t, old(messages)) && stop == t.stop
    {
      ghost var base := messages;
      ghost var st := Initial;
      var modNum := 0;
      for k := 0 to |items|
        invariant st == Run(ctx, items[..k]) && st.stop.None?
        invariant Shows(st, base) && modNum == |st.progress|
      {
        RunLast(ctx, items, k);
        var e := ProcessEntry(ctx, items[k]);
        stop, modNum := PreviewEntry(ctx, k, e, st, base, modNum);
        st := Step(ctx, st, k, items[k]);
        if stop.Some? {
          StoppedRunIgnoresRest(ctx, items, k + 1);
          return;
        }
      }
      assert items[..|items|] == items;
      return None;
    }

    /** Appends one `"[count] name\n"` line per dictionary entry to the content label. */
    method AppendContent(names: seq<string>, counts: seq<nat>)
      requires |names| == |counts|
      modifies this`content
      ensures content == old(content) + Render(names, counts)
    {
      for i := 0 to |names|
        invariant content == old(content) + Render(names[..i], counts[..i])
      {
        RenderStep(names, counts, i);
        content := content + Line(names[i], counts[i]);
      }
      assert names[..|names|] == names && counts[..|counts|] == counts;
    }

    /**
     * Shows the list, clears it and the progress labels, then runs the
     * preview task for the node at `sel`.
     */
    method UpdateList(sel: Address, manifest: Option<ModList>, services: Services, cancelFrom: nat)
      returns (stop: Option<Stop>)
      requires WellFormed() && ModTree.Valid(roots, sel)
      modifies this`preview, this`nextId, this`listVisible, this`infoGridVisible
      modifies this`progressValue, this`progressText, this`messages
      ensures listVisible && !infoGridVisible
      ensures var t := ListTask(roots, sel, modPackFilter, manifest, services, cancelFrom);
        Shows(t, old(messages)) && stop == t.stop
    {
      listVisible := true;
      infoGridVisible := false;
      preview := [];
      progressValue := 0;
      progressText := "";
      ghost var task := ListTask(roots, sel, modPackFilter, manifest, services, cancelFrom);
      var node := NodeAt(roots, sel);
      if node.item.None? {
        assert task == Initial;
        return None;
      }
      var item := node.item.value;
      var pack: Option<string> := None;
      if modPackFilter {
        var enclosing := WalkToPack(sel);
        if enclosing.None? {
          assert task == Initial.(stop := Some(Faulted(NoPackParent)));
          return Some(Faulted(NoPackParent));
        }
        EnclosingPackIsValid(roots, sel);
        pack := Some(NodeAt(roots, enclosing.value).name);
      }
      if manifest.None? {
        assert task == Initial.(stop := Some(Faulted(NoManifest)));
        return Some(Faulted(NoManifest));
      }
      var items := SelectListed(manifest.value.mods, item.name, pack);
      var ctx := Context(item.primaryCategory, services, |items|, cancelFrom);
      assert task == Run(ctx, items);
      stop := RunPreview(ctx, items);
    }

    /**
     * Fills the grid's labels for a pack node whose record was found: title,
     * mod count, one content line per listed name, and the toggle label.
     */
    method ShowGrid(node: string, details: ModPackInfo, listed: seq<ModEntry>)
      requires content == ""
      modifies this`author, this`version, this`title, this`countLabel, this`content, this`toggleText
      ensures var t := TallyOf(listed);
        Grid(title, author, version, countLabel, content, toggleText)
          == Grid(node, details.author, details.version, NatToString(|listed|), Render(t.names, t.counts), ToggleText(t.enabled, t.disabled))
    {
      author := details.author;
      version := details.version;
      title := node;
      countLabel := NatToString(|listed|);
      var t := CountMods(listed);
      AppendContent(t.names, t.counts);
      toggleText := if t.enabled > t.disabled then DisableText else EnableText;
    }

    /**
     * Shows the information grid of pack node `node`. Faults (`thrown`) when
     * the manifest is absent or the node names no manifest pack, after the
     * grid is shown and its content cleared and before any label is set.
     */
    method UpdateInfoGrid(node: string, manifest: Option<ModList>) returns (thrown: bool)
      modifies this`listVisible, this`infoGridVisible, this`content, this`progressValue, this`progressText
      modifies this`author, this`version, this`title, this`countLabel, this`toggleText
      ensures !listVisible && infoGridVisible && progressValue == 0 && progressText == ""
      ensures thrown <==> GridOf(manifest, node).None?
      ensures !thrown ==> GridOf(manifest, node) == Some(Grid(title, author, version, countLabel, content, toggleText))
      ensures thrown ==> (content == "" && title == old(title) && countLabel == old(countLabel)
        && toggleText == old(toggleText) && author == old(author) && version == old(version))
    {
      listVisible := false;
      infoGridVisible := true;
      content := "";
      progressValue := 0;
      progressText := "";
      if manifest.None? {
        return true;
      }
      var l := manifest.value;
      var listed := SelectPackListed(l.mods, node);
      var details: ModPackInfo;
      if node == Standalone {
        details := ModPackInfo(node, NotAvailable, NotAvailable);
      } else {
        var data := FindPack(l.modPacks, node);
        if data.None? {
          assert InfoGrid(l, node).None?;
          return true;
        }
        details := data.value;
      }
      ShowGrid(node, details, listed);
      assert !listVisible && infoGridVisible && progressValue == 0 && progressText == "";
      assert GridOf(manifest, node) == Some(Grid(title, author, version, countLabel, content, toggleText));
      return false;
    }

    /** Shows the (emptied) list. */
    method ClearList()
      modifies this`listVisible, this`infoGridVisible, this`preview
      ensures listVisible && !infoGridVisible && preview == []
    {
      listVisible := true;
      infoGridVisible := false;
      preview := [];
    }

    /**
     * After a mod is deleted: when no mod of its name remains, its leaf is
     * taken out of the tree (`RemoveLeaf`); then its row is taken out of the
     * list. Faults (`thrown`, nothing changed) when the manifest is absent or
     * the mod's category node is not found.
     */
    method RemoveItem(item: Shown, sel: Address, manifest: Option<ModList>) returns (thrown: bool)
      requires WellFormed()
      modifies this`roots, this`preview
      ensures WellFormed()
      ensures var gone := manifest.Some? && NameCount(manifest.value.mods, item.row.mod.name) == 0;
        && (thrown <==> manifest.None? || (gone && RemoveLeaf(old(roots), modPackFilter, item.row.mod.category, sel).None?))
        && (thrown ==> roots == old(roots) && preview == old(preview))
        && (!thrown ==> preview == Without(old(preview), {item.id}))
        && (!thrown && gone ==> roots == RemoveLeaf(old(roots), modPackFilter, item.row.mod.category, sel).value)
        && (!thrown && !gone ==> roots == old(roots))
      ensures var e := AfterRemove(old(roots), old(preview), modPackFilter, item, sel, manifest);
        (thrown <==> e.None?) && (!thrown ==> (roots, preview) == e.value)
    {
      ghost var e := AfterRemove(roots, preview, modPackFilter, item, sel, manifest);
      if manifest.None? {
        assert e.None?;
        return true;
      }
      if NameCount(manifest.value.mods, item.row.mod.name) == 0 {
        var r := RemoveLeaf(roots, modPackFilter, item.row.mod.category, sel);
        if r.None? {
          assert e.None?;
          return true;
        }
        assert e == Some((r.value, Without(preview, {item.id})));
        roots := r.value;
      } else {
        assert e == Some((roots, Without(preview, {item.id})));
      }
      RemoveIdIsWithout(preview, item.id);
      WithoutKeepsUnique(preview, {item.id});
      preview := RemoveId(preview, item.id);
      return false;
    }

    /** After a mod pack is deleted, the current filter's tree is rebuilt. */
    method RemoveModPack()
      modifies this`roots, this`pending
      ensures roots == [] && pending == old(pending) + [if itemFilter then ItemBuild else ModPackBuild]
    {
      SetFilter(if itemFilter then "ItemFilter" else "ModPackFilter");
    }

    /**
     * Drops the tree and the list and gives the settings to store: the filter,
     * then the sorting. The dropped collections are set to null there; here
     * they become empty.
     */
    method Dispose() returns (filter: string, sorting: string)
      modifies this`roots, this`preview
      ensures roots == [] && preview == []
      ensures (filter, sorting) == Prefs(modPackFilter, nameSort)
    {
      roots := [];
      preview := [];
      if nameSort {
        sorting := "NameSort";
      } else {
        sorting := "DateSort";
      }
      if modPackFilter {
        filter := "ModPack";
      } else {
        filter := "Item";
      }
    }
  }
}
