# FFXIV TexTools mod list and customize settings, modelled in Dafny

FFXIV TexTools keeps a manifest of the mods installed into the game's data
files: one record per modded file (its name, category, in-archive path, data
file, enabled flag, mod and original offsets, and the mod pack it came from)
and the list of installed mod packs. This project models the logic of the
desktop application's mod list window and the texture-export part of its
customize window:

- the path classifier that turns a mod's in-archive path into a generic item
  (primary category and model ids), with .NET's partial `Substring`,
  `IndexOf` returning -1 and `int.Parse` written out;
- the two tree builders of the mod list (by item: a "ModPacks" node, then
  category -> leaf; by mod pack: pack -> category -> leaf), with leaves
  de-duplicated by name and optional name sort;
- the preview list of a selected leaf: which mods it lists, the Race, Map,
  Part and Number labels, and the per-mod loop with its progress reports,
  cancellation checkpoints and read failures;
- the mod-pack information grid: enabled and disabled counts, the per-name
  tally rendered as `"[count] name\n"` lines, and the toggle label;
- removal of a deleted mod's leaf from the tree and its row from the list;
- the filter and sort radio buttons, and the preferences read at start-up
  and stored on close;
- the window's code-behind: routing a tree selection, the enabled state of
  the toggle and delete buttons, flipping the selected rows' status, and the
  delete loop over a snapshot of the selection;
- the export-format flags (DDS, BMP, PNG) and their display text, the
  setters that write a setting only when it changes, saving the default
  author on close, and resetting the colours.

Pure rules (the classifier, the labels, the tree shapes, the tally) are
functions with lemmas. Loops and state changes are methods: the tree
builders are loops proved equal to the functions; `ModListViewModel`,
`ModListView` and `CustomizeViewModel` are classes whose methods update
their fields and state the new state in terms of the functions.

Layout, one module per file: `Wrappers` (Option, Result), `Text` (.NET string
operations), `Manifest` (records and resource strings), `ItemClassifier`,
`Categories` (tree node, name order, stable sort), `CategoryTrees` (what the
builders produce), `TreeBuilders` (the builder loops), `ModTree` (addresses,
parent links, leaf removal), `PreviewRows`, `ModPackSummary`,
`ModListViewModels`, `ModListViews`, `CustomizeViewModels`.

Conventions: tree nodes are values addressed by the index of their top-level
node and the child indexes below it, so a node's parent is its address one
step shorter; a top-level node built in mod-pack mode records that its parent
is the detached "ModPacks" node. Preview rows carry an identity so that the
list's `Remove(item)` and the list box's selection refer to row objects.
Reading the manifest file, the framework's material and texture reads and
the cancellation token's state are parameters. The names of the categories,
Enable, Disable and the standalone label are constants in `Manifest` and
`ModPackSummary`.

## Model

| member | source | states |
|---|---|---|
| ItemClassifier.EquipmentRule | FFXIV_TexTools/ViewModels/ModListViewModel.cs:346-353 | a path containing `chara/equipment` or `chara/accessory` becomes Gear with primary id the four characters at index 17, or faults exactly when they do not parse; name, secondary category and data file are kept; a path without the markers is left as it was |
| ItemClassifier.WeaponRule | FFXIV_TexTools/ViewModels/ModListViewModel.cs:355-362 | a path containing `chara/weapon` becomes Gear with primary id the four characters at index 14, or faults exactly when they do not parse; identity kept; other paths unchanged |
| ItemClassifier.HumanRule | FFXIV_TexTools/ViewModels/ModListViewModel.cs:364-401 | `chara/human` becomes Character; body, hair, face and tail take their id from the four characters 7 after their marker and fault exactly when those do not parse; other names keep their ids; other paths unchanged |
| ItemClassifier.CommonRule | FFXIV_TexTools/ViewModels/ModListViewModel.cs:403-425 | `chara/common` becomes Character; face paint takes one character and equipment decals (not stigma) three characters after the last `_` as id, faulting exactly when those do not parse; stigma decals get ids 0, 0; other names keep their ids; other paths unchanged |
| ItemClassifier.MonsterRule | FFXIV_TexTools/ViewModels/ModListViewModel.cs:427-436 | `chara/monster` becomes Companions with primary id the four characters at index 15 and secondary id the four characters 7 after `/body`; it faults exactly when either does not parse; other paths unchanged |
| ItemClassifier.DemihumanRule | FFXIV_TexTools/ViewModels/ModListViewModel.cs:438-448 | `chara/demihuman` becomes Companions with secondary id the four characters at index 17 and primary id the four characters after `t/e`; it faults exactly when either does not parse; other paths unchanged |
| ItemClassifier.UiRule | FFXIV_TexTools/ViewModels/ModListViewModel.cs:450-469 | `ui/` becomes UI, ids 0, 0 for uld/map/loading images, else the id is the six characters after the last `/`, faulting exactly when they do not parse; other paths unchanged |
| ItemClassifier.HousingRule | FFXIV_TexTools/ViewModels/ModListViewModel.cs:471-480 | `/hou/` becomes Housing with id the four characters after the last `_m`, faulting exactly when they do not parse; other paths unchanged |
| ItemClassifier.ApplyRules | FFXIV_TexTools/ViewModels/ModListViewModel.cs:344-480 | the rules run in source order: the category is that of the last matching rule (`LastMatchingCategory`), and a path matching no rule leaves the item as it was |
| ItemClassifier.ApplyRulesIsChain | FFXIV_TexTools/ViewModels/ModListViewModel.cs:344-480 | the classifier is the eight rules chained in source order, each on the item the previous one left, the first fault stopping the chain |
| ItemClassifier.RuleByName | FFXIV_TexTools/ViewModels/ModListViewModel.cs:344-480 | a rule reads only the item's name: on two items of one name it faults on both or neither and sets the same ids, keeping the old ids only where it sets none |
| ItemClassifier.ChainFacts | FFXIV_TexTools/ViewModels/ModListViewModel.cs:344-485 | from any rule on, the chain faults exactly when one of the remaining rules faults on the mod, and otherwise ends with the ids of the last remaining rule that set any |
| ItemClassifier.MakeItemModel | FFXIV_TexTools/ViewModels/ModListViewModel.cs:333-488 | name, secondary category and data file always copied; category of the last matching rule; any fault becomes one error carrying the mod's name and path |
| ItemClassifier.MakeItemModelInfo | FFXIV_TexTools/ViewModels/ModListViewModel.cs:333-488 | the classifier fails exactly when some rule, run on the mod, faults; otherwise its ids are those of the last rule that sets any (`LastInfo`) |
| ItemClassifier.EquipmentPrimaryId | FFXIV_TexTools/ViewModels/ModListViewModel.cs:346-353 | an equipment or accessory path is Gear with the four digits at index 17 as primary id |
| ItemClassifier.Equipment0037 | FFXIV_TexTools/ViewModels/ModListViewModel.cs:346-353 | `chara/equipment/e0037/...` is Gear with primary id 37 |
| ItemClassifier.WeaponPrimaryId | FFXIV_TexTools/ViewModels/ModListViewModel.cs:355-362 | a weapon path is Gear with the four digits at index 14 as primary id |
| ItemClassifier.MissingBodySegmentReadsIndexSix | FFXIV_TexTools/ViewModels/ModListViewModel.cs:369-376 | a "Body" human path without `/body` reads its id at index -1 + 7 = 6 instead of failing |
| ItemClassifier.EquipmentFaultIsFatal | FFXIV_TexTools/ViewModels/ModListViewModel.cs:344-485 | a fault in the first rule is fatal even when a later rule would match |
| Categories.SortBy | FFXIV_TexTools/ViewModels/ModListViewModel.cs:141-144 | `OrderBy(Name)`: the result is sorted by name and a permutation of the input |
| Categories.SortBySorted | FFXIV_TexTools/ViewModels/ModListViewModel.cs:188-191 | sorting an already sorted sequence changes nothing |
| CategoryTrees.PackStubs | FFXIV_TexTools/ViewModels/ModListViewModel.cs:122-139 | the standalone node first, then one node per manifest pack, in manifest order |
| CategoryTrees.CategoryBranch | FFXIV_TexTools/ViewModels/ModListViewModel.cs:161-191 | a category node builds exactly when its leaves classify; it is named after the category and has no item; its error is the classification error |
| CategoryTrees.CategoryBranchesShape | FFXIV_TexTools/ViewModels/ModListViewModel.cs:159-194 | one branch per distinct category in order, up to the first that fails, whose error is the build's |
| CategoryTrees.PackNodesShape | FFXIV_TexTools/ViewModels/ModListViewModel.cs:254-321 | one pack node per key in order, up to the first that fails, whose error is the build's |
| CategoryTrees.DistinctCategoriesSpec | FFXIV_TexTools/ViewModels/ModListViewModel.cs:149-157 | the category set holds exactly the categories of mods with a non-empty name, each once |
| CategoryTrees.LeavesNames | FFXIV_TexTools/ViewModels/ModListViewModel.cs:173-186 | one leaf per distinct mod name of the category, no name twice |
| CategoryTrees.LeavesFirst | FFXIV_TexTools/ViewModels/ModListViewModel.cs:173-186 | each leaf carries the item classified from the first mod of the category with its name |
| CategoryTrees.LeavesOrder | FFXIV_TexTools/ViewModels/ModListViewModel.cs:173-186 | without sorting, leaves come in the order of their names' first occurrence |
| CategoryTrees.LeavesFailure | FFXIV_TexTools/ViewModels/ModListViewModel.cs:173-186 | a failed leaf list fails with the classification error of the first mod of some name in the category |
| CategoryTrees.CategoryBranchSuccessIgnoresSort | FFXIV_TexTools/ViewModels/ModListViewModel.cs:188-191 | whether a branch builds does not depend on name sort, and sorting only permutes its leaves |
| CategoryTrees.BranchLeaves | FFXIV_TexTools/ViewModels/ModListViewModel.cs:161-191 | a built category node has one leaf per distinct name, each from its first mod, sorted by name under name sort and in first-appearance order otherwise |
| CategoryTrees.ItemForestShape | FFXIV_TexTools/ViewModels/ModListViewModel.cs:104-196 | item mode: "ModPacks" first, then one branch per distinct category in first-appearance order, stopping after the branch before a failing one |
| CategoryTrees.ModPacksBranchChildren | FFXIV_TexTools/ViewModels/ModListViewModel.cs:115-144 | the "ModPacks" node lists the standalone node and every pack, sorted by name under name sort, in manifest order otherwise |
| CategoryTrees.ItemBranchOrderIgnoresSort | FFXIV_TexTools/ViewModels/ModListViewModel.cs:159-194 | name sort never reorders the top-level category branches |
| CategoryTrees.ItemForestLengthIgnoresSort | FFXIV_TexTools/ViewModels/ModListViewModel.cs:159-194 | both sort modes build the same number of top-level nodes and fail alike |
| CategoryTrees.BranchesIgnoreSort | FFXIV_TexTools/ViewModels/ModListViewModel.cs:159-194 | where the category loop stops does not depend on the sort |
| CategoryTrees.ItemForestNames | FFXIV_TexTools/ViewModels/ModListViewModel.cs:104-196 | the top-level names in item mode are "ModPacks" followed by the distinct categories in order |
| CategoryTrees.PackKeysSpec | FFXIV_TexTools/ViewModels/ModListViewModel.cs:209-241 | the pack dictionary builds exactly when no pack repeats a name or takes the standalone label; its keys are the standalone label, then the pack names |
| CategoryTrees.DuplicatePackBuildsNothing | FFXIV_TexTools/ViewModels/ModListViewModel.cs:228-241 | a duplicate pack name makes the mod-pack build add no node and fail |
| CategoryTrees.ModsInPackSpec | FFXIV_TexTools/ViewModels/ModListViewModel.cs:256-269 | every listed mod belongs to the node, every mod of the node is listed, and the list is no longer than the manifest |
| CategoryTrees.ModsInPackOrder | FFXIV_TexTools/ViewModels/ModListViewModel.cs:256-269 | a node's list is the manifest read through a strictly increasing index map that hits every position of a mod of the node: manifest order, one entry per manifest entry |
| CategoryTrees.ModPackForestShape | FFXIV_TexTools/ViewModels/ModListViewModel.cs:201-323 | mod-pack mode: pack nodes in dictionary order (by name under name sort), each from its own mods, stopping at the first failure |
| CategoryTrees.PackNodeShape | FFXIV_TexTools/ViewModels/ModListViewModel.cs:271-318 | a pack node holds one branch per distinct category of its mods; a pack without mods is still a node, with no children |
| CategoryTrees.OrphanModIsDropped | FFXIV_TexTools/ViewModels/ModListViewModel.cs:254-269 | a mod whose pack is not in the pack list appears under no pack node |
| CategoryTrees.ExampleItemMode | FFXIV_TexTools/ViewModels/ModListViewModel.cs:104-196 | one name in two packs is a single leaf in item mode |
| CategoryTrees.ExamplePackMode | FFXIV_TexTools/ViewModels/ModListViewModel.cs:201-323 | the same name is a leaf under each of the two packs in mod-pack mode |
| CategoryTrees.LeafCountsDifferBetweenModes | FFXIV_TexTools/ViewModels/ModListViewModel.cs:104-323 | the two modes do not agree on leaf counts |
| TreeBuilders.BuildLeaves | FFXIV_TexTools/ViewModels/ModListViewModel.cs:168-186 | the leaf loop with its `CategoryList` computes `Leaves` |
| TreeBuilders.BuildBranch | FFXIV_TexTools/ViewModels/ModListViewModel.cs:161-191 | builds `CategoryBranch` |
| TreeBuilders.CollectCategories | FFXIV_TexTools/ViewModels/ModListViewModel.cs:149-157 | the hash set, enumerated in insertion order, is `DistinctCategories` |
| TreeBuilders.BuildBranches | FFXIV_TexTools/ViewModels/ModListViewModel.cs:159-194 | the category loop computes `CategoryBranches` |
| TreeBuilders.BuildPackStubs | FFXIV_TexTools/ViewModels/ModListViewModel.cs:122-139 | the stub loop computes `PackStubs` |
| TreeBuilders.BuildItemForest | FFXIV_TexTools/ViewModels/ModListViewModel.cs:104-196 | `GetCategoriesItemFilter` computes `ItemForest` |
| TreeBuilders.BuildPackKeys | FFXIV_TexTools/ViewModels/ModListViewModel.cs:209-241 | the dictionary loop computes `PackKeys`, failing on a repeated key |
| TreeBuilders.SelectPackMods | FFXIV_TexTools/ViewModels/ModListViewModel.cs:256-269 | the pack query computes `ModsInPack` |
| TreeBuilders.BuildPackNode | FFXIV_TexTools/ViewModels/ModListViewModel.cs:271-318 | builds `PackNode` |
| TreeBuilders.BuildPackNodes | FFXIV_TexTools/ViewModels/ModListViewModel.cs:254-321 | the pack loop computes `PackNodes` |
| TreeBuilders.BuildModPackForest | FFXIV_TexTools/ViewModels/ModListViewModel.cs:201-323 | `GetCategoriesModPackFilter` computes `ModPackForest` |
| ModTree.EnclosingPackIsTopLevel | FFXIV_TexTools/ViewModels/ModListViewModel.cs:517-522 | in a mod-pack tree the walk up from a node ends at its top-level pack node; in an item tree it meets a missing parent |
| ModTree.ModPacksNamedParentStopsWalk | FFXIV_TexTools/ViewModels/ModListViewModel.cs:519-522 | a category that happens to be named "ModPacks" stops the walk below the pack |
| ModTree.FirstRootNamed | FFXIV_TexTools/ViewModels/ModListViewModel.cs:998-1000 | the first top-level node with the name, or none |
| ModTree.FirstPackChild | FFXIV_TexTools/ViewModels/ModListViewModel.cs:982-995 | the first pack node, in order, with a child of the name, and its first such child: no earlier pack node has a child of the name and no earlier child of that pack node has it; none when no pack node has one |
| ModTree.RemoveLeaf | FFXIV_TexTools/ViewModels/ModListViewModel.cs:979-1011 | the parent is found by the mod's category; the selected node is taken out of it and an emptied top-level parent is removed; no parent is a fault |
| ModTree.ParentFor | FFXIV_TexTools/ViewModels/ModListViewModel.cs:979-1000 | the parent is a node of the mod's category: the first pack child of that name in mod-pack mode, the first top-level node of that name otherwise |
| ModTree.Replace | FFXIV_TexTools/ViewModels/ModListViewModel.cs:1005 | replacing a node at depth one or less changes that node and nothing else: other top-level nodes, the pack flag and the pack node's other children stay |
| ModTree.RemoveLeafShape | FFXIV_TexTools/ViewModels/ModListViewModel.cs:979-1011 | for every input: the selected node leaves the parent when it is one of its children, the others keeping their order, and otherwise the parent's children are untouched; the parent is dropped exactly when it is a top-level node left empty; every other top-level node and every other child of the pack node stays |
| ModTree.ItemModePrunesEmptyCategory | FFXIV_TexTools/ViewModels/ModListViewModel.cs:1003-1011 | item mode: removing a category's last leaf removes the category |
| ModTree.PackModeKeepsEmptyCategory | FFXIV_TexTools/ViewModels/ModListViewModel.cs:982-1011 | mod-pack mode: the emptied category stays in its pack, because pruning looks among the top-level nodes |
| PreviewRows.SelectMods | FFXIV_TexTools/ViewModels/ModListViewModel.cs:515-547 | exactly the mods with the leaf's name, in manifest order; in mod-pack mode only standalone mods or mods of the enclosing pack |
| PreviewRows.RaceLabel | FFXIV_TexTools/ViewModels/ModListViewModel.cs:572-618 | the race rule of the selected item's category; out-of-range codes and an unset category are faults |
| PreviewRows.GearVariantRace | FFXIV_TexTools/ViewModels/ModListViewModel.cs:575-587 | a gear variant path's race code is the four characters after its last `_c` |
| PreviewRows.GearVariantWithoutMarker | FFXIV_TexTools/ViewModels/ModListViewModel.cs:578-585 | without `_c` the code is read at index 1 |
| PreviewRows.CharacterRace | FFXIV_TexTools/ViewModels/ModListViewModel.cs:594-600 | a character path outside `chara/common` takes its code after the first `n/c` |
| PreviewRows.MapLabel | FFXIV_TexTools/ViewModels/ModListViewModel.cs:620-681 | a named texture type is shown by its enum name, and only "UI", "3D" and "--" name no type (the outcome per path is in MapLabelRules) |
| PreviewRows.MapLabelRules | FFXIV_TexTools/ViewModels/ModListViewModel.cs:620-681 | the first of the seven texture rules the path matches names its type; past those, a `ui/` path is Icon when it contains `icon`, else Map when it contains `map`, else "UI"; past `ui/`, a `.mdl` path is "3D"; and "--" exactly when the path matches no rule |
| PreviewRows.PartLabel | FFXIV_TexTools/ViewModels/ModListViewModel.cs:683-699 | "b", "c" or "d" by the first matching marker, else "a" |
| PreviewRows.NumberLabel | FFXIV_TexTools/ViewModels/ModListViewModel.cs:701-733 | the Number label faults only on a numbered part (a character part folder or a face or equipment decal); any other path shows "--" |
| PreviewRows.NumberLabelRules | FFXIV_TexTools/ViewModels/ModListViewModel.cs:701-733 | character numbers have at most three characters and no leading zero, face decals at most two and no trailing dot, equipment decals exactly three |
| PreviewRows.PartNumber | FFXIV_TexTools/ViewModels/ModListViewModel.cs:702-721 | for the first part folder (hair, body, face, tail, zear) the path names, the label is the three characters eight past the folder's first occurrence with leading zeros trimmed, and a fault exactly when they run past the end |
| PreviewRows.DecalFaceNumber | FFXIV_TexTools/ViewModels/ModListViewModel.cs:722-725 | with no part folder, a face decal's label is the two characters nineteen past the first `/decal_face` with trailing dots trimmed, and a fault exactly when they run past the end |
| PreviewRows.DecalEquipNumber | FFXIV_TexTools/ViewModels/ModListViewModel.cs:726-729 | with no part folder, face decal or stigma, an equipment decal's label is the three characters twenty past the first `/decal_equip`, and a fault exactly when they run past the end |
| PreviewRows.HairNumber | FFXIV_TexTools/ViewModels/ModListViewModel.cs:702-705 | a hair number is the last three digits of its id without leading zeros |
| PreviewRows.StatusLook | FFXIV_TexTools/ViewModels/ModListViewModel.cs:848-860 | enabled: green, transparent, opaque; disabled: red, grey, half; the look shows the status |
| PreviewRows.ProcessEntry | FFXIV_TexTools/ViewModels/ModListViewModel.cs:563-860 | labels then picture; a material failure is reported and the row kept; a texture failure is reported and ends the loop; the index is prefetched only for more than ten mods |
| PreviewRows.RunKeepsInvariant | FFXIV_TexTools/ViewModels/ModListViewModel.cs:559-874 | progress counts up by one against the total, rows follow the listed mods, none is added after cancellation, each row's look matches its mod |
| PreviewRows.StoppedRunIgnoresRest | FFXIV_TexTools/ViewModels/ModListViewModel.cs:814-821 | once the loop has ended, later entries change nothing |
| PreviewRows.TextureFailureEndsLoop | FFXIV_TexTools/ViewModels/ModListViewModel.cs:801-821 | a texture read failure is reported and no later entry adds a row, reports progress or reads |
| PreviewRows.MaterialFailureContinues | FFXIV_TexTools/ViewModels/ModListViewModel.cs:736-786 | a material read failure is reported and the entry still reports progress and adds its row unless cancelled |
| PreviewRows.CompleteRunListsEveryMod | FFXIV_TexTools/ViewModels/ModListViewModel.cs:561-874 | without cancellation or faults every listed mod becomes a row, in order |
| ModPackSummary.ListedMods | FFXIV_TexTools/ViewModels/ModListViewModel.cs:899-916 | the standalone node lists named mods without a pack; a pack node the mods of that pack; manifest order |
| ModPackSummary.FindPack | FFXIV_TexTools/ViewModels/ModListViewModel.cs:910-912 | the first pack record with the name (no earlier record has it), or none exactly when no record has it |
| ModPackSummary.TallyStep | FFXIV_TexTools/ViewModels/ModListViewModel.cs:927-946 | one mod bumps its status counter and its name's count, adding the name when new |
| ModPackSummary.TallyOfFacts | FFXIV_TexTools/ViewModels/ModListViewModel.cs:925-946 | enabled plus disabled is the mod count; each name once with its number of mods; counts sum to the mod count |
| ModPackSummary.TallyOrder | FFXIV_TexTools/ViewModels/ModListViewModel.cs:938-951 | names appear in the order of their first mod |
| ModPackSummary.LineShape | FFXIV_TexTools/ViewModels/ModListViewModel.cs:950-950 | a content line is `[`, the count, `] `, the name and a line break |
| ModPackSummary.RenderEndsWithBreak | FFXIV_TexTools/ViewModels/ModListViewModel.cs:948-951 | a non-empty content list ends with a line break |
| ModPackSummary.ToggleText | FFXIV_TexTools/ViewModels/ModListViewModel.cs:953-953 | Disable exactly when more mods are enabled than disabled, so a tie gives Enable |
| ModPackSummary.InfoGrid | FFXIV_TexTools/ViewModels/ModListViewModel.cs:885-954 | the grid of a pack node: title and count of listed mods; "[ N/A ]" author and version for the standalone node, the manifest pack's author and version otherwise; none when the node names no pack |
| ModPackSummary.InfoGridMajority | FFXIV_TexTools/ViewModels/ModListViewModel.cs:927-953 | the toggle label reads Disable exactly when most listed mods are enabled, and the content is empty exactly when nothing is listed |
| ModPackSummary.InfoGridParts | FFXIV_TexTools/ViewModels/ModListViewModel.cs:926-953 | the content is one line per listed name, each name once, in the order of its first listed mod, with that name's number of listed mods |
| ModPackSummary.TallyIsFirstNames | FFXIV_TexTools/ViewModels/ModListViewModel.cs:926-946 | the name dictionary's keys are the mods' names, each once, in the order of each name's first mod, each with its number of mods; the two counters are the enabled mods and the rest |
| ModListViewModels.RemoveId | FFXIV_TexTools/ViewModels/ModListViewModel.cs:1014-1014 | `Remove(item)` takes out the first row with that identity only |
| ModListViewModels.RemoveIdIsWithout | FFXIV_TexTools/ViewModels/ModListViewModel.cs:1014-1014 | with unique identities, removing a row is filtering out its identity |
| ModListViewModels.WithoutAbsent | FFXIV_TexTools/ViewModels/ModListViewModel.cs:1014-1014 | removing a row that is not listed changes nothing |
| ModListViewModels.AfterRemove | FFXIV_TexTools/ViewModels/ModListViewModel.cs:971-1015 | the row is always taken out; the tree changes only when no mod of the name remains; a fault exactly when no manifest or no parent node |
| ModListViewModels.Prefs | FFXIV_TexTools/ViewModels/ModListViewModel.cs:1240-1254 | the filter is "ModPack" or "Item", the sorting "NameSort" or "DateSort", by the flags |
| ModListViewModels.PrefsRoundTrip | FFXIV_TexTools/ViewModels/ModListViewModel.cs:73-85 | storing the flags of a window opened from stored settings gives settings that open the same window; from then on they do not change |
| ModListViewModels.ListTaskRows | FFXIV_TexTools/ViewModels/ModListViewModel.cs:505-873 | every row is a manifest mod with the item's name (of the enclosing pack or standalone in mod-pack mode), in manifest order, with its status look; progress counts up by one |
| ModListViewModels.NodeWithoutItemListsNothing | FFXIV_TexTools/ViewModels/ModListViewModel.cs:507-508 | a node without an item lists nothing |
| ModListViewModels.Percent | FFXIV_TexTools/ViewModels/ModListViewModel.cs:67-71 | the percentage done lies between 0 and 100 |
| ModListViewModels.CompleteRunFillsBar | FFXIV_TexTools/ViewModels/ModListViewModel.cs:67-71 | a run that lists every mod ends at 100 with `n / n` |
| ModListViewModels.SelectListed | FFXIV_TexTools/ViewModels/ModListViewModel.cs:515-547 | the selection loop computes `SelectMods` |
| ModListViewModels.SelectPackListed | FFXIV_TexTools/ViewModels/ModListViewModel.cs:899-916 | the grid's queries compute `ListedMods` |
| ModListViewModels.CountMods | FFXIV_TexTools/ViewModels/ModListViewModel.cs:925-946 | the counting loop computes `TallyOf` |
| ModListViewModels.ModListViewModel.constructor | FFXIV_TexTools/ViewModels/ModListViewModel.cs:62-86 | name sort exactly when the stored sorting is "NameSort"; item filter exactly when the stored filter is "Item"; the matching build is requested |
| ModListViewModels.ModListViewModel.SetFilter | FFXIV_TexTools/ViewModels/ModListViewModel.cs:1223-1233 | empties the tree and requests the named build |
| ModListViewModels.ModListViewModel.CompleteBuild | FFXIV_TexTools/ViewModels/ModListViewModel.cs:104-323 | the oldest request runs with the current sort flag; its nodes are appended up to a fault |
| ModListViewModels.ModListViewModel.AddRoots | FFXIV_TexTools/ViewModels/ModListViewModel.cs:146-193 | top-level nodes are appended one by one, with their parent link |
| ModListViewModels.ModListViewModel.SetItemFilter | FFXIV_TexTools/ViewModels/ModListViewModel.cs:1132-1144 | a rebuild is requested only when the flag turns on |
| ModListViewModels.ModListViewModel.SetModPackFilter | FFXIV_TexTools/ViewModels/ModListViewModel.cs:1149-1161 | a rebuild is requested only when the flag turns on |
| ModListViewModels.ModListViewModel.SetNameSort | FFXIV_TexTools/ViewModels/ModListViewModel.cs:1166-1179 | turning name sort on requests a rebuild for each filter flag that is on |
| ModListViewModels.ModListViewModel.SetDateSort | FFXIV_TexTools/ViewModels/ModListViewModel.cs:1184-1197 | turning date sort on requests a rebuild for each filter flag that is on |
| ModListViewModels.ModListViewModel.WalkToPack | FFXIV_TexTools/ViewModels/ModListViewModel.cs:517-522 | the walk loop computes `EnclosingPack` |
| ModListViewModels.ModListViewModel.ReportProgress | FFXIV_TexTools/ViewModels/ModListViewModel.cs:67-71 | the bar shows the percentage and the text `current / total` |
| ModListViewModels.ModListViewModel.AddRow | FFXIV_TexTools/ViewModels/ModListViewModel.cs:871-871 | a row is appended under a fresh identity |
| ModListViewModels.ModListViewModel.PreviewEntry | FFXIV_TexTools/ViewModels/ModListViewModel.cs:862-872 | one pass's effects leave the list and labels showing `Advance` |
| ModListViewModels.ModListViewModel.ListRow | FFXIV_TexTools/ViewModels/ModListViewModel.cs:862-872 | once the row is made: a cancelled checkpoint ends the loop, otherwise the progress report, then the row unless the second checkpoint is cancelled, all as `AfterRow` says |
| ModListViewModels.ModListViewModel.RunPreview | FFXIV_TexTools/ViewModels/ModListViewModel.cs:559-874 | the loop leaves rows, message boxes and progress labels as `Run` says |
| ModListViewModels.ModListViewModel.AppendContent | FFXIV_TexTools/ViewModels/ModListViewModel.cs:948-951 | the content label becomes `Render` of the tally |
| ModListViewModels.ModListViewModel.UpdateList | FFXIV_TexTools/ViewModels/ModListViewModel.cs:494-876 | shows and clears the list and labels, then shows what `ListTask` computes |
| ModListViewModels.ModListViewModel.ShowGrid | FFXIV_TexTools/ViewModels/ModListViewModel.cs:918-953 | title, author, version, count, content and toggle label of the grid |
| ModListViewModels.ModListViewModel.UpdateInfoGrid | FFXIV_TexTools/ViewModels/ModListViewModel.cs:885-954 | shows the grid as `InfoGrid` says; faults when the manifest is absent or the node names no pack |
| ModListViewModels.ModListViewModel.ClearList | FFXIV_TexTools/ViewModels/ModListViewModel.cs:959-964 | the list is shown and empty, the grid hidden |
| ModListViewModels.ModListViewModel.RemoveItem | FFXIV_TexTools/ViewModels/ModListViewModel.cs:971-1015 | the new tree and list are `AfterRemove`; nothing changes on a fault |
| ModListViewModels.ModListViewModel.RemoveModPack | FFXIV_TexTools/ViewModels/ModListViewModel.cs:1020-1023 | the current filter's build is requested again |
| ModListViewModels.ModListViewModel.Dispose | FFXIV_TexTools/ViewModels/ModListViewModel.cs:1235-1255 | drops tree and list and returns `Prefs` of the flags |
| ModListViews.ParentName | FFXIV_TexTools/Views/ModListView.xaml.cs:71-73 | the parent's name: "ModPacks" for a top-level node of a mod-pack tree, none for a top-level node of an item tree, the parent node's name below |
| ModListViews.PackNodesRouteToGrid | FFXIV_TexTools/Views/ModListView.xaml.cs:71-78 | pack nodes route to the information grid |
| ModListViews.ItemModeTopLevelClears | FFXIV_TexTools/Views/ModListView.xaml.cs:84-89 | a top-level node of an item tree clears the list |
| ModListViews.SelectionLabel | FFXIV_TexTools/Views/ModListView.xaml.cs:107-107 | Disable exactly when the row's mod is enabled |
| ModListViews.Flip | FFXIV_TexTools/Views/ModListView.xaml.cs:155-172 | the opposite status with the matching look; everything else of the row kept |
| ModListViews.FlipSelected | FFXIV_TexTools/Views/ModListView.xaml.cs:151-173 | each selected row with different offsets is flipped; other rows unchanged |
| ModListViews.FlipSelectedKeepsWellFormed | FFXIV_TexTools/Views/ModListView.xaml.cs:151-173 | toggling keeps identities unique and each row's look in step with its mod |
| ModListViews.FlipSelectedTwice | FFXIV_TexTools/Views/ModListView.xaml.cs:151-173 | toggling the same rows twice restores the list |
| ModListViews.FindAfterFlip | FFXIV_TexTools/Views/ModListView.xaml.cs:151-173 | an untouched row is found as before, a toggled toggleable row as its flip |
| ModListViews.FlipSelectedNothing | FFXIV_TexTools/Views/ModListView.xaml.cs:154-154 | toggling a row with equal offsets changes nothing |
| ModListViews.LabelAfterAgreesWithSelection | FFXIV_TexTools/Views/ModListView.xaml.cs:155-172 | the label after the toggle loop is the one selecting the last toggled row would show |
| ModListViews.DeleteRows | FFXIV_TexTools/Views/ModListView.xaml.cs:206-210 | the delete loop over the snapshot: a fault happens at a row it reached, and without one every snapshot row was processed |
| ModListViews.DeleteRowsRemovesEachOnce | FFXIV_TexTools/Views/ModListView.xaml.cs:203-210 | without a fault the list loses exactly the snapshot's rows; after a fault exactly those before it |
| ModListViews.DeleteNextRemoves | FFXIV_TexTools/Views/ModListView.xaml.cs:206-210 | one pass removes exactly its own row, or nothing when the removal faults or a fault came before |
| ModListViews.DeleteRowsAfterFault | FFXIV_TexTools/Views/ModListView.xaml.cs:206-210 | after a fault the rest of the snapshot is not looked at |
| ModListViews.DeleteRowsKeepsWellFormed | FFXIV_TexTools/Views/ModListView.xaml.cs:206-210 | deleting keeps identities unique and rows in step with their mods |
| ModListViews.Snapshot | FFXIV_TexTools/Views/ModListView.xaml.cs:203-204 | at most one row per selected identity, each a listed row whose identity is selected, and every selected identity with a listed row has its row in the snapshot |
| ModListViews.HitsAscending | FFXIV_TexTools/Views/ModListView.xaml.cs:203-204 | the positions of the selected identities with a row are ascending and miss none |
| ModListViews.SnapshotThroughHits | FFXIV_TexTools/Views/ModListView.xaml.cs:203-204 | the snapshot holds, position by position, the row of the selected identity there |
| ModListViews.SnapshotOrder | FFXIV_TexTools/Views/ModListView.xaml.cs:203-204 | the snapshot is the selection read through a strictly increasing index map covering every selected identity with a row: selection order, one row per selected entry |
| ModListViews.ModListView.constructor | FFXIV_TexTools/Views/ModListView.xaml.cs:46-52 | no token, no selection, no calls |
| ModListViews.ModListView.RenewToken | FFXIV_TexTools/Views/ModListView.xaml.cs:61-69 | the previous token is cancelled when there was a previous selection, then a new one is made |
| ModListViews.ModListView.SelectNode | FFXIV_TexTools/Views/ModListView.xaml.cs:57-96 | routes to the grid (both buttons on), the preview list, or a cleared list (both buttons off) |
| ModListViews.ModListView.ShowNode | FFXIV_TexTools/Views/ModListView.xaml.cs:73-89 | a node under "ModPacks" goes to the grid, any other node with a parent to the preview list, a root clears the list; the list stays well formed |
| ModListViews.ModListView.SelectRow | FFXIV_TexTools/Views/ModListView.xaml.cs:101-122 | label from the mod's status; toggle on exactly when the offsets differ; delete on; no row changes nothing |
| ModListViews.ModListView.ToggleOne | FFXIV_TexTools/Views/ModListView.xaml.cs:151-173 | one pass: a toggleable row is toggled in the framework, the label set and the row flipped; others skipped |
| ModListViews.ModListView.ToggleRows | FFXIV_TexTools/Views/ModListView.xaml.cs:151-173 | the list becomes `FlipSelected`, the label `LabelAfter`, the calls `ToggleCalls` |
| ModListViews.ModListView.ToggleAt | FFXIV_TexTools/Views/ModListView.xaml.cs:152-172 | pass `k` turns the effects of the first `k` selected rows into those of the first `k + 1` |
| ModListViews.ModListView.ToggleClick | FFXIV_TexTools/Views/ModListView.xaml.cs:127-175 | a pack node is switched by its label and the grid redrawn, and the handler faults after the switch when the redraw faults (no manifest, or the pack missing from it); otherwise the selected rows are toggled; a missing node or parent faults before any call |
| ModListViews.ModListView.DeleteClick | FFXIV_TexTools/Views/ModListView.xaml.cs:180-212 | a confirmed pack is deleted and the tree rebuilt; otherwise the snapshot's rows are deleted one by one as `DeleteRows` says |
| ModListViews.ModListView.DeleteEach | FFXIV_TexTools/Views/ModListView.xaml.cs:206-210 | the per-row loop computes `DeleteRows` and `DeleteCalls` |
| ModListViews.ModListView.RemoveRow | FFXIV_TexTools/Views/ModListView.xaml.cs:209 | `RemoveItem` on a snapshot row moves the loop state on as `DeleteNext` says: faulted, or the row gone |
| ModListViews.ModListView.Close | FFXIV_TexTools/Views/ModListView.xaml.cs:214-217 | the view model's preferences are returned and its tree and list dropped |
| CustomizeViewModels.SetFormatKeepsOneOn | FFXIV_TexTools/ViewModels/CustomizeViewModel.cs:264-311 | after any format setter at least one format is on; the set flag holds its value unless it turned off the last one and is DDS |
| CustomizeViewModels.SetFormatChangesOnlyItsOwn | FFXIV_TexTools/ViewModels/CustomizeViewModel.cs:264-311 | a setter changes no other flag except DDS, which switches on exactly when the last format was turned off |
| CustomizeViewModels.SetFormatUnchanged | FFXIV_TexTools/ViewModels/CustomizeViewModel.cs:264-311 | setting a flag to its current value in a valid state changes nothing |
| CustomizeViewModels.EnabledFormats | FFXIV_TexTools/ViewModels/CustomizeViewModel.cs:313-330 | a format's name is listed exactly when it is on |
| CustomizeViewModels.DisplayEmptyIffNoneOn | FFXIV_TexTools/ViewModels/CustomizeViewModel.cs:313-330 | the display is empty exactly when no format is on, and otherwise starts with the first format on |
| CustomizeViewModels.DisplayAfterSetter | FFXIV_TexTools/ViewModels/CustomizeViewModel.cs:264-330 | after any setter the display names a format |
| CustomizeViewModels.CustomizeViewModel.constructor | FFXIV_TexTools/ViewModels/CustomizeViewModel.cs:36-36 | the author being edited starts as the stored one |
| CustomizeViewModels.CustomizeViewModel.ExportTexDisplay | FFXIV_TexTools/ViewModels/CustomizeViewModel.cs:313-330 | the step-wise text is the formats on, in order DDS, BMP, PNG, joined by ", " |
| CustomizeViewModels.AddNameJoins | FFXIV_TexTools/ViewModels/CustomizeViewModel.cs:322-326 | adding a name with ", " only after non-empty text is the same as joining the list with that name appended |
| CustomizeViewModels.DisplayByAddName | FFXIV_TexTools/ViewModels/CustomizeViewModel.cs:317-329 | adding DDS, BMP and PNG in turn, each when on, gives the formats on joined by ", " |
| CustomizeViewModels.CustomizeViewModel.SetExportTextureAsDDS | FFXIV_TexTools/ViewModels/CustomizeViewModel.cs:264-275 | flags become `SetFormat`; one save and two notifications, twice when the fallback fires |
| CustomizeViewModels.CustomizeViewModel.SetExportTextureAsBMP | FFXIV_TexTools/ViewModels/CustomizeViewModel.cs:277-288 | flags become `SetFormat`; saves and notifications including the DDS fallback's |
| CustomizeViewModels.CustomizeViewModel.SetExportTextureAsPNG | FFXIV_TexTools/ViewModels/CustomizeViewModel.cs:290-301 | flags become `SetFormat`; saves and notifications including the DDS fallback's |
| CustomizeViewModels.CustomizeViewModel.EnsureValidExportFormat | FFXIV_TexTools/ViewModels/CustomizeViewModel.cs:303-311 | with every format off DDS is switched on through its setter; otherwise nothing changes |
| CustomizeViewModels.CustomizeViewModel.WriteIfChanged | FFXIV_TexTools/ViewModels/CustomizeViewModel.cs:206-209 | the setting is written and saved only when it differs; the current value is a no-op |
| CustomizeViewModels.CustomizeViewModel.SetSelectedSkinType | FFXIV_TexTools/ViewModels/CustomizeViewModel.cs:201-212 | `Default_Race` is written and saved only when it changes |
| CustomizeViewModels.CustomizeViewModel.SetSelectedDefaultRace | FFXIV_TexTools/ViewModels/CustomizeViewModel.cs:224-243 | `Default_Race_Selection` is written and saved only when it changes |
| CustomizeViewModels.CustomizeViewModel.SetSelectedImporter | FFXIV_TexTools/ViewModels/CustomizeViewModel.cs:250-262 | `DAE_Plugin_Target` is written and saved only when it changes |
| CustomizeViewModels.CustomizeViewModel.SetDefaultAuthor | FFXIV_TexTools/ViewModels/CustomizeViewModel.cs:118-126 | only the edited author changes, with a notification; nothing is stored |
| CustomizeViewModels.CustomizeViewModel.CustomizeClose | FFXIV_TexTools/ViewModels/CustomizeViewModel.cs:344-351 | the edited author is stored and saved only when it differs from the stored one |
| CustomizeViewModels.CustomizeViewModel.SetColor | FFXIV_TexTools/ViewModels/CustomizeViewModel.cs:578-586 | a colour setter stores the colour, saves and notifies |
| CustomizeViewModels.CustomizeViewModel.ResetToDefault | FFXIV_TexTools/ViewModels/CustomizeViewModel.cs:523-530 | skin `#FFFFFFFF`, hair, iris and etc. `#FF603913`, background `#FF777777`; five saves; flags and author unchanged |
| CustomizeViewModels.ResetColors | FFXIV_TexTools/ViewModels/CustomizeViewModel.cs:33-35 | after a reset each colour holds its default and every other setting is kept |

## Left out

- Thumbnails: the colour-set half-float conversion, image loading and BMP encoding are replaced by an opaque thumbnail kind per row.
- Reading the manifest file and JSON deserialization: each operation that reads the manifest takes it as a parameter (`None` for a null result).
- Threading: `Task.Run`, the dispatcher, the lock and `Progress<T>` are sequential; cancellation is a checkpoint index from which the token reads cancelled; an asynchronous rebuild is a pending request completed later by `CompleteBuild`.
- ModListViews.ModListView.Close: the token source disposed when the window closes (`_cts?.Dispose()`, FFXIV_TexTools/Views/ModListView.xaml.cs:217) is not recorded; only tokens cancelled by a new selection are.
- Framework services (material and texture reads, `ToggleModStatus`, `DeleteMod`, `DeleteModPack`, race names) are parameters, or calls recorded in the view's `calls` log.
- MakeItemModel: the data file is the mod's `datFile` text copied as it is; the source converts it with `XivDataFiles.GetXivDataFile` (FFXIV_TexTools/ViewModels/ModListViewModel.cs:341) before the `try`, so an unknown data-file name faults outside the error handling, and that fault is not modelled.
- The item names that pick a sub-rule (Body, Hair, Face, Tail, Face Paint, Equipment Decals) are localized resource strings in the source; the model fixes them to their English text, and the primary categories to an enumeration.
- Message boxes are an appended report log; the delete confirmation dialog is the `confirmed` parameter; `Debug.WriteLine` is not modelled.
- Percent: computes the percentage as an exact integer floor; the source's single-precision float product may round one lower for some inputs.
- `OrderBy(Name)` uses culture-sensitive comparison; the model orders names ordinally, character by character.
- The preview's path searches are culture-sensitive in the source, because they pass no `StringComparison`: `LastIndexOf("_c")`, `LastIndexOf("/c")` and `IndexOf("n/c")` for the race (FFXIV_TexTools/ViewModels/ModListViewModel.cs:580, 584, 598), and the `IndexOf` calls for the number label (:704-728). The model searches ordinally, character by character. This is unlike the classifier's searches, which pass `StringComparison.Ordinal` in the source.
- Hash-set and dictionary enumeration is taken to be insertion order, which .NET gives for collections without removals.
- `int.Parse` is modelled with its default number style (white space, an optional sign, decimal digits, 32-bit range); culture-specific signs are not modelled.
- The selected tree item after a removal, and the tree view's own reaction to collection changes, are not modelled.
- `SelectedDefaultRace`'s fallback when the setting cannot be read: settings are a map that holds every key.
- The customize window's directory properties, folder dialogs, moving, copying and deleting directories, and the lists of skin types, races and importers filled in its constructor: file-system work and fixed resource lists.
- Colour parsing and printing by the colour converter: a colour is its `#AARRGGBB` text.
- Property-changed notifications of the mod list view model, brushes and visibility types: enums and flags stand for them where state is needed.
- The texture and model view models' part re-selection when the window closes: calls into code that is not part of this model.
- FFXIV_TexTools/Views/Models/AdvancedModelImportView.xaml.cs is not part of this model: it forwards to a view model that is not available.
