/**
 * The loops of `GetCategoriesItemFilter` and `GetCategoriesModPackFilter`,
 * written as the code walks them: a `CategoryList` of names already added, a
 * hash set of categories, a dictionary of pack nodes. Each method is proved to
 * compute the matching function of `CategoryTrees`, so every property proved
 * there holds of what these loops build.
 */
module TreeBuilders {
  import opened Wrappers
  import opened Manifest
  import opened ItemClassifier
  import opened Categories
  import opened CategoryTrees

  /** Once a prefix of the mods fails to classify, the whole list fails the same way. */
  lemma {:induction false} LeavesFailurePersists(mods: seq<ModEntry>, n: nat, cat: string)
    requires n <= |mods| && Leaves(mods[..n], cat).Failure?
    ensures Leaves(mods, cat) == Leaves(mods[..n], cat)
    decreases |mods| - n
  {
    if n < |mods| {
      var init := mods[..|mods| - 1];
      assert init[..n] == mods[..n];
      LeavesFailurePersists(init, n, cat);
    } else {
      assert mods[..n] == mods;
    }
  }

  /** Once a prefix of the packs repeats a name, the whole list fails the same way. */
  lemma {:induction false} PackKeysFailurePersists(packs: seq<ModPackInfo>, n: nat)
    requires n <= |packs| && PackKeys(packs[..n]).Failure?
    ensures PackKeys(packs) == PackKeys(packs[..n])
    decreases |packs| - n
  {
    if n < |packs| {
      var init := packs[..|packs| - 1];
      assert init[..n] == packs[..n];
      PackKeysFailurePersists(init, n);
    } else {
      assert packs[..n] == packs;
    }
  }

  /**
   * The leaf loop of one category: skips mods of other categories and names
   * already in `CategoryList`, classifies the rest; a classification fault
   * ends it.
   */
  method BuildLeaves(mods: seq<ModEntry>, cat: string) returns (r: Result<seq<Category>, ClassifyError>)
    ensures r == Leaves(mods, cat)
  {
    var leaves: seq<Category> := [];
    var categoryList: seq<string> := [];
    for j := 0 to |mods|
      invariant Leaves(mods[..j], cat) == Success(leaves)
      invariant categoryList == Names(leaves)
    {
      assert mods[..j + 1][..j] == mods[..j];
      var m := mods[j];
      if m.category != cat || m.name in categoryList {
        continue;
      }
      var item := MakeItemModel(m);
      if item.Failure? {
        LeavesFailurePersists(mods, j + 1, cat);
        return Failure(item.error);
      }
      var leaf := Category(m.name, Some(item.value), []);
      assert (leaves + [leaf])[..|leaves|] == leaves;
      leaves := leaves + [leaf];
      categoryList := categoryList + [m.name];
    }
    assert mods[..|mods|] == mods;
    return Success(leaves);
  }

  /** One category node, its leaves ordered by name under name sort. */
  method BuildBranch(mods: seq<ModEntry>, cat: string, nameSort: bool) returns (r: Result<Category, BuildError>)
    ensures r == CategoryBranch(mods, cat, nameSort)
  {
    var leaves := BuildLeaves(mods, cat);
    if leaves.Failure? {
      return Failure(ClassifyFault(leaves.error));
    }
    var kids := leaves.value;
    if nameSort {
      kids := SortBy(kids, NameOf);
    }
    return Success(Category(cat, None, kids));
  }

  /** The `mainCategories` hash set, enumerated in insertion order. */
  method CollectCategories(mods: seq<ModEntry>) returns (cats: seq<string>)
    ensures cats == DistinctCategories(mods)
  {
    cats := [];
    for j := 0 to |mods|
      invariant cats == DistinctCategories(mods[..j])
    {
      assert mods[..j + 1][..j] == mods[..j];
      if mods[j].name != "" && mods[j].category !in cats {
        cats := cats + [mods[j].category];
      }
    }
    assert mods[..|mods|] == mods;
  }

  /** The category loop: one branch per category, stopping at the first fault. */
  method BuildBranches(mods: seq<ModEntry>, nameSort: bool) returns (o: Outcome)
    ensures o == CategoryBranches(mods, nameSort)
  {
    var cats := CollectCategories(mods);
    var forest: seq<Category> := [];
    for k := 0 to |cats|
      invariant |forest| == k
      invariant forall i | 0 <= i < k :: CategoryBranch(mods, cats[i], nameSort) == Success(forest[i])
    {
      var b := BuildBranch(mods, cats[k], nameSort);
      if b.Failure? {
        o := Outcome(forest, Some(b.error));
        CategoryBranchesUnique(mods, nameSort, o);
        return;
      }
      forest := forest + [b.value];
    }
    o := Outcome(forest, None);
    CategoryBranchesUnique(mods, nameSort, o);
  }

  /** The children of the "ModPacks" node: the standalone stub, then one stub per pack. */
  method BuildPackStubs(packs: seq<ModPackInfo>) returns (stubs: seq<Category>)
    ensures stubs == PackStubs(packs)
  {
    stubs := [Stub(Standalone)];
    for k := 0 to |packs|
      invariant stubs == PackStubs(packs[..k])
    {
      assert packs[..k + 1][..k] == packs[..k];
      stubs := stubs + [Stub(packs[k].name)];
    }
    assert packs[..|packs|] == packs;
  }

  /** `GetCategoriesItemFilter`: the "ModPacks" node, then the category branches. */
  method BuildItemForest(manifest: Option<ModList>, nameSort: bool) returns (o: Outcome)
    ensures o == ItemForest(manifest, nameSort)
  {
    if manifest.None? {
      return Outcome([], None);
    }
    var l := manifest.value;
    var stubs := BuildPackStubs(l.modPacks);
    if nameSort {
      stubs := SortBy(stubs, NameOf);
    }
    var top := Category(ModPacksLabel, None, stubs);
    var branches := BuildBranches(l.mods, nameSort);
    return Outcome([top] + branches.forest, branches.error);
  }

  /** The pack dictionary's keys in insertion order; adding a name twice throws. */
  method BuildPackKeys(packs: seq<ModPackInfo>) returns (r: Result<seq<string>, BuildError>)
    ensures r == PackKeys(packs)
  {
    var keys := [Standalone];
    for k := 0 to |packs|
      invariant PackKeys(packs[..k]) == Success(keys)
    {
      assert packs[..k + 1][..k] == packs[..k];
      if packs[k].name in keys {
        PackKeysFailurePersists(packs, k + 1);
        return Failure(DuplicatePack(packs[k].name));
      }
      keys := keys + [packs[k].name];
    }
    assert packs[..|packs|] == packs;
    return Success(keys);
  }

  /** The query for one pack node's mods: no pack for the standalone node, else the pack's name. */
  method SelectPackMods(mods: seq<ModEntry>, key: string) returns (r: seq<ModEntry>)
    ensures r == ModsInPack(mods, key)
  {
    r := [];
    for j := 0 to |mods|
      invariant r == ModsInPack(mods[..j], key)
    {
      assert mods[..j + 1][..j] == mods[..j];
      var m := mods[j];
      var selected := if key != Standalone then m.modPack.Some? && m.modPack.value.name == key else m.modPack.None?;
      if selected {
        r := r + [m];
      }
    }
    assert mods[..|mods|] == mods;
  }

  /** One pack node with the category branches of its own mods. */
  method BuildPackNode(mods: seq<ModEntry>, key: string, nameSort: bool) returns (r: Result<Category, BuildError>)
    ensures r == PackNode(mods, key, nameSort)
  {
    var inPack := SelectPackMods(mods, key);
    var o := BuildBranches(inPack, nameSort);
    if o.error.Some? {
      return Failure(o.error.value);
    }
    return Success(Category(key, None, o.forest));
  }

  /** The pack loop: one node per key, stopping at the first fault. */
  method BuildPackNodes(mods: seq<ModEntry>, keys: seq<string>, nameSort: bool) returns (o: Outcome)
    ensures o == PackNodes(mods, keys, nameSort)
  {
    var forest: seq<Category> := [];
    var error: Option<BuildError> := None;
    var k := 0;
    while k < |keys|
      invariant k <= |keys| && |forest| == k
      invariant forall i | 0 <= i < k :: PackNode(mods, keys[i], nameSort) == Success(forest[i])
    {
      var b := BuildPackNode(mods, keys[k], nameSort);
      if b.Failure? {
        error := Some(b.error);
        break;
      }
      forest := forest + [b.value];
      k := k + 1;
    }
    o := Outcome(forest, error);
    PackNodesUnique(mods, keys, nameSort, o);
  }

  /** `GetCategoriesModPackFilter`: one node per pack, visited by name under name sort. */
  method BuildModPackForest(manifest: Option<ModList>, nameSort: bool) returns (o: Outcome)
    ensures o == ModPackForest(manifest, nameSort)
  {
    if manifest.None? {
      return Outcome([], None);
    }
    var l := manifest.value;
    var keys := BuildPackKeys(l.modPacks);
    if keys.Failure? {
      return Outcome([], Some(keys.error));
    }
    var order := keys.value;
    if nameSort {
      order := SortBy(order, Same);
    }
    o := BuildPackNodes(l.mods, order, nameSort);
  }
}
