/**
 * What the two tree builders of the mod list produce, stated as functions of
 * the manifest: `GetCategoriesItemFilter` (a "ModPacks" node with one stub per
 * pack, then category -> leaf) and `GetCategoriesModPackFilter` (pack ->
 * category -> leaf). Both walk the manifest in file order; a classification
 * fault ends the build and keeps the top-level nodes already added.
 */
module CategoryTrees {
  import opened Wrappers
  import opened Manifest
  import opened ItemClassifier
  import opened Categories

  datatype BuildError = ClassifyFault(error: ClassifyError) | DuplicatePack(name: string)

  /** The top-level nodes a build added, in order, and the fault that ended it early, if any. */
  datatype Outcome = Outcome(forest: seq<Category>, error: Option<BuildError>)

  predicate Distinct<T(==)>(s: seq<T>) {
    forall i, j | 0 <= i < j < |s| :: s[i] != s[j]
  }

  /** The names of a node list, in order (the builders' `CategoryList`). */
  function Names(s: seq<Category>): (r: seq<string>)
    ensures |r| == |s| && forall i | 0 <= i < |s| :: r[i] == s[i].name
  {
    if s == [] then [] else Names(s[..|s| - 1]) + [s[|s| - 1].name]
  }

  // ---------------------------------------------------------------------------
  // Item-filter mode
  // ---------------------------------------------------------------------------

  /** The children of the "ModPacks" node before sorting: the standalone node, then one per manifest pack. */
  function PackStubs(packs: seq<ModPackInfo>): (r: seq<Category>)
    ensures |r| == |packs| + 1 && r[0] == Stub(Standalone)
    ensures forall k | 0 <= k < |packs| :: r[k + 1] == Stub(packs[k].name)
  {
    if packs == [] then [Stub(Standalone)]
    else PackStubs(packs[..|packs| - 1]) + [Stub(packs[|packs| - 1].name)]
  }

  function ModPacksBranch(packs: seq<ModPackInfo>, nameSort: bool): Category {
    var stubs := PackStubs(packs);
    Category(ModPacksLabel, None, if nameSort then SortBy(stubs, NameOf) else stubs)
  }

  /** The categories of mods with a non-empty name, each once, in order of first appearance. */
  function DistinctCategories(mods: seq<ModEntry>): seq<string> {
    if mods == [] then []
    else
      var acc := DistinctCategories(mods[..|mods| - 1]);
      var m := mods[|mods| - 1];
      if m.name != "" && m.category !in acc then acc + [m.category] else acc
  }

  predicate Matches(m: ModEntry, cat: string, name: string) {
    m.category == cat && m.name == name
  }

  /** The index of the first mod with this category and name, or -1. */
  function FirstMatch(mods: seq<ModEntry>, cat: string, name: string): (f: int)
    ensures -1 <= f < |mods|
    ensures f >= 0 ==> Matches(mods[f], cat, name) && forall j | 0 <= j < f :: !Matches(mods[j], cat, name)
    ensures f == -1 <==> forall j | 0 <= j < |mods| :: !Matches(mods[j], cat, name)
  {
    if mods == [] then -1
    else
      var init := mods[..|mods| - 1];
      var f := FirstMatch(init, cat, name);
      assert forall j | 0 <= j < |init| :: init[j] == mods[j];
      if f != -1 then f
      else if Matches(mods[|mods| - 1], cat, name) then |mods| - 1
      else -1
  }

  /**
   * The leaves of one category branch in manifest order: a mod of another
   * category, or whose name is already a leaf, is skipped; otherwise its
   * classified item becomes a new leaf. Empty names are not skipped here.
   */
  function Leaves(mods: seq<ModEntry>, cat: string): Result<seq<Category>, ClassifyError> {
    if mods == [] then Success([])
    else
      var acc :- Leaves(mods[..|mods| - 1], cat);
      var m := mods[|mods| - 1];
      if m.category != cat || m.name in Names(acc) then Success(acc)
      else
        var item :- MakeItemModel(m);
        Success(acc + [Category(m.name, Some(item), [])])
  }

  /** A category node: its leaves, sorted by name under name sort. */
  function CategoryBranch(mods: seq<ModEntry>, cat: string, nameSort: bool): (r: Result<Category, BuildError>)
    ensures r.Success? <==> Leaves(mods, cat).Success?
    ensures r.Success? ==> r.value.name == cat && r.value.item == None
    ensures r.Failure? ==> r.error == ClassifyFault(Leaves(mods, cat).error)
  {
    match Leaves(mods, cat)
    case Failure(e) => Failure(ClassifyFault(e))
    case Success(leaves) => Success(Category(cat, None, if nameSort then SortBy(leaves, NameOf) else leaves))
  }

  /**
   * Builds one node per element of `xs`, in order, and stops at the first
   * element whose node cannot be built; the nodes built before it are kept.
   */
  function Collect<X>(xs: seq<X>, build: X -> Result<Category, BuildError>): (o: Outcome)
    ensures |o.forest| <= |xs|
    ensures forall k | 0 <= k < |o.forest| :: build(xs[k]) == Success(o.forest[k])
    ensures o.error.None? <==> |o.forest| == |xs|
    ensures o.error.Some? ==> build(xs[|o.forest|]) == Failure(o.error.value)
  {
    if xs == [] then Outcome([], None)
    else
      var o := Collect(xs[..|xs| - 1], build);
      if o.error.Some? then o
      else
        match build(xs[|xs| - 1])
        case Failure(e) => Outcome(o.forest, Some(e))
        case Success(b) => Outcome(o.forest + [b], None)
  }

  /** One node per distinct category of `mods`, in order of first appearance, stopping at the first fault. */
  function CategoryBranches(mods: seq<ModEntry>, nameSort: bool): Outcome {
    Collect(DistinctCategories(mods), c => CategoryBranch(mods, c, nameSort))
  }

  /**
   * The branches are the category branches of the distinct categories in
   * order, up to the first one that fails, whose fault becomes the error.
   */
  lemma CategoryBranchesShape(mods: seq<ModEntry>, nameSort: bool)
    ensures var o := CategoryBranches(mods, nameSort);
            var cats := DistinctCategories(mods);
      && |o.forest| <= |cats|
      && (forall k | 0 <= k < |o.forest| :: CategoryBranch(mods, cats[k], nameSort) == Success(o.forest[k]))
      && (o.error.None? <==> |o.forest| == |cats|)
      && (o.error.Some? ==> CategoryBranch(mods, cats[|o.forest|], nameSort) == Failure(o.error.value))
  {
  }

  /** An outcome with the shape of `CategoryBranches` is `CategoryBranches`. */
  lemma CategoryBranchesUnique(mods: seq<ModEntry>, nameSort: bool, o: Outcome)
    requires var cats := DistinctCategories(mods);
      && |o.forest| <= |cats|
      && (forall k | 0 <= k < |o.forest| :: CategoryBranch(mods, cats[k], nameSort) == Success(o.forest[k]))
      && (o.error.None? <==> |o.forest| == |cats|)
      && (o.error.Some? ==> CategoryBranch(mods, cats[|o.forest|], nameSort) == Failure(o.error.value))
    ensures o == CategoryBranches(mods, nameSort)
  {
    var cats := DistinctCategories(mods);
    var b := CategoryBranches(mods, nameSort);
    CategoryBranchesShape(mods, nameSort);
    assert forall k | 0 <= k < |o.forest| :: CategoryBranch(mods, cats[k], nameSort) == Success(o.forest[k]);
    assert o.error.Some? ==> CategoryBranch(mods, cats[|o.forest|], nameSort) == Failure(o.error.value);
    var n, m := |o.forest|, |b.forest|;
    if n < m {
      assert false;
    } else if m < n {
      assert false;
    }
    assert forall k | 0 <= k < n :: o.forest[k] == b.forest[k];
    assert o.forest == b.forest;
  }

  /** `GetCategoriesItemFilter`; an absent (null) manifest builds nothing. */
  function ItemForest(manifest: Option<ModList>, nameSort: bool): Outcome {
    match manifest
    case None => Outcome([], None)
    case Some(l) =>
      var o := CategoryBranches(l.mods, nameSort);
      Outcome([ModPacksBranch(l.modPacks, nameSort)] + o.forest, o.error)
  }

  // ---------------------------------------------------------------------------
  // Mod-pack-filter mode
  // ---------------------------------------------------------------------------

  /**
   * The keys of the pack dictionary in insertion order: the standalone label,
   * then each manifest pack's name; adding a key twice is an error.
   */
  function PackKeys(packs: seq<ModPackInfo>): Result<seq<string>, BuildError> {
    if packs == [] then Success([Standalone])
    else
      var keys :- PackKeys(packs[..|packs| - 1]);
      var n := packs[|packs| - 1].name;
      if n in keys then Failure(DuplicatePack(n)) else Success(keys + [n])
  }

  /** Mod `m` is listed under pack node `key`. */
  predicate InPack(m: ModEntry, key: string) {
    if key == Standalone then m.modPack.None? else m.modPack.Some? && m.modPack.value.name == key
  }

  /** The mods listed under pack node `key`, in manifest order. */
  function ModsInPack(mods: seq<ModEntry>, key: string): seq<ModEntry> {
    if mods == [] then []
    else
      var acc := ModsInPack(mods[..|mods| - 1], key);
      if InPack(mods[|mods| - 1], key) then acc + [mods[|mods| - 1]] else acc
  }

  /** A pack node: the category branches of its own mods, categories in first-appearance order. */
  function PackNode(mods: seq<ModEntry>, key: string, nameSort: bool): Result<Category, BuildError> {
    var inPack := ModsInPack(mods, key);
    var o := CategoryBranches(inPack, nameSort);
    if o.error.Some? then Failure(o.error.value) else Success(Category(key, None, o.forest))
  }

  /** The order the pack nodes are visited in: by name under name sort, else insertion order. */
  function PackOrder(keys: seq<string>, nameSort: bool): seq<string> {
    if nameSort then SortBy(keys, Same) else keys
  }

  /** `GetCategoriesModPackFilter`; an absent (null) manifest builds nothing. */
  function ModPackForest(manifest: Option<ModList>, nameSort: bool): Outcome {
    match manifest
    case None => Outcome([], None)
    case Some(l) =>
      match PackKeys(l.modPacks)
      case Failure(e) => Outcome([], Some(e))
      case Success(keys) => PackNodes(l.mods, PackOrder(keys, nameSort), nameSort)
  }

  /** One node per key, in order, stopping at the first pack whose node cannot be built. */
  function PackNodes(mods: seq<ModEntry>, keys: seq<string>, nameSort: bool): Outcome {
    Collect(keys, k => PackNode(mods, k, nameSort))
  }

  /** The pack nodes of the keys in order, up to the first that fails, whose fault becomes the error. */
  lemma PackNodesShape(mods: seq<ModEntry>, keys: seq<string>, nameSort: bool)
    ensures var o := PackNodes(mods, keys, nameSort);
      && |o.forest| <= |keys|
      && (forall k | 0 <= k < |o.forest| :: PackNode(mods, keys[k], nameSort) == Success(o.forest[k]))
      && (o.error.None? <==> |o.forest| == |keys|)
      && (o.error.Some? ==> PackNode(mods, keys[|o.forest|], nameSort) == Failure(o.error.value))
  {
  }

  /** An outcome with the shape of `PackNodes` is `PackNodes`. */
  lemma PackNodesUnique(mods: seq<ModEntry>, keys: seq<string>, nameSort: bool, o: Outcome)
    requires |o.forest| <= |keys|
    requires forall k | 0 <= k < |o.forest| :: PackNode(mods, keys[k], nameSort) == Success(o.forest[k])
    requires o.error.None? <==> |o.forest| == |keys|
    requires o.error.Some? ==> PackNode(mods, keys[|o.forest|], nameSort) == Failure(o.error.value)
    ensures o == PackNodes(mods, keys, nameSort)
  {
    var b := PackNodes(mods, keys, nameSort);
    PackNodesShape(mods, keys, nameSort);
    if |o.forest| < |b.forest| {
      assert false;
    } else if |b.forest| < |o.forest| {
      assert false;
    }
    assert o.forest == b.forest;
  }

  // ---------------------------------------------------------------------------
  // Properties
  // ---------------------------------------------------------------------------

  /** The distinct categories are exactly those of the mods with a non-empty name, each once. */
  lemma {:induction false} DistinctCategoriesSpec(mods: seq<ModEntry>)
    ensures Distinct(DistinctCategories(mods))
    ensures forall c :: c in DistinctCategories(mods) <==>
              exists i | 0 <= i < |mods| :: mods[i].name != "" && mods[i].category == c
  {
    if mods != [] {
      var init := mods[..|mods| - 1];
      DistinctCategoriesSpec(init);
      assert forall i | 0 <= i < |init| :: init[i] == mods[i];
    }
  }

  /** A successful leaf list holds one leaf per distinct mod name of the category. */
  lemma {:induction false} LeavesNames(mods: seq<ModEntry>, cat: string)
    requires Leaves(mods, cat).Success?
    ensures Distinct(Names(Leaves(mods, cat).value))
    ensures forall n :: n in Names(Leaves(mods, cat).value) <==>
              exists i | 0 <= i < |mods| :: Matches(mods[i], cat, n)
  {
    if mods != [] {
      var init := mods[..|mods| - 1];
      LeavesNamesStep(mods, cat);
      LeavesNames(init, cat);
      NamesExtend(Names(Leaves(init, cat).value), Names(Leaves(mods, cat).value), init, mods, cat);
    }
  }

  /** The name bookkeeping of one step of the leaf fold. */
  lemma NamesExtend(a: seq<string>, r: seq<string>, init: seq<ModEntry>, mods: seq<ModEntry>, cat: string)
    requires mods != [] && init == mods[..|mods| - 1] && Distinct(a)
    requires forall n :: n in a <==> exists i | 0 <= i < |init| :: Matches(init[i], cat, n)
    requires var m := mods[|mods| - 1]; r == if m.category != cat || m.name in a then a else a + [m.name]
    ensures Distinct(r)
    ensures forall n :: n in r <==> exists i | 0 <= i < |mods| :: Matches(mods[i], cat, n)
  {
    var m := mods[|mods| - 1];
    forall n ensures n in r <==> exists i | 0 <= i < |mods| :: Matches(mods[i], cat, n) {
      if exists i | 0 <= i < |mods| :: Matches(mods[i], cat, n) {
        var i :| 0 <= i < |mods| && Matches(mods[i], cat, n);
        if i < |init| {
          assert Matches(init[i], cat, n);
          assert n in a;
        } else {
          assert n in a || r == a + [n];
        }
      }
      if n in a {
        var i :| 0 <= i < |init| && Matches(init[i], cat, n);
        assert Matches(mods[i], cat, n);
      } else if n in r {
        assert r == a + [m.name] && n == m.name;
        assert Matches(mods[|init|], cat, n);
      }
    }
  }

  /** One step of the leaf fold, on names only. */
  lemma LeavesNamesStep(mods: seq<ModEntry>, cat: string)
    requires mods != [] && Leaves(mods, cat).Success?
    ensures Leaves(mods[..|mods| - 1], cat).Success?
    ensures var acc := Leaves(mods[..|mods| - 1], cat).value;
            var m := mods[|mods| - 1];
            Names(Leaves(mods, cat).value)
              == if m.category != cat || m.name in Names(acc) then Names(acc) else Names(acc) + [m.name]
  {
    var acc := Leaves(mods[..|mods| - 1], cat).value;
    var ls := Leaves(mods, cat).value;
    if |ls| > |acc| {
      assert ls[..|ls| - 1] == acc;
    }
  }

  /** One step of the leaf fold: the last mod either adds nothing or adds its own leaf at the end. */
  lemma LeavesStep(mods: seq<ModEntry>, cat: string)
    requires mods != [] && Leaves(mods, cat).Success?
    ensures Leaves(mods[..|mods| - 1], cat).Success?
    ensures var acc := Leaves(mods[..|mods| - 1], cat).value;
            var ls := Leaves(mods, cat).value;
            var m := mods[|mods| - 1];
      || ls == acc
      || (&& m.category == cat && m.name !in Names(acc) && MakeItemModel(m).Success?
          && ls == acc + [Category(m.name, Some(MakeItemModel(m).value), [])])
  {
  }

  /** A mod that adds a leaf is the first of its category with its name. */
  lemma NewLeafIsFirst(mods: seq<ModEntry>, cat: string)
    requires mods != [] && Leaves(mods[..|mods| - 1], cat).Success?
    requires mods[|mods| - 1].category == cat
    requires mods[|mods| - 1].name !in Names(Leaves(mods[..|mods| - 1], cat).value)
    ensures FirstMatch(mods, cat, mods[|mods| - 1].name) == |mods| - 1
  {
    var init := mods[..|mods| - 1];
    LeavesNames(init, cat);
    assert forall i | 0 <= i < |init| :: init[i] == mods[i];
  }

  /** Every leaf carries the item classified from the first mod of the category with the leaf's name. */
  lemma {:induction false} LeavesFirst(mods: seq<ModEntry>, cat: string)
    requires Leaves(mods, cat).Success?
    ensures forall k | 0 <= k < |Leaves(mods, cat).value| :: IsFirstLeaf(mods, cat, Leaves(mods, cat).value[k])
  {
    if mods != [] {
      var init := mods[..|mods| - 1];
      var m := mods[|mods| - 1];
      LeavesFirst(init, cat);
      LeavesStep(mods, cat);
      var acc := Leaves(init, cat).value;
      var ls := Leaves(mods, cat).value;
      forall k | 0 <= k < |acc| ensures IsFirstLeaf(mods, cat, acc[k]) {
        assert IsFirstLeaf(init, cat, acc[k]);
        FirstMatchExtends(mods, cat, acc[k].name);
      }
      if ls != acc {
        NewLeafIsFirst(mods, cat);
      }
    }
  }

  /** Leaves appear in the order of their names' first occurrence in the manifest. */
  lemma {:induction false} LeavesOrder(mods: seq<ModEntry>, cat: string)
    requires Leaves(mods, cat).Success?
    ensures forall k, l | 0 <= k < l < |Leaves(mods, cat).value| ::
              FirstMatch(mods, cat, Leaves(mods, cat).value[k].name) < FirstMatch(mods, cat, Leaves(mods, cat).value[l].name)
  {
    if mods != [] {
      var init := mods[..|mods| - 1];
      var m := mods[|mods| - 1];
      LeavesOrder(init, cat);
      LeavesFirst(init, cat);
      LeavesStep(mods, cat);
      var acc := Leaves(init, cat).value;
      var ls := Leaves(mods, cat).value;
      forall k | 0 <= k < |acc|
        ensures FirstMatch(mods, cat, acc[k].name) == FirstMatch(init, cat, acc[k].name) < |init|
      {
        assert IsFirstLeaf(init, cat, acc[k]);
        FirstMatchExtends(mods, cat, acc[k].name);
      }
      if ls != acc {
        NewLeafIsFirst(mods, cat);
      }
    }
  }

  /** Appending a mod does not move an existing first occurrence. */
  lemma FirstMatchExtends(mods: seq<ModEntry>, cat: string, name: string)
    requires mods != [] && FirstMatch(mods[..|mods| - 1], cat, name) >= 0
    ensures FirstMatch(mods, cat, name) == FirstMatch(mods[..|mods| - 1], cat, name)
  {
  }

  /** `leaf` is the leaf built from the first mod of category `cat` with the leaf's name. */
  predicate IsFirstLeaf(mods: seq<ModEntry>, cat: string, leaf: Category) {
    var f := FirstMatch(mods, cat, leaf.name);
    && f >= 0
    && MakeItemModel(mods[f]).Success?
    && leaf == Category(leaf.name, Some(MakeItemModel(mods[f]).value), [])
  }

  /** A failed leaf list fails with the classification error of the first mod of some name in the category. */
  lemma {:induction false} LeavesFailure(mods: seq<ModEntry>, cat: string)
    requires Leaves(mods, cat).Failure?
    ensures exists i | 0 <= i < |mods| ::
              && mods[i].category == cat
              && FirstMatch(mods, cat, mods[i].name) == i
              && MakeItemModel(mods[i]) == Failure(Leaves(mods, cat).error)
  {
    var init := mods[..|mods| - 1];
    var m := mods[|mods| - 1];
    assert forall i | 0 <= i < |init| :: init[i] == mods[i];
    if Leaves(init, cat).Failure? {
      LeavesFailure(init, cat);
      var i :| 0 <= i < |init| && init[i].category == cat && FirstMatch(init, cat, init[i].name) == i
               && MakeItemModel(init[i]) == Failure(Leaves(init, cat).error);
      assert FirstMatch(mods, cat, mods[i].name) == i;
    } else {
      LeavesNames(init, cat);
      assert FirstMatch(mods, cat, m.name) == |mods| - 1;
    }
  }

  /** Leaves never depend on the sort flag, so neither does which category branches get built. */
  lemma CategoryBranchSuccessIgnoresSort(mods: seq<ModEntry>, cat: string)
    ensures CategoryBranch(mods, cat, true).Success? == CategoryBranch(mods, cat, false).Success?
    ensures CategoryBranch(mods, cat, true).Success? ==>
              CategoryBranch(mods, cat, true).value.name == cat
              && multiset(CategoryBranch(mods, cat, true).value.children)
                 == multiset(CategoryBranch(mods, cat, false).value.children)
  {
  }

  /** A sequence with distinct elements holds each value at most once. */
  lemma {:induction false} DistinctCountAtMostOne<T>(a: seq<T>, x: T)
    requires Distinct(a)
    ensures multiset(a)[x] <= 1
  {
    if a != [] {
      var init := a[..|a| - 1];
      assert a == init + [a[|a| - 1]];
      DistinctCountAtMostOne(init, x);
      if a[|a| - 1] == x {
        assert x !in init;
      }
    }
  }

  /** A rearrangement of a sequence of distinct elements has distinct elements. */
  lemma PermutationKeepsDistinct<T>(a: seq<T>, b: seq<T>)
    requires multiset(a) == multiset(b) && Distinct(a)
    ensures Distinct(b)
  {
    forall i, j | 0 <= i < j < |b| ensures b[i] != b[j] {
      if b[i] == b[j] {
        var x := b[i];
        assert b == b[..j] + b[j..];
        assert x in multiset(b[..j]) && x in multiset(b[j..]);
        assert multiset(b)[x] >= 2;
        DistinctCountAtMostOne(a, x);
      }
    }
  }

  /** Distinct names imply distinct nodes. */
  lemma DistinctNamesDistinctNodes(s: seq<Category>)
    requires Distinct(Names(s))
    ensures Distinct(s)
  {
    forall i, j | 0 <= i < j < |s| ensures s[i] != s[j] {
      assert Names(s)[i] != Names(s)[j];
    }
  }

  /**
   * The leaves of a built category node, sorted or not: one leaf per distinct
   * mod name of the category, each carrying the item classified from the
   * first mod with that name; sorted by name under name sort, in order of
   * first appearance otherwise.
   */
  lemma BranchLeaves(mods: seq<ModEntry>, cat: string, nameSort: bool)
    requires CategoryBranch(mods, cat, nameSort).Success?
    ensures var c := CategoryBranch(mods, cat, nameSort).value.children;
      && Distinct(Names(c))
      && (forall n :: n in Names(c) <==> exists i | 0 <= i < |mods| :: Matches(mods[i], cat, n))
      && (forall k | 0 <= k < |c| :: IsFirstLeaf(mods, cat, c[k]))
      && (nameSort ==> SortedBy(c, NameOf))
      && (!nameSort ==> forall k, l | 0 <= k < l < |c| ::
                          FirstMatch(mods, cat, c[k].name) < FirstMatch(mods, cat, c[l].name))
  {
    LeavesNames(mods, cat);
    LeavesFirst(mods, cat);
    LeavesOrder(mods, cat);
    if nameSort {
      SortedLeaves(mods, cat, Leaves(mods, cat).value);
    }
  }

  /** Sorting the leaves by name keeps what `LeavesNames` and `LeavesFirst` state. */
  lemma SortedLeaves(mods: seq<ModEntry>, cat: string, leaves: seq<Category>)
    requires Distinct(Names(leaves))
    requires forall k | 0 <= k < |leaves| :: IsFirstLeaf(mods, cat, leaves[k])
    ensures var c := SortBy(leaves, NameOf);
      && Distinct(Names(c))
      && (forall n :: n in Names(c) <==> n in Names(leaves))
      && (forall k | 0 <= k < |c| :: IsFirstLeaf(mods, cat, c[k]))
  {
    var c := SortBy(leaves, NameOf);
    SortedLeavesFirst(mods, cat, leaves);
    SortedLeavesNames(leaves);
    DistinctNamesDistinctNodes(leaves);
    PermutationKeepsDistinct(leaves, c);
    forall i, j | 0 <= i < j < |c| ensures Names(c)[i] != Names(c)[j] {
      assert IsFirstLeaf(mods, cat, c[i]) && IsFirstLeaf(mods, cat, c[j]);
    }
  }

  lemma SortedLeavesFirst(mods: seq<ModEntry>, cat: string, leaves: seq<Category>)
    requires forall k | 0 <= k < |leaves| :: IsFirstLeaf(mods, cat, leaves[k])
    ensures forall k | 0 <= k < |SortBy(leaves, NameOf)| :: IsFirstLeaf(mods, cat, SortBy(leaves, NameOf)[k])
  {
    var c := SortBy(leaves, NameOf);
    forall k | 0 <= k < |c| ensures IsFirstLeaf(mods, cat, c[k]) {
      assert c[k] in multiset(c);
      var j :| 0 <= j < |leaves| && leaves[j] == c[k];
    }
  }

  /** A name of `a` is a name of any permutation `b` of `a`. */
  lemma NameInPermutation(a: seq<Category>, b: seq<Category>, n: string)
    requires multiset(a) == multiset(b) && n in Names(a)
    ensures n in Names(b)
  {
    var j :| 0 <= j < |a| && Names(a)[j] == n;
    assert a[j] in multiset(b);
    var k :| 0 <= k < |b| && b[k] == a[j];
    assert Names(b)[k] == n;
  }

  lemma SortedLeavesNames(leaves: seq<Category>)
    ensures forall n :: n in Names(SortBy(leaves, NameOf)) <==> n in Names(leaves)
  {
    var c := SortBy(leaves, NameOf);
    forall n ensures n in Names(c) <==> n in Names(leaves) {
      if n in Names(c) {
        NameInPermutation(c, leaves, n);
      }
      if n in Names(leaves) {
        NameInPermutation(leaves, c, n);
      }
    }
  }

  /**
   * Item-filter mode: "ModPacks" first, then one node per distinct category
   * in order of first appearance, each the category's branch; a fault stops
   * the build after the branches before the failing category.
   */
  lemma ItemForestShape(l: ModList, nameSort: bool)
    ensures var o := ItemForest(Some(l), nameSort);
            var cats := DistinctCategories(l.mods);
      && 1 <= |o.forest| <= |cats| + 1
      && o.forest[0] == ModPacksBranch(l.modPacks, nameSort)
      && (forall k | 1 <= k < |o.forest| ::
            o.forest[k].name == cats[k - 1] && CategoryBranch(l.mods, cats[k - 1], nameSort) == Success(o.forest[k]))
      && (o.error.None? <==> |o.forest| == |cats| + 1)
      && (o.error.Some? ==> CategoryBranch(l.mods, cats[|o.forest| - 1], nameSort) == Failure(o.error.value))
  {
    CategoryBranchesShape(l.mods, nameSort);
    var b := CategoryBranches(l.mods, nameSort);
    var o := ItemForest(Some(l), nameSort);
    assert o.forest[1..] == b.forest;
  }

  /** The "ModPacks" node lists the standalone node and every manifest pack, sorted by name under name sort. */
  lemma ModPacksBranchChildren(packs: seq<ModPackInfo>, nameSort: bool)
    ensures var b := ModPacksBranch(packs, nameSort);
      && b.name == ModPacksLabel
      && multiset(b.children) == multiset(PackStubs(packs))
      && (nameSort ==> SortedBy(b.children, NameOf))
      && (!nameSort ==> b.children == PackStubs(packs))
  {
  }

  /**
   * Name sort never reorders the top-level category branches: both sort
   * modes build the same sequence of top-level names and end alike.
   */
  lemma ItemBranchOrderIgnoresSort(l: ModList)
    ensures Names(ItemForest(Some(l), true).forest)[1..] == Names(ItemForest(Some(l), false).forest)[1..]
    ensures ItemForest(Some(l), true).error == ItemForest(Some(l), false).error
  {
    ItemForestNames(l, true);
    ItemForestNames(l, false);
    ItemForestLengthIgnoresSort(l);
  }

  lemma ItemForestLengthIgnoresSort(l: ModList)
    ensures |ItemForest(Some(l), true).forest| == |ItemForest(Some(l), false).forest|
    ensures ItemForest(Some(l), true).error == ItemForest(Some(l), false).error
  {
    BranchesIgnoreSort(l.mods);
  }

  /** Whether a category branch builds does not depend on the sort, so neither does where the loop stops. */
  lemma BranchesIgnoreSort(mods: seq<ModEntry>)
    ensures |CategoryBranches(mods, true).forest| == |CategoryBranches(mods, false).forest|
    ensures CategoryBranches(mods, true).error == CategoryBranches(mods, false).error
  {
    CategoryBranchesShape(mods, true);
    CategoryBranchesShape(mods, false);
    var n1 := |CategoryBranches(mods, true).forest|;
    var n2 := |CategoryBranches(mods, false).forest|;
    if n1 < n2 {
      assert false;
    } else if n2 < n1 {
      assert false;
    }
  }

  /** The top-level names of an item-mode build: "ModPacks", then the distinct categories in order. */
  lemma ItemForestNames(l: ModList, nameSort: bool)
    ensures var f := ItemForest(Some(l), nameSort).forest;
      && 1 <= |f| <= |DistinctCategories(l.mods)| + 1
      && Names(f)[0] == ModPacksLabel
      && Names(f)[1..] == DistinctCategories(l.mods)[..|f| - 1]
  {
    ItemForestShape(l, nameSort);
  }

  /** Pack names for the dictionary keys: the build fails exactly when a key would repeat. */
  predicate PackNamesDistinct(packs: seq<ModPackInfo>) {
    && (forall k | 0 <= k < |packs| :: packs[k].name != Standalone)
    && (forall k, l | 0 <= k < l < |packs| :: packs[k].name != packs[l].name)
  }

  /**
   * The pack dictionary can be built exactly when no pack repeats another's
   * name or takes the standalone label; its keys are then the standalone
   * label followed by the pack names in manifest order.
   */
  lemma {:induction false} PackKeysSpec(packs: seq<ModPackInfo>)
    ensures PackKeys(packs).Success? <==> PackNamesDistinct(packs)
    ensures PackKeys(packs).Success? ==>
      var keys := PackKeys(packs).value;
      |keys| == |packs| + 1 && keys[0] == Standalone && forall k | 0 <= k < |packs| :: keys[k + 1] == packs[k].name
    ensures PackKeys(packs).Failure? ==> PackKeys(packs).error.DuplicatePack?
  {
    if packs != [] {
      var init := packs[..|packs| - 1];
      var n := packs[|packs| - 1].name;
      PackKeysSpec(init);
      assert forall k | 0 <= k < |init| :: init[k] == packs[k];
      if PackKeys(init).Success? {
        var keys := PackKeys(init).value;
        if n in keys {
          var j :| 0 <= j < |keys| && keys[j] == n;
          if j > 0 {
            assert packs[j - 1].name == n;
          }
        }
      } else {
        assert !PackNamesDistinct(init);
      }
    }
  }

  /** A duplicate pack name (or a pack named like the standalone label) builds nothing. */
  lemma DuplicatePackBuildsNothing(l: ModList, nameSort: bool)
    requires !PackNamesDistinct(l.modPacks)
    ensures ModPackForest(Some(l), nameSort).forest == []
    ensures ModPackForest(Some(l), nameSort).error.Some? && ModPackForest(Some(l), nameSort).error.value.DuplicatePack?
  {
    PackKeysSpec(l.modPacks);
  }

  /** A pack node lists exactly the mods of that pack (the standalone node: the mods without a pack), in manifest order. */
  lemma {:induction false} ModsInPackSpec(mods: seq<ModEntry>, key: string)
    ensures forall k | 0 <= k < |ModsInPack(mods, key)| :: InPack(ModsInPack(mods, key)[k], key)
    ensures forall i | 0 <= i < |mods| && InPack(mods[i], key) :: mods[i] in ModsInPack(mods, key)
    ensures |ModsInPack(mods, key)| <= |mods|
  {
    if mods != [] {
      var init := mods[..|mods| - 1];
      ModsInPackSpec(init, key);
      assert forall i | 0 <= i < |init| :: init[i] == mods[i];
    }
  }

  /** The manifest positions of the mods of pack node `key`, ascending. */
  function PackPositions(mods: seq<ModEntry>, key: string): seq<nat> {
    if mods == [] then []
    else
      var acc := PackPositions(mods[..|mods| - 1], key);
      if InPack(mods[|mods| - 1], key) then acc + [|mods| - 1] else acc
  }

  /**
   * Order and multiplicity: the pack's list is the manifest read through a
   * strictly increasing index map that hits every position of a mod of the
   * pack, so each such mod appears once per manifest entry, in manifest order.
   */
  lemma {:induction false} ModsInPackOrder(mods: seq<ModEntry>, key: string)
    ensures var ix := PackPositions(mods, key);
      && |ix| == |ModsInPack(mods, key)|
      && (forall k | 0 <= k < |ix| :: ix[k] < |mods| && ModsInPack(mods, key)[k] == mods[ix[k]])
      && (forall k, l | 0 <= k < l < |ix| :: ix[k] < ix[l])
      && (forall i | 0 <= i < |mods| && InPack(mods[i], key) :: i in ix)
  {
    if mods != [] {
      var init := mods[..|mods| - 1];
      ModsInPackOrder(init, key);
      assert forall i | 0 <= i < |init| :: init[i] == mods[i];
    }
  }

  /**
   * Mod-pack mode: with distinct pack names, the pack nodes come in dictionary
   * order (sorted by name under name sort), each built from its own mods, and
   * a fault stops the build after the packs before the failing one.
   */
  lemma ModPackForestShape(l: ModList, nameSort: bool)
    requires PackKeys(l.modPacks).Success?
    ensures var keys := PackOrder(PackKeys(l.modPacks).value, nameSort);
            var o := ModPackForest(Some(l), nameSort);
      && multiset(keys) == multiset(PackKeys(l.modPacks).value)
      && (nameSort ==> SortedBy(keys, Same))
      && |o.forest| <= |keys|
      && (forall k | 0 <= k < |o.forest| :: o.forest[k].name == keys[k] && PackNode(l.mods, keys[k], nameSort) == Success(o.forest[k]))
      && (o.error.None? <==> |o.forest| == |keys|)
      && (o.error.Some? ==> PackNode(l.mods, keys[|o.forest|], nameSort) == Failure(o.error.value))
  {
    PackKeysSpec(l.modPacks);
    var keys := PackOrder(PackKeys(l.modPacks).value, nameSort);
    var o := ModPackForest(Some(l), nameSort);
    forall k | 0 <= k < |o.forest| ensures o.forest[k].name == keys[k] {
      assert PackNode(l.mods, keys[k], nameSort) == Success(o.forest[k]);
    }
  }

  /**
   * A pack node holds one category branch per distinct category of its own
   * mods, in order of first appearance; a pack without mods is still a node,
   * with no children.
   */
  lemma PackNodeShape(mods: seq<ModEntry>, key: string, nameSort: bool)
    requires PackNode(mods, key, nameSort).Success?
    ensures var p := PackNode(mods, key, nameSort).value;
            var inPack := ModsInPack(mods, key);
      && p.name == key && p.item == None
      && Names(p.children) == DistinctCategories(inPack)
      && (forall k | 0 <= k < |p.children| :: CategoryBranch(inPack, p.children[k].name, nameSort) == Success(p.children[k]))
    ensures ModsInPack(mods, key) == [] ==> PackNode(mods, key, nameSort).value == Category(key, None, [])
  {
  }

  /** A mod whose pack is not in the manifest's pack list is listed under no pack node. */
  lemma OrphanModIsDropped(l: ModList, m: ModEntry)
    requires PackKeys(l.modPacks).Success?
    requires m.modPack.Some? && forall k | 0 <= k < |l.modPacks| :: l.modPacks[k].name != m.modPack.value.name
    ensures forall key | key in PackKeys(l.modPacks).value :: m !in ModsInPack(l.mods, key)
  {
    PackKeysSpec(l.modPacks);
    var keys := PackKeys(l.modPacks).value;
    forall key | key in keys ensures m !in ModsInPack(l.mods, key) {
      ModsInPackSpec(l.mods, key);
      var j :| 0 <= j < |keys| && keys[j] == key;
      if j > 0 {
        assert l.modPacks[j - 1].name == key;
      }
      assert !InPack(m, key);
    }
  }

  /** Two copies of mod "x" (category "c", empty path), one in pack "p1" and one in pack "p2". */
  predicate TwoPackExample(a: ModEntry, b: ModEntry) {
    && a == ModEntry("x", "c", "", "", true, 0, 0, Some(ModPackInfo("p1", "", "")))
    && b == a.(modPack := Some(ModPackInfo("p2", "", "")))
  }

  function ExampleList(a: ModEntry, b: ModEntry): ModList
    requires TwoPackExample(a, b)
  {
    ModList([a, b], [a.modPack.value, b.modPack.value])
  }

  lemma ExampleLeaves(a: ModEntry, b: ModEntry)
    requires TwoPackExample(a, b)
    ensures var leaf := Category("x", Some(BaseItem(a)), []);
      && Leaves([a], "c") == Success([leaf])
      && Leaves([b], "c") == Success([leaf])
      && Leaves([a, b], "c") == Success([leaf])
      && DistinctCategories([a]) == DistinctCategories([b]) == DistinctCategories([a, b]) == ["c"]
  {
    assert LastMatchingCategory("") == None;
    assert MakeItemModel(a) == Success(BaseItem(a)) && MakeItemModel(b) == Success(BaseItem(a));
    var leaf := Category("x", Some(BaseItem(a)), []);
    assert [a, b][..1] == [a] && [a][..0] == [] && [b][..0] == [];
    assert Leaves([], "c") == Success([]);
    assert Names([]) == [];
    assert [] + [leaf] == [leaf];
    assert Names([leaf]) == ["x"];
  }

  /** In item mode the example is one category with a single leaf. */
  lemma ExampleItemMode(a: ModEntry, b: ModEntry)
    requires TwoPackExample(a, b)
    ensures var items := ItemForest(Some(ExampleList(a, b)), false).forest;
      |items| == 2 && |items[1].children| == 1
  {
    ExampleLeaves(a, b);
  }

  lemma ExamplePackKeys(a: ModEntry, b: ModEntry)
    requires TwoPackExample(a, b)
    ensures PackKeys(ExampleList(a, b).modPacks) == Success([Standalone, "p1", "p2"])
  {
    var packs := ExampleList(a, b).modPacks;
    assert PackNamesDistinct(packs);
    PackKeysSpec(packs);
    var keys := PackKeys(packs).value;
    assert keys[0] == Standalone && keys[1] == "p1" && keys[2] == "p2";
    assert keys == [Standalone, "p1", "p2"];
  }

  /** A single classifiable mod with a name is one category node with one leaf. */
  lemma SingleModBranch(m: ModEntry)
    requires m.name != "" && MakeItemModel(m).Success?
    ensures DistinctCategories([m]) == [m.category]
    ensures CategoryBranch([m], m.category, false)
         == Success(Category(m.category, None, [Category(m.name, Some(MakeItemModel(m).value), [])]))
  {
    var leaf := Category(m.name, Some(MakeItemModel(m).value), []);
    assert [m][..0] == [];
    assert Leaves([], m.category) == Success([]);
    assert Names([]) == [];
    assert Leaves([m], m.category) == Success([] + [leaf]);
    assert [] + [leaf] == [leaf];
  }

  /** The branches of a single classifiable mod with a name: one category node with one leaf. */
  lemma SingleModBranches(m: ModEntry)
    requires m.name != "" && MakeItemModel(m).Success?
    ensures CategoryBranches([m], false)
         == Outcome([Category(m.category, None, [Category(m.name, Some(MakeItemModel(m).value), [])])], None)
  {
    SingleModBranch(m);
    CategoryBranchesShape([m], false);
    var o := CategoryBranches([m], false);
    assert |o.forest| == 1 by {
      if |o.forest| == 0 {
        assert false;
      }
    }
  }

  /** A pack holding a single classifiable mod is one category node with one leaf. */
  lemma SingleModPack(mods: seq<ModEntry>, key: string, m: ModEntry)
    requires ModsInPack(mods, key) == [m] && m.name != "" && MakeItemModel(m).Success?
    ensures PackNode(mods, key, false)
         == Success(Category(key, None, [Category(m.category, None, [Category(m.name, Some(MakeItemModel(m).value), [])])]))
  {
    SingleModBranches(m);
  }

  lemma ExamplePackNodes(a: ModEntry, b: ModEntry)
    requires TwoPackExample(a, b)
    ensures var leaf := Category("x", Some(BaseItem(a)), []);
      && PackNode([a, b], Standalone, false) == Success(Category(Standalone, None, []))
      && PackNode([a, b], "p1", false) == Success(Category("p1", None, [Category("c", None, [leaf])]))
      && PackNode([a, b], "p2", false) == Success(Category("p2", None, [Category("c", None, [leaf])]))
  {
    assert LastMatchingCategory("") == None;
    assert [a, b][..1] == [a] && [a][..0] == [];
    assert ModsInPack([a], Standalone) == [];
    assert ModsInPack([a, b], Standalone) == [];
    assert ModsInPack([a], "p1") == [a];
    assert ModsInPack([a, b], "p1") == [a];
    assert ModsInPack([a], "p2") == [];
    assert ModsInPack([a, b], "p2") == [b];
    SingleModPack([a, b], "p1", a);
    SingleModPack([a, b], "p2", b);
  }

  /** In mod-pack mode the example builds the standalone node, then "p1" and "p2" with the same leaf each. */
  lemma ExamplePackForest(a: ModEntry, b: ModEntry)
    requires TwoPackExample(a, b)
    ensures var leaf := Category("x", Some(BaseItem(a)), []);
      ModPackForest(Some(ExampleList(a, b)), false)
        == Outcome([Category(Standalone, None, []), Category("p1", None, [Category("c", None, [leaf])]),
                    Category("p2", None, [Category("c", None, [leaf])])], None)
  {
    var l := ExampleList(a, b);
    ExamplePackKeys(a, b);
    ExamplePackNodes(a, b);
    var leaf := Category("x", Some(BaseItem(a)), []);
    var o := Outcome([Category(Standalone, None, []), Category("p1", None, [Category("c", None, [leaf])]),
                      Category("p2", None, [Category("c", None, [leaf])])], None);
    var keys := [Standalone, "p1", "p2"];
    assert l.mods == [a, b];
    forall k | 0 <= k < 3 ensures PackNode(l.mods, keys[k], false) == Success(o.forest[k]) {
      assert k == 0 || k == 1 || k == 2;
    }
    PackNodesUnique(l.mods, keys, false, o);
  }

  /** In mod-pack mode the same name is a leaf under each of the two packs. */
  lemma ExamplePackMode(a: ModEntry, b: ModEntry)
    requires TwoPackExample(a, b)
    ensures var packs := ModPackForest(Some(ExampleList(a, b)), false).forest;
      && |packs| == 3 && |packs[1].children| == 1 && |packs[2].children| == 1
      && |packs[1].children[0].children| == 1 && |packs[2].children[0].children| == 1
  {
    ExamplePackForest(a, b);
  }

  /**
   * The two modes do not agree on leaf counts: one mod name under two packs
   * is a single leaf in item mode but a leaf under each pack in mod-pack mode.
   */
  lemma LeafCountsDifferBetweenModes(a: ModEntry, b: ModEntry)
    requires TwoPackExample(a, b)
    ensures var items := ItemForest(Some(ExampleList(a, b)), false).forest;
            var packs := ModPackForest(Some(ExampleList(a, b)), false).forest;
      && |items| == 2 && |items[1].children| == 1
      && |packs| == 3 && |packs[1].children| == 1 && |packs[2].children| == 1
      && |packs[1].children[0].children| + |packs[2].children[0].children| == 2
  {
    ExampleItemMode(a, b);
    ExamplePackMode(a, b);
  }
}
