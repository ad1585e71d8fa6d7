/**
 * The tree view's node collection with its parent links made positional: a
 * node is addressed by the index of its top-level node and the child indexes
 * below it, and its parent is the address one step shorter. A top-level node
 * built in mod-pack mode has the detached "ModPacks" node as its parent; in
 * item mode it has none. This module holds the walk from a node up to its
 * enclosing pack and the tree edit of `RemoveItem`.
 */
module ModTree {
  import opened Wrappers
  import opened Manifest
  import opened Categories

  /** A top-level node; `underModPacks` when its parent is the detached "ModPacks" node. */
  datatype Root = Root(node: Category, underModPacks: bool)

  /** A node's address: its top-level node, then child indexes. */
  datatype Address = Address(root: nat, steps: seq<nat>)

  /** `steps` leads from `c` to a node. */
  predicate ValidIn(c: Category, steps: seq<nat>)
    decreases |steps|, 0
  {
    steps == [] ||
      (ValidIn(c, steps[..|steps| - 1]) && steps[|steps| - 1] < |Descend(c, steps[..|steps| - 1]).children|)
  }

  /** The node `steps` leads to from `c`. */
  function Descend(c: Category, steps: seq<nat>): Category
    requires ValidIn(c, steps)
    decreases |steps|, 1
  {
    if steps == [] then c else Descend(c, steps[..|steps| - 1]).children[steps[|steps| - 1]]
  }

  predicate Valid(roots: seq<Root>, a: Address) {
    a.root < |roots| && ValidIn(roots[a.root].node, a.steps)
  }

  function NodeAt(roots: seq<Root>, a: Address): Category
    requires Valid(roots, a)
  {
    Descend(roots[a.root].node, a.steps)
  }

  /** The address of a node's parent inside the collection (a top-level node has none). */
  function ParentOf(a: Address): Address
    requires a.steps != []
  {
    Address(a.root, a.steps[..|a.steps| - 1])
  }

  /** Node `a`'s `k`-th child. */
  function Child(a: Address, k: nat): Address {
    Address(a.root, a.steps + [k])
  }

  lemma ChildIsValid(roots: seq<Root>, a: Address, k: nat)
    requires Valid(roots, a) && k < |NodeAt(roots, a).children|
    ensures Valid(roots, Child(a, k)) && NodeAt(roots, Child(a, k)) == NodeAt(roots, a).children[k]
    ensures ParentOf(Child(a, k)) == a
  {
    assert (a.steps + [k])[..|a.steps|] == a.steps;
  }

  /**
   * The node at which the walk up the parent links stops, the first one whose
   * parent is named "ModPacks"; `None` when the walk meets a node without a
   * parent (a `NullReferenceException`).
   */
  function EnclosingPack(roots: seq<Root>, a: Address): Option<Address>
    requires Valid(roots, a)
    decreases |a.steps|
  {
    if a.steps == [] then
      if roots[a.root].underModPacks then Some(a) else None
    else if NodeAt(roots, ParentOf(a)).name == ModPacksLabel then Some(a)
    else EnclosingPack(roots, ParentOf(a))
  }

  /** No node strictly above `a`'s depth, up to and including its top-level node, is named "ModPacks". */
  predicate NoModPacksAbove(roots: seq<Root>, a: Address)
    requires Valid(roots, a)
  {
    forall k | 0 <= k < |a.steps| :: ValidIn(roots[a.root].node, a.steps[..k]) &&
      Descend(roots[a.root].node, a.steps[..k]).name != ModPacksLabel
  }

  /**
   * In a tree built in mod-pack mode, the walk from any node whose ancestors
   * are not named "ModPacks" ends at its top-level pack node; in an item-mode
   * tree it ends at a missing parent.
   */
  lemma {:induction false} EnclosingPackIsTopLevel(roots: seq<Root>, a: Address)
    requires Valid(roots, a) && NoModPacksAbove(roots, a)
    ensures roots[a.root].underModPacks ==> EnclosingPack(roots, a) == Some(Address(a.root, []))
    ensures !roots[a.root].underModPacks ==> EnclosingPack(roots, a) == None
    decreases |a.steps|
  {
    if a.steps != [] {
      var p := ParentOf(a);
      assert a.steps[..|a.steps| - 1] == p.steps;
      assert NoModPacksAbove(roots, p) by {
        forall k | 0 <= k < |p.steps|
          ensures ValidIn(roots[a.root].node, p.steps[..k]) && Descend(roots[a.root].node, p.steps[..k]).name != ModPacksLabel
        {
          assert p.steps[..k] == a.steps[..k];
        }
      }
      EnclosingPackIsTopLevel(roots, p);
    }
  }

  /** A category node that a mod happens to name "ModPacks" stops the walk below the pack. */
  lemma ModPacksNamedParentStopsWalk(roots: seq<Root>, a: Address)
    requires Valid(roots, a) && a.steps != [] && NodeAt(roots, ParentOf(a)).name == ModPacksLabel
    ensures EnclosingPack(roots, a) == Some(a)
  {
  }

  // ---------------------------------------------------------------------------
  // RemoveItem
  // ---------------------------------------------------------------------------

  /** The index of the first top-level node with this name. */
  function FirstRootNamed(roots: seq<Root>, name: string): (r: Option<nat>)
    ensures r.Some? ==> (r.value < |roots| && roots[r.value].node.name == name &&
                         forall i | 0 <= i < r.value :: roots[i].node.name != name)
    ensures r.None? ==> forall i | 0 <= i < |roots| :: roots[i].node.name != name
  {
    if roots == [] then None
    else if roots[0].node.name == name then Some(0)
    else
      var r := FirstRootNamed(roots[1..], name);
      if r.Some? then Some(r.value + 1) else None
  }

  /** The index of the first child with this name. */
  function FirstChildNamed(kids: seq<Category>, name: string): (r: Option<nat>)
    ensures r.Some? ==> (r.value < |kids| && kids[r.value].name == name &&
                         forall j | 0 <= j < r.value :: kids[j].name != name)
    ensures r.None? ==> forall j | 0 <= j < |kids| :: kids[j].name != name
  {
    if kids == [] then None
    else if kids[0].name == name then Some(0)
    else
      var r := FirstChildNamed(kids[1..], name);
      if r.Some? then Some(r.value + 1) else None
  }

  /**
   * Mod-pack mode: the first top-level pack node, in order, with a child of
   * this name, and that child's index.
   */
  function FirstPackChild(roots: seq<Root>, name: string): (r: Option<Address>)
    ensures r.Some? ==> |r.value.steps| == 1 && Valid(roots, r.value) && NodeAt(roots, r.value).name == name
    ensures r.Some? ==> r.value.steps[0] < |roots[r.value.root].node.children|
    ensures r.Some? ==> forall j | 0 <= j < r.value.steps[0] :: roots[r.value.root].node.children[j].name != name
    ensures r.Some? ==> forall i, j | 0 <= i < r.value.root && 0 <= j < |roots[i].node.children| ::
      roots[i].node.children[j].name != name
    ensures r.None? ==> forall i, j | 0 <= i < |roots| && 0 <= j < |roots[i].node.children| ::
      roots[i].node.children[j].name != name
  {
    if roots == [] then None
    else match FirstChildNamed(roots[0].node.children, name)
      case Some(j) =>
        assert ValidIn(roots[0].node, [j]) by {
          assert [j][..0] == [];
          assert ValidIn(roots[0].node, []) && Descend(roots[0].node, []) == roots[0].node;
        }
        Some(Address(0, [j]))
      case None =>
        var r := FirstPackChild(roots[1..], name);
        if r.Some? then
          assert ValidIn(roots[r.value.root + 1].node, r.value.steps) by {
            assert roots[1..][r.value.root] == roots[r.value.root + 1];
          }
          assert forall i | 1 <= i < r.value.root + 1 :: roots[i] == roots[1..][i - 1];
          Some(Address(r.value.root + 1, r.value.steps))
        else None
  }

  /** `list.Remove(x)` by position: the element at `k` is taken out when there is one. */
  function RemoveAt<T>(s: seq<T>, k: nat): (r: seq<T>)
    ensures k < |s| ==> |r| == |s| - 1 && forall i | 0 <= i < |r| :: r[i] == if i < k then s[i] else s[i + 1]
    ensures k >= |s| ==> r == s
  {
    if k < |s| then s[..k] + s[k + 1..] else s
  }

  /** Replace the node at `a` (at depth one or less) by `c`. */
  function Replace(roots: seq<Root>, a: Address, c: Category): (r: seq<Root>)
    requires Valid(roots, a) && |a.steps| <= 1
    ensures |r| == |roots| && Valid(r, a) && NodeAt(r, a) == c
    ensures forall i | 0 <= i < |roots| && i != a.root :: r[i] == roots[i]
    ensures r[a.root].underModPacks == roots[a.root].underModPacks
    ensures |a.steps| == 1 ==> SameButChild(roots[a.root].node, r[a.root].node, a.steps[0])
  {
    var r := roots[a.root];
    if a.steps == [] then roots[a.root := r.(node := c)]
    else
      var kids := r.node.children;
      assert a.steps[..0] == [] && Descend(r.node, a.steps[..0]) == r.node;
      var n := r.node.(children := kids[a.steps[0] := c]);
      assert ValidIn(n, a.steps[..0]) && Descend(n, a.steps[..0]) == n;
      roots[a.root := r.(node := n)]
  }

  /** `d` is `c` with only its `k`-th child replaced. */
  predicate SameButChild(c: Category, d: Category, k: nat) {
    && d.name == c.name && d.item == c.item && |d.children| == |c.children|
    && forall j | 0 <= j < |c.children| && j != k :: d.children[j] == c.children[j]
  }

  /**
   * The node `RemoveItem` takes the selected node out of, found by the mod's
   * category: in mod-pack mode the first pack child of that name, else the
   * first top-level node of that name.
   */
  function ParentFor(roots: seq<Root>, packMode: bool, category: string): (r: Option<Address>)
    ensures r.Some? ==> Valid(roots, r.value) && |r.value.steps| <= 1 && NodeAt(roots, r.value).name == category
    ensures packMode ==> r == FirstPackChild(roots, category)
    ensures !packMode ==> r.None? == FirstRootNamed(roots, category).None?
    ensures !packMode && r.Some? ==> r.value == Address(FirstRootNamed(roots, category).value, [])
  {
    if packMode then FirstPackChild(roots, category)
    else
      var i :- FirstRootNamed(roots, category);
      Some(Address(i, []))
  }

  /** `sel` is the `k`-th child of `p` for some `k` below `n`. */
  predicate IsChildOf(sel: Address, p: Address, n: nat) {
    sel.root == p.root && |sel.steps| == |p.steps| + 1 && sel.steps[..|p.steps|] == p.steps && sel.steps[|p.steps|] < n
  }

  /**
   * The tree edit of `RemoveItem` once no mod of the deleted name remains.
   * The parent is looked up by the mod's category (in mod-pack mode among the
   * children of the pack nodes, else among the top-level nodes), not by the
   * selected node's own parent link; the selected node `sel` is taken out of
   * it only when it is one of its children. A parent left empty is then
   * removed from the top-level collection, which only finds it in item mode.
   * `None`: no such parent (a `NullReferenceException`).
   */
  function RemoveLeaf(roots: seq<Root>, packMode: bool, category: string, sel: Address): (r: Option<seq<Root>>)
    ensures r.None? <==> ParentFor(roots, packMode, category).None?
    ensures r.None? <==> (if packMode then FirstPackChild(roots, category).None? else FirstRootNamed(roots, category).None?)
  {
    var parent :- ParentFor(roots, packMode, category);
    var node := NodeAt(roots, parent);
    var kids :=
      if sel.root == parent.root && |sel.steps| == |parent.steps| + 1 && sel.steps[..|parent.steps|] == parent.steps
      then RemoveAt(node.children, sel.steps[|parent.steps|])
      else node.children;
    if kids == [] && parent.steps == [] then Some(RemoveAt(roots, parent.root))
    else Some(Replace(roots, parent, node.(children := kids)))
  }

  /**
   * What `RemoveItem` does to the tree, for every input: the selected node is
   * taken out of the parent when it is one of its children, the other children
   * keeping their order, and the parent's children are untouched otherwise;
   * the parent is dropped exactly when it is a top-level node left without
   * children; every other top-level node, and every other child of the pack
   * node above the parent, stays as it was.
   */
  lemma RemoveLeafShape(roots: seq<Root>, packMode: bool, category: string, sel: Address, p: Address, r: seq<Root>)
    requires ParentFor(roots, packMode, category) == Some(p)
    requires RemoveLeaf(roots, packMode, category, sel) == Some(r)
    ensures Valid(roots, p)
    ensures var kids := NodeAt(roots, p).children;
      var left := if IsChildOf(sel, p, |kids|) then |kids| - 1 else |kids|;
      (|r| < |roots| <==> left == 0 && p.steps == [])
    ensures var kids := NodeAt(roots, p).children;
      var left := if IsChildOf(sel, p, |kids|) then |kids| - 1 else |kids|;
      left == 0 && p.steps == [] ==> r == roots[..p.root] + roots[p.root + 1..]
    ensures |r| == |roots| ==>
      && Valid(r, p)
      && (forall i | 0 <= i < |roots| && i != p.root :: r[i] == roots[i])
      && r[p.root].underModPacks == roots[p.root].underModPacks
      && NodeAt(r, p).name == NodeAt(roots, p).name && NodeAt(r, p).item == NodeAt(roots, p).item
      && (|p.steps| == 1 ==> SameButChild(roots[p.root].node, r[p.root].node, p.steps[0]))
    ensures |r| == |roots| && !IsChildOf(sel, p, |NodeAt(roots, p).children|) ==>
      Valid(r, p) && NodeAt(r, p).children == NodeAt(roots, p).children
    ensures |r| == |roots| && IsChildOf(sel, p, |NodeAt(roots, p).children|) ==>
      var kids := NodeAt(roots, p).children;
      var k := sel.steps[|p.steps|];
      && Valid(r, p)
      && |NodeAt(r, p).children| == |kids| - 1
      && forall j | 0 <= j < |kids| - 1 :: NodeAt(r, p).children[j] == if j < k then kids[j] else kids[j + 1]
  {
  }

  /**
   * Item mode: deleting the last leaf of a top-level category removes the
   * category node itself.
   */
  lemma ItemModePrunesEmptyCategory(roots: seq<Root>, i: nat, k: nat)
    requires i < |roots| && |roots[i].node.children| == 1 && k == 0
    requires FirstRootNamed(roots, roots[i].node.name) == Some(i)
    ensures RemoveLeaf(roots, false, roots[i].node.name, Address(i, [k])) == Some(roots[..i] + roots[i + 1..])
  {
    assert [k][..0] == [];
  }

  /**
   * Mod-pack mode, as written: deleting the last leaf of a category leaves
   * the category node in its pack with no children, because the pruning step
   * looks for that node among the top-level pack nodes.
   */
  lemma PackModeKeepsEmptyCategory(roots: seq<Root>, parent: Address)
    requires Valid(roots, parent) && FirstPackChild(roots, NodeAt(roots, parent).name) == Some(parent)
    requires |NodeAt(roots, parent).children| == 1
    ensures var r := RemoveLeaf(roots, true, NodeAt(roots, parent).name, Child(parent, 0));
      && r.Some? && |r.value| == |roots|
      && r.value == Replace(roots, parent, NodeAt(roots, parent).(children := []))
  {
    assert (parent.steps + [0])[..|parent.steps|] == parent.steps;
  }
}
