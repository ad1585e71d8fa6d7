/**
 * The mod-pack information grid of `UpdateInfoGrid`: which mods a pack node
 * lists, the pack's author and version, the enabled and disabled counts,
 * the per-name tally rendered as `"[count] name\n"` lines, and the label of
 * the toggle button.
 */
module ModPackSummary {
  import opened Wrappers
  import opened Text
  import opened Manifest

  /** Resource texts (English). */
  const NotAvailable: string := "[ N/A ]"
  const EnableText: string := "Enable"
  const DisableText: string := "Disable"
  const EnableDisableText: string := "Enable/Disable"

  /**
   * A mod is listed under pack node `node`: for the standalone node, a named
   * mod without a pack; otherwise a mod of the pack with that name.
   */
  predicate Listed(m: ModEntry, node: string) {
    if node == Standalone then m.name != "" && m.modPack.None?
    else m.modPack.Some? && m.modPack.value.name == node
  }

  /** The mods listed under a pack node, in manifest order. */
  function ListedMods(mods: seq<ModEntry>, node: string): (r: seq<ModEntry>)
    ensures |r| <= |mods|
    ensures forall x :: x in r <==> x in mods && Listed(x, node)
  {
    if mods == [] then []
    else
      var acc := ListedMods(mods[..|mods| - 1], node);
      var m := mods[|mods| - 1];
      assert mods == mods[..|mods| - 1] + [m];
      if Listed(m, node) then acc + [m] else acc
  }

  /** The first manifest pack with this name (`FirstOrDefault`); `None` is the null record. */
  function FindPack(packs: seq<ModPackInfo>, name: string): (r: Option<ModPackInfo>)
    ensures r.None? <==> forall k | 0 <= k < |packs| :: packs[k].name != name
    ensures r.Some? ==> r.value in packs && r.value.name == name
    ensures r.Some? ==> exists k | 0 <= k < |packs| :: packs[k] == r.value && forall j | 0 <= j < k :: packs[j].name != name
  {
    if packs == [] then None
    else if packs[0].name == name then Some(packs[0])
    else FindPack(packs[1..], name)
  }

  /** Position of the first `x` in `s`. */
  function IndexIn(s: seq<string>, x: string): (r: nat)
    requires x in s
    ensures r < |s| && s[r] == x && forall j | 0 <= j < r :: s[j] != x
  {
    if s[0] == x then 0 else 1 + IndexIn(s[1..], x)
  }

  /**
   * The loop's counters: enabled and disabled mods, and the name dictionary
   * as its keys in insertion order with their counts.
   */
  datatype Tally = Tally(enabled: nat, disabled: nat, names: seq<string>, counts: seq<nat>)

  /** One mod: bump its status counter, then its name's count, adding the name when new. */
  function TallyStep(t: Tally, m: ModEntry): (r: Tally)
    requires |t.names| == |t.counts|
    ensures |r.names| == |r.counts|
  {
    var t := if m.enabled then t.(enabled := t.enabled + 1) else t.(disabled := t.disabled + 1);
    if m.name in t.names then
      var i := IndexIn(t.names, m.name);
      t.(counts := t.counts[i := t.counts[i] + 1])
    else t.(names := t.names + [m.name], counts := t.counts + [1])
  }

  function TallyOf(mods: seq<ModEntry>): (t: Tally)
    ensures |t.names| == |t.counts|
  {
    if mods == [] then Tally(0, 0, [], [])
    else TallyStep(TallyOf(mods[..|mods| - 1]), mods[|mods| - 1])
  }

  /** How many of `mods` carry this name. */
  function NameCount(mods: seq<ModEntry>, name: string): nat {
    if mods == [] then 0
    else NameCount(mods[..|mods| - 1], name) + (if mods[|mods| - 1].name == name then 1 else 0)
  }

  /** How many of `mods` are enabled. */
  function EnabledCount(mods: seq<ModEntry>): (r: nat)
    ensures r <= |mods|
  {
    if mods == [] then 0
    else EnabledCount(mods[..|mods| - 1]) + (if mods[|mods| - 1].enabled then 1 else 0)
  }

  /** The index of the first mod with this name, or `|mods|` when there is none. */
  function FirstNamed(mods: seq<ModEntry>, name: string): (r: nat)
    ensures r <= |mods| && forall j | 0 <= j < r :: mods[j].name != name
    ensures r < |mods| ==> mods[r].name == name
  {
    if mods == [] then 0
    else if mods[0].name == name then 0
    else 1 + FirstNamed(mods[1..], name)
  }

  function Sum(s: seq<nat>): nat {
    if s == [] then 0 else Sum(s[..|s| - 1]) + s[|s| - 1]
  }

  /** What the tally of a pack's mods says. */
  ghost predicate TallyFacts(mods: seq<ModEntry>, t: Tally) {
    && |t.names| == |t.counts|
    && t.enabled == EnabledCount(mods)
    && t.enabled + t.disabled == |mods|
    && (forall i, j | 0 <= i < j < |t.names| :: t.names[i] != t.names[j])
    && (forall x :: x in t.names <==> exists j | 0 <= j < |mods| :: mods[j].name == x)
    && (forall i | 0 <= i < |t.names| :: t.counts[i] == NameCount(mods, t.names[i]))
    && Sum(t.counts) == |mods|
  }

  /**
   * The enabled and disabled counts add up to the number of listed mods; the
   * dictionary holds each listed name once, with its number of mods, so the
   * counts add up to that number too.
   */
  lemma {:induction false} TallyOfFacts(mods: seq<ModEntry>)
    ensures TallyFacts(mods, TallyOf(mods))
  {
    if mods == [] {
      assert TallyOf(mods) == Tally(0, 0, [], []);
    } else {
      var init := mods[..|mods| - 1];
      var m := mods[|mods| - 1];
      assert mods == init + [m];
      assert TallyOf(mods) == TallyStep(TallyOf(init), m);
      TallyOfFacts(init);
      TallyStepFacts(init, TallyOf(init), m);
    }
  }

  lemma TallyStepFacts(init: seq<ModEntry>, t: Tally, m: ModEntry)
    requires TallyFacts(init, t)
    ensures TallyFacts(init + [m], TallyStep(t, m))
  {
    var mods := init + [m];
    assert mods[..|mods| - 1] == init;
    TallyStepNames(init, t, m);
    TallyStepCounts(init, t, m);
  }

  lemma TallyStepNames(init: seq<ModEntry>, t: Tally, m: ModEntry)
    requires TallyFacts(init, t)
    ensures var r := TallyStep(t, m);
      && (forall i, j | 0 <= i < j < |r.names| :: r.names[i] != r.names[j])
      && (forall x :: x in r.names <==> exists j | 0 <= j < |init + [m]| :: (init + [m])[j].name == x)
  {
    var mods := init + [m];
    var r := TallyStep(t, m);
    assert r.names == if m.name in t.names then t.names else t.names + [m.name];
    forall x
      ensures x in r.names <==> exists j | 0 <= j < |mods| :: mods[j].name == x
    {
      if x in r.names && x != m.name {
        assert x in t.names;
        var j :| 0 <= j < |init| && init[j].name == x;
        assert mods[j].name == x;
      }
      if x == m.name {
        assert mods[|mods| - 1].name == x;
      }
      if exists j | 0 <= j < |mods| :: mods[j].name == x {
        var j :| 0 <= j < |mods| && mods[j].name == x;
        if j < |init| {
          assert init[j].name == x;
        }
      }
    }
  }

  lemma TallyStepCounts(init: seq<ModEntry>, t: Tally, m: ModEntry)
    requires TallyFacts(init, t)
    ensures TallyStep(t, m).enabled == EnabledCount(init + [m])
    ensures TallyStep(t, m).enabled + TallyStep(t, m).disabled == |init + [m]|
    ensures forall i | 0 <= i < |TallyStep(t, m).names| ::
      TallyStep(t, m).counts[i] == NameCount(init + [m], TallyStep(t, m).names[i])
    ensures Sum(TallyStep(t, m).counts) == |init + [m]|
  {
    var mods := init + [m];
    assert mods[..|mods| - 1] == init;
    if m.name in t.names {
      var i := IndexIn(t.names, m.name);
      assert TallyStep(t, m).counts == t.counts[i := t.counts[i] + 1];
      SumUpdate(t.counts, i);
    } else {
      assert TallyStep(t, m).counts == t.counts + [1];
      assert Sum(t.counts + [1]) == Sum(t.counts) + 1 by {
        assert (t.counts + [1])[..|t.counts|] == t.counts;
      }
    }
    TallyStepNameCounts(init, t, m);
  }

  lemma TallyStepNameCounts(init: seq<ModEntry>, t: Tally, m: ModEntry)
    requires TallyFacts(init, t)
    ensures forall i | 0 <= i < |TallyStep(t, m).names| ::
      TallyStep(t, m).counts[i] == NameCount(init + [m], TallyStep(t, m).names[i])
  {
    var r := TallyStep(t, m);
    if m.name in t.names {
      var i := IndexIn(t.names, m.name);
      assert r.names == t.names && r.counts == t.counts[i := t.counts[i] + 1];
      forall k | 0 <= k < |r.names| ensures r.counts[k] == NameCount(init + [m], r.names[k]) {
        NameCountSnoc(init, m, r.names[k]);
        if k != i {
          assert t.names[k] != t.names[i];
        }
      }
    } else {
      assert r.names == t.names + [m.name] && r.counts == t.counts + [1];
      NameCountAbsent(init, m.name);
      forall k | 0 <= k < |r.names| ensures r.counts[k] == NameCount(init + [m], r.names[k]) {
        NameCountSnoc(init, m, r.names[k]);
        if k < |t.names| {
          assert t.names[k] in t.names;
        }
      }
    }
  }

  lemma NameCountSnoc(init: seq<ModEntry>, m: ModEntry, name: string)
    ensures NameCount(init + [m], name) == NameCount(init, name) + (if m.name == name then 1 else 0)
  {
    assert (init + [m])[..|init|] == init;
  }

  lemma {:induction false} NameCountAbsent(mods: seq<ModEntry>, name: string)
    requires forall j | 0 <= j < |mods| :: mods[j].name != name
    ensures NameCount(mods, name) == 0
  {
    if mods != [] {
      NameCountAbsent(mods[..|mods| - 1], name);
    }
  }

  lemma {:induction false} SumUpdate(s: seq<nat>, i: nat)
    requires i < |s|
    ensures Sum(s[i := s[i] + 1]) == Sum(s) + 1
  {
    var u := s[i := s[i] + 1];
    if i < |s| - 1 {
      assert u[..|u| - 1] == s[..|s| - 1][i := s[i] + 1];
      SumUpdate(s[..|s| - 1], i);
    } else {
      assert u[..|u| - 1] == s[..|s| - 1];
    }
  }

  /** Each key's first mod comes before the next key's. */
  predicate KeysInOrder(mods: seq<ModEntry>, names: seq<string>) {
    forall i, j | 0 <= i < j < |names| :: FirstNamed(mods, names[i]) < FirstNamed(mods, names[j])
  }

  /** The dictionary's keys come in the order of each name's first mod. */
  lemma {:induction false} TallyOrder(mods: seq<ModEntry>)
    ensures KeysInOrder(mods, TallyOf(mods).names)
  {
    if mods != [] {
      var init := mods[..|mods| - 1];
      var m := mods[|mods| - 1];
      assert mods == init + [m];
      TallyOrder(init);
      TallyOfFacts(init);
      TallyOrderStep(init, m, TallyOf(init));
    }
  }

  lemma TallyOrderStep(init: seq<ModEntry>, m: ModEntry, t0: Tally)
    requires TallyFacts(init, t0) && KeysInOrder(init, t0.names)
    ensures KeysInOrder(init + [m], TallyStep(t0, m).names)
  {
    var mods := init + [m];
    var t := TallyStep(t0, m);
    forall x | x in t0.names
      ensures FirstNamed(init, x) < |init| && FirstNamed(mods, x) == FirstNamed(init, x)
    {
      FirstNamedIn(init, x);
      FirstNamedPrefix(init, m, x);
    }
    if m.name in t0.names {
      assert t.names == t0.names;
    } else {
      FirstNamedNew(init, m, t0);
      assert t.names == t0.names + [m.name];
    }
    forall i, j | 0 <= i < j < |t.names|
      ensures FirstNamed(mods, t.names[i]) < FirstNamed(mods, t.names[j])
    {
      assert t.names[i] == t0.names[i] && t.names[i] in t0.names;
      if j < |t0.names| {
        assert t.names[j] == t0.names[j] && t.names[j] in t0.names;
      }
    }
  }

  lemma FirstNamedIn(mods: seq<ModEntry>, x: string)
    requires exists j | 0 <= j < |mods| :: mods[j].name == x
    ensures FirstNamed(mods, x) < |mods|
  {
  }

  lemma FirstNamedPrefix(init: seq<ModEntry>, m: ModEntry, name: string)
    requires FirstNamed(init, name) < |init|
    ensures FirstNamed(init + [m], name) == FirstNamed(init, name)
  {
    var mods := init + [m];
    var f := FirstNamed(init, name);
    assert mods[f].name == name;
    var g := FirstNamed(mods, name);
    assert g <= f;
  }

  lemma FirstNamedNew(init: seq<ModEntry>, m: ModEntry, t0: Tally)
    requires TallyFacts(init, t0) && m.name !in t0.names
    ensures FirstNamed(init + [m], m.name) == |init|
  {
    var mods := init + [m];
    forall j | 0 <= j < |init| ensures mods[j].name != m.name {
      assert mods[j] == init[j];
    }
    assert mods[|init|].name == m.name;
  }

  /** One content line: `"[count] name\n"`. */
  function Line(name: string, count: nat): (r: string)
    ensures |r| == |NatToString(count)| + |name| + 4
  {
    "[" + NatToString(count) + "] " + name + "\n"
  }

  /** A content line is the count in brackets, a space, the name and a line break. */
  lemma LineShape(name: string, count: nat)
    ensures var r := Line(name, count); var d := NatToString(count);
      && r[0] == '[' && r[|r| - 1] == '\n'
      && r[1..1 + |d|] == d && r[1 + |d|..3 + |d|] == "] " && r[3 + |d|..|r| - 1] == name
  {
    var d := NatToString(count);
    var r := Line(name, count);
    assert r[1..1 + |d|] == d;
    assert r[1 + |d|..3 + |d|] == "] ";
    assert r[3 + |d|..|r| - 1] == name;
  }

  /** The content list: one line per dictionary entry, in order. */
  function Render(names: seq<string>, counts: seq<nat>): (r: string)
    requires |names| == |counts|
    ensures r == [] <==> names == []
  {
    if names == [] then ""
    else Render(names[..|names| - 1], counts[..|counts| - 1]) + Line(names[|names| - 1], counts[|counts| - 1])
  }

  /** A non-empty content list ends with a line break. */
  lemma RenderEndsWithBreak(names: seq<string>, counts: seq<nat>)
    requires |names| == |counts| && names != []
    ensures var r := Render(names, counts); r[|r| - 1] == '\n'
  {
    LineShape(names[|names| - 1], counts[|counts| - 1]);
  }

  /** The toggle label shows the majority action: Disable only when more mods are enabled than disabled. */
  function ToggleText(enabled: nat, disabled: nat): (r: string)
    ensures r == DisableText <==> enabled > disabled
    ensures r == EnableText <==> enabled <= disabled
  {
    if enabled > disabled then DisableText else EnableText
  }

  /** The labels of the information grid. */
  datatype Grid = Grid(title: string, author: string, version: string, count: string, content: string, toggle: string)

  /**
   * `UpdateInfoGrid` for pack node `node`: `None` when the node is neither the
   * standalone node nor a manifest pack (the null record's author is read).
   */
  function InfoGrid(l: ModList, node: string): (r: Option<Grid>)
    ensures r.None? <==> node != Standalone && FindPack(l.modPacks, node).None?
    ensures r.Some? ==> r.value.title == node && r.value.count == NatToString(|ListedMods(l.mods, node)|)
    ensures r.Some? && node == Standalone ==> r.value.author == NotAvailable && r.value.version == NotAvailable
    ensures r.Some? && node != Standalone ==>
      && r.value.author == FindPack(l.modPacks, node).value.author
      && r.value.version == FindPack(l.modPacks, node).value.version
  {
    var listed := ListedMods(l.mods, node);
    var details :- if node == Standalone then Some(ModPackInfo(node, NotAvailable, NotAvailable)) else FindPack(l.modPacks, node);
    var t := TallyOf(listed);
    Some(Grid(node, details.author, details.version, NatToString(|listed|), Render(t.names, t.counts), ToggleText(t.enabled, t.disabled)))
  }

  /** The grid a pack node shows: `None` when the manifest is absent (null) or the node names no pack. */
  function GridOf(manifest: Option<ModList>, node: string): (r: Option<Grid>)
    ensures r.None? <==> manifest.None? || InfoGrid(manifest.value, node).None?
  {
    if manifest.None? then None else InfoGrid(manifest.value, node)
  }

  /**
   * The grid's toggle label reads Disable exactly when most listed mods are
   * enabled, and the content holds one line per listed name.
   */
  lemma InfoGridMajority(l: ModList, node: string)
    requires InfoGrid(l, node).Some?
    ensures var listed := ListedMods(l.mods, node);
      InfoGrid(l, node).value.toggle == DisableText <==> 2 * EnabledCount(listed) > |listed|
    ensures InfoGrid(l, node).value.content == "" <==> ListedMods(l.mods, node) == []
  {
    var listed := ListedMods(l.mods, node);
    var t := TallyOf(listed);
    assert InfoGrid(l, node).value.toggle == ToggleText(t.enabled, t.disabled);
    InfoGridParts(l, node);
    TallyOfFacts(listed);
    if listed != [] {
      assert listed[0].name in TallyOf(listed).names;
    }
  }

  /**
   * The names of `mods` in the order of each name's first mod: a name is
   * taken at the position of its first mod and nowhere else.
   */
  function FirstNames(mods: seq<ModEntry>): seq<string> {
    if mods == [] then []
    else
      var last := mods[|mods| - 1];
      FirstNames(mods[..|mods| - 1]) + (if FirstNamed(mods, last.name) == |mods| - 1 then [last.name] else [])
  }

  /** Each name's number of mods. */
  function CountsOf(mods: seq<ModEntry>, names: seq<string>): (r: seq<nat>)
    ensures |r| == |names| && forall i | 0 <= i < |names| :: r[i] == NameCount(mods, names[i])
  {
    seq(|names|, i requires 0 <= i < |names| => NameCount(mods, names[i]))
  }

  /** The dictionary's keys are the names in first-appearance order. */
  lemma {:induction false} TallyNamesAreFirstNames(mods: seq<ModEntry>)
    ensures TallyOf(mods).names == FirstNames(mods)
  {
    if mods != [] {
      var init := mods[..|mods| - 1];
      var m := mods[|mods| - 1];
      assert mods == init + [m];
      TallyNamesAreFirstNames(init);
      TallyOfFacts(init);
      var t0 := TallyOf(init);
      if m.name in t0.names {
        var j :| 0 <= j < |init| && init[j].name == m.name;
        FirstNamedIn(init, m.name);
        FirstNamedPrefix(init, m, m.name);
        assert TallyOf(mods).names == t0.names;
      } else {
        FirstNamedNew(init, m, t0);
        assert TallyOf(mods).names == t0.names + [m.name];
      }
    }
  }

  /**
   * The grid's content has one line per listed name, each name once, in the
   * order of its first listed mod, with that name's number of listed mods.
   */
  lemma InfoGridParts(l: ModList, node: string)
    requires InfoGrid(l, node).Some?
    ensures var listed := ListedMods(l.mods, node); var names := FirstNames(listed);
      && InfoGrid(l, node).value.content == Render(names, CountsOf(listed, names))
      && (forall i, j | 0 <= i < j < |names| :: names[i] != names[j])
      && (forall x :: x in names <==> exists j | 0 <= j < |listed| :: listed[j].name == x)
      && KeysInOrder(listed, names)
  {
    var listed := ListedMods(l.mods, node);
    var t := TallyOf(listed);
    assert InfoGrid(l, node).value.content == Render(t.names, t.counts);
    TallyIsFirstNames(listed);
  }

  /** The tally read back as first-appearance names with their counts. */
  lemma TallyIsFirstNames(mods: seq<ModEntry>)
    ensures var t := TallyOf(mods); var names := FirstNames(mods);
      && t.names == names && t.counts == CountsOf(mods, names)
      && (forall i, j | 0 <= i < j < |names| :: names[i] != names[j])
      && (forall x :: x in names <==> exists j | 0 <= j < |mods| :: mods[j].name == x)
      && KeysInOrder(mods, names)
      && t.enabled == EnabledCount(mods) && t.disabled == |mods| - EnabledCount(mods)
  {
    var t := TallyOf(mods);
    TallyOfFacts(mods);
    TallyOrder(mods);
    TallyNamesAreFirstNames(mods);
    assert t.counts == CountsOf(mods, t.names);
  }
}
