/**
 * The preview list of `UpdateList`: which mods a selected leaf lists, the
 * Race, Map, Part and Number labels derived from a mod's path by first-match
 * rules, and the per-mod loop with its progress reports, cancellation
 * checkpoints and error handling. Reading material and texture data, the
 * data-file table and the race-code table are services given as parameters;
 * the pixels of a thumbnail are not modelled, only which kind it is.
 */
module PreviewRows {
  import opened Wrappers
  import opened Text
  import opened Manifest
  import opened ItemClassifier

  /** The exceptions that end the preview task early. */
  datatype Fault =
    | NoManifest       // the manifest deserialized to null
    | NoCategory       // the selected item's primary category is null
    | OutOfRange       // a Substring range outside the path
    | UnknownDataFile  // the data file name has no table entry
    | DecodeFault      // the texture could not be decoded
    | NoPackParent     // the walk to the enclosing pack met a node without a parent

  // ---------------------------------------------------------------------------
  // Mod selection
  // ---------------------------------------------------------------------------

  /**
   * A mod is listed for the selected leaf when its name is the leaf's; in
   * mod-pack mode (`pack` present) it must also be a standalone mod or belong
   * to the enclosing pack.
   */
  predicate Selected(m: ModEntry, name: string, pack: Option<string>) {
    m.name == name && (pack.None? || m.modPack.None? || m.modPack.value.name == pack.value)
  }

  /** The listed mods, in manifest order. */
  function SelectMods(mods: seq<ModEntry>, name: string, pack: Option<string>): (r: seq<ModEntry>)
    ensures |r| <= |mods|
    ensures forall x :: x in r <==> x in mods && Selected(x, name, pack)
  {
    if mods == [] then []
    else
      var acc := SelectMods(mods[..|mods| - 1], name, pack);
      var m := mods[|mods| - 1];
      assert mods == mods[..|mods| - 1] + [m];
      if Selected(m, name, pack) then acc + [m] else acc
  }

  /** The listed mods among the first `j + 1`: those among the first `j`, then mod `j` if it is listed. */
  lemma SelectModsStep(mods: seq<ModEntry>, j: nat, name: string, pack: Option<string>)
    requires j < |mods|
    ensures SelectMods(mods[..j + 1], name, pack)
         == SelectMods(mods[..j], name, pack) + (if Selected(mods[j], name, pack) then [mods[j]] else [])
  {
    assert mods[..j + 1][..j] == mods[..j];
  }

  // ---------------------------------------------------------------------------
  // Labels
  // ---------------------------------------------------------------------------

  const AllRaces: string := "All"
  const MonsterRace: string := "Monster"

  /** Where a row's race comes from: a fixed label, or a four-character race code read at `start`. */
  datatype RaceSource = FixedRace(race: string) | CodeAt(start: int)

  /** The race rule of the selected item's primary category. */
  function RaceSourceOf(cat: PrimaryCategory, path: string): RaceSource {
    match cat
    case Gear =>
      if Contains(path, "equipment") then
        CodeAt((if Contains(path, "/v") then LastIndexOf(path, "_c") else LastIndexOf(path, "/c")) + 2)
      else FixedRace(AllRaces)
    case Character =>
      if !Contains(path, "chara/common") then CodeAt(IndexOf(path, "n/c") + 3) else FixedRace(AllRaces)
    case Companions => FixedRace(MonsterRace)
    case UI => FixedRace(AllRaces)
    case Housing => FixedRace(AllRaces)
  }

  /**
   * The Race label; the category is the selected item's, not the mod's, and
   * a null category or a code range outside the path is a fault.
   */
  function RaceLabel(cat: Option<PrimaryCategory>, path: string, raceName: string -> string): (r: Result<string, Fault>)
    ensures cat.None? ==> r == Failure(NoCategory)
    ensures cat.Some? && RaceSourceOf(cat.value, path).FixedRace? ==> r == Success(RaceSourceOf(cat.value, path).race)
    ensures cat.Some? && RaceSourceOf(cat.value, path).CodeAt? ==>
      var s := RaceSourceOf(cat.value, path).start;
      (r.Success? <==> 0 <= s && s + 4 <= |path|) && (r.Success? ==> r.value == raceName(path[s..s + 4]))
    ensures r.Failure? ==> r.error in {NoCategory, OutOfRange}
  {
    match cat
    case None => Failure(NoCategory)
    case Some(c) =>
      match RaceSourceOf(c, path)
      case FixedRace(race) => Success(race)
      case CodeAt(start) =>
        match Substring(path, start, 4)
        case None => Failure(OutOfRange)
        case Some(code) => Success(raceName(code))
  }

  /** The last occurrence of `pat` in `s` is at `i`. */
  lemma LastIndexOfIs(s: string, pat: string, i: int)
    requires OccursAt(s, pat, i) && forall j | i < j :: !OccursAt(s, pat, j)
    ensures LastIndexOf(s, pat) == i
  {
    assert Contains(s, pat);
  }

  /** The first occurrence of `pat` in `s` is at `i`. */
  lemma IndexOfIs(s: string, pat: string, i: int)
    requires OccursAt(s, pat, i) && forall j | 0 <= j < i :: !OccursAt(s, pat, j)
    ensures IndexOf(s, pat) == i
  {
    assert Contains(s, pat);
  }

  /** For gear, a variant equipment path's race code is the four characters after its last `_c`. */
  lemma GearVariantRace(path: string, i: int, raceName: string -> string)
    requires Contains(path, "equipment") && Contains(path, "/v")
    requires OccursAt(path, "_c", i) && forall j | i < j :: !OccursAt(path, "_c", j)
    requires i + 6 <= |path|
    ensures RaceLabel(Some(Gear), path, raceName) == Success(raceName(path[i + 2..i + 6]))
  {
    LastIndexOfIs(path, "_c", i);
  }

  /**
   * For gear, a variant equipment path without any `_c` still reads a race
   * code: `LastIndexOf` gives -1, so the code is the four characters at index 1.
   */
  lemma GearVariantWithoutMarker(path: string, raceName: string -> string)
    requires Contains(path, "equipment") && Contains(path, "/v") && !Contains(path, "_c")
    ensures RaceLabel(Some(Gear), path, raceName) == Success(raceName(path[1..5]))
  {
    assert |path| >= 9 by {
      var i :| 0 <= i <= |path| - 9 && OccursAt(path, "equipment", i);
    }
  }

  /** For a character item, a path outside `chara/common` takes its race code after the first `n/c`. */
  lemma CharacterRace(path: string, i: int, raceName: string -> string)
    requires !Contains(path, "chara/common")
    requires OccursAt(path, "n/c", i) && forall j | 0 <= j < i :: !OccursAt(path, "n/c", j)
    requires i + 7 <= |path|
    ensures RaceLabel(Some(Character), path, raceName) == Success(raceName(path[i + 3..i + 7]))
  {
    IndexOfIs(path, "n/c", i);
  }

  /** `XivTexType` and its enum names. */
  datatype TexType = Diffuse | Normal | Specular | Multi | ColorSet | Mask | Vfx | Icon | Map

  function TexTypeName(t: TexType): string {
    match t
    case Diffuse => "Diffuse"
    case Normal => "Normal"
    case Specular => "Specular"
    case Multi => "Multi"
    case ColorSet => "ColorSet"
    case Mask => "Mask"
    case Vfx => "Vfx"
    case Icon => "Icon"
    case Map => "Map"
  }

  /** The texture type a path names, if any, and the Map label shown. */
  datatype MapResult = MapResult(texType: Option<TexType>, text: string)

  /** The Map rules that name a texture type, in the order they are tried. */
  const MapPatterns: seq<string> := ["_d.", "_n.", "_s.", "_m.", "material", "decal", "vfx"]
  const MapTypes: seq<TexType> := [Diffuse, Normal, Specular, Multi, ColorSet, Mask, Vfx]

  /** Pattern `k` is the first of `pats` that `path` contains. */
  predicate FirstHit(path: string, pats: seq<string>, k: int) {
    0 <= k < |pats| && Contains(path, pats[k]) && forall j | 0 <= j < k :: !Contains(path, pats[j])
  }

  predicate NoHit(path: string, pats: seq<string>) {
    forall j | 0 <= j < |pats| :: !Contains(path, pats[j])
  }

  /**
   * The Map label: the first matching rule wins; under `ui/` an icon or map
   * texture is named, any other UI path shows "UI"; a model shows "3D" and
   * anything else "--".
   */
  function MapLabel(path: string): (r: MapResult)
    ensures r.texType.Some? ==> r.text == TexTypeName(r.texType.value)
    ensures r.texType.None? <==> r.text in {"UI", "3D", "--"}
  {
    if Contains(path, "_d.") then MapResult(Some(Diffuse), TexTypeName(Diffuse))
    else if Contains(path, "_n.") then MapResult(Some(Normal), TexTypeName(Normal))
    else if Contains(path, "_s.") then MapResult(Some(Specular), TexTypeName(Specular))
    else if Contains(path, "_m.") then MapResult(Some(Multi), TexTypeName(Multi))
    else if Contains(path, "material") then MapResult(Some(ColorSet), TexTypeName(ColorSet))
    else if Contains(path, "decal") then MapResult(Some(Mask), TexTypeName(Mask))
    else if Contains(path, "vfx") then MapResult(Some(Vfx), TexTypeName(Vfx))
    else if Contains(path, "ui/") then
      if Contains(path, "icon") then MapResult(Some(Icon), TexTypeName(Icon))
      else if Contains(path, "map") then MapResult(Some(Map), TexTypeName(Map))
      else MapResult(None, "UI")
    else if Contains(path, ".mdl") then MapResult(None, "3D")
    else MapResult(None, "--")
  }

  /**
   * The first Map rule a path matches decides its texture type; past those
   * rules a `ui/` path is an icon, a map or plain UI; "--" means the path
   * matched no rule at all.
   */
  lemma MapLabelRules(path: string)
    ensures forall k | 0 <= k < |MapPatterns| :: FirstHit(path, MapPatterns, k) ==> MapLabel(path).texType == Some(MapTypes[k])
    ensures NoHit(path, MapPatterns) && Contains(path, "ui/") && Contains(path, "icon") ==>
      MapLabel(path) == MapResult(Some(Icon), "Icon")
    ensures NoHit(path, MapPatterns) && Contains(path, "ui/") && !Contains(path, "icon") && Contains(path, "map") ==>
      MapLabel(path) == MapResult(Some(Map), "Map")
    ensures NoHit(path, MapPatterns) && Contains(path, "ui/") && !Contains(path, "icon") && !Contains(path, "map") ==>
      MapLabel(path) == MapResult(None, "UI")
    ensures NoHit(path, MapPatterns + ["ui/"]) && Contains(path, ".mdl") ==> MapLabel(path) == MapResult(None, "3D")
    ensures MapLabel(path).text == "--" <==> NoHit(path, MapPatterns + ["ui/", ".mdl"])
  {
    var all := MapPatterns + ["ui/", ".mdl"];
    assert MapPatterns[0] == "_d." && MapPatterns[1] == "_n." && MapPatterns[2] == "_s." && MapPatterns[3] == "_m.";
    assert MapPatterns[4] == "material" && MapPatterns[5] == "decal" && MapPatterns[6] == "vfx";
    assert all[7] == "ui/" && all[8] == ".mdl";
    assert forall j | 0 <= j < 7 :: all[j] == MapPatterns[j];
    var ui := MapPatterns + ["ui/"];
    assert ui[7] == "ui/" && forall j | 0 <= j < 7 :: ui[j] == MapPatterns[j];
  }

  predicate PartHit(path: string, p: char) {
    Contains(path, ['_', p, '_']) || Contains(path, ['_', p, '.'])
  }

  /** The Part label: "b", "c" or "d" by the first matching part marker, else "a". */
  function PartLabel(path: string): (r: string)
    ensures r in {"a", "b", "c", "d"}
    ensures r == "b" <==> PartHit(path, 'b')
    ensures r == "c" <==> !PartHit(path, 'b') && PartHit(path, 'c')
    ensures r == "d" <==> !PartHit(path, 'b') && !PartHit(path, 'c') && PartHit(path, 'd')
  {
    if Contains(path, "_b_") || Contains(path, "_b.") then "b"
    else if Contains(path, "_c_") || Contains(path, "_c.") then "c"
    else if Contains(path, "_d_") || Contains(path, "_d.") then "d"
    else "a"
  }

  /** The `len` characters `skip` places after the first `marker`. */
  function Field(path: string, marker: string, skip: int, len: int): Option<string> {
    Substring(path, IndexOf(path, marker) + skip, len)
  }

  /** The character-part folders whose number is a three-digit field. */
  const PartFolders: seq<string> := ["/hair", "/body", "/face", "/tail", "/zear"]

  predicate DecalEquip(path: string) {
    Contains(path, "/decal_equip") && !Contains(path, "stigma")
  }

  /** The path names a numbered part; only then can the Number label fault. */
  predicate HasNumber(path: string) {
    !NoHit(path, PartFolders) || Contains(path, "/decal_face") || DecalEquip(path)
  }

  /** `None` when the field lies outside the path. */
  function NumberLabel(path: string): (r: Option<string>)
    ensures r.None? ==> HasNumber(path)
    ensures !HasNumber(path) ==> r == Some("--")
  {
    assert PartFolders[0] == "/hair" && PartFolders[1] == "/body" && PartFolders[2] == "/face";
    assert PartFolders[3] == "/tail" && PartFolders[4] == "/zear";
    if Contains(path, "/hair") then
      var f :- Field(path, "/hair", 8, 3); Some(TrimStart(f, '0'))
    else if Contains(path, "/body") then
      var f :- Field(path, "/body", 8, 3); Some(TrimStart(f, '0'))
    else if Contains(path, "/face") then
      var f :- Field(path, "/face", 8, 3); Some(TrimStart(f, '0'))
    else if Contains(path, "/tail") then
      var f :- Field(path, "/tail", 8, 3); Some(TrimStart(f, '0'))
    else if Contains(path, "/zear") then
      var f :- Field(path, "/zear", 8, 3); Some(TrimStart(f, '0'))
    else if Contains(path, "/decal_face") then
      var f :- Field(path, "/decal_face", 19, 2); Some(TrimEnd(f, '.'))
    else if DecalEquip(path) then Field(path, "/decal_equip", 20, 3)
    else Some("--")
  }

  /**
   * A character part's number has at most three characters and no leading
   * zero, a face decal's at most two and no trailing dot, an equipment
   * decal's exactly three.
   */
  lemma NumberLabelRules(path: string)
    ensures var r := NumberLabel(path);
      !NoHit(path, PartFolders) && r.Some? ==> |r.value| <= 3 && (r.value == [] || r.value[0] != '0')
    ensures var r := NumberLabel(path);
      NoHit(path, PartFolders) && Contains(path, "/decal_face") && r.Some? ==>
        |r.value| <= 2 && (r.value == [] || r.value[|r.value| - 1] != '.')
    ensures var r := NumberLabel(path);
      NoHit(path, PartFolders) && !Contains(path, "/decal_face") && DecalEquip(path) && r.Some? ==> |r.value| == 3
  {
    assert PartFolders[0] == "/hair" && PartFolders[1] == "/body" && PartFolders[2] == "/face";
    assert PartFolders[3] == "/tail" && PartFolders[4] == "/zear";
  }

  /**
   * A character part's number: for the first part folder the path names,
   * the three characters eight past that folder's first occurrence, without
   * leading zeros; a fault when they run past the end of the path.
   */
  lemma PartNumber(path: string, k: nat, i: nat)
    requires k < |PartFolders| && forall j | 0 <= j < k :: !Contains(path, PartFolders[j])
    requires OccursAt(path, PartFolders[k], i) && forall j | 0 <= j < i :: !OccursAt(path, PartFolders[k], j)
    ensures NumberLabel(path) == if i + 11 <= |path| then Some(TrimStart(path[i + 8..i + 11], '0')) else None
  {
    assert PartFolders[0] == "/hair" && PartFolders[1] == "/body" && PartFolders[2] == "/face";
    assert PartFolders[3] == "/tail" && PartFolders[4] == "/zear";
    assert Contains(path, PartFolders[k]);
    IndexOfIs(path, PartFolders[k], i);
    assert Field(path, PartFolders[k], 8, 3) == if i + 11 <= |path| then Some(path[i + 8..i + 11]) else None;
  }

  /**
   * A face decal's number, when the path names no part folder: the two
   * characters nineteen past the first `/decal_face`, without trailing dots;
   * a fault when they run past the end of the path.
   */
  lemma DecalFaceNumber(path: string, i: nat)
    requires NoHit(path, PartFolders)
    requires OccursAt(path, "/decal_face", i) && forall j | 0 <= j < i :: !OccursAt(path, "/decal_face", j)
    ensures NumberLabel(path) == if i + 21 <= |path| then Some(TrimEnd(path[i + 19..i + 21], '.')) else None
  {
    assert PartFolders[0] == "/hair" && PartFolders[1] == "/body" && PartFolders[2] == "/face";
    assert PartFolders[3] == "/tail" && PartFolders[4] == "/zear";
    assert Contains(path, "/decal_face");
    IndexOfIs(path, "/decal_face", i);
    assert Field(path, "/decal_face", 19, 2) == if i + 21 <= |path| then Some(path[i + 19..i + 21]) else None;
  }

  /**
   * An equipment decal's number, when the path names no part folder, no
   * face decal and no stigma: the three characters twenty past the first
   * `/decal_equip`, untrimmed; a fault when they run past the end.
   */
  lemma DecalEquipNumber(path: string, i: nat)
    requires NoHit(path, PartFolders) && !Contains(path, "/decal_face") && !Contains(path, "stigma")
    requires OccursAt(path, "/decal_equip", i) && forall j | 0 <= j < i :: !OccursAt(path, "/decal_equip", j)
    ensures NumberLabel(path) == if i + 23 <= |path| then Some(path[i + 20..i + 23]) else None
  {
    assert PartFolders[0] == "/hair" && PartFolders[1] == "/body" && PartFolders[2] == "/face";
    assert PartFolders[3] == "/tail" && PartFolders[4] == "/zear";
    assert Contains(path, "/decal_equip");
    IndexOfIs(path, "/decal_equip", i);
    assert Field(path, "/decal_equip", 20, 3) == if i + 23 <= |path| then Some(path[i + 20..i + 23]) else None;
  }

  /**
   * A hair texture's number is the last three digits of the four-digit id
   * after the first `/hair/h`, without leading zeros.
   */
  lemma HairNumber(path: string, i: nat)
    requires OccursAt(path, "/hair/h", i) && i + 11 <= |path|
    requires forall j | 0 <= j < i :: !OccursAt(path, "/hair", j)
    ensures NumberLabel(path) == Some(TrimStart(path[i + 8..i + 11], '0'))
  {
    assert OccursAt(path, "/hair", i) by {
      assert path[i..i + 7] == "/hair/h";
      assert path[i..i + 5] == path[i..i + 7][..5] == "/hair";
    }
    assert Contains(path, "/hair");
    var x := IndexOf(path, "/hair");
    assert x == i by {
      assert OccursAt(path, "/hair", x) && OccursAt(path, "/hair", i);
      assert !(x < i);
      assert !(i < x);
    }
    assert Field(path, "/hair", 8, 3) == Some(path[i + 8..i + 11]);
  }

  // ---------------------------------------------------------------------------
  // Rows
  // ---------------------------------------------------------------------------

  datatype Brush = Green | Transparent | Red | Gray
  datatype Opacity = Opaque | HalfOpaque

  /** A row's status visuals: border brush, fill brush and opacity. */
  datatype Look = Look(border: Brush, fill: Brush, opacity: Opacity)

  /** The status visuals of an enabled (green, clear, opaque) or disabled (red, grey, half) mod. */
  function StatusLook(enabled: bool): (r: Look)
    ensures ShowsEnabled(r) == enabled
    ensures r.border == Green <==> r.fill == Transparent
    ensures r.border == Green <==> r.opacity == Opaque
  {
    if enabled then Look(Green, Transparent, Opaque) else Look(Red, Gray, HalfOpaque)
  }

  /** What a row's visuals tell the user about its mod. */
  predicate ShowsEnabled(l: Look) {
    l.border == Green
  }

  /** The kind of picture a row shows. */
  datatype Thumbnail = NoThumbnail | ColorSetThumbnail | ModelThumbnail | TextureThumbnail

  /** A preview row (`ModListModel`). */
  datatype Row = Row(
    mod: ModEntry,
    race: string,
    mapText: string,
    part: string,
    number: string,
    thumbnail: Thumbnail,
    look: Look)

  /** The message boxes the loop shows. */
  datatype Report = MaterialReadError(path: string) | TextureReadError(path: string)

  /**
   * The framework services the loop calls. `materialColorSet` is `None` when
   * the material read throws, else whether the colour set holds data;
   * `textureRead` is false when the texture read throws (its flag selects
   * the prefetched index); `textureDecodes` is false when decoding throws.
   */
  datatype Services = Services(
    raceName: string -> string,
    dataFileKnown: string -> bool,
    materialColorSet: (ModEntry, int) -> Option<bool>,
    textureRead: (ModEntry, Option<TexType>, bool) -> bool,
    textureDecodes: ModEntry -> bool)

  /**
   * One run of the loop: the selected item's primary category, the services,
   * the number of listed mods, and the first cancellation checkpoint that
   * sees the token cancelled. Checkpoint `2k` is the `ThrowIfCancellationRequested`
   * of entry `k`, checkpoint `2k + 1` the test before its row is added.
   */
  datatype Context = Context(category: Option<PrimaryCategory>, services: Services, total: nat, cancelFrom: nat)

  /** The texture index is prefetched only for more than ten listed mods. */
  function Prefetch(total: nat): bool {
    total > 10
  }

  /** What one entry's labels and picture come to before the cancellation checkpoints. */
  datatype Processed = Ready(row: Row, report: Option<Report>) | Aborted(failure: Report) | Threw(fault: Fault)

  /** `textureRead`: a texture read was attempted for the entry. */
  datatype Entry = Entry(textureRead: bool, outcome: Processed)

  /**
   * One entry: Race, Map, Part and Number, then the picture. A material read
   * failure is reported and the row still goes ahead; a texture read failure
   * is reported and ends the loop; the other faults end it as exceptions.
   */
  function ProcessEntry(ctx: Context, m: ModEntry): (e: Entry)
    ensures e.outcome.Ready? ==> e.outcome.row.mod == m && e.outcome.row.look == StatusLook(m.enabled)
    ensures e.textureRead ==> !Contains(m.fullPath, "material") && !Contains(m.fullPath, ".mdl")
    ensures e.outcome.Aborted? <==> e.textureRead && !ctx.services.textureRead(m, MapLabel(m.fullPath).texType, Prefetch(ctx.total))
    ensures e.outcome.Aborted? ==> e.outcome.failure == TextureReadError(m.fullPath)
    ensures e.outcome.Ready? && e.outcome.report.Some? ==>
      Contains(m.fullPath, "material") && e.outcome.report.value == MaterialReadError(m.fullPath)
  {
    var path := m.fullPath;
    match RaceLabel(ctx.category, path, ctx.services.raceName)
    case Failure(f) => Entry(false, Threw(f))
    case Success(race) =>
      var mapLabel := MapLabel(path);
      match NumberLabel(path)
      case None => Entry(false, Threw(OutOfRange))
      case Some(number) =>
        var row := Row(m, race, mapLabel.text, PartLabel(path), number, NoThumbnail, StatusLook(m.enabled));
        if Contains(path, "material") then
          var offset := if m.enabled then m.modOffset else m.originalOffset;
          var read := if ctx.services.dataFileKnown(m.datFile) then ctx.services.materialColorSet(m, offset) else None;
          match read
          case None => Entry(false, Ready(row, Some(MaterialReadError(path))))
          case Some(hasData) => Entry(false, Ready(row.(thumbnail := if hasData then ColorSetThumbnail else NoThumbnail), None))
        else if Contains(path, ".mdl") then Entry(false, Ready(row.(thumbnail := ModelThumbnail), None))
        else if !ctx.services.dataFileKnown(m.datFile) then Entry(false, Threw(UnknownDataFile))
        else if !ctx.services.textureRead(m, mapLabel.texType, Prefetch(ctx.total)) then Entry(true, Aborted(TextureReadError(path)))
        else if !ctx.services.textureDecodes(m) then Entry(true, Threw(DecodeFault))
        else Entry(true, Ready(row.(thumbnail := TextureThumbnail), None))
  }

  // ---------------------------------------------------------------------------
  // The loop
  // ---------------------------------------------------------------------------

  /** A progress report `(current, total)`. */
  datatype Progress = Progress(current: nat, total: nat)

  /** Why the loop ended early: an exception, the cancellation exception, or the `return` after a texture failure. */
  datatype Stop = Faulted(fault: Fault) | Cancelled | Returned

  /**
   * The loop's effects so far: rows added to the preview list, progress
   * reports, message boxes, the index mode of each texture read, and how the
   * loop ended if it did.
   */
  datatype RunState = RunState(
    rows: seq<Row>,
    progress: seq<Progress>,
    reports: seq<Report>,
    textureReads: seq<bool>,
    stop: Option<Stop>)

  const Initial: RunState := RunState([], [], [], [], None)

  function ReportList(r: Option<Report>): seq<Report> {
    if r.Some? then [r.value] else []
  }

  /**
   * Entry `k`, processed as `e`: once the loop has ended nothing happens;
   * otherwise checkpoint `2k` (cancelled: the loop ends), the progress report
   * `(++modNum, total)`, and checkpoint `2k + 1` (cancelled: the row is not
   * added).
   */
  function Advance(ctx: Context, st: RunState, k: nat, e: Entry): RunState {
    if st.stop.Some? then st
    else
      var st := st.(textureReads := st.textureReads + (if e.textureRead then [Prefetch(ctx.total)] else []));
      match e.outcome
      case Threw(f) => st.(stop := Some(Faulted(f)))
      case Aborted(r) => st.(reports := st.reports + [r], stop := Some(Returned))
      case Ready(row, report) => AfterRow(ctx, st.(reports := st.reports + ReportList(report)), k, row)
  }

  /** After entry `k`'s row is made: checkpoint `2k`, the progress report, checkpoint `2k + 1`, the row. */
  function AfterRow(ctx: Context, st: RunState, k: nat, row: Row): RunState {
    if ctx.cancelFrom <= 2 * k then st.(stop := Some(Cancelled))
    else
      var st := st.(progress := st.progress + [Progress(|st.progress| + 1, ctx.total)]);
      if ctx.cancelFrom <= 2 * k + 1 then st else st.(rows := st.rows + [row])
  }

  /** Entry `k`: the mod is processed, then the loop goes on as `Advance` says. */
  function Step(ctx: Context, st: RunState, k: nat, m: ModEntry): RunState {
    Advance(ctx, st, k, ProcessEntry(ctx, m))
  }

  /** The loop over the listed mods, as a left fold. */
  function Run(ctx: Context, items: seq<ModEntry>): RunState {
    if items == [] then Initial
    else Step(ctx, Run(ctx, items[..|items| - 1]), |items| - 1, items[|items| - 1])
  }

  // ---------------------------------------------------------------------------
  // Properties of the loop
  // ---------------------------------------------------------------------------

  /** The facts about a run of `n` entries that every step keeps. */
  predicate RunInvariant(ctx: Context, items: seq<ModEntry>, st: RunState) {
    && |st.rows| <= |st.progress| <= |items|
    && (forall j | 0 <= j < |st.progress| :: st.progress[j] == Progress(j + 1, ctx.total))
    && (forall j | 0 <= j < |st.rows| :: st.rows[j].mod == items[j] && 2 * j + 1 < ctx.cancelFrom)
    && (forall j | 0 <= j < |st.rows| :: st.rows[j].look == StatusLook(st.rows[j].mod.enabled))
    && (forall j | 0 <= j < |st.textureReads| :: st.textureReads[j] == Prefetch(ctx.total))
    && (st.stop.None? ==> |st.progress| == |items| && (|st.rows| == |items| || (|st.rows| + 1 == |items| && ctx.cancelFrom <= 2 * |items| - 1)))
  }

  /**
   * Every run keeps the invariant: progress counts up by one from 1 with the
   * listed total, rows follow the listed mods in order and none is added at
   * or after a cancelled checkpoint, each row's visuals match its mod's
   * status, and every texture read uses the prefetched index exactly when
   * more than ten mods are listed.
   */
  lemma {:induction false} RunKeepsInvariant(ctx: Context, items: seq<ModEntry>)
    ensures RunInvariant(ctx, items, Run(ctx, items))
  {
    if items != [] {
      var init := items[..|items| - 1];
      var m := items[|items| - 1];
      RunKeepsInvariant(ctx, init);
      StepKeepsInvariant(ctx, init, Run(ctx, init), m);
      assert init + [m] == items;
    }
  }

  lemma StepKeepsInvariant(ctx: Context, init: seq<ModEntry>, st: RunState, m: ModEntry)
    requires RunInvariant(ctx, init, st)
    ensures RunInvariant(ctx, init + [m], Step(ctx, st, |init|, m))
  {
    var items := init + [m];
    var k := |init|;
    if st.stop.None? {
      var e := ProcessEntry(ctx, m);
      if e.outcome.Ready? && ctx.cancelFrom > 2 * k {
        assert |st.rows| == k by {
          if |st.rows| + 1 == k {
            assert false;
          }
        }
        var r := Step(ctx, st, k, m);
        assert forall j | 0 <= j < |r.rows| :: r.rows[j].mod == items[j];
      }
    }
  }

  /** The run over the first `k + 1` entries is entry `k`'s step after the run over the first `k`. */
  lemma RunLast(ctx: Context, items: seq<ModEntry>, k: nat)
    requires k < |items|
    ensures Run(ctx, items[..k + 1]) == Step(ctx, Run(ctx, items[..k]), k, items[k])
  {
    assert items[..k + 1][..k] == items[..k];
  }

  lemma StepAborted(ctx: Context, st: RunState, k: nat, m: ModEntry)
    requires st.stop.None? && ProcessEntry(ctx, m).outcome.Aborted?
    ensures Step(ctx, st, k, m).stop == Some(Returned)
    ensures Step(ctx, st, k, m).reports == st.reports + [TextureReadError(m.fullPath)]
    ensures Step(ctx, st, k, m).rows == st.rows && Step(ctx, st, k, m).progress == st.progress
  {
  }

  /** Once the loop has ended at one of the first `n` entries, the later ones change nothing. */
  lemma {:induction false} StoppedRunIgnoresRest(ctx: Context, items: seq<ModEntry>, n: nat)
    requires n <= |items| && Run(ctx, items[..n]).stop.Some?
    ensures Run(ctx, items) == Run(ctx, items[..n])
    decreases |items| - n
  {
    if n < |items| {
      var init := items[..|items| - 1];
      assert init[..n] == items[..n];
      StoppedRunIgnoresRest(ctx, init, n);
    } else {
      assert items[..n] == items;
    }
  }

  /**
   * A texture read failure on an entry the loop reaches is reported and ends
   * the loop: no later entry adds a row, reports progress or reads anything.
   */
  lemma TextureFailureEndsLoop(ctx: Context, items: seq<ModEntry>, k: nat)
    requires k < |items| && Run(ctx, items[..k]).stop.None?
    requires ProcessEntry(ctx, items[k]).outcome.Aborted?
    ensures Run(ctx, items).stop == Some(Returned)
    ensures Run(ctx, items).reports == Run(ctx, items[..k]).reports + [TextureReadError(items[k].fullPath)]
    ensures Run(ctx, items).rows == Run(ctx, items[..k]).rows
    ensures Run(ctx, items).progress == Run(ctx, items[..k]).progress
  {
    RunLast(ctx, items, k);
    StepAborted(ctx, Run(ctx, items[..k]), k, items[k]);
    StoppedRunIgnoresRest(ctx, items, k + 1);
  }

  /**
   * A material read failure is reported and the loop goes on: unless the
   * entry's first checkpoint sees the cancellation, it still reports
   * progress, and its row is added unless the second one does.
   */
  lemma MaterialFailureContinues(ctx: Context, items: seq<ModEntry>, k: nat)
    requires k < |items| && Run(ctx, items[..k]).stop.None? && ctx.cancelFrom > 2 * k
    requires ProcessEntry(ctx, items[k]).outcome.Ready?
    requires ProcessEntry(ctx, items[k]).outcome.report == Some(MaterialReadError(items[k].fullPath))
    ensures var before := Run(ctx, items[..k]);
            var after := Run(ctx, items[..k + 1]);
      && after.stop.None?
      && after.reports == before.reports + [MaterialReadError(items[k].fullPath)]
      && after.progress == before.progress + [Progress(k + 1, ctx.total)]
      && (ctx.cancelFrom > 2 * k + 1 ==> after.rows == before.rows + [ProcessEntry(ctx, items[k]).outcome.row])
  {
    var before := Run(ctx, items[..k]);
    RunLast(ctx, items, k);
    RunKeepsInvariant(ctx, items[..k]);
    assert |before.progress| == k;
    StepReady(ctx, before, k, items[k]);
  }

  /** An entry whose row is made, before the cancellation: its report, then progress, then (past the second checkpoint) its row. */
  lemma StepReady(ctx: Context, st: RunState, k: nat, m: ModEntry)
    requires st.stop.None? && ProcessEntry(ctx, m).outcome.Ready? && ctx.cancelFrom > 2 * k
    ensures var o := ProcessEntry(ctx, m).outcome;
            var s := Step(ctx, st, k, m);
      && s.stop.None?
      && s.reports == st.reports + ReportList(o.report)
      && s.progress == st.progress + [Progress(|st.progress| + 1, ctx.total)]
      && (ctx.cancelFrom > 2 * k + 1 ==> s.rows == st.rows + [o.row])
  {
  }

  /** Without cancellation or faults every listed mod becomes a row, in order. */
  lemma CompleteRunListsEveryMod(ctx: Context, items: seq<ModEntry>)
    requires Run(ctx, items).stop.None? && ctx.cancelFrom >= 2 * |items|
    ensures |Run(ctx, items).rows| == |items|
    ensures forall j | 0 <= j < |items| :: Run(ctx, items).rows[j].mod == items[j]
    ensures |Run(ctx, items).progress| == |items|
  {
    RunKeepsInvariant(ctx, items);
  }
}
