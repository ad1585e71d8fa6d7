/**
 * The customize window's view model: the texture export formats (DDS, BMP,
 * PNG), kept so that at least one is on after any of their setters; the
 * text listing the formats that are on; the setters that write a setting
 * only when it changes; saving the default author on close; and resetting
 * the colours.
 *
 * The settings store is a map from setting names to their text plus the
 * three export flags; `saves` counts `Settings.Default.Save()` calls and
 * `notified` logs the property-changed notifications in order. A colour is
 * its `#AARRGGBB` text, as the colour converter prints it.
 */
module CustomizeViewModels {

  const SkinColorKey: string := "Skin_Color"
  const HairColorKey: string := "Hair_Color"
  const IrisColorKey: string := "Iris_Color"
  const EtcColorKey: string := "Etc_Color"
  const BgColorKey: string := "BG_Color"
  const DefaultRaceKey: string := "Default_Race"
  const DefaultRaceSelectionKey: string := "Default_Race_Selection"
  const ImporterKey: string := "DAE_Plugin_Target"
  const DefaultAuthorKey: string := "Default_Author"

  /** The text settings the view model reads. */
  const Keys: set<string> := {SkinColorKey, HairColorKey, IrisColorKey, EtcColorKey, BgColorKey,
                              DefaultRaceKey, DefaultRaceSelectionKey, ImporterKey, DefaultAuthorKey}

  /** The colours `ResetToDefault` restores: skin, hair/iris/etc., background. */
  const SkinDefault: string := "#FFFFFFFF"
  const BrownDefault: string := "#FF603913"
  const BgColorDefault: string := "#FF777777"

  // ---------------------------------------------------------------------------
  // Export formats
  // ---------------------------------------------------------------------------

  datatype Format = DDS | BMP | PNG

  /** The three export flags. */
  datatype ExportFlags = ExportFlags(dds: bool, bmp: bool, png: bool)

  predicate AnyOn(f: ExportFlags) {
    f.dds || f.bmp || f.png
  }

  function Get(f: ExportFlags, which: Format): bool {
    match which
    case DDS => f.dds
    case BMP => f.bmp
    case PNG => f.png
  }

  function Put(f: ExportFlags, which: Format, value: bool): (r: ExportFlags)
    ensures Get(r, which) == value
    ensures forall other: Format | other != which :: Get(r, other) == Get(f, other)
  {
    match which
    case DDS => f.(dds := value)
    case BMP => f.(bmp := value)
    case PNG => f.(png := value)
  }

  /** `EnsureValidExportFormat`: with every format off, DDS is switched back on. */
  function Ensured(f: ExportFlags): ExportFlags {
    if !f.png && !f.bmp && !f.dds then f.(dds := true) else f
  }

  /** An `ExportTextureAs*` setter: the flag is written, then the formats are made valid. */
  function SetFormat(f: ExportFlags, which: Format, value: bool): ExportFlags {
    Ensured(Put(f, which, value))
  }

  /** After any setter at least one format is on, and the one just set holds its new value unless it turned the last one off. */
  lemma SetFormatKeepsOneOn(f: ExportFlags, which: Format, value: bool)
    ensures AnyOn(SetFormat(f, which, value))
    ensures Get(SetFormat(f, which, value), which) == (value || (which == DDS && !AnyOn(Put(f, which, value))))
  {
  }

  /**
   * A setter changes no other flag, except that turning off the last one
   * switches DDS on; that happens exactly when the others were all off.
   */
  lemma SetFormatChangesOnlyItsOwn(f: ExportFlags, which: Format, value: bool)
    ensures forall other: Format | other != which && other != DDS :: Get(SetFormat(f, which, value), other) == Get(f, other)
    ensures SetFormat(f, BMP, value).dds != f.dds <==> !value && !f.dds && !f.png
    ensures SetFormat(f, PNG, value).dds != f.dds <==> !value && !f.dds && !f.bmp
  {
  }

  /** From a state with a format on, setting a flag to the value it has changes nothing. */
  lemma SetFormatUnchanged(f: ExportFlags, which: Format)
    requires AnyOn(f)
    ensures SetFormat(f, which, Get(f, which)) == f
  {
  }

  /** The names of the formats that are on, in the order DDS, BMP, PNG. */
  function EnabledFormats(f: ExportFlags): (r: seq<string>)
    ensures |r| <= 3
    ensures "DDS" in r <==> f.dds
    ensures "BMP" in r <==> f.bmp
    ensures "PNG" in r <==> f.png
  {
    (if f.dds then ["DDS"] else []) + (if f.bmp then ["BMP"] else []) + (if f.png then ["PNG"] else [])
  }

  /** The names joined by the separator, with no separator before the first. */
  function Join(names: seq<string>, sep: string): string {
    if names == [] then ""
    else if |names| == 1 then names[0]
    else names[0] + sep + Join(names[1..], sep)
  }

  /** Appending a name puts a separator before it exactly when the text so far is not empty. */
  lemma {:induction false} JoinSnoc(names: seq<string>, last: string, sep: string)
    ensures Join(names + [last], sep) == if names == [] then last else Join(names, sep) + sep + last
  {
    if |names| > 1 {
      assert (names + [last])[1..] == names[1..] + [last];
      JoinSnoc(names[1..], last, sep);
    } else if |names| == 1 {
      assert (names + [last])[1..] == [last];
    }
  }

  /** `ExportTexDisplay`'s value: the formats that are on, joined by ", ". */
  function Display(f: ExportFlags): string {
    Join(EnabledFormats(f), ", ")
  }

  /** One step of building the display: a name that is on is added, after ", " unless the text is empty. */
  function AddName(text: string, on: bool, name: string): string {
    if !on then text else if text == "" then name else text + ", " + name
  }

  /** A step of `AddName` on a joined list is the join of the list with the name appended when on. */
  lemma AddNameJoins(names: seq<string>, on: bool, name: string)
    requires name != [] && (Join(names, ", ") == "" <==> names == [])
    ensures AddName(Join(names, ", "), on, name) == Join(names + (if on then [name] else []), ", ")
    ensures AddName(Join(names, ", "), on, name) == "" <==> names + (if on then [name] else []) == []
  {
    if on {
      JoinSnoc(names, name, ", ");
    } else {
      assert names + [] == names;
    }
  }

  /** Adding the names DDS, BMP, PNG in turn, each when its flag is on, gives the display. */
  lemma DisplayByAddName(f: ExportFlags)
    ensures Display(f) == AddName(AddName(AddName("", f.dds, "DDS"), f.bmp, "BMP"), f.png, "PNG")
  {
    var n1: seq<string> := if f.dds then ["DDS"] else [];
    var n2 := n1 + (if f.bmp then ["BMP"] else []);
    var n3 := n2 + (if f.png then ["PNG"] else []);
    assert AddName("", f.dds, "DDS") == Join(n1, ", ");
    AddNameJoins(n1, f.bmp, "BMP");
    AddNameJoins(n2, f.png, "PNG");
    assert n3 == EnabledFormats(f);
  }

  /** The display is empty exactly when no format is on, and otherwise begins with the first format that is on. */
  lemma DisplayEmptyIffNoneOn(f: ExportFlags)
    ensures Display(f) == "" <==> !AnyOn(f)
    ensures AnyOn(f) ==> |Display(f)| >= 3 && Display(f)[..3] == EnabledFormats(f)[0]
  {
    var names := EnabledFormats(f);
    if names != [] {
      JoinStartsWithFirst(names, ", ");
    }
  }

  lemma {:induction false} JoinStartsWithFirst(names: seq<string>, sep: string)
    requires names != []
    ensures |Join(names, sep)| >= |names[0]| && Join(names, sep)[..|names[0]|] == names[0]
  {
    if |names| > 1 {
      var rest := sep + Join(names[1..], sep);
      assert Join(names, sep) == names[0] + rest;
      assert (names[0] + rest)[..|names[0]|] == names[0];
    }
  }

  /** After any setter the display names at least one format. */
  lemma DisplayAfterSetter(f: ExportFlags, which: Format, value: bool)
    ensures Display(SetFormat(f, which, value)) != ""
  {
    SetFormatKeepsOneOn(f, which, value);
    DisplayEmptyIffNoneOn(SetFormat(f, which, value));
  }

  // ---------------------------------------------------------------------------
  // The view model
  // ---------------------------------------------------------------------------

  class CustomizeViewModel {
    /** The text settings, the export flags, the number of saves. */
    var store: map<string, string>
    var texDDS: bool
    var texBMP: bool
    var texPNG: bool
    var saves: nat
    /** The property-changed notifications raised, in order. */
    var notified: seq<string>
    /** `_defaultAuthor`: the author being edited, saved on close. */
    var defaultAuthor: string

    /** Every text setting the view model reads is present. */
    predicate Valid()
      reads this`store
    {
      Keys <= store.Keys
    }

    function Flags(): ExportFlags
      reads this`texDDS, this`texBMP, this`texPNG
    {
      ExportFlags(texDDS, texBMP, texPNG)
    }

    /** Opens on the stored settings; the author being edited starts as the stored one. */
    constructor(store: map<string, string>, dds: bool, bmp: bool, png: bool)
      requires Keys <= store.Keys
      ensures Valid() && this.store == store && Flags() == ExportFlags(dds, bmp, png)
      ensures defaultAuthor == store[DefaultAuthorKey] && saves == 0 && notified == []
    {
      this.store := store;
      texDDS, texBMP, texPNG := dds, bmp, png;
      saves := 0;
      notified := [];
      defaultAuthor := store[DefaultAuthorKey];
    }

    /** `ExportTexDisplay`: built step by step, each later name after a ", " only when the text is not empty. */
    method ExportTexDisplay() returns (val: string)
      ensures val == Display(Flags())
    {
      val := "";
      if texDDS {
        val := val + "DDS";
      }
      ghost var first := val;
      assert first == AddName("", texDDS, "DDS");
      if texBMP {
        val := val + (if val == "" then "BMP" else ", BMP");
      }
      assert val == AddName(first, texBMP, "BMP");
      ghost var second := val;
      if texPNG {
        val := val + (if val == "" then "PNG" else ", PNG");
      }
      assert val == AddName(second, texPNG, "PNG");
      DisplayByAddName(Flags());
    }

    /** `ExportTextureAsDDS`'s setter; re-entered by `EnsureValidExportFormat` with `true`. */
    method SetExportTextureAsDDS(value: bool)
      modifies this`texDDS, this`saves, this`notified
      decreases if value then 1 else 3
      ensures Flags() == SetFormat(old(Flags()), DDS, value)
      ensures var fallback := !AnyOn(Put(old(Flags()), DDS, value));
        && saves == old(saves) + (if fallback then 2 else 1)
        && notified == old(notified) + ["ExportTextureAsDDS", "ExportTexDisplay"]
                       + (if fallback then ["ExportTextureAsDDS", "ExportTexDisplay"] else [])
    {
      texDDS := value;
      saves := saves + 1;
      notified := notified + ["ExportTextureAsDDS", "ExportTexDisplay"];
      EnsureValidExportFormat();
    }

    method SetExportTextureAsBMP(value: bool)
      modifies this`texDDS, this`texBMP, this`saves, this`notified
      ensures Flags() == SetFormat(old(Flags()), BMP, value)
      ensures var fallback := !AnyOn(Put(old(Flags()), BMP, value));
        && saves == old(saves) + (if fallback then 2 else 1)
        && notified == old(notified) + ["ExportTextureAsBMP", "ExportTexDisplay"]
                       + (if fallback then ["ExportTextureAsDDS", "ExportTexDisplay"] else [])
    {
      texBMP := value;
      saves := saves + 1;
      notified := notified + ["ExportTextureAsBMP", "ExportTexDisplay"];
      EnsureValidExportFormat();
    }

    method SetExportTextureAsPNG(value: bool)
      modifies this`texDDS, this`texPNG, this`saves, this`notified
      ensures Flags() == SetFormat(old(Flags()), PNG, value)
      ensures var fallback := !AnyOn(Put(old(Flags()), PNG, value));
        && saves == old(saves) + (if fallback then 2 else 1)
        && notified == old(notified) + ["ExportTextureAsPNG", "ExportTexDisplay"]
                       + (if fallback then ["ExportTextureAsDDS", "ExportTexDisplay"] else [])
    {
      texPNG := value;
      saves := saves + 1;
      notified := notified + ["ExportTextureAsPNG", "ExportTexDisplay"];
      EnsureValidExportFormat();
    }

    /** With every format off, DDS is switched back on through its setter. */
    method EnsureValidExportFormat()
      modifies this`texDDS, this`saves, this`notified
      decreases if !texPNG && !texBMP && !texDDS then 2 else 0
      ensures Flags() == Ensured(old(Flags()))
      ensures var fallback := !AnyOn(old(Flags()));
        && saves == old(saves) + (if fallback then 1 else 0)
        && notified == old(notified) + (if fallback then ["ExportTextureAsDDS", "ExportTexDisplay"] else [])
    {
      if !texPNG && !texBMP && !texDDS {
        SetExportTextureAsDDS(true);
      }
    }

    /** `Selected_SkinType`, `SelectedDefaultRace` and `SelectedImporter` read these settings. */
    function SelectedSkinType(): string
      reads this`store
      requires Valid()
    {
      store[DefaultRaceKey]
    }

    /**
     * A setter that writes its setting (and saves) only when the new value
     * differs from the stored one; storing the current value does nothing.
     */
    method WriteIfChanged(key: string, value: string)
      requires Valid() && key in Keys
      modifies this`store, this`saves
      ensures Valid()
      ensures store == old(store)[key := value]
      ensures saves == old(saves) + (if old(store)[key] != value then 1 else 0)
      ensures old(store)[key] == value ==> store == old(store)
    {
      if store[key] != value {
        store := store[key := value];
        saves := saves + 1;
      }
    }

    method SetSelectedSkinType(value: string)
      requires Valid()
      modifies this`store, this`saves
      ensures Valid() && store == old(store)[DefaultRaceKey := value]
      ensures saves == old(saves) + (if old(store)[DefaultRaceKey] != value then 1 else 0)
    {
      WriteIfChanged(DefaultRaceKey, value);
    }

    method SetSelectedDefaultRace(value: string)
      requires Valid()
      modifies this`store, this`saves
      ensures Valid() && store == old(store)[DefaultRaceSelectionKey := value]
      ensures saves == old(saves) + (if old(store)[DefaultRaceSelectionKey] != value then 1 else 0)
    {
      WriteIfChanged(DefaultRaceSelectionKey, value);
    }

    method SetSelectedImporter(value: string)
      requires Valid()
      modifies this`store, this`saves
      ensures Valid() && store == old(store)[ImporterKey := value]
      ensures saves == old(saves) + (if old(store)[ImporterKey] != value then 1 else 0)
    {
      WriteIfChanged(ImporterKey, value);
    }

    /** `DefaultAuthor`'s setter: only the edited value changes, nothing is stored. */
    method SetDefaultAuthor(value: string)
      modifies this`defaultAuthor, this`notified
      ensures defaultAuthor == value && notified == old(notified) + ["DefaultAuthor"]
    {
      defaultAuthor := value;
      notified := notified + ["DefaultAuthor"];
    }

    /** `CustomizeClose`: the edited author is stored (and saved) only when it differs from the stored one. */
    method CustomizeClose()
      requires Valid()
      modifies this`store, this`saves
      ensures Valid() && store == old(store)[DefaultAuthorKey := defaultAuthor]
      ensures saves == old(saves) + (if old(store)[DefaultAuthorKey] != defaultAuthor then 1 else 0)
    {
      WriteIfChanged(DefaultAuthorKey, defaultAuthor);
    }

    /** A `Selected_*Color` setter: the colour is stored, saved, and the property notified. */
    method SetColor(key: string, property: string, color: string)
      requires Valid() && key in Keys
      modifies this`store, this`saves, this`notified
      ensures Valid() && store == old(store)[key := color]
      ensures saves == old(saves) + 1 && notified == old(notified) + [property]
    {
      store := store[key := color];
      saves := saves + 1;
      notified := notified + [property];
    }

    /** `ResetToDefault`: skin white, hair, iris and etc. brown, background grey; nothing else changes. */
    method ResetToDefault()
      requires Valid()
      modifies this`store, this`saves, this`notified
      ensures Valid()
      ensures store == old(store)[SkinColorKey := SkinDefault][HairColorKey := BrownDefault]
        [IrisColorKey := BrownDefault][EtcColorKey := BrownDefault][BgColorKey := BgColorDefault]
      ensures saves == old(saves) + 5
      ensures notified == old(notified) + ["Selected_SkinColor", "Selected_HairColor", "Selected_IrisColor",
                                           "Selected_EtcColor", "Selected_BgColor"]
      ensures Flags() == old(Flags()) && defaultAuthor == old(defaultAuthor)
    {
      SetColor(SkinColorKey, "Selected_SkinColor", SkinDefault);
      SetColor(HairColorKey, "Selected_HairColor", BrownDefault);
      SetColor(IrisColorKey, "Selected_IrisColor", BrownDefault);
      SetColor(EtcColorKey, "Selected_EtcColor", BrownDefault);
      SetColor(BgColorKey, "Selected_BgColor", BgColorDefault);
    }
  }

  /** After a reset every colour setting holds its default, whatever was stored before. */
  lemma ResetColors(store: map<string, string>)
    ensures var s := store[SkinColorKey := SkinDefault][HairColorKey := BrownDefault]
                          [IrisColorKey := BrownDefault][EtcColorKey := BrownDefault][BgColorKey := BgColorDefault];
      && s[SkinColorKey] == SkinDefault && s[BgColorKey] == BgColorDefault
      && s[HairColorKey] == s[IrisColorKey] == s[EtcColorKey] == BrownDefault
      && forall k | k in store && k !in {SkinColorKey, HairColorKey, IrisColorKey, EtcColorKey, BgColorKey} :: s[k] == store[k]
  {
  }
}
