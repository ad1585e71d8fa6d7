/**
 * The path classifier that turns a mod's in-archive path into a generic item
 * (ModListViewModel.MakeItemModel). Eight independent rules run in a fixed
 * order; a later matching rule overwrites what an earlier one set, and any
 * substring or number fault inside a rule turns the whole call into one error
 * that names the mod.
 */
module ItemClassifier {
  import opened Wrappers
  import opened Text
  import opened Manifest

  datatype PrimaryCategory = Gear | Character | Companions | UI | Housing

  /** The model identifiers; a freshly created record has both set to 0. */
  datatype ModelInfo = ModelInfo(primaryId: int, secondaryId: int)

  datatype GenericItem = GenericItem(
    name: string,
    secondaryCategory: string,
    dataFile: string,
    primaryCategory: Option<PrimaryCategory>,
    modelInfo: Option<ModelInfo>)

  /** The classification error: it carries the mod's name and full path. */
  datatype ClassifyError = ModelDataError(modName: string, fullPath: string)

  // Item names that select a sub-rule (English resource text).
  const BodyName: string := "Body"
  const HairName: string := "Hair"
  const FaceName: string := "Face"
  const TailName: string := "Tail"
  const FacePaintName: string := "Face Paint"
  const EquipmentDecalsName: string := "Equipment Decals"

  /** `int.Parse(path.Substring(start, len))`; `None` when either throws. */
  function ParseAt(path: string, start: int, len: int): Option<int> {
    var sub :- Substring(path, start, len);
    ParseInt(sub)
  }

  predicate IsEquipmentPath(path: string) {
    Contains(path, "chara/equipment") || Contains(path, "chara/accessory")
  }

  /**
   * What every rule guarantees: the identity fields stay as they were, the
   * category becomes `cat` when the rule's marker matched, and a rule whose
   * marker did not match changes nothing.
   */
  predicate Keeps(path: string, matched: bool, cat: PrimaryCategory, item: GenericItem, r: Option<GenericItem>) {
    && (!matched ==> r == Some(item))
    && (r.Some? ==>
          && r.value.name == item.name
          && r.value.secondaryCategory == item.secondaryCategory
          && r.value.dataFile == item.dataFile
          && r.value.primaryCategory == if matched then Some(cat) else item.primaryCategory)
  }

  function EquipmentRule(path: string, item: GenericItem): (r: Option<GenericItem>)
    ensures Keeps(path, IsEquipmentPath(path), Gear, item, r)
    ensures IsEquipmentPath(path) ==> match ParseAt(path, 17, 4)
      case None => r.None?
      case Some(id) => r.Some? && r.value.modelInfo == Some(ModelInfo(id, 0))
  {
    if IsEquipmentPath(path) then
      var id :- ParseAt(path, 17, 4);
      Some(item.(primaryCategory := Some(Gear), modelInfo := Some(ModelInfo(id, 0))))
    else Some(item)
  }

  function WeaponRule(path: string, item: GenericItem): (r: Option<GenericItem>)
    ensures Keeps(path, Contains(path, "chara/weapon"), Gear, item, r)
    ensures Contains(path, "chara/weapon") ==> match ParseAt(path, 14, 4)
      case None => r.None?
      case Some(id) => r.Some? && r.value.modelInfo == Some(ModelInfo(id, 0))
  {
    if Contains(path, "chara/weapon") then
      var id :- ParseAt(path, 14, 4);
      Some(item.(primaryCategory := Some(Gear), modelInfo := Some(ModelInfo(id, 0))))
    else Some(item)
  }

  /** The path segment a human item's id follows, by item name; "" for any other name. */
  function HumanMarker(name: string): string {
    if name == BodyName then "/body"
    else if name == HairName then "/hair"
    else if name == FaceName then "/face"
    else if name == TailName then "/tail"
    else ""
  }

  /** Body, hair, face and tail take four digits 7 characters after their marker. */
  function HumanRule(path: string, item: GenericItem): (r: Option<GenericItem>)
    ensures Keeps(path, Contains(path, "chara/human"), Character, item, r)
    ensures Contains(path, "chara/human") && HumanMarker(item.name) == "" ==>
      r.Some? && r.value.modelInfo == item.modelInfo
    ensures Contains(path, "chara/human") && HumanMarker(item.name) != "" ==>
      match ParseAt(path, IndexOf(path, HumanMarker(item.name)) + 7, 4)
      case None => r.None?
      case Some(id) => r.Some? && r.value.modelInfo == Some(ModelInfo(id, 0))
  {
    if Contains(path, "chara/human") then
      var it := item.(primaryCategory := Some(Character));
      var marker := HumanMarker(it.name);
      if marker == "" then Some(it)
      else
        var id :- ParseAt(path, IndexOf(path, marker) + 7, 4);
        Some(it.(modelInfo := Some(ModelInfo(id, 0))))
    else Some(item)
  }

  function CommonRule(path: string, item: GenericItem): (r: Option<GenericItem>)
    ensures Keeps(path, Contains(path, "chara/common"), Character, item, r)
    ensures Contains(path, "chara/common") && item.name == FacePaintName ==>
      match ParseAt(path, LastIndexOf(path, "_") + 1, 1)
      case None => r.None?
      case Some(id) => r.Some? && r.value.modelInfo == Some(ModelInfo(id, 0))
    ensures Contains(path, "chara/common") && item.name == EquipmentDecalsName && !Contains(path, "_stigma") ==>
      match ParseAt(path, LastIndexOf(path, "_") + 1, 3)
      case None => r.None?
      case Some(id) => r.Some? && r.value.modelInfo == Some(ModelInfo(id, 0))
    ensures Contains(path, "chara/common") && item.name == EquipmentDecalsName && Contains(path, "_stigma") ==>
      r.Some? && r.value.modelInfo == Some(ModelInfo(0, 0))
    ensures Contains(path, "chara/common") && item.name != FacePaintName && item.name != EquipmentDecalsName ==>
      r.Some? && r.value.modelInfo == item.modelInfo
  {
    if Contains(path, "chara/common") then
      var it := item.(primaryCategory := Some(Character));
      if it.name == FacePaintName then
        var id :- ParseAt(path, LastIndexOf(path, "_") + 1, 1);
        Some(it.(modelInfo := Some(ModelInfo(id, 0))))
      else if it.name == EquipmentDecalsName then
        if !Contains(path, "_stigma") then
          var id :- ParseAt(path, LastIndexOf(path, "_") + 1, 3);
          Some(it.(modelInfo := Some(ModelInfo(id, 0))))
        else Some(it.(modelInfo := Some(ModelInfo(0, 0))))
      else Some(it)
    else Some(item)
  }

  function MonsterRule(path: string, item: GenericItem): (r: Option<GenericItem>)
    ensures Keeps(path, Contains(path, "chara/monster"), Companions, item, r)
    ensures Contains(path, "chara/monster") ==>
      match (ParseAt(path, 15, 4), ParseAt(path, IndexOf(path, "/body") + 7, 4))
      case (Some(primary), Some(secondary)) => r.Some? && r.value.modelInfo == Some(ModelInfo(primary, secondary))
      case _ => r.None?
  {
    if Contains(path, "chara/monster") then
      var primary :- ParseAt(path, 15, 4);
      var secondary :- ParseAt(path, IndexOf(path, "/body") + 7, 4);
      Some(item.(primaryCategory := Some(Companions), modelInfo := Some(ModelInfo(primary, secondary))))
    else Some(item)
  }

  function DemihumanRule(path: string, item: GenericItem): (r: Option<GenericItem>)
    ensures Keeps(path, Contains(path, "chara/demihuman"), Companions, item, r)
    ensures Contains(path, "chara/demihuman") ==>
      match (ParseAt(path, 17, 4), ParseAt(path, IndexOf(path, "t/e") + 3, 4))
      case (Some(secondary), Some(primary)) => r.Some? && r.value.modelInfo == Some(ModelInfo(primary, secondary))
      case _ => r.None?
  {
    if Contains(path, "chara/demihuman") then
      var secondary :- ParseAt(path, 17, 4);
      var primary :- ParseAt(path, IndexOf(path, "t/e") + 3, 4);
      Some(item.(primaryCategory := Some(Companions), modelInfo := Some(ModelInfo(primary, secondary))))
    else Some(item)
  }

  function UiRule(path: string, item: GenericItem): (r: Option<GenericItem>)
    ensures Keeps(path, Contains(path, "ui/"), UI, item, r)
    ensures Contains(path, "ui/") && (Contains(path, "ui/uld") || Contains(path, "ui/map") || Contains(path, "ui/loadingimage")) ==>
      r.Some? && r.value.modelInfo == Some(ModelInfo(0, 0))
    ensures Contains(path, "ui/") && !(Contains(path, "ui/uld") || Contains(path, "ui/map") || Contains(path, "ui/loadingimage")) ==>
      match ParseAt(path, LastIndexOf(path, "/") + 1, 6)
      case None => r.None?
      case Some(id) => r.Some? && r.value.modelInfo == Some(ModelInfo(id, 0))
  {
    if Contains(path, "ui/") then
      var it := item.(primaryCategory := Some(UI));
      if Contains(path, "ui/uld") || Contains(path, "ui/map") || Contains(path, "ui/loadingimage") then
        Some(it.(modelInfo := Some(ModelInfo(0, 0))))
      else
        var id :- ParseAt(path, LastIndexOf(path, "/") + 1, 6);
        Some(it.(modelInfo := Some(ModelInfo(id, 0))))
    else Some(item)
  }

  function HousingRule(path: string, item: GenericItem): (r: Option<GenericItem>)
    ensures Keeps(path, Contains(path, "/hou/"), Housing, item, r)
    ensures Contains(path, "/hou/") ==> match ParseAt(path, LastIndexOf(path, "_m") + 2, 4)
      case None => r.None?
      case Some(id) => r.Some? && r.value.modelInfo == Some(ModelInfo(id, 0))
  {
    if Contains(path, "/hou/") then
      var id :- ParseAt(path, LastIndexOf(path, "_m") + 2, 4);
      Some(item.(primaryCategory := Some(Housing), modelInfo := Some(ModelInfo(id, 0))))
    else Some(item)
  }

  /** The identity fields of `r` are those of `item`. */
  predicate SameIdentity(item: GenericItem, r: GenericItem) {
    r.name == item.name && r.secondaryCategory == item.secondaryCategory && r.dataFile == item.dataFile
  }

  /**
   * The eight rules in source order; `None` when any of them faults. The
   * category is that of the last matching rule, and a path no rule matches
   * leaves the item as it was.
   */
  function ApplyRules(path: string, item: GenericItem): (r: Option<GenericItem>)
    ensures r.Some? ==> SameIdentity(item, r.value)
    ensures r.Some? ==>
      (r.value.primaryCategory == if LastMatchingCategory(path).Some? then LastMatchingCategory(path) else item.primaryCategory)
    ensures LastMatchingCategory(path) == None ==> r == Some(item)
  {
    var a :- EquipmentRule(path, item);
    var b :- WeaponRule(path, a);
    CharacterAndLaterRules(path, b)
  }

  /** The six rules after the gear rules, in source order. */
  function CharacterAndLaterRules(path: string, b: GenericItem): (r: Option<GenericItem>)
    ensures r.Some? ==> SameIdentity(b, r.value)
    ensures r.Some? && !MatchesNoLaterRule(path) ==> r.value.primaryCategory == LastMatchingCategory(path)
    ensures MatchesNoLaterRule(path) ==> r == Some(b)
  {
    var c :- HumanRule(path, b);
    var d :- CommonRule(path, c);
    var e :- MonsterRule(path, d);
    var f :- DemihumanRule(path, e);
    var g :- UiRule(path, f);
    HousingRule(path, g)
  }

  /**
   * Reference definition of the category a path ends up with: the category of
   * the LAST rule whose marker the path contains, or none.
   */
  function LastMatchingCategory(path: string): Option<PrimaryCategory> {
    if Contains(path, "/hou/") then Some(Housing)
    else if Contains(path, "ui/") then Some(UI)
    else if Contains(path, "chara/demihuman") then Some(Companions)
    else if Contains(path, "chara/monster") then Some(Companions)
    else if Contains(path, "chara/common") then Some(Character)
    else if Contains(path, "chara/human") then Some(Character)
    else if Contains(path, "chara/weapon") then Some(Gear)
    else if IsEquipmentPath(path) then Some(Gear)
    else None
  }

  /** The item before any rule ran: name, secondary category and data file copied. */
  function BaseItem(m: ModEntry): GenericItem {
    GenericItem(m.name, m.category, m.datFile, None, None)
  }

  function MakeItemModel(m: ModEntry): (r: Result<GenericItem, ClassifyError>)
    ensures r.Success? ==>
      r.value.name == m.name && r.value.secondaryCategory == m.category && r.value.dataFile == m.datFile
    ensures r.Success? ==> r.value.primaryCategory == LastMatchingCategory(m.fullPath)
    ensures r.Failure? ==> r.error == ModelDataError(m.name, m.fullPath)
    ensures LastMatchingCategory(m.fullPath) == None ==> r == Success(BaseItem(m))
  {
    match ApplyRules(m.fullPath, BaseItem(m))
    case None => Failure(ModelDataError(m.name, m.fullPath))
    case Some(item) => Success(item)
  }

  /** The path carries none of the markers of the rules after the weapon rule. */
  predicate MatchesNoLaterRule(path: string) {
    && !Contains(path, "chara/human")
    && !Contains(path, "chara/common")
    && !Contains(path, "chara/monster")
    && !Contains(path, "chara/demihuman")
    && !Contains(path, "ui/")
    && !Contains(path, "/hou/")
  }

  /** Rule `k` of the eight, in source order. */
  function RuleAt(k: nat, path: string, item: GenericItem): (r: Option<GenericItem>)
    requires k < 8
    ensures r.Some? ==> SameIdentity(item, r.value)
  {
    match k
    case 0 => EquipmentRule(path, item)
    case 1 => WeaponRule(path, item)
    case 2 => HumanRule(path, item)
    case 3 => CommonRule(path, item)
    case 4 => MonsterRule(path, item)
    case 5 => DemihumanRule(path, item)
    case 6 => UiRule(path, item)
    case _ => HousingRule(path, item)
  }

  /** Rules `k` to 7 run one after the other on `item`; the first fault stops the chain. */
  function ChainFrom(k: nat, path: string, item: GenericItem): Option<GenericItem>
    requires k <= 8
    decreases 8 - k
  {
    if k == 8 then Some(item)
    else
      var x :- RuleAt(k, path, item);
      ChainFrom(k + 1, path, x)
  }

  lemma {:induction false} ApplyRulesIsChain(path: string, item: GenericItem)
    ensures ApplyRules(path, item) == ChainFrom(0, path, item)
  {
    var a := EquipmentRule(path, item);
    if a.Some? {
      var b := WeaponRule(path, a.value);
      if b.Some? {
        assert ChainFrom(0, path, item) == ChainFrom(2, path, b.value);
        assert ApplyRules(path, item) == CharacterAndLaterRules(path, b.value);
        LaterRulesAreChain(path, b.value);
      } else {
        assert ChainFrom(1, path, a.value) == None;
      }
    }
  }

  lemma {:induction false} LaterRulesAreChain(path: string, b: GenericItem)
    ensures CharacterAndLaterRules(path, b) == ChainFrom(2, path, b)
  {
    var c := HumanRule(path, b);
    if c.Some? {
      var d := CommonRule(path, c.value);
      assert ChainFrom(2, path, b) == ChainFrom(3, path, c.value);
      if d.Some? {
        var e := MonsterRule(path, d.value);
        assert ChainFrom(3, path, c.value) == ChainFrom(4, path, d.value);
        if e.Some? {
          var f := DemihumanRule(path, e.value);
          assert ChainFrom(4, path, d.value) == ChainFrom(5, path, e.value);
          if f.Some? {
            var g := UiRule(path, f.value);
            assert ChainFrom(5, path, e.value) == ChainFrom(6, path, f.value);
            if g.Some? {
              assert ChainFrom(6, path, f.value) == ChainFrom(7, path, g.value);
              assert ChainFrom(7, path, g.value) == HousingRule(path, g.value);
            } else {
              assert ChainFrom(6, path, f.value) == None;
            }
          } else {
            assert ChainFrom(5, path, e.value) == None;
          }
        } else {
          assert ChainFrom(4, path, d.value) == None;
        }
      } else {
        assert ChainFrom(3, path, c.value) == None;
      }
    }
  }

  /**
   * `ra` and `rb` are one rule's results on an item `a` and on an item with
   * the same name and no model info: both fault or neither does, and the
   * rule sets the same id on both.
   */
  predicate SameOutcome(ra: Option<GenericItem>, rb: Option<GenericItem>, a: GenericItem) {
    && (ra.None? <==> rb.None?)
    && (ra.Some? && rb.Some? ==>
          ra.value.modelInfo == if rb.value.modelInfo.Some? then rb.value.modelInfo else a.modelInfo)
  }

  /** A rule reads only the item's name and, where it sets no id, its model info. */
  lemma {:induction false} RuleByName(k: nat, path: string, a: GenericItem, b: GenericItem)
    requires k < 8
    requires a.name == b.name && b.modelInfo.None?
    ensures SameOutcome(RuleAt(k, path, a), RuleAt(k, path, b), a)
  {
    match k
    case 0 => assert SameOutcome(EquipmentRule(path, a), EquipmentRule(path, b), a);
    case 1 => assert SameOutcome(WeaponRule(path, a), WeaponRule(path, b), a);
    case 2 => assert SameOutcome(HumanRule(path, a), HumanRule(path, b), a);
    case 3 => assert SameOutcome(CommonRule(path, a), CommonRule(path, b), a);
    case 4 => assert SameOutcome(MonsterRule(path, a), MonsterRule(path, b), a);
    case 5 => assert SameOutcome(DemihumanRule(path, a), DemihumanRule(path, b), a);
    case 6 => assert SameOutcome(UiRule(path, a), UiRule(path, b), a);
    case 7 => assert SameOutcome(HousingRule(path, a), HousingRule(path, b), a);
  }

  /**
   * Reference definition of the model info a mod ends up with: the ids set by
   * the LAST of rules `k` to 7 that sets any, each rule run alone on the mod's
   * base item; none when no such rule sets one.
   */
  function LastInfo(m: ModEntry, k: nat): Option<ModelInfo>
    requires k <= 8
    decreases 8 - k
  {
    if k == 8 then None
    else
      var later := LastInfo(m, k + 1);
      var o := RuleAt(k, m.fullPath, BaseItem(m));
      if later.Some? then later else if o.Some? then o.value.modelInfo else None
  }

  lemma {:induction false} ChainFacts(m: ModEntry, k: nat, x: GenericItem)
    requires k <= 8 && x.name == m.name
    ensures ChainFrom(k, m.fullPath, x).None? <==>
      exists j | k <= j < 8 :: RuleAt(j, m.fullPath, BaseItem(m)).None?
    ensures ChainFrom(k, m.fullPath, x).Some? ==>
      ChainFrom(k, m.fullPath, x).value.modelInfo == if LastInfo(m, k).Some? then LastInfo(m, k) else x.modelInfo
    decreases 8 - k
  {
    if k < 8 {
      var p := m.fullPath;
      var y := RuleAt(k, p, x);
      var o := RuleAt(k, p, BaseItem(m));
      RuleByName(k, p, x, BaseItem(m));
      if y.None? {
        assert ChainFrom(k, p, x).None?;
        assert o.None?;
      } else {
        assert ChainFrom(k, p, x) == ChainFrom(k + 1, p, y.value);
        assert o.Some?;
        ChainFacts(m, k + 1, y.value);
        assert (exists j | k <= j < 8 :: RuleAt(j, p, BaseItem(m)).None?) ==>
               (exists j | k + 1 <= j < 8 :: RuleAt(j, p, BaseItem(m)).None?);
        assert LastInfo(m, k) == if LastInfo(m, k + 1).Some? then LastInfo(m, k + 1) else o.value.modelInfo;
        assert y.value.modelInfo == if o.value.modelInfo.Some? then o.value.modelInfo else x.modelInfo;
      }
    }
  }

  /**
   * The classifier fails exactly when one of the eight rules, run on the mod,
   * faults, and otherwise carries the ids of the last rule that set any.
   */
  lemma MakeItemModelInfo(m: ModEntry)
    ensures MakeItemModel(m).Failure? <==> exists k | 0 <= k < 8 :: RuleAt(k, m.fullPath, BaseItem(m)).None?
    ensures MakeItemModel(m).Success? ==> MakeItemModel(m).value.modelInfo == LastInfo(m, 0)
  {
    ApplyRulesIsChain(m.fullPath, BaseItem(m));
    ChainFacts(m, 0, BaseItem(m));
  }

  /** Gear: the primary id is the four digits at index 17 (`chara/equipment/eNNNN`, `chara/accessory/aNNNN`). */
  lemma EquipmentPrimaryId(m: ModEntry, prefix: string, digits: string, rest: string)
    requires prefix == "chara/equipment/e" || prefix == "chara/accessory/a"
    requires m.fullPath == prefix + digits + rest
    requires |digits| == 4 && AllDigits(digits)
    requires !Contains(m.fullPath, "chara/weapon") && MatchesNoLaterRule(m.fullPath)
    ensures MakeItemModel(m)
         == Success(BaseItem(m).(primaryCategory := Some(Gear), modelInfo := Some(ModelInfo(DigitsValue(digits), 0))))
  {
    var p := m.fullPath;
    assert IsEquipmentPath(p) by {
      assert p[..15] == prefix[..15];
      if prefix == "chara/equipment/e" {
        assert prefix[..15] == "chara/equipment";
        assert OccursAt(p, "chara/equipment", 0);
      } else {
        assert prefix[..15] == "chara/accessory";
        assert OccursAt(p, "chara/accessory", 0);
      }
    }
    assert ParseAt(p, 17, 4) == Some(DigitsValue(digits)) by {
      assert p[17..21] == digits;
      ParseDigits(digits);
    }
    var it := BaseItem(m).(primaryCategory := Some(Gear), modelInfo := Some(ModelInfo(DigitsValue(digits), 0)));
    assert EquipmentRule(p, BaseItem(m)) == Some(it);
    assert WeaponRule(p, it) == Some(it);
    assert CharacterAndLaterRules(p, it) == Some(it);
  }

  /** `chara/equipment/e0037/...` classifies as gear with primary id 37. */
  lemma Equipment0037(m: ModEntry, rest: string)
    requires m.fullPath == "chara/equipment/e0037" + rest
    requires !Contains(m.fullPath, "chara/weapon") && MatchesNoLaterRule(m.fullPath)
    ensures MakeItemModel(m).Success?
    ensures MakeItemModel(m).value.primaryCategory == Some(Gear)
    ensures MakeItemModel(m).value.modelInfo == Some(ModelInfo(37, 0))
  {
    var digits := "0037";
    assert m.fullPath == "chara/equipment/e" + digits + rest;
    assert AllDigits(digits);
    assert DigitsValue(digits) == 37 by {
      assert digits[..3] == "003" && "003"[..2] == "00" && "00"[..1] == "0" && "0"[..0] == "";
    }
    EquipmentPrimaryId(m, "chara/equipment/e", digits, rest);
  }

  /** Weapon: the primary id is the four digits at index 14 (`chara/weapon/wNNNN`). */
  lemma WeaponPrimaryId(m: ModEntry, digits: string, rest: string)
    requires m.fullPath == "chara/weapon/w" + digits + rest
    requires |digits| == 4 && AllDigits(digits)
    requires !IsEquipmentPath(m.fullPath) && MatchesNoLaterRule(m.fullPath)
    ensures MakeItemModel(m)
         == Success(BaseItem(m).(primaryCategory := Some(Gear), modelInfo := Some(ModelInfo(DigitsValue(digits), 0))))
  {
    var p := m.fullPath;
    assert Contains(p, "chara/weapon") by {
      assert p[..12] == "chara/weapon";
      assert OccursAt(p, "chara/weapon", 0);
    }
    assert ParseAt(p, 14, 4) == Some(DigitsValue(digits)) by {
      assert p[14..18] == digits;
      ParseDigits(digits);
    }
    var it := BaseItem(m).(primaryCategory := Some(Gear), modelInfo := Some(ModelInfo(DigitsValue(digits), 0)));
    assert EquipmentRule(p, BaseItem(m)) == Some(BaseItem(m));
    assert WeaponRule(p, BaseItem(m)) == Some(it);
    assert CharacterAndLaterRules(p, it) == Some(it);
  }

  /**
   * `IndexOf` returning -1 is not caught: a "Body" item whose human path has no
   * `/body` segment reads its id from the four characters at index -1 + 7 = 6.
   */
  lemma MissingBodySegmentReadsIndexSix(m: ModEntry)
    requires Contains(m.fullPath, "chara/human") && m.name == BodyName && !Contains(m.fullPath, "/body")
    requires !IsEquipmentPath(m.fullPath) && !Contains(m.fullPath, "chara/weapon")
    requires !Contains(m.fullPath, "chara/common") && !Contains(m.fullPath, "chara/monster")
    requires !Contains(m.fullPath, "chara/demihuman") && !Contains(m.fullPath, "ui/") && !Contains(m.fullPath, "/hou/")
    ensures MakeItemModel(m) == match ParseAt(m.fullPath, 6, 4)
      case None => Failure(ModelDataError(m.name, m.fullPath))
      case Some(id) => Success(BaseItem(m).(primaryCategory := Some(Character), modelInfo := Some(ModelInfo(id, 0))))
  {
    assert IndexOf(m.fullPath, "/body") + 7 == 6;
  }

  /** A fault in an early rule is fatal even when a later rule would have matched. */
  lemma EquipmentFaultIsFatal(m: ModEntry)
    requires IsEquipmentPath(m.fullPath) && ParseAt(m.fullPath, 17, 4) == None
    ensures MakeItemModel(m) == Failure(ModelDataError(m.name, m.fullPath))
  {
    assert EquipmentRule(m.fullPath, BaseItem(m)) == None;
  }
}
