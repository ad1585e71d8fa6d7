/**
 * The installed-mod manifest, taken as already deserialized: the mod records
 * and the mod-pack records, in file order.
 */
module Manifest {
  import opened Wrappers

  /** A mod-pack record: name, author and version. */
  datatype ModPackInfo = ModPackInfo(name: string, author: string, version: string)

  /**
   * One installed mod. `modOffset` and `originalOffset` are the data offsets of
   * the modded and the original file; `modPack` is absent for a standalone mod.
   */
  datatype ModEntry = ModEntry(
    name: string,
    category: string,
    fullPath: string,
    datFile: string,
    enabled: bool,
    modOffset: int,
    originalOffset: int,
    modPack: Option<ModPackInfo>)

  datatype ModList = ModList(mods: seq<ModEntry>, modPacks: seq<ModPackInfo>)

  /** The label of the bucket for mods that belong to no mod pack (English resource text). */
  const Standalone: string := "Standalone (Non-ModPack)"

  /** The name of the synthetic parent of the mod-pack nodes. */
  const ModPacksLabel: string := "ModPacks"
}
