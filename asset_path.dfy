/** The rule `CreateNewGraph` applies to the path the save panel returns before
    creating the graph asset: a path without ".asset" in it gets that suffix. */
module AssetPath {
  import opened Sequences

  const AssetExtension: string := ".asset"

  /** The path under which the new graph asset is created. */
  function WithAssetExtension(path: string): (r: string)
    ensures Contains(r, AssetExtension)
    ensures Contains(path, AssetExtension) ==> r == path
    ensures !Contains(path, AssetExtension) ==> r == path + AssetExtension
  {
    if Contains(path, AssetExtension) then path
    else
      assert OccursAt(path + AssetExtension, AssetExtension, |path|);
      path + AssetExtension
  }

  /** Normalising a normalised path changes nothing. */
  lemma WithAssetExtensionIdempotent(path: string)
    ensures WithAssetExtension(WithAssetExtension(path)) == WithAssetExtension(path)
  {
  }
}
