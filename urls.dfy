/** The download URLs that Main.setURLS builds from the release tag by concatenation. */
module Urls {
  import opened Files

  const ReleaseDownloadBase: string := "https://github.com/isp-insoft-gmbh/MeMate/releases/download/"
  const ExeAsset: string := "/memate.exe"
  const VersionAsset: string := "/version.properties"

  /** `base + version + asset`; a null version is rendered as "null". */
  function AssetURL(version: Option<string>, asset: string): string
  {
    ReleaseDownloadBase + AsText(version) + asset
  }

  function ExeURL(version: Option<string>): string
  {
    AssetURL(version, ExeAsset)
  }

  function VersionURL(version: Option<string>): string
  {
    AssetURL(version, VersionAsset)
  }

  /** The inverse of AssetURL: the tag text between the base and the asset suffix. */
  function TagOf(url: string, asset: string): Option<string>
  {
    if |url| >= |ReleaseDownloadBase| + |asset|
       && url[..|ReleaseDownloadBase|] == ReleaseDownloadBase
       && url[|url| - |asset|..] == asset
    then Some(url[|ReleaseDownloadBase|..|url| - |asset|])
    else None
  }

  /** The tag can be read back from every URL setURLS builds. */
  lemma AssetURLRoundTrip(version: Option<string>, asset: string)
    ensures TagOf(AssetURL(version, asset), asset) == Some(AsText(version))
  {
    var u := AssetURL(version, asset);
    var b, t := |ReleaseDownloadBase|, |AsText(version)|;
    assert u[..b] == ReleaseDownloadBase;
    assert u[|u| - |asset|..] == asset;
    assert u[b..|u| - |asset|] == AsText(version);
  }

  /** Different tags give different URLs. */
  lemma AssetURLInjective(v1: Option<string>, v2: Option<string>, asset: string)
    requires AssetURL(v1, asset) == AssetURL(v2, asset)
    ensures AsText(v1) == AsText(v2)
  {
    AssetURLRoundTrip(v1, asset);
    AssetURLRoundTrip(v2, asset);
  }

  /** The executable URL and the descriptor URL never coincide, whatever the tags. */
  lemma ExeAndVersionURLsDiffer(v1: Option<string>, v2: Option<string>)
    ensures ExeURL(v1) != VersionURL(v2)
  {
    var e, p := ExeURL(v1), VersionURL(v2);
    assert e[|e| - 1] == 'e';
    assert p[|p| - 1] == 's';
  }
}
