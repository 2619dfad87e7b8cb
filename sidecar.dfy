/**
 * Where the per-component property document of a tileset lives: the base
 * path of the tileset's URL and the sidecar file `info/<bucket>.json` beside
 * it, one file per hundred consecutive DbIds.
 */
module Sidecar {
  import opened JsArrays
  import opened Decimal

  /**
   * The tileset URL up to (not including) its last `/`, or "." when the URL
   * has no `/` at all.
   */
  function BasePath(url: string): (base: string)
    ensures '/' !in url ==> base == "."
    ensures '/' in url ==>
      && |base| < |url|
      && url[..|base|] == base
      && url[|base|] == '/'
      && '/' !in url[|base| + 1..]
  {
    var lastIndex := LastIndexOf(url, '/');
    if lastIndex == -1 then "." else url[..lastIndex]
  }

  /** The directory of `dir/name` is `dir`, for a file name without `/`. */
  lemma BasePathOfFile(dir: string, name: string)
    requires '/' !in name
    ensures BasePath(dir + "/" + name) == dir
  {
    var url := dir + "/" + name;
    assert url[|dir|] == '/';
    assert url[|dir| + 1..] == name;
  }

  /**
   * Which sidecar file holds DbId `dbId`: `parseInt(dbId / 100)`, which for a
   * non-negative DbId truncates to the integer quotient.
   */
  function Bucket(dbId: nat): nat { dbId / 100 }

  /** `${basePath}/info/${parseInt(dbId / 100)}.json` */
  function SidecarUrl(basePath: string, dbId: nat): (url: string)
    ensures |url| >= |basePath| + 12
    ensures url[..|basePath|] == basePath
    ensures url[|basePath|..|basePath| + 6] == "/info/"
    ensures url[|url| - 5..] == ".json"
    ensures forall i :: |basePath| + 6 <= i < |url| - 5 ==> IsDigit(url[i])
    ensures DigitsValue(url[|basePath| + 6..|url| - 5]) == dbId / 100
  {
    var digits := NatToString(Bucket(dbId));
    DigitsOfNatToString(Bucket(dbId));
    var url := basePath + "/info/" + digits + ".json";
    assert url[|basePath| + 6..|url| - 5] == digits;
    url
  }

  /** Two DbIds of one tileset share a sidecar file exactly when they share a bucket. */
  lemma SameSidecarFile(basePath: string, a: nat, b: nat)
    ensures SidecarUrl(basePath, a) == SidecarUrl(basePath, b) <==> a / 100 == b / 100
  {
    var da, db := NatToString(a / 100), NatToString(b / 100);
    if SidecarUrl(basePath, a) == SidecarUrl(basePath, b) {
      var p := |basePath| + 6;
      assert SidecarUrl(basePath, a)[p..|SidecarUrl(basePath, a)| - 5] == da;
      assert SidecarUrl(basePath, b)[p..|SidecarUrl(basePath, b)| - 5] == db;
      NatToStringInjective(a / 100, b / 100);
    }
  }
}
