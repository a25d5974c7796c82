/** The client's URL helpers: where an image path stored with a post or a user is
    fetched from, and the base of the JSON API. A path is a JavaScript string that
    may be null or undefined (None). */
module ImageUrls {
  import opened Common

  /** String.prototype.startsWith. */
  predicate StartsWith(s: string, prefix: string) {
    |prefix| <= |s| && s[..|prefix|] == prefix
  }

  /** The mount point of the public file store. */
  const StoragePrefix: string := "/storage/"

  /** getApiBaseUrl: every API request goes to this path, proxied by the dev server. */
  const ApiBaseUrl: string := "/api"

  /** getImageUrl: a falsy path (null, undefined or empty) gives null; a path that
      already starts with "http" or "/storage/" is kept; any other path is placed
      under "/storage/". The result, if any, starts with one of the two prefixes and
      ends with the given path. */
  function GetImageUrl(imagePath: Option<string>): (r: Option<string>)
    ensures r.None? <==> imagePath.None? || imagePath.value == ""
    ensures r.Some? ==> StartsWith(r.value, "http") || StartsWith(r.value, StoragePrefix)
    ensures r.Some? ==> |imagePath.value| <= |r.value| && r.value[|r.value| - |imagePath.value|..] == imagePath.value
    ensures r.Some? && (StartsWith(imagePath.value, "http") || StartsWith(imagePath.value, StoragePrefix)) ==> r == imagePath
    ensures r.Some? && !StartsWith(imagePath.value, "http") && !StartsWith(imagePath.value, StoragePrefix) ==>
      r.value == StoragePrefix + imagePath.value
  {
    if imagePath.None? || imagePath.value == "" then None
    else if StartsWith(imagePath.value, "http") then imagePath
    else if StartsWith(imagePath.value, StoragePrefix) then imagePath
    else
      var u := StoragePrefix + imagePath.value;
      assert u[..|StoragePrefix|] == StoragePrefix;
      assert u[|u| - |imagePath.value|..] == imagePath.value;
      Some(u)
  }

  /** Resolving a resolved URL again changes nothing. */
  lemma GetImageUrlIdempotent(imagePath: Option<string>)
    ensures GetImageUrl(GetImageUrl(imagePath)) == GetImageUrl(imagePath)
  {
  }

  /** A database path without a prefix is resolved below the store, so the stored
      form can be read back by stripping the prefix. */
  lemma DatabasePathRoundTrip(path: string)
    requires path != "" && !StartsWith(path, "http") && !StartsWith(path, StoragePrefix)
    ensures GetImageUrl(Some(path)) == Some(StoragePrefix + path)
    ensures GetImageUrl(Some(path)).value[|StoragePrefix|..] == path
  {
    assert (StoragePrefix + path)[|StoragePrefix|..] == path;
  }

  /** The prefix tests are literal: "/storage" without its final slash is not taken
      as a store path, and any path that begins with "http", even a relative one, is
      taken as a full URL. */
  lemma PrefixIsLiteral()
    ensures GetImageUrl(Some("/storage")) == Some("/storage//storage")
    ensures GetImageUrl(Some("httpdocs/a.png")) == Some("httpdocs/a.png")
    ensures GetImageUrl(Some("images/a.png")) == Some("/storage/images/a.png")
  {
    assert "/storage"[..4][0] != "http"[0];
    assert |"/storage"| < |StoragePrefix|;
    assert "httpdocs/a.png"[..4] == "http";
    assert "images/a.png"[..4][0] != "http"[0];
    assert "images/a.png"[..9][0] != StoragePrefix[0];
    assert StoragePrefix + "images/a.png" == "/storage/images/a.png";
    assert StoragePrefix + "/storage" == "/storage//storage";
  }
}
