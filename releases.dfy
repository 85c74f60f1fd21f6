/**
 * The release records the generator consumes: one element of the hosting
 * platform's releases array, already parsed. A key that the JSON object does
 * not have (or holds `null`) is `None`.
 */
module Releases {
  import opened Wrappers

  /** One downloadable file attached to a release. */
  datatype Asset = Asset(
    name: Option<string>,         // "name"
    downloadUrl: Option<string>,  // "browser_download_url"
    size: Option<int>             // "size"
  )

  /** One release as returned by the releases endpoint. */
  datatype Release = Release(
    tag: Option<string>,          // "tag_name"
    name: Option<string>,         // "name"
    htmlUrl: Option<string>,      // "html_url"
    publishedAt: Option<string>,  // "published_at"
    createdAt: Option<string>,    // "created_at"
    assets: Option<seq<Asset>>    // "assets"
  )

  /** The release's asset list, empty when the key is absent. */
  function AssetsOf(r: Release): seq<Asset> {
    r.assets.GetOr([])
  }

  /** Python truthiness of an optional string: present and non-empty. */
  predicate Truthy(s: Option<string>) {
    s.Some? && s.value != ""
  }

  /** Python's `a or b` on two optional strings. */
  function Or(a: Option<string>, b: Option<string>): (r: Option<string>)
    ensures Truthy(r) <==> Truthy(a) || Truthy(b)
    ensures Truthy(a) ==> r == a
    ensures !Truthy(a) ==> r == b
  {
    if Truthy(a) then a else b
  }
}
