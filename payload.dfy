/** The content-management system's address and the URLs of its collections (lib/payload.ts). */
module Payload {
  import opened Wrappers
  import opened Strings

  /** The origin used when the environment names none. */
  const DefaultCmsUrl: string := "https://cms.morar.dev"

  /**
   * `PAYLOAD_CMS_URL`: the environment's value, read once at start-up, or the
   * default when that value is unset or empty.
   */
  function CmsUrl(env: Option<string>): (url: string)
    ensures env.Some? && env.value != "" ==> url == env.value
    ensures env.None? || env.value == "" ==> url == DefaultCmsUrl
    ensures url != ""
  {
    if env.Some? && env.value != "" then env.value else DefaultCmsUrl
  }

  /** `PAYLOAD_API_BASE`: the REST API lives under `/api` of the CMS origin. */
  function ApiBase(cmsUrl: string): (base: string)
    ensures StartsWith(base, cmsUrl) && base[|cmsUrl|..] == "/api"
  {
    cmsUrl + "/api"
  }

  /** `{base}/{collection}`: the collection's URL without a query. */
  function CollectionPath(apiBase: string, collection: string): string {
    apiBase + "/" + collection
  }

  /**
   * `getCollectionUrl`: the collection's URL, followed by `?` and the query
   * text verbatim when one is given and non-empty.
   */
  function CollectionUrl(apiBase: string, collection: string, params: Option<string>): (url: string)
    ensures StartsWith(url, CollectionPath(apiBase, collection))
    ensures params.None? || params.value == "" ==> url == CollectionPath(apiBase, collection)
    ensures params.Some? && params.value != "" ==>
      url[|CollectionPath(apiBase, collection)|..] == "?" + params.value
  {
    var baseUrl := CollectionPath(apiBase, collection);
    if params.Some? && params.value != "" then baseUrl + "?" + params.value else baseUrl
  }

  /** How a server reads a URL: the part before the first `?`, and the query after it if any. */
  function SplitQuery(url: string): (string, Option<string>) {
    var i := FindChar(url, '?', 0);
    if i < |url| then (url[..i], Some(url[i + 1..])) else (url, None)
  }

  /**
   * When neither the API base nor the collection name holds a `?`, the
   * server reads back exactly the collection path and the non-empty query
   * that was given.
   */
  lemma CollectionUrlRoundTrip(apiBase: string, collection: string, params: Option<string>)
    requires '?' !in apiBase && '?' !in collection
    ensures SplitQuery(CollectionUrl(apiBase, collection, params)) ==
      (CollectionPath(apiBase, collection), if params.Some? && params.value != "" then params else None)
  {
    var path := CollectionPath(apiBase, collection);
    assert '?' !in path;
    var url := CollectionUrl(apiBase, collection, params);
    if params.Some? && params.value != "" {
      assert url == path + "?" + params.value;
      assert url[|path|] == '?';
      assert url[..|path|] == path;
      assert url[|path| + 1..] == params.value;
    } else {
      assert url == path;
    }
  }

  /**
   * Every collection URL the site builds points under `/api/` of the CMS
   * origin, with the collection name right after it.
   */
  lemma CollectionUrlUnderApi(env: Option<string>, collection: string, params: Option<string>)
    ensures var origin := CmsUrl(env);
      var url := CollectionUrl(ApiBase(origin), collection, params);
      StartsWith(url, origin + "/api/") && url[|origin| + 5..][..|collection|] == collection
  {
    var origin := CmsUrl(env);
    var path := CollectionPath(ApiBase(origin), collection);
    assert path == origin + "/api/" + collection;
    assert path[..|origin| + 5] == origin + "/api/";
    assert path[|origin| + 5..] == collection;
  }
}
