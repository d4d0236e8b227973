/**
 * The on-demand revalidation endpoint the CMS calls when content changes
 * (app/api/revalidate/route.ts): the body is parsed, the server secret and
 * the caller's token are checked, and the cache is told which paths and
 * tags to rebuild. The cache is a log of the invalidations it receives.
 */
module RevalidateRoute {
  import opened Wrappers

  /**
   * The fields of the request body. A missing, `null` or `undefined` field
   * is `None`; the empty string is `Some("")` and, like `None`, is falsy.
   */
  datatype Body = Body(secret: Option<string>, path: Option<string>, tag: Option<string>, collection: Option<string>)

  datatype Invalidation = Path(path: string) | Tag(tag: string)

  /** The JSON response: an error with its status, or the success object (status 200). */
  datatype Response =
    | Failure(status: nat, error: string)
    | Success(now: int, path: Option<string>, tag: Option<string>)

  const NotConfigured: string := "Revalidation not configured"
  const InvalidToken: string := "Invalid secret token"
  const ErrorRevalidating: string := "Error revalidating"
  const PostsCollection: string := "posts"
  const BlogListPath: string := "/blog"

  /** A JavaScript truthiness test on an optional string. */
  predicate Truthy(v: Option<string>) {
    v.Some? && v.value != ""
  }

  /** `v || null`. */
  function OrNull(v: Option<string>): (r: Option<string>)
    ensures r.Some? <==> Truthy(v)
    ensures r.Some? ==> r == v
  {
    if Truthy(v) then v else None
  }

  /** The server secret is set and non-empty, and the caller's token is that same string. */
  predicate Authorized(expectedSecret: Option<string>, body: Body) {
    Truthy(expectedSecret) && body.secret == expectedSecret
  }

  /** The response, for a body that parsed (`Some`) or one whose parsing or destructuring threw (`None`). */
  function Respond(expectedSecret: Option<string>, body: Option<Body>, now: int): (r: Response)
    ensures r.Success? <==> body.Some? && Authorized(expectedSecret, body.value)
    ensures r.Failure? ==> r.status == 500 || r.status == 401
    ensures (r.Failure? && r.status == 401) <==>
      body.Some? && Truthy(expectedSecret) && body.value.secret != expectedSecret
  {
    if body.None? then Failure(500, ErrorRevalidating)
    else if !Truthy(expectedSecret) then Failure(500, NotConfigured)
    else if body.value.secret != expectedSecret then Failure(401, InvalidToken)
    else Success(now, OrNull(body.value.path), OrNull(body.value.tag))
  }

  /** The invalidations issued, in order. */
  function Planned(expectedSecret: Option<string>, body: Option<Body>): (plan: seq<Invalidation>)
    ensures plan != [] ==> body.Some? && Authorized(expectedSecret, body.value)
    ensures |plan| <= 5
    ensures body.Some? && Authorized(expectedSecret, body.value) && body.value.collection == Some(PostsCollection) ==>
      |plan| >= 2 && plan[|plan| - 2..] == [Path(BlogListPath), Tag(PostsCollection)]
  {
    if body.None? || !Authorized(expectedSecret, body.value) then []
    else
      var b := body.value;
      var pathOnce := if Truthy(b.path) then [Path(b.path.value)] else [];
      var tagOnce := if Truthy(b.tag) then [Tag(b.tag.value)] else [];
      var collection := if b.collection == Some(PostsCollection)
        then pathOnce + [Path(BlogListPath), Tag(PostsCollection)]
        else [];
      pathOnce + tagOnce + collection
  }

  /** The response succeeds exactly for an authorised body; otherwise no invalidation is issued. */
  lemma SuccessIffAuthorized(expectedSecret: Option<string>, body: Option<Body>, now: int)
    ensures Respond(expectedSecret, body, now).Success? <==> body.Some? && Authorized(expectedSecret, body.value)
    ensures !Respond(expectedSecret, body, now).Success? ==> Planned(expectedSecret, body) == []
  {
  }

  /** A body that cannot be read gives 500 `Error revalidating`, before any secret is looked at. */
  lemma UnreadableBody(expectedSecret: Option<string>, now: int)
    ensures Respond(expectedSecret, None, now) == Failure(500, ErrorRevalidating)
    ensures Planned(expectedSecret, None) == []
  {
  }

  /**
   * An unset or empty server secret gives 500 `Revalidation not configured`
   * whatever token the caller sends: this check comes before the token's.
   */
  lemma NotConfiguredBeforeToken(expectedSecret: Option<string>, body: Body, now: int)
    requires !Truthy(expectedSecret)
    ensures Respond(expectedSecret, Some(body), now) == Failure(500, NotConfigured)
    ensures Planned(expectedSecret, Some(body)) == []
  {
  }

  /** A token other than the configured secret gives 401 and nothing is revalidated. */
  lemma WrongTokenIsRejected(expectedSecret: Option<string>, body: Body, now: int)
    requires Truthy(expectedSecret) && body.secret != expectedSecret
    ensures Respond(expectedSecret, Some(body), now) == Failure(401, InvalidToken)
    ensures Planned(expectedSecret, Some(body)) == []
  {
  }

  /** A success echoes a truthy path and tag, and `null` for falsy ones. */
  lemma SuccessEchoes(expectedSecret: Option<string>, body: Body, now: int)
    requires Authorized(expectedSecret, body)
    ensures Respond(expectedSecret, Some(body), now).Success?
    ensures Respond(expectedSecret, Some(body), now).now == now
    ensures Respond(expectedSecret, Some(body), now).path.Some? <==> Truthy(body.path)
    ensures Respond(expectedSecret, Some(body), now).tag.Some? <==> Truthy(body.tag)
    ensures Truthy(body.path) ==> Respond(expectedSecret, Some(body), now).path == body.path
    ensures Truthy(body.tag) ==> Respond(expectedSecret, Some(body), now).tag == body.tag
  {
  }

  /**
   * Which paths are revalidated: the caller's path when truthy, and `/blog`
   * for the posts collection; nothing else.
   */
  lemma PathsRevalidated(expectedSecret: Option<string>, body: Body, p: string)
    ensures Path(p) in Planned(expectedSecret, Some(body)) <==>
      Authorized(expectedSecret, body) &&
      ((Truthy(body.path) && p == body.path.value) || (body.collection == Some(PostsCollection) && p == BlogListPath))
  {
    if Authorized(expectedSecret, body) {
      var pathOnce, tagOnce, collection := PlanParts(expectedSecret, body);
      assert Path(p) !in tagOnce;
      assert Path(p) in collection <==>
        body.collection == Some(PostsCollection) && (Path(p) in pathOnce || p == BlogListPath);
    }
  }

  /**
   * Which tags are revalidated: the caller's tag when truthy, and `posts`
   * for the posts collection; nothing else.
   */
  lemma TagsRevalidated(expectedSecret: Option<string>, body: Body, t: string)
    ensures Tag(t) in Planned(expectedSecret, Some(body)) <==>
      Authorized(expectedSecret, body) &&
      ((Truthy(body.tag) && t == body.tag.value) || (body.collection == Some(PostsCollection) && t == PostsCollection))
  {
    if Authorized(expectedSecret, body) {
      var pathOnce, tagOnce, collection := PlanParts(expectedSecret, body);
      assert Tag(t) !in pathOnce;
      assert Tag(t) in collection <==> body.collection == Some(PostsCollection) && t == PostsCollection;
    }
  }

  /** The plan of an authorised request, as its path, tag and collection parts. */
  lemma PlanParts(expectedSecret: Option<string>, body: Body)
    returns (pathOnce: seq<Invalidation>, tagOnce: seq<Invalidation>, collection: seq<Invalidation>)
    requires Authorized(expectedSecret, body)
    ensures pathOnce == if Truthy(body.path) then [Path(body.path.value)] else []
    ensures tagOnce == if Truthy(body.tag) then [Tag(body.tag.value)] else []
    ensures collection == if body.collection == Some(PostsCollection)
      then pathOnce + [Path(BlogListPath), Tag(PostsCollection)] else []
    ensures Planned(expectedSecret, Some(body)) == pathOnce + tagOnce + collection
  {
    pathOnce := if Truthy(body.path) then [Path(body.path.value)] else [];
    tagOnce := if Truthy(body.tag) then [Tag(body.tag.value)] else [];
    collection := if body.collection == Some(PostsCollection)
      then pathOnce + [Path(BlogListPath), Tag(PostsCollection)] else [];
  }

  /**
   * For the posts collection the plan ends with the path again (when
   * truthy), `/blog` and the `posts` tag; otherwise it holds at most the
   * path and then the tag.
   */
  lemma PostsCollectionOrder(expectedSecret: Option<string>, body: Body)
    requires Authorized(expectedSecret, body)
    ensures var plan := Planned(expectedSecret, Some(body));
      var n := (if Truthy(body.path) then 1 else 0) + (if Truthy(body.tag) then 1 else 0);
      if body.collection == Some(PostsCollection) then
        |plan| == 2 * (if Truthy(body.path) then 1 else 0) + (if Truthy(body.tag) then 1 else 0) + 2 &&
        plan[|plan| - 2..] == [Path(BlogListPath), Tag(PostsCollection)] &&
        (Truthy(body.path) ==> plan[0] == plan[|plan| - 3] == Path(body.path.value))
      else
        |plan| == n && (Truthy(body.path) ==> plan[0] == Path(body.path.value)) &&
        (Truthy(body.tag) ==> plan[n - 1] == Tag(body.tag.value))
  {
  }

  /** The framework's cache, as the log of invalidations it has been sent. */
  class Cache {
    var log: seq<Invalidation>

    constructor()
      ensures log == []
    {
      log := [];
    }

    method RevalidatePath(path: string)
      modifies this
      ensures log == old(log) + [Path(path)]
    {
      log := log + [Path(path)];
    }

    method RevalidateTag(tag: string)
      modifies this
      ensures log == old(log) + [Tag(tag)]
    {
      log := log + [Tag(tag)];
    }
  }

  /**
   * The `POST` handler. `expectedSecret` is the server's configured secret,
   * `body` the parsed body (`None` when `request.json()` or the
   * destructuring throws) and `now` the clock reading it echoes.
   */
  method Post(cache: Cache, expectedSecret: Option<string>, body: Option<Body>, now: int) returns (response: Response)
    modifies cache
    ensures cache.log == old(cache.log) + Planned(expectedSecret, body)
    ensures response == Respond(expectedSecret, body, now)
  {
    if body.None? {
      return Failure(500, ErrorRevalidating);
    }
    var b := body.value;
    if !Truthy(expectedSecret) {
      return Failure(500, NotConfigured);
    }
    if b.secret != expectedSecret {
      return Failure(401, InvalidToken);
    }
    ghost var start := cache.log;
    ghost var pathOnce := if Truthy(b.path) then [Path(b.path.value)] else [];
    ghost var tagOnce := if Truthy(b.tag) then [Tag(b.tag.value)] else [];
    if Truthy(b.path) {
      cache.RevalidatePath(b.path.value);
    }
    assert cache.log == start + pathOnce;
    if Truthy(b.tag) {
      cache.RevalidateTag(b.tag.value);
    }
    assert cache.log == start + (pathOnce + tagOnce);
    if b.collection == Some(PostsCollection) {
      if Truthy(b.path) {
        cache.RevalidatePath(b.path.value);
      }
      assert cache.log == start + (pathOnce + tagOnce + pathOnce);
      cache.RevalidatePath(BlogListPath);
      cache.RevalidateTag(PostsCollection);
      assert cache.log == start + (pathOnce + tagOnce + (pathOnce + [Path(BlogListPath), Tag(PostsCollection)]));
    }
    return Success(now, OrNull(b.path), OrNull(b.tag));
  }
}
