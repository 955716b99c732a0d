/**
 * The service's own copy of the core (the HTTP handlers' file): the
 * registry login password, the repository and image listings with their
 * status codes, and the pull of an image.
 */
module ClientsetDocker {
  import opened Wrappers
  import opened Base64Url
  import opened TokenFormat
  import opened EcrApi
  import opened Pagination
  import opened PaginationFacts
  import opened StableSort
  import opened GoStrings
  import opened DockerEngine
  import opened ImageRef

  datatype RetagImagesRequest = RetagImagesRequest(region: string, repositoryName: string, newLatestTag: string, accountID: string)
  datatype Images = Images(imageDigest: string, imageTag: string)
  datatype Repository = Repository(repositoryName: string)

  /** The reference the retag handler pulls: the request's repository at its new tag. */
  function RetagReference(req: RetagImagesRequest): (s: string)
    ensures ':' !in req.newLatestTag ==> TagOf(s) == req.newLatestTag
  {
    var s := Reference(req.accountID, req.region, req.repositoryName, req.newLatestTag);
    if ':' in req.newLatestTag then s
    else
      TagOfReference(req.accountID, req.region, req.repositoryName, req.newLatestTag);
      s
  }

  /** Why the login password could not be obtained; each check has its own error. */
  datatype LoginError =
    | TokenRequestFailed(cause: ApiError)
    | EmptyToken
    | MultipleTokens(length: nat)
    | NilToken
    | DecodeFailed
    | UnexpectedFormat

  /**
   * The registry password: the reply must carry exactly one authorization
   * entry with a non-nil token; the token is base64url-decoded and split on
   * `:`, and the second of exactly two parts is the password.
   */
  function GetLoginPassword(reply: TokenReply): (r: Result<seq<byte>, LoginError>)
  {
    match reply
    case TokenFailed(e) => Failure(TokenRequestFailed(e))
    case TokenIssued(data) =>
      if |data| == 0 then Failure(EmptyToken)
      else if |data| > 1 then Failure(MultipleTokens(|data|))
      else if data[0].authorizationToken.None? then Failure(NilToken)
      else
        match Decode(data[0].authorizationToken.value)
        case None => Failure(DecodeFailed)
        case Some(decoded) =>
          match PasswordOf(decoded)
          case None => Failure(UnexpectedFormat)
          case Some(password) => Success(password)
  }

  /**
   * A password is returned exactly for a well-formed reply, and it is the
   * colon-free text after the single colon of the decoded token.
   */
  lemma LoginPasswordAccepted(reply: TokenReply)
    ensures GetLoginPassword(reply).Success? <==> WellFormed(reply)
    ensures GetLoginPassword(reply).Success? ==>
      var p := GetLoginPassword(reply).value;
      Colon !in p && exists user :: Colon !in user && DecodedToken(reply) == Some(user + [Colon] + p)
  {
    if DecodedToken(reply).Some? {
      PasswordOfExactlyOneColon(DecodedToken(reply).value);
    }
  }

  /**
   * Each way a reply can be unusable has its own error, and a reply with
   * several entries is refused whatever they hold (no entry is picked).
   */
  lemma LoginErrorCases(reply: TokenReply)
    ensures reply.TokenFailed? ==> GetLoginPassword(reply) == Failure(TokenRequestFailed(reply.err))
    ensures reply.TokenIssued? && |reply.authorizationData| == 0 ==> GetLoginPassword(reply) == Failure(EmptyToken)
    ensures reply.TokenIssued? && |reply.authorizationData| > 1 ==>
      GetLoginPassword(reply) == Failure(MultipleTokens(|reply.authorizationData|))
    ensures reply.TokenIssued? && |reply.authorizationData| == 1 && reply.authorizationData[0].authorizationToken.None? ==>
      GetLoginPassword(reply) == Failure(NilToken)
    ensures (reply.TokenIssued? && |reply.authorizationData| == 1 && reply.authorizationData[0].authorizationToken.Some?
             && DecodedToken(reply).None?) ==> GetLoginPassword(reply) == Failure(DecodeFailed)
    ensures DecodedToken(reply).Some? && Colons(DecodedToken(reply).value) != 1 ==>
      GetLoginPassword(reply) == Failure(UnexpectedFormat)
  {
    if DecodedToken(reply).Some? {
      PasswordOfExactlyOneColon(DecodedToken(reply).value);
    }
  }

  /** A token that encodes `user:password` (both colon-free) yields the password. */
  lemma LoginPasswordRoundTrip(user: seq<byte>, password: seq<byte>)
    requires Colon !in user && Colon !in password
    ensures GetLoginPassword(TokenIssued([AuthorizationData(Some(Encode(user + [Colon] + password)))])) == Success(password)
  {
    DecodeEncode(user + [Colon] + password);
    PasswordOfJoined(user, password);
  }

  const StatusOK := 200
  const StatusNotFound := 404
  const StatusInternalServerError := 500

  /** A JSON response body. */
  datatype Body =
    | Text(text: string)
    | RepositoryList(repositories: seq<Repository>)
    | ImagePage(page: Page<ImageIdentifier>)
    | ImageList(imageIds: seq<Images>)

  /** What a handler does: writes a status and a body, or panics. */
  datatype Response = Respond(status: int, body: Body) | Panic

  /** Every repository summary is listed. */
  predicate AnyRepository(r: RepositorySummary)
  {
    true
  }

  function ToRepository(r: RepositorySummary): Repository
  {
    Repository(ToString(r.repositoryName))
  }

  function RepositoryName(r: Repository): string
  {
    r.repositoryName
  }

  /** The marker a tag must contain for its image to be listed. */
  const ReleaseMarker := "1.0.0"

  predicate IsRelease(id: ImageIdentifier)
  {
    Contains(id.imageTag, ReleaseMarker)
  }

  function ToImages(id: ImageIdentifier): Images
  {
    Images(ToString(id.imageDigest), id.imageTag)
  }

  function ImageTagOf(i: Images): string
  {
    i.imageTag
  }

  /**
   * Lists every repository of the region. The walk panics on a reply with
   * no output; otherwise the names of every page received, stably sorted
   * ascending, are sent with status 200, even when the last call failed
   * (that error is only logged).
   */
  method GetRepositories(registry: seq<Reply<RepositorySummary>>) returns (out: Response)
    requires Valid(registry)
    ensures out.Panic? <==> !AllOutputs(Received(registry))
    ensures out.Respond? ==>
      var listed := Gather(Received(registry), AnyRepository, ToRepository);
      && out.status == StatusOK && out.body.RepositoryList?
      && SortedBy(out.body.repositories, RepositoryName, false)
      && multiset(out.body.repositories) == multiset(listed)
      && forall name :: WithKey(out.body.repositories, RepositoryName, name) == WithKey(listed, RepositoryName, name)
  {
    var first := Serve(registry, None);
    var w;
    ghost var cursors;
    w, cursors := FollowCursors(registry, first, AnyRepository, ToRepository);
    if w.Panicked? {
      return Panic;
    }
    var repositories := SortStable(w.items, RepositoryName, false);
    SortStableSorted(w.items, RepositoryName, false);
    forall name {
      SortStableKeepsKeyOrder(w.items, RepositoryName, false, name);
    }
    out := Respond(StatusOK, RepositoryList(repositories));
  }

  /**
   * Lists the release images of a repository, as written: a failed first
   * call answers 404; a reply with no output panics the walk; a failed last
   * call answers 500; otherwise the release images are collected and sorted,
   * but the body sent with status 200 is the last page received.
   */
  method RetrieveEcrContainers(registry: seq<Reply<ImageIdentifier>>) returns (out: Response)
    requires Valid(registry)
    ensures registry[0].err.Some? ==> out == Respond(StatusNotFound, Text("Registry not found"))
    ensures registry[0].err.None? ==>
      var rs := Received(registry);
      if !AllOutputs(rs) then out == Panic
      else if rs[|rs| - 1].err.Some? then out == Respond(StatusInternalServerError, Text("Error listing images"))
      else out == Respond(StatusOK, ImagePage(rs[|rs| - 1].output.value))
  {
    var first := Serve(registry, None);
    if first.err.Some? {
      return Respond(StatusNotFound, Text("Registry not found"));
    }
    var w;
    ghost var cursors;
    w, cursors := FollowCursors(registry, first, IsRelease, ToImages);
    if w.Panicked? {
      return Panic;
    }
    if w.lastErr.Some? {
      return Respond(StatusInternalServerError, Text("Error listing images"));
    }
    var images := SortStable(w.items, ImageTagOf, true);
    out := Respond(StatusOK, ImagePage(w.last));
  }

  /**
   * Two pages, a release image on the first: the images collected hold it,
   * while the last page, which is what the listing sends, holds no image.
   */
  lemma LastPageHidesReleases()
    ensures var registry := [
        Reply(Some(Page([ImageIdentifier(Some("sha256:a"), "1.0.0")], Some("c1"))), None),
        Reply(Some(Page([], None)), None)
      ];
      && Valid(registry) && registry[0].err.None?
      && Received(registry) == registry && AllOutputs(registry) && registry[1].err.None?
      && Gather(Received(registry), IsRelease, ToImages) == [Images("sha256:a", "1.0.0")]
      && registry[1].output.value.items == []
  {
    var registry := [
      Reply(Some(Page([ImageIdentifier(Some("sha256:a"), "1.0.0")], Some("c1"))), None),
      Reply(Some(Page([], None)), None)
    ];
    assert HasPrefix("1.0.0", ReleaseMarker);
    CompleteRegistryFullyWalked(registry, IsRelease, ToImages);
  }

  /** Exactly the release images of the pages received are collected. */
  lemma ReleasesCollected(rs: seq<Reply<ImageIdentifier>>, img: Images)
    requires AllOutputs(rs)
    ensures img in Gather(rs, IsRelease, ToImages) <==>
      exists i, id :: 0 <= i < |rs| && id in rs[i].output.value.items && IsRelease(id) && ToImages(id) == img
    ensures img in Gather(rs, IsRelease, ToImages) ==> Contains(img.imageTag, ReleaseMarker)
  {
    GatherMembers(rs, IsRelease, ToImages, img);
  }

  /**
   * The listing as evidently intended: the same status codes, but status
   * 200 sends the release images of every page received, stably sorted by
   * descending tag.
   */
  method RetrieveEcrContainersFixed(registry: seq<Reply<ImageIdentifier>>) returns (out: Response)
    requires Valid(registry)
    ensures registry[0].err.Some? ==> out == Respond(StatusNotFound, Text("Registry not found"))
    ensures registry[0].err.None? ==>
      var rs := Received(registry);
      && (out.Panic? <==> !AllOutputs(rs))
      && (AllOutputs(rs) && rs[|rs| - 1].err.Some? ==> out == Respond(StatusInternalServerError, Text("Error listing images")))
      && (AllOutputs(rs) && rs[|rs| - 1].err.None? ==> out.Respond? && out.status == StatusOK)
    ensures out.Respond? && out.status == StatusOK ==>
      var listed := Gather(Received(registry), IsRelease, ToImages);
      && registry[0].err.None? && out.body.ImageList?
      && SortedBy(out.body.imageIds, ImageTagOf, true)
      && multiset(out.body.imageIds) == multiset(listed)
      && (forall tag :: WithKey(out.body.imageIds, ImageTagOf, tag) == WithKey(listed, ImageTagOf, tag))
      && (forall img :: img in out.body.imageIds ==> Contains(img.imageTag, ReleaseMarker))
  {
    var first := Serve(registry, None);
    if first.err.Some? {
      return Respond(StatusNotFound, Text("Registry not found"));
    }
    var w;
    ghost var cursors;
    w, cursors := FollowCursors(registry, first, IsRelease, ToImages);
    if w.Panicked? {
      return Panic;
    }
    if w.lastErr.Some? {
      return Respond(StatusInternalServerError, Text("Error listing images"));
    }
    var images := SortStable(w.items, ImageTagOf, true);
    SortStableSorted(w.items, ImageTagOf, true);
    forall tag {
      SortStableKeepsKeyOrder(w.items, ImageTagOf, true, tag);
    }
    forall img | img in images ensures Contains(img.imageTag, ReleaseMarker) {
      assert img in multiset(w.items);
      ReleasesCollected(Received(registry), img);
    }
    out := Respond(StatusOK, ImageList(images));
  }

  /** The pull step's errors, each wrapping the engine's. */
  datatype PullError = PullFailed(cause: EngineError) | ReadLogsFailed(cause: EngineError)

  /**
   * Pulls img with the base64url encoding of the marshalled credential as
   * the registry auth header; a failed pull is reported before any stream
   * is read, otherwise the progress is read and the stream closed.
   */
  method PullImage(engine: Engine, credential: seq<byte>, img: string) returns (err: Option<PullError>)
    modifies engine
    ensures var pull := ImagePull(img, Encode(credential));
      if engine.answer(pull).Some? then
        engine.Trace == old(engine.Trace) + [pull] && err == Some(PullFailed(engine.answer(pull).value))
      else
        && engine.Trace == old(engine.Trace) + [pull, ReadProgress(img), CloseProgress(img)]
        && err == (if engine.answer(ReadProgress(img)).Some? then Some(ReadLogsFailed(engine.answer(ReadProgress(img)).value)) else None)
    ensures Decode(engine.Trace[|old(engine.Trace)|].registryAuth) == Some(credential)
  {
    var auths := Encode(credential);
    DecodeEncode(credential);
    var pullErr := engine.Perform(ImagePull(img, auths));
    assert engine.Trace[|old(engine.Trace)|].registryAuth == auths;
    if pullErr.Some? {
      return Some(PullFailed(pullErr.value));
    }
    var copyErr := engine.Perform(ReadProgress(img));
    var _ := engine.Perform(CloseProgress(img));
    assert engine.Trace[|old(engine.Trace)|].registryAuth == auths;
    if copyErr.Some? {
      return Some(ReadLogsFailed(copyErr.value));
    }
    return None;
  }
}
