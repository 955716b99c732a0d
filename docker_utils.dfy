/**
 * The library copy of the core: the registry login password (with its own
 * error reporting), the repository and image enumerations returned as
 * values, and the pull and retag-and-push steps over the Docker engine.
 */
module DockerUtils {
  import opened Wrappers
  import opened Base64Url
  import opened TokenFormat
  import opened EcrApi
  import opened Pagination
  import opened PaginationFacts
  import opened StableSort
  import opened GoStrings
  import opened ImageRef
  import opened DockerEngine

  datatype ECRRepository = ECRRepository(repositoryName: string)
  datatype ECRResponse = ECRResponse(repositories: seq<ECRRepository>)
  datatype DockerImage = DockerImage(imageDigest: string, imageTag: string)
  datatype DockerImagesResponse = DockerImagesResponse(imageIds: seq<DockerImage>)
  datatype ImageRequest = ImageRequest(region: string, repositoryName: string, tag: string, accountID: string)

  /**
   * A Go error value: an SDK error passed on, the base64 decoder's corrupt
   * input error, or (in the corrected login only) a malformed token reply.
   */
  datatype GoError = Api(cause: ApiError) | CorruptInput | Malformed

  /** A password and an error, as a Go function returns them. */
  datatype LoginOutcome = LoginOutcome(password: seq<byte>, err: Option<GoError>)

  /** A Go call that returns a value or panics. */
  datatype Call<T> = Panics | Returns(value: T)

  /**
   * The registry password, as written: the same checks as the handlers'
   * copy, but each shape or format failure returns the variable holding the
   * last error, which is nil at that point; only a failed token request or
   * a failed decode reports an error.
   */
  function GetEcrLoginPassword(reply: TokenReply): (r: LoginOutcome)
  {
    match reply
    case TokenFailed(e) => LoginOutcome([], Some(Api(e)))
    case TokenIssued(data) =>
      if |data| != 1 || data[0].authorizationToken.None? then LoginOutcome([], None)
      else
        match Decode(data[0].authorizationToken.value)
        case None => LoginOutcome([], Some(CorruptInput))
        case Some(decoded) =>
          match PasswordOf(decoded)
          case None => LoginOutcome([], None)
          case Some(password) => LoginOutcome(password, None)
  }

  /** A well-formed reply yields the colon-free text after the decoded token's single colon, and no error. */
  lemma EcrLoginPasswordAccepted(reply: TokenReply)
    requires WellFormed(reply)
    ensures GetEcrLoginPassword(reply).err.None?
    ensures var p := GetEcrLoginPassword(reply).password;
      Colon !in p && exists user :: Colon !in user && DecodedToken(reply) == Some(user + [Colon] + p)
  {
    PasswordOfExactlyOneColon(DecodedToken(reply).value);
  }

  /**
   * An error is reported exactly when the token request or the decode
   * fails; every other unusable reply yields the empty password and no error.
   */
  lemma EcrLoginErrorsReported(reply: TokenReply)
    ensures GetEcrLoginPassword(reply).err.Some? <==>
      reply.TokenFailed? || (reply.TokenIssued? && |reply.authorizationData| == 1
        && reply.authorizationData[0].authorizationToken.Some? && DecodedToken(reply).None?)
    ensures reply.TokenFailed? ==> GetEcrLoginPassword(reply).err == Some(Api(reply.err))
    ensures !WellFormed(reply) ==> GetEcrLoginPassword(reply).password == []
  {
    if DecodedToken(reply).Some? {
      PasswordOfExactlyOneColon(DecodedToken(reply).value);
    }
  }

  /** A reply with no authorization entry: not well-formed, yet no error and an empty password. */
  lemma EmptyReplyReportsNoError()
    ensures !WellFormed(TokenIssued([]))
    ensures GetEcrLoginPassword(TokenIssued([])) == LoginOutcome([], None)
  {
  }

  /** The registry password as evidently intended: every unusable reply reports an error. */
  function GetEcrLoginPasswordChecked(reply: TokenReply): (r: LoginOutcome)
    ensures r.err.None? <==> WellFormed(reply)
    ensures r.err.None? ==>
      Colon !in r.password && exists user :: Colon !in user && DecodedToken(reply) == Some(user + [Colon] + r.password)
    ensures r.err.Some? ==> r.password == []
  {
    match reply
    case TokenFailed(e) => LoginOutcome([], Some(Api(e)))
    case TokenIssued(data) =>
      if |data| != 1 || data[0].authorizationToken.None? then LoginOutcome([], Some(Malformed))
      else
        match Decode(data[0].authorizationToken.value)
        case None => LoginOutcome([], Some(CorruptInput))
        case Some(decoded) =>
          PasswordOfExactlyOneColon(decoded);
          match PasswordOf(decoded)
          case None => LoginOutcome([], Some(Malformed))
          case Some(password) => LoginOutcome(password, None)
  }

  /** Every repository summary is listed. */
  predicate AnyRepository(r: RepositorySummary)
  {
    true
  }

  function ToECRRepository(r: RepositorySummary): ECRRepository
  {
    ECRRepository(ToString(r.repositoryName))
  }

  function RepositoryName(r: ECRRepository): string
  {
    r.repositoryName
  }

  /**
   * Every repository of the region: the walk panics on a reply with no
   * output; otherwise the names of every page received, stably sorted
   * ascending. An error on the last call is only logged.
   */
  method GetEcrRepositories(registry: seq<Reply<RepositorySummary>>) returns (out: Call<ECRResponse>)
    requires Valid(registry)
    ensures out.Panics? <==> !AllOutputs(Received(registry))
    ensures out.Returns? ==>
      var listed := Gather(Received(registry), AnyRepository, ToECRRepository);
      var repositories := out.value.repositories;
      && SortedBy(repositories, RepositoryName, false)
      && multiset(repositories) == multiset(listed)
      && forall name :: WithKey(repositories, RepositoryName, name) == WithKey(listed, RepositoryName, name)
  {
    var first := Serve(registry, None);
    var w;
    ghost var cursors;
    w, cursors := FollowCursors(registry, first, AnyRepository, ToECRRepository);
    if w.Panicked? {
      return Panics;
    }
    var repositories := SortStable(w.items, RepositoryName, false);
    SortStableSorted(w.items, RepositoryName, false);
    forall name {
      SortStableKeepsKeyOrder(w.items, RepositoryName, false, name);
    }
    out := Returns(ECRResponse(repositories));
  }

  /** The marker a tag must contain for its image to be listed. */
  const ReleaseMarker := "1.0.0"

  predicate IsRelease(id: ImageIdentifier)
  {
    Contains(id.imageTag, ReleaseMarker)
  }

  function ToDockerImage(id: ImageIdentifier): DockerImage
  {
    DockerImage(ToString(id.imageDigest), id.imageTag)
  }

  function ImageTagOf(i: DockerImage): string
  {
    i.imageTag
  }

  /** The images and the error the enumeration returns. */
  datatype ContainersResult = ContainersResult(images: DockerImagesResponse, err: Option<ApiError>)

  /** Exactly the release images of the pages received are collected. */
  lemma ReleasesCollected(rs: seq<Reply<ImageIdentifier>>, img: DockerImage)
    requires AllOutputs(rs)
    ensures img in Gather(rs, IsRelease, ToDockerImage) <==>
      exists i, id :: 0 <= i < |rs| && id in rs[i].output.value.items && IsRelease(id) && ToDockerImage(id) == img
    ensures img in Gather(rs, IsRelease, ToDockerImage) ==> Contains(img.imageTag, ReleaseMarker)
  {
    GatherMembers(rs, IsRelease, ToDockerImage, img);
  }

  /**
   * The release images of a repository: a failed first call returns no
   * image and that error; a reply with no output panics the walk; a failed
   * last call returns the collected images unsorted with that error;
   * otherwise the collected images stably sorted by descending tag, and no
   * error.
   */
  method GetEcrContainers(registry: seq<Reply<ImageIdentifier>>) returns (out: Call<ContainersResult>)
    requires Valid(registry)
    ensures registry[0].err.Some? ==> out == Returns(ContainersResult(DockerImagesResponse([]), registry[0].err))
    ensures registry[0].err.None? ==>
      var rs := Received(registry);
      && (out.Panics? <==> !AllOutputs(rs))
      && (AllOutputs(rs) && rs[|rs| - 1].err.Some? ==>
            out == Returns(ContainersResult(DockerImagesResponse(Gather(rs, IsRelease, ToDockerImage)), rs[|rs| - 1].err)))
      && (AllOutputs(rs) && rs[|rs| - 1].err.None? ==> out.Returns? && out.value.err.None?)
    ensures out.Returns? && out.value.err.None? ==>
      var listed := Gather(Received(registry), IsRelease, ToDockerImage);
      var images := out.value.images.imageIds;
      && registry[0].err.None? && Received(registry)[|Received(registry)| - 1].err.None?
      && SortedBy(images, ImageTagOf, true)
      && multiset(images) == multiset(listed)
      && (forall tag :: WithKey(images, ImageTagOf, tag) == WithKey(listed, ImageTagOf, tag))
      && (forall img :: img in images ==> Contains(img.imageTag, ReleaseMarker))
  {
    var first := Serve(registry, None);
    if first.err.Some? {
      return Returns(ContainersResult(DockerImagesResponse([]), first.err));
    }
    var w;
    ghost var cursors;
    w, cursors := FollowCursors(registry, first, IsRelease, ToDockerImage);
    if w.Panicked? {
      return Panics;
    }
    if w.lastErr.Some? {
      return Returns(ContainersResult(DockerImagesResponse(w.items), w.lastErr));
    }
    var images := SortStable(w.items, ImageTagOf, true);
    SortStableSorted(w.items, ImageTagOf, true);
    forall tag {
      SortStableKeepsKeyOrder(w.items, ImageTagOf, true, tag);
    }
    forall img | img in images ensures Contains(img.imageTag, ReleaseMarker) {
      assert img in multiset(w.items);
      ReleasesCollected(Received(registry), img);
    }
    out := Returns(ContainersResult(DockerImagesResponse(images), None));
  }

  /** The reference an image request names. */
  function RequestReference(req: ImageRequest): (s: string)
    ensures ':' !in req.tag ==> TagOf(s) == req.tag
  {
    var s := Reference(req.accountID, req.region, req.repositoryName, req.tag);
    if ':' in req.tag then s
    else
      TagOfReference(req.accountID, req.region, req.repositoryName, req.tag);
      s
  }

  /**
   * Pulls the requested reference with the base64url encoding of the
   * marshalled credential as the registry auth header; a failed pull is
   * returned before any stream is read, otherwise the progress is read,
   * the stream closed, and the read's error returned.
   */
  method PullImage(engine: Engine, credential: seq<byte>, req: ImageRequest) returns (err: Option<EngineError>)
    modifies engine
    ensures var img := RequestReference(req);
      var pull := ImagePull(img, Encode(credential));
      if engine.answer(pull).Some? then
        engine.Trace == old(engine.Trace) + [pull] && err == engine.answer(pull)
      else
        engine.Trace == old(engine.Trace) + [pull, ReadProgress(img), CloseProgress(img)] && err == engine.answer(ReadProgress(img))
    ensures Decode(engine.Trace[|old(engine.Trace)|].registryAuth) == Some(credential)
  {
    var img := RequestReference(req);
    var auths := Encode(credential);
    DecodeEncode(credential);
    err := engine.Perform(ImagePull(img, auths));
    assert engine.Trace[|old(engine.Trace)|] == ImagePull(img, auths);
    if err.Some? {
      return;
    }
    err := engine.Perform(ReadProgress(img));
    var _ := engine.Perform(CloseProgress(img));
    assert engine.Trace[|old(engine.Trace)|] == ImagePull(img, auths);
  }

  /**
   * The retag target of a request whose tag has no `:` is its reference
   * with the tag replaced by `latest`: same account, region and repository.
   */
  lemma LatestTarget(req: ImageRequest)
    ensures ':' !in req.tag ==>
      var latest := Reference(req.accountID, req.region, req.repositoryName, LatestTag);
      latest == WithTag(RequestReference(req), LatestTag) && TagOf(latest) == LatestTag
  {
    if ':' !in req.tag {
      RetagKeepsRepository(req.accountID, req.region, req.repositoryName, req.tag, LatestTag);
      TagOfReference(req.accountID, req.region, req.repositoryName, LatestTag);
    }
  }

  /**
   * Tags the requested reference as the same repository's `latest`; a
   * failed tag is returned before the credential is encoded or anything is
   * pushed. Otherwise `latest` is pushed with the encoded credential; a
   * failed push is returned before any stream is read, and otherwise the
   * progress is read, the stream closed, and the read's error returned.
   */
  method RetagAndPushImage(engine: Engine, credential: seq<byte>, req: ImageRequest) returns (err: Option<EngineError>)
    modifies engine
    ensures var img := RequestReference(req);
      var latest := Reference(req.accountID, req.region, req.repositoryName, LatestTag);
      var tag := ImageTag(img, latest);
      var push := ImagePush(latest, Encode(credential));
      if engine.answer(tag).Some? then
        engine.Trace == old(engine.Trace) + [tag] && err == engine.answer(tag)
      else if engine.answer(push).Some? then
        engine.Trace == old(engine.Trace) + [tag, push] && err == engine.answer(push)
      else
        engine.Trace == old(engine.Trace) + [tag, push, ReadProgress(latest), CloseProgress(latest)]
        && err == engine.answer(ReadProgress(latest))
    ensures ':' !in req.tag ==>
      var tagOp := engine.Trace[|old(engine.Trace)|];
      tagOp.ImageTag? && tagOp.target == WithTag(tagOp.source, LatestTag) && TagOf(tagOp.target) == LatestTag
    ensures |engine.Trace| > |old(engine.Trace)| + 1 ==> Decode(engine.Trace[|old(engine.Trace)| + 1].registryAuth) == Some(credential)
  {
    var img := RequestReference(req);
    var latest := Reference(req.accountID, req.region, req.repositoryName, LatestTag);
    LatestTarget(req);
    err := engine.Perform(ImageTag(img, latest));
    assert engine.Trace[|old(engine.Trace)|] == ImageTag(img, latest);
    if err.Some? {
      return;
    }
    var auths := Encode(credential);
    DecodeEncode(credential);
    err := engine.Perform(ImagePush(latest, auths));
    assert engine.Trace[|old(engine.Trace)| + 1] == ImagePush(latest, auths);
    if err.Some? {
      return;
    }
    err := engine.Perform(ReadProgress(latest));
    var _ := engine.Perform(CloseProgress(latest));
    assert engine.Trace[|old(engine.Trace)|] == ImageTag(img, latest);
    assert engine.Trace[|old(engine.Trace)| + 1] == ImagePush(latest, auths);
  }
}
