/**
 * The registry's control plane as the enumerations and the login see it.
 * Each SDK call returns Go's pair of an output pointer and an error; a nil
 * pointer is `None`. The registry answers a list call without a cursor with
 * its first reply, and a call with a cursor with the reply after the one
 * that issued that cursor; a cursor it never issued is rejected with an
 * error and no output.
 */
module EcrApi {
  import opened Wrappers

  datatype ApiError = ApiError(message: string)

  /** `types.Repository`, reduced to the field that is read. */
  datatype RepositorySummary = RepositorySummary(repositoryName: Option<string>)

  /**
   * `types.ImageIdentifier`. Images are listed with the tagged-only filter,
   * so every identifier carries a tag.
   */
  datatype ImageIdentifier = ImageIdentifier(imageDigest: Option<string>, imageTag: string)

  /** One page of a list call: its items and the cursor for the next call. */
  datatype Page<T> = Page(items: seq<T>, nextToken: Option<string>)

  /** The `(*Output, error)` pair of one list call. */
  datatype Reply<T> = Reply(output: Option<Page<T>>, err: Option<ApiError>)

  /** One `types.AuthorizationData` entry; its token pointer may be nil. */
  datatype AuthorizationData = AuthorizationData(authorizationToken: Option<string>)

  /** The outcome of `GetAuthorizationToken`. */
  datatype TokenReply = TokenFailed(err: ApiError) | TokenIssued(authorizationData: seq<AuthorizationData>)

  const InvalidToken := ApiError("InvalidParameterException: invalid nextToken")

  /** The registry's answer to a cursor it never issued. */
  function Rejected<T>(): (r: Reply<T>)
    ensures r.output.None? && r.err.Some?
  {
    Reply(None, Some(InvalidToken))
  }

  /** The cursor a reply hands on: present only on a page that has one. */
  function Cursor<T>(r: Reply<T>): (c: Option<string>)
    ensures c.Some? ==> r.output.Some? && r.output.value.nextToken == c
  {
    if r.output.Some? then r.output.value.nextToken else None
  }

  /**
   * A registry, as the replies a correct client receives one after another:
   * there is a first reply, every reply but the last is a page with a cursor,
   * and no cursor is issued twice.
   */
  ghost predicate Valid<T>(registry: seq<Reply<T>>)
  {
    && |registry| > 0
    && (forall i :: 0 <= i < |registry| - 1 ==> Cursor(registry[i]).Some?)
    && (forall i, j :: 0 <= i < j < |registry| && Cursor(registry[i]).Some? ==> Cursor(registry[j]) != Cursor(registry[i]))
  }

  /** The first reply at or after `from` that issued cursor t, or |registry| when none did. */
  function Issuer<T>(registry: seq<Reply<T>>, t: string, from: nat): (i: nat)
    requires from <= |registry|
    ensures from <= i <= |registry|
    ensures i < |registry| ==> Cursor(registry[i]) == Some(t)
    ensures forall j :: from <= j < i ==> Cursor(registry[j]) != Some(t)
    decreases |registry| - from
  {
    if from == |registry| then |registry|
    else if Cursor(registry[from]) == Some(t) then from
    else Issuer(registry, t, from + 1)
  }

  /** The registry's reply to a list call with the given cursor. */
  function Serve<T>(registry: seq<Reply<T>>, cursor: Option<string>): (r: Reply<T>)
    requires |registry| > 0
  {
    match cursor
    case None => registry[0]
    case Some(t) =>
      var i := Issuer(registry, t, 0);
      if i + 1 < |registry| then registry[i + 1] else Rejected()
  }

  /** Passing on the cursor of reply k fetches reply k + 1 (or is rejected after the last). */
  lemma ServeFollows<T>(registry: seq<Reply<T>>, k: nat)
    requires Valid(registry) && k < |registry| && Cursor(registry[k]).Some?
    ensures Serve(registry, Cursor(registry[k])) == if k + 1 < |registry| then registry[k + 1] else Rejected()
  {
    var t := Cursor(registry[k]).value;
    var i := Issuer(registry, t, 0);
    assert i == k;
  }
}
