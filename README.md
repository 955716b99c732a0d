# ECR and Docker helpers: a Dafny model

This project models the logic of a small Go service that works with an AWS
Elastic Container Registry (ECR) and a local Docker engine. The same logic
appears in two places:

- the HTTP handlers in `clientset-docker.go`;
- the library package in `pkg/docker-utils/docker-utils.go`.

It has three parts.

1. **Registry login password.** The service asks ECR for an authorization
   token. It checks that exactly one authorization entry came back and that
   its token is non-nil. It then base64url-decodes the token, using the
   padded URL-safe alphabet of section 5 of RFC 4648 as Go's
   `base64.URLEncoding` does. Finally it splits the decoded text on `:` and
   returns the second of exactly two parts.
   The two copies report failures differently:
   - the handlers' copy gives each failure its own error;
   - the library copy returns a nil error for every failure except a failed
     request or a failed decode.
2. **Paginated enumeration.** Repositories and images are listed page by
   page.
   - The first call passes no cursor. Each later call passes the previous
     reply's `NextToken`.
   - Items are accumulated in arrival order. Images are kept only when
     their tag contains `1.0.0`.
   - The result is stably sorted: repositories by ascending name, images
     by descending tag.
   - Only the last call's error is looked at after the loop.
   - The registry is a finite sequence of replies. Each reply is an
     optional page (items plus an optional cursor) and an optional error.
     A cursor the registry never issued is answered with an error and no
     page.
   - A nil page is dereferenced by the Go loops, so it is modelled as a
     panic.
3. **Image references and engine steps.** A reference is
   `{account}.dkr.ecr.{region}.amazonaws.com/{repository}:{tag}`.
   - Pulling sends the base64url-encoded credential as the auth header. On
     success the progress stream is read and then closed.
   - Retagging tags the image as the same repository's `latest`, then pushes
     `latest`. A failed tag or push stops the remaining steps; after a
     failed read of a progress stream the stream is still closed.
   - The engine is a class with a ghost trace of the operations issued.
     Its answer to each operation is a parameter fixed when it is created.

Modules:

- `Wrappers`: `Option` and `Result`.
- `Base64Url`: the codec.
- `TokenFormat`: `strings.Split` on `:` over bytes, and the well-formedness
  of a token reply.
- `StableSort`: the contract of `sort.SliceStable`.
- `GoStrings`: `strings.Contains` and `aws.ToString`.
- `EcrApi`: the SDK's records and the registry.
- `Pagination` and `PaginationFacts`: the cursor loop and its properties.
- `ImageRef`: reference strings.
- `DockerEngine`: the abstract engine.
- `ClientsetDocker` and `DockerUtils`: the two source files.

The SDK's list calls return either a page or an error, never both. With
such replies, a failed fetch after the first leaves a nil page, which the
loop ranges over, so the enumeration panics before the error is looked at.
In the repository listings a failed first fetch panics the same way; the
image listings answer it with "not found" (handler) or the error (library).
The model also admits a reply that carries both a page and an error. For
such a last reply the code behaves differently from place to place, and the
model follows the code:

- the repository listings sort and return the partial list, logging the
  error;
- the library image listing returns the partial list unsorted, with the
  error;
- the image handler answers 500.

## Model

| member | source | states |
|---|---|---|
| Base64Url.Encode | pkg/docker-utils/docker-utils.go:197 | The encoding is padded: its length is a multiple of four, four characters per three bytes rounded up, and it is empty only for no bytes |
| Base64Url.CharValue | clientset-docker.go:81 | A character has a six-bit value exactly when it is in the URL-safe alphabet, and that value maps back to the character |
| Base64Url.SextetCharRoundTrip | clientset-docker.go:81 | Every six-bit value written as a character reads back as itself |
| Base64Url.DecodeEncode | pkg/docker-utils/docker-utils.go:197 | Decoding the encoding of any byte sequence gives back exactly those bytes |
| Base64Url.ForeignCharacterRejected | clientset-docker.go:81-84 | Any character other than the alphabet, `=`, `\r` or `\n` makes the decode fail |
| Base64Url.DecodeQuanta | clientset-docker.go:81-84 | Decoding quantum by quantum, every full quantum gives three bytes and the last one to three, so an accepted text of four-character quanta holds four characters per three bytes, rounded up |
| Base64Url.DecodeLength | clientset-docker.go:81-84 | A text decodes only when its length, line breaks aside, is four characters per three decoded bytes rounded up; a length that is not a multiple of four always fails |
| TokenFormat.SplitCount | clientset-docker.go:86 | Splitting on `:` gives one more part than there are colons, and no part contains a colon |
| TokenFormat.JoinSplit | clientset-docker.go:86 | Joining the parts with `:` gives back the text |
| TokenFormat.SplitJoined | clientset-docker.go:86 | Colon-free `user` and `password` joined by `:` split into exactly `[user, password]` |
| TokenFormat.PasswordOfExactlyOneColon | clientset-docker.go:86-91 | A decoded token is accepted exactly when it holds one colon; the password is then the colon-free text after it |
| TokenFormat.PasswordOfJoined | clientset-docker.go:86-91 | `user:password` with colon-free parts yields `password` |
| TokenFormat.DecodedToken | clientset-docker.go:69-81 | A decoded token exists only for a reply that issued exactly one authorization entry |
| ClientsetDocker.LoginPasswordAccepted | clientset-docker.go:62-92 | A password is returned exactly for a well-formed reply, and it is the colon-free text after the single colon of the decoded token |
| ClientsetDocker.LoginErrorCases | clientset-docker.go:64-89 | A failed request, no entry, several entries, a nil token, a failed decode and a wrong colon count each give their own error; several entries are refused whatever they hold |
| ClientsetDocker.LoginPasswordRoundTrip | clientset-docker.go:79-91 | A single token that base64url-encodes `user:password`, both colon-free, yields `password` |
| DockerUtils.EcrLoginPasswordAccepted | pkg/docker-utils/docker-utils.go:73-87 | A well-formed reply yields no error and the colon-free text after the decoded token's single colon |
| DockerUtils.EcrLoginErrorsReported | pkg/docker-utils/docker-utils.go:52-88 | An error comes back exactly when the token request or the decode fails; any unusable reply yields the empty password |
| DockerUtils.EmptyReplyReportsNoError | pkg/docker-utils/docker-utils.go:60-63 | A reply with no authorization entry is not well-formed, yet yields the empty password and no error |
| DockerUtils.GetEcrLoginPasswordChecked | pkg/docker-utils/docker-utils.go:52-88 | Corrected login: no error exactly for a well-formed reply, with the password after the single colon; otherwise an error and the empty password |
| StableSort.StrLessTotal | clientset-docker.go:215 | Go's string `<` is a total order: two strings are equal or one is less than the other |
| StableSort.StrLessTransitive | clientset-docker.go:215 | Go's string `<` is transitive |
| StableSort.SortStable | clientset-docker.go:214-216 | The sorted slice is a permutation of the input |
| StableSort.SortStableSorted | clientset-docker.go:281-283 | The result is ordered by key, ascending or descending as asked |
| StableSort.SortStableKeepsKeyOrder | pkg/docker-utils/docker-utils.go:180-182 | Stability: the elements with any one key keep their relative order |
| GoStrings.ContainsAt | clientset-docker.go:257 | `strings.Contains` holds exactly when the substring occurs at some index |
| EcrApi.ServeFollows | clientset-docker.go:201-203 | Passing on the cursor of reply k fetches reply k + 1, and the last reply's cursor is rejected |
| Pagination.AppendPage | clientset-docker.go:256-263 | The range loop appends to the accumulation the converted items of the page that pass the filter, in page order |
| Pagination.FollowCursors | clientset-docker.go:250-275 | The cursor loop yields the walk's specification: a panic on a nil page, otherwise the kept items of every page received plus the last page and error; the ghost cursor record is the cursor passed to each call |
| PaginationFacts.ReceivedHandOff | clientset-docker.go:188-209 | The first call has no cursor; each later call passes the cursor the previous reply carried; each is answered by the registry's reply to that cursor |
| PaginationFacts.ReceivedShape | pkg/docker-utils/docker-utils.go:107-115 | The replies received are the registry's in order, and the loop stops at the first reply without a cursor |
| PaginationFacts.CompleteRegistryFullyWalked | pkg/docker-utils/docker-utils.go:94-115 | When every reply has a page and the last has no cursor, every reply is received once, in order, and every page is collected |
| PaginationFacts.NilFirstOutputPanics | clientset-docker.go:191-195 | A nil first page panics the enumeration |
| PaginationFacts.CollectMembers | clientset-docker.go:256-263 | An item is collected from a page exactly when some item of the page passes the filter and converts to it |
| PaginationFacts.CollectConcat | clientset-docker.go:264-274 | Collecting two runs of items in turn is collecting their concatenation |
| PaginationFacts.GatherMembers | pkg/docker-utils/docker-utils.go:155-174 | An item is accumulated exactly when some received page holds an item that passes the filter and converts to it |
| ClientsetDocker.GetRepositories | clientset-docker.go:175-219 | Panics exactly on a nil page. Otherwise status 200, even after a failed last call, with the names of every page received stably sorted ascending |
| ClientsetDocker.RetrieveEcrContainers | clientset-docker.go:221-287 | A failed first call gives 404 and a nil page panics. A failed last call gives 500. Otherwise 200, with the last page received as the body |
| ClientsetDocker.LastPageHidesReleases | clientset-docker.go:281-285 | With two pages and a release image on the first, the images collected hold it, but the last page sent as the body holds no image |
| ClientsetDocker.ReleasesCollected | clientset-docker.go:256-274 | Exactly the release images of the pages received are collected, so every collected tag contains `1.0.0` |
| ClientsetDocker.RetrieveEcrContainersFixed | clientset-docker.go:221-287 | Corrected listing with the same 404, panic and 500 cases, and status 200 exactly when the first and last calls report no error and every reply received has a page. Status 200 sends the release images of every page received, stably sorted by descending tag, each tag containing `1.0.0` |
| ClientsetDocker.PullImage | clientset-docker.go:102-128 | The auth header decodes back to the credential. A failed pull is reported, wrapped, before any stream is read. Otherwise the stream is read then closed, and a read failure is reported, wrapped |
| DockerUtils.GetEcrRepositories | pkg/docker-utils/docker-utils.go:90-125 | Panics exactly on a nil page. Otherwise returns the names of every page received, stably sorted ascending; a last-call error is never returned |
| DockerUtils.ReleasesCollected | pkg/docker-utils/docker-utils.go:155-173 | Exactly the release images of the pages received are collected, so every collected tag contains `1.0.0` |
| DockerUtils.GetEcrContainers | pkg/docker-utils/docker-utils.go:127-185 | A failed first call returns no image with that error. A nil page panics. A failed last call returns the collected images unsorted with that error. When every call succeeds the error is nil, and the collected images come back stably sorted by descending tag, each tag containing `1.0.0`, with no error |
| ImageRef.TagOfReference | pkg/docker-utils/docker-utils.go:189 | A colon-free tag can be read back from the reference as the text after its last `:` |
| ImageRef.RetagKeepsRepository | pkg/docker-utils/docker-utils.go:224-225 | Replacing the tag of a reference with a colon-free tag gives the reference built with the new tag: same account, region and repository |
| ClientsetDocker.RetagReference | clientset-docker.go:143 | The reference the retag handler pulls carries the request's new tag after its last `:` when that tag is colon-free |
| ImageRef.ReferenceDeterminesTag | clientset-docker.go:143 | Two references to the same repository are equal only for equal tags |
| DockerUtils.RequestReference | pkg/docker-utils/docker-utils.go:189 | The pulled reference carries the request's tag after its last `:` when the tag is colon-free |
| DockerUtils.LatestTarget | pkg/docker-utils/docker-utils.go:224-225 | The `latest` target is the source reference with its tag replaced by `latest` |
| DockerEngine.Engine.Perform | pkg/docker-utils/docker-utils.go:200-205 | Issuing an operation appends it to the trace and returns the engine's answer to it |
| DockerUtils.PullImage | pkg/docker-utils/docker-utils.go:187-220 | Pulls the request's reference with an auth header that decodes back to the credential. A failed pull returns before any stream is read. Otherwise the stream is read then closed, and the read's error is returned |
| DockerUtils.RetagAndPushImage | pkg/docker-utils/docker-utils.go:222-258 | Tags first; a failed tag returns before anything is pushed. Then pushes `latest` in the same repository, with a header that decodes to the credential; a failed push returns before any stream is read. Otherwise the stream is read then closed, and the read's error is returned |

## Left out

- Loading AWS configuration and constructing the ECR and Docker clients are foreign SDK calls, so they are not modelled. The panics they cause in the source are not modelled either. The registry and the engine are given as parameters.
- The Kubernetes side (`main.go`, `clientset-local.go`, `clientset/clientset.go`) is not part of this model. It consists of calls into the EKS and Kubernetes SDKs.
- `cmd/consumer/consumer.go` is not part of this model. It is a demonstration that sequences the core calls and ignores their errors.
- The HTTP layer is not modelled: routing, `main`, the ping and `Test` handlers, and JSON binding with its 400 answer. Only the status codes and bodies the listing handlers write are kept.
- `retagImages` is handler glue and is not modelled, apart from its reference string. It writes a 400 on a login failure but does not return, and it only pulls.
- JSON marshalling of the Docker credential is a library call. The credential is an opaque byte sequence, and the marshalling error path of the pull and push steps is not modelled.
- Logging (`slog`, `fmt.Println`) and the bytes copied to standard output are I/O. Reading and closing a progress stream are engine operations, and only their errors are modelled.
- DockerEngine.Engine.Perform: the engine's answer to an operation is fixed when the engine is created, so a single run cannot see the same operation answered in two ways.
- ClientsetDocker.GetLoginPassword and ClientsetDocker.PullImage: errors are constructors rather than formatted messages. The wrapped SDK error is kept, but the error text is not.
- Base64Url.Decode: a failed decode is `None`. The offset that Go's `CorruptInputError` carries is not kept.
- StableSort.SortStable: `sort.SliceStable` sorts in place with its own algorithm. The model gives its contract as a value: the stable sort by key, defined by insertion. No other reference to the local slice exists, so sorting in place is not observable.
- EcrApi.Reply: a reply may carry both a page and an error, which the SDK never returns. The model keeps that case, so it covers more replies than the SDK produces; with SDK replies only, the partial-list and 500 outcomes above cannot arise.
- Pagination.FollowCursors: the registry must issue distinct cursors, as a real registry does, so the loop ends. A server that cycled its cursors would make the Go loop run forever, and that case is not modelled.
- The request records of the listings (`RetrieveImagesRequest`) only choose the region and repository. The registry parameter stands for that repository's replies.
- The page size (`MaxResults` 10) and the tagged-only filter are requests to the registry. The registry's pages are taken as given, and an image's tag is never nil. Under the tagged-only filter the source's dereference of the tag pointer therefore cannot panic, and that panic is not modelled.
- Contexts, cancellation and concurrency are not modelled.

## Findings

| source | as written | input that shows it | evidently intended | confidence | as-written member | corrected member |
|---|---|---|---|---|---|---|
| pkg/docker-utils/docker-utils.go:60-71 | Each shape or format check returns `"", err`, but `err` is the nil result of the successful token request (or decode), so the failure is not reported | A token reply with no authorization entry: the result is the empty password and a nil error | Each unusable reply returns a non-nil error, as the handlers' copy does | high; not executed | DockerUtils.EmptyReplyReportsNoError | DockerUtils.GetEcrLoginPasswordChecked |
| clientset-docker.go:281-285 | The images are filtered and sorted, but the 200 body is `resp`, the last page fetched | Two pages: the first holds an image tagged `1.0.0` and a cursor, the second is empty. The body is the empty second page | The 200 body is the filtered images, sorted by descending tag | high; not executed | ClientsetDocker.LastPageHidesReleases | ClientsetDocker.RetrieveEcrContainersFixed |
