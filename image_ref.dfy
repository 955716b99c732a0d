/**
 * Fully qualified image references in the registry's format
 * `{account}.dkr.ecr.{region}.amazonaws.com/{repository}:{tag}`, built with
 * `fmt.Sprintf` and `%s` verbs, which is plain concatenation.
 */
module ImageRef {

  const LatestTag := "latest"

  /** The reference up to and including the `:` before the tag. */
  function RepositoryPart(account: string, region: string, repository: string): (s: string)
  {
    account + ".dkr.ecr." + region + ".amazonaws.com/" + repository + ":"
  }

  /** `{account}.dkr.ecr.{region}.amazonaws.com/{repository}:{tag}`. */
  function Reference(account: string, region: string, repository: string, tag: string): (s: string)
  {
    RepositoryPart(account, region, repository) + tag
  }

  /** The index of the last `:` in s, or -1 when there is none. */
  function LastColon(s: string): (i: int)
    ensures -1 <= i < |s|
    ensures i >= 0 ==> s[i] == ':'
    ensures forall j :: i < j < |s| ==> s[j] != ':'
  {
    if s == [] then -1
    else if s[|s| - 1] == ':' then |s| - 1
    else LastColon(s[..|s| - 1])
  }

  /** The tag of a reference: the text after its last `:`. */
  function TagOf(s: string): (t: string)
  {
    s[LastColon(s) + 1..]
  }

  /** The same reference with its tag (the text after the last `:`) replaced. */
  function WithTag(s: string, tag: string): (r: string)
  {
    s[..LastColon(s) + 1] + tag
  }

  lemma {:induction false} LastColonBeforeTag(prefix: string, tag: string)
    requires |prefix| > 0 && prefix[|prefix| - 1] == ':' && ':' !in tag
    ensures LastColon(prefix + tag) == |prefix| - 1
  {
    if tag != [] {
      var s := prefix + tag;
      assert s[..|s| - 1] == prefix + tag[..|tag| - 1];
      assert tag[|tag| - 1] in tag;
      LastColonBeforeTag(prefix, tag[..|tag| - 1]);
    } else {
      assert prefix + tag == prefix;
    }
  }

  /** A tag without `:` can be read back from the reference built from it. */
  lemma TagOfReference(account: string, region: string, repository: string, tag: string)
    requires ':' !in tag
    ensures TagOf(Reference(account, region, repository, tag)) == tag
  {
    var prefix := RepositoryPart(account, region, repository);
    LastColonBeforeTag(prefix, tag);
    assert (prefix + tag)[|prefix|..] == tag;
  }

  /**
   * Retagging a reference whose tag has no `:` keeps account, region and
   * repository: replacing its tag gives the reference built with the new tag.
   */
  lemma RetagKeepsRepository(account: string, region: string, repository: string, tag: string, newTag: string)
    requires ':' !in tag
    ensures WithTag(Reference(account, region, repository, tag), newTag) == Reference(account, region, repository, newTag)
  {
    var prefix := RepositoryPart(account, region, repository);
    LastColonBeforeTag(prefix, tag);
    assert (prefix + tag)[..|prefix|] == prefix;
  }

  /** Two references to the same repository are equal only for equal tags. */
  lemma ReferenceDeterminesTag(account: string, region: string, repository: string, tag1: string, tag2: string)
    requires Reference(account, region, repository, tag1) == Reference(account, region, repository, tag2)
    ensures tag1 == tag2
  {
    var prefix := RepositoryPart(account, region, repository);
    assert tag1 == (prefix + tag1)[|prefix|..];
    assert tag2 == (prefix + tag2)[|prefix|..];
  }
}
