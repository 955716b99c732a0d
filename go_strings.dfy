/** The two string helpers the enumerations rely on. */
module GoStrings {
  import opened Wrappers

  /** `strings.HasPrefix`. */
  predicate HasPrefix(s: string, prefix: string)
  {
    |prefix| <= |s| && s[..|prefix|] == prefix
  }

  /** `strings.Contains`: some position of s starts with sub (the empty sub is everywhere). */
  predicate Contains(s: string, sub: string)
    decreases |s|
  {
    HasPrefix(s, sub) || (s != [] && Contains(s[1..], sub))
  }

  /** sub occurs in s starting at index i. */
  predicate OccursAt(s: string, sub: string, i: int)
  {
    0 <= i <= |s| - |sub| && s[i..i + |sub|] == sub
  }

  /** Contains holds exactly when sub occurs at some index of s. */
  lemma {:induction false} ContainsAt(s: string, sub: string)
    ensures Contains(s, sub) <==> exists i :: OccursAt(s, sub, i)
  {
    if s != [] {
      ContainsAt(s[1..], sub);
    }
    if HasPrefix(s, sub) {
      assert OccursAt(s, sub, 0);
    } else if s != [] && Contains(s[1..], sub) {
      var i :| OccursAt(s[1..], sub, i);
      assert s[i + 1..i + 1 + |sub|] == s[1..][i..i + |sub|];
      assert OccursAt(s, sub, i + 1);
    }
    forall i | OccursAt(s, sub, i) ensures Contains(s, sub) {
      if i > 0 {
        assert s[1..][i - 1..i - 1 + |sub|] == s[i..i + |sub|];
        assert OccursAt(s[1..], sub, i - 1);
      }
    }
  }

  /** `aws.ToString`: the text a string pointer points to, or "" for nil. */
  function ToString(p: Option<string>): string
  {
    if p.Some? then p.value else ""
  }
}
