/**
 * The registry's authorization token, once base64-decoded, is the text
 * `user:password`. Go's `strings.Split(text, ":")` works on the bytes of the
 * text; the colon is the single byte 0x3A, which never occurs inside a
 * multi-byte UTF-8 character, so splitting on bytes is exact.
 */
module TokenFormat {
  import opened Wrappers
  import opened Base64Url
  import opened EcrApi

  const Colon: byte := 0x3A

  /** `strings.Split(s, ":")`: the pieces between colons, always at least one. */
  function Split(s: seq<byte>): (parts: seq<seq<byte>>)
    ensures |parts| >= 1
  {
    if s == [] then [[]]
    else
      var rest := Split(s[1..]);
      if s[0] == Colon then [[]] + rest
      else [[s[0]] + rest[0]] + rest[1..]
  }

  /** `strings.Join(parts, ":")`, the inverse of Split. */
  function Join(parts: seq<seq<byte>>): (s: seq<byte>)
    requires |parts| >= 1
  {
    if |parts| == 1 then parts[0] else parts[0] + [Colon] + Join(parts[1..])
  }

  /** How many colons a text holds. */
  function Colons(s: seq<byte>): (n: nat)
    ensures n <= |s|
  {
    if s == [] then 0 else (if s[0] == Colon then 1 else 0) + Colons(s[1..])
  }

  /** Split makes one more piece than there are colons, and no piece holds a colon. */
  lemma {:induction false} SplitCount(s: seq<byte>)
    ensures |Split(s)| == Colons(s) + 1
    ensures forall k :: 0 <= k < |Split(s)| ==> Colon !in Split(s)[k]
  {
    if s != [] {
      SplitCount(s[1..]);
      var rest := Split(s[1..]);
      if s[0] != Colon {
        assert Split(s)[0] == [s[0]] + rest[0];
        forall k | 1 <= k < |Split(s)| ensures Split(s)[k] == rest[k] {}
      } else {
        forall k | 1 <= k < |Split(s)| ensures Split(s)[k] == rest[k - 1] {}
      }
    }
  }

  /** Joining the pieces with colons gives back the text. */
  lemma {:induction false} JoinSplit(s: seq<byte>)
    ensures Join(Split(s)) == s
  {
    if s != [] {
      JoinSplit(s[1..]);
      var rest := Split(s[1..]);
      if s[0] == Colon {
        assert Split(s)[1..] == rest;
        assert s == [] + [Colon] + s[1..];
      } else {
        var parts := Split(s);
        assert parts[0] == [s[0]] + rest[0] && parts[1..] == rest[1..];
        if |rest| == 1 {
          assert s == [s[0]] + s[1..];
        } else {
          assert Join(rest) == rest[0] + [Colon] + Join(rest[1..]);
          assert s == [s[0]] + s[1..];
        }
      }
    }
  }

  /** Splitting colon-free pieces joined by colons gives the pieces back. */
  lemma {:induction false} SplitJoined(user: seq<byte>, password: seq<byte>)
    requires Colon !in user && Colon !in password
    ensures Split(user + [Colon] + password) == [user, password]
  {
    if user == [] {
      assert user + [Colon] + password == [Colon] + password;
      assert ([Colon] + password)[1..] == password;
      SplitColonFree(password);
    } else {
      var s := user + [Colon] + password;
      assert s[1..] == user[1..] + [Colon] + password;
      SplitJoined(user[1..], password);
      assert [user[0]] + user[1..] == user;
    }
  }

  lemma {:induction false} SplitColonFree(s: seq<byte>)
    requires Colon !in s
    ensures Split(s) == [s]
  {
    if s != [] {
      SplitColonFree(s[1..]);
      assert [s[0]] + s[1..] == s;
    }
  }

  /**
   * The password part of a decoded token: present exactly when splitting on
   * `:` gives two pieces, and then it is the second piece.
   */
  function PasswordOf(decoded: seq<byte>): (r: Option<seq<byte>>)
  {
    var parts := Split(decoded);
    if |parts| == 2 then Some(parts[1]) else None
  }

  /**
   * The text is accepted exactly when it holds one colon, and then the
   * password is everything after that colon.
   */
  lemma PasswordOfExactlyOneColon(decoded: seq<byte>)
    ensures PasswordOf(decoded).Some? <==> Colons(decoded) == 1
    ensures PasswordOf(decoded).Some? ==>
      var p := PasswordOf(decoded).value;
      Colon !in p && exists user :: Colon !in user && decoded == user + [Colon] + p
  {
    SplitCount(decoded);
    JoinSplit(decoded);
    var parts := Split(decoded);
    if |parts| == 2 {
      assert Join(parts[1..]) == parts[1];
      assert decoded == parts[0] + [Colon] + parts[1];
    }
  }

  /** `user:password` with colon-free parts yields the password. */
  lemma PasswordOfJoined(user: seq<byte>, password: seq<byte>)
    requires Colon !in user && Colon !in password
    ensures PasswordOf(user + [Colon] + password) == Some(password)
  {
    SplitJoined(user, password);
  }

  /**
   * The decoded token of a reply that issued exactly one authorization
   * entry with a non-nil token, when that token is valid base64url.
   */
  function DecodedToken(reply: TokenReply): (r: Option<seq<byte>>)
    ensures r.Some? ==> reply.TokenIssued? && |reply.authorizationData| == 1
  {
    if reply.TokenIssued? && |reply.authorizationData| == 1 && reply.authorizationData[0].authorizationToken.Some?
    then Decode(reply.authorizationData[0].authorizationToken.value)
    else None
  }

  /** A usable token reply: one entry, a non-nil token, valid base64url, exactly one colon. */
  predicate WellFormed(reply: TokenReply)
  {
    DecodedToken(reply).Some? && Colons(DecodedToken(reply).value) == 1
  }
}
