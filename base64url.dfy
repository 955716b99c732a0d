/**
 * The padded URL-safe base64 alphabet of section 5 of RFC 4648, as Go's
 * `base64.URLEncoding` implements it: `EncodeToString` always pads to a
 * multiple of four characters with `=`, and `DecodeString` skips `\r` and
 * `\n`, rejects any other character outside the alphabet, accepts padding in
 * the last quantum only, and (not being in strict mode) ignores the unused
 * low bits of a padded final quantum. Bytes are eight-bit vectors, so that
 * the packing of three bytes into four six-bit values is plain shifting and
 * masking.
 */
module Base64Url {
  import opened Wrappers

  type byte = bv8

  const Pad: char := '='

  /** The 64 characters of the alphabet: `A`-`Z`, `a`-`z`, `0`-`9`, `-`, `_`. */
  predicate InAlphabet(c: char)
  {
    'A' <= c <= 'Z' || 'a' <= c <= 'z' || '0' <= c <= '9' || c == '-' || c == '_'
  }

  /** The character that stands for a six-bit value, given as an integer. */
  function ValueChar(n: int): (c: char)
    requires 0 <= n < 64
    ensures InAlphabet(c)
  {
    if n < 26 then ('A' as int + n) as char
    else if n < 52 then ('a' as int + (n - 26)) as char
    else if n < 62 then ('0' as int + (n - 52)) as char
    else if n == 62 then '-'
    else '_'
  }

  /** The value a character stands for, or -1 when it is not in the alphabet. */
  function CharValue(c: char): (n: int)
    ensures -1 <= n < 64
    ensures n >= 0 <==> InAlphabet(c)
    ensures n >= 0 ==> ValueChar(n) == c
  {
    if 'A' <= c <= 'Z' then c as int - 'A' as int
    else if 'a' <= c <= 'z' then c as int - 'a' as int + 26
    else if '0' <= c <= '9' then c as int - '0' as int + 52
    else if c == '-' then 62
    else if c == '_' then 63
    else -1
  }

  /** The character that stands for a six-bit value. */
  function SextetChar(v: byte): (c: char)
    requires v < 64
    ensures InAlphabet(c)
  {
    ValueChar(v as int)
  }

  /** The six-bit value a character stands for, or None when it is not in the alphabet. */
  function CharSextet(c: char): (r: Option<byte>)
    ensures r.Some? <==> InAlphabet(c)
    ensures r.Some? ==> r.value < 64 && SextetChar(r.value) == c
  {
    var n := CharValue(c);
    if n < 0 then None else Some(ValueByte(n))
  }

  /**
   * The byte holding a six-bit value given as an integer. Counting up keeps
   * the solver away from integer-to-bit-vector conversion, which it finds
   * costly; the result is the same as `n as bv8`.
   */
  function ValueByte(n: int): (v: byte)
    requires 0 <= n < 64
    ensures v as int == n && v < 64
  {
    if n == 0 then 0 else ValueByte(n - 1) + 1
  }

  /** The two halves of the alphabet table agree: every six-bit value reads back as itself. */
  lemma SextetCharRoundTrip(v: byte)
    requires v < 64
    ensures CharSextet(SextetChar(v)) == Some(v)
  {
    ValueCharInverse(v as int);
    ValueByteOf(v);
  }

  /** Counting up to a byte's value gives back the byte. */
  lemma ValueByteOf(v: byte)
    requires v < 64
    ensures ValueByte(v as int) == v
  {
  }

  /** Reading back the character written for a value gives the value. */
  lemma ValueCharInverse(n: int)
    requires 0 <= n < 64
    ensures CharValue(ValueChar(n)) == n
  {
    if n < 26 {
      assert 'A' <= ValueChar(n) <= 'Z';
    } else if n < 52 {
      assert 'a' <= ValueChar(n) <= 'z';
    } else if n < 62 {
      assert '0' <= ValueChar(n) <= '9';
    }
  }

  /** Four characters for three bytes. */
  function EncodeQuantum(b0: byte, b1: byte, b2: byte): (q: string)
  {
    [SextetChar(b0 >> 2), SextetChar(((b0 & 3) << 4) | (b1 >> 4)),
     SextetChar(((b1 & 15) << 2) | (b2 >> 6)), SextetChar(b2 & 63)]
  }

  /** `EncodeToString`: full quanta, then a padded final quantum for one or two leftover bytes. */
  function Encode(b: seq<byte>): (s: string)
    ensures |s| % 4 == 0
    ensures |s| == (|b| + 2) / 3 * 4
    ensures |s| == 0 <==> |b| == 0
  {
    if |b| == 0 then ""
    else if |b| == 1 then
      [SextetChar(b[0] >> 2), SextetChar((b[0] & 3) << 4), Pad, Pad]
    else if |b| == 2 then
      [SextetChar(b[0] >> 2), SextetChar(((b[0] & 3) << 4) | (b[1] >> 4)), SextetChar((b[1] & 15) << 2), Pad]
    else
      EncodeQuantum(b[0], b[1], b[2]) + Encode(b[3..])
  }

  /** The input with every `\r` and `\n` removed, as the decoder skips them. */
  function StripNewlines(s: string): (t: string)
    ensures |t| <= |s|
  {
    if s == [] then []
    else if s[0] == '\r' || s[0] == '\n' then StripNewlines(s[1..])
    else [s[0]] + StripNewlines(s[1..])
  }

  /** Three bytes from four six-bit values. */
  function DecodeFull(c0: byte, c1: byte, c2: byte, c3: byte): (b: seq<byte>)
  {
    [(c0 << 2) | (c1 >> 4), (c1 << 4) | (c2 >> 2), (c2 << 6) | c3]
  }

  /** A quantum of four alphabet characters. */
  function DecodeQuantum(c0: char, c1: char, c2: char, c3: char): (r: Option<seq<byte>>)
    ensures r.Some? ==> |r.value| == 3
  {
    var v0, v1, v2, v3 := CharSextet(c0), CharSextet(c1), CharSextet(c2), CharSextet(c3);
    if v0.None? || v1.None? || v2.None? || v3.None? then None
    else Some(DecodeFull(v0.value, v1.value, v2.value, v3.value))
  }

  /** The last quantum: four alphabet characters, three and one `=`, or two and `==`. */
  function DecodeLast(q: string): (r: Option<seq<byte>>)
    requires |q| == 4
    ensures r.Some? ==> 1 <= |r.value| <= 3
  {
    var v0, v1, v2, v3 := CharSextet(q[0]), CharSextet(q[1]), CharSextet(q[2]), CharSextet(q[3]);
    if v0.None? || v1.None? then None
    else if v2.Some? && v3.Some? then Some(DecodeFull(v0.value, v1.value, v2.value, v3.value))
    else if v2.Some? && q[3] == Pad then Some(DecodeFull(v0.value, v1.value, v2.value, 0)[..2])
    else if q[2] == Pad && q[3] == Pad then Some(DecodeFull(v0.value, v1.value, 0, 0)[..1])
    else None
  }

  /**
   * Quantum by quantum; padding is accepted only in the last one. Each full
   * quantum gives three bytes and the last one to three, so the text holds
   * four characters per three bytes, rounded up.
   */
  function DecodeQuanta(t: string): (r: Option<seq<byte>>)
    requires |t| % 4 == 0
    ensures r.Some? ==> 4 * |r.value| <= 3 * |t| < 4 * |r.value| + 12
  {
    if |t| == 0 then Some([])
    else if |t| == 4 then DecodeLast(t)
    else
      match DecodeQuantum(t[0], t[1], t[2], t[3])
      case None => None
      case Some(head) =>
        match DecodeQuanta(t[4..])
        case None => None
        case Some(rest) => Some(head + rest)
  }

  /** `DecodeString`; None stands for Go's `CorruptInputError`. */
  function Decode(s: string): (r: Option<seq<byte>>)
  {
    var t := StripNewlines(s);
    if |t| % 4 != 0 then None else DecodeQuanta(t)
  }

  /** A text without line breaks strips to itself. */
  lemma {:induction false} StripWithoutNewlines(s: string)
    requires forall i :: 0 <= i < |s| ==> s[i] != '\r' && s[i] != '\n'
    ensures StripNewlines(s) == s
  {
    if s != [] {
      StripWithoutNewlines(s[1..]);
      assert s == [s[0]] + s[1..];
    }
  }

  lemma QuantumRoundTrip(b0: byte, b1: byte, b2: byte)
    ensures var q := EncodeQuantum(b0, b1, b2);
      DecodeQuantum(q[0], q[1], q[2], q[3]) == Some([b0, b1, b2]) && DecodeLast(q) == Some([b0, b1, b2])
  {
    SextetCharRoundTrip(b0 >> 2);
    SextetCharRoundTrip(((b0 & 3) << 4) | (b1 >> 4));
    SextetCharRoundTrip(((b1 & 15) << 2) | (b2 >> 6));
    SextetCharRoundTrip(b2 & 63);
    assert DecodeFull(b0 >> 2, ((b0 & 3) << 4) | (b1 >> 4), ((b1 & 15) << 2) | (b2 >> 6), b2 & 63) == [b0, b1, b2];
  }

  /** Decoding undoes encoding: the base64 text carries exactly the bytes it was built from. */
  lemma {:induction false} DecodeEncode(b: seq<byte>)
    ensures Decode(Encode(b)) == Some(b)
  {
    var s := Encode(b);
    forall i | 0 <= i < |s| ensures s[i] != '\r' && s[i] != '\n' {
      EncodeAlphabetOrPad(b, i);
    }
    StripWithoutNewlines(s);
    assert StripNewlines(s) == s && |s| % 4 == 0;
    EncodedQuantaRoundTrip(b);
  }

  lemma {:induction false} EncodeAlphabetOrPad(b: seq<byte>, i: nat)
    requires i < |Encode(b)|
    ensures InAlphabet(Encode(b)[i]) || Encode(b)[i] == Pad
  {
    if |b| > 3 && i >= 4 {
      EncodeAlphabetOrPad(b[3..], i - 4);
    }
  }

  /** One leftover byte: two characters and `==`. */
  lemma OneBytePadded(b0: byte)
    ensures DecodeLast([SextetChar(b0 >> 2), SextetChar((b0 & 3) << 4), Pad, Pad]) == Some([b0])
  {
    SextetCharRoundTrip(b0 >> 2);
    SextetCharRoundTrip((b0 & 3) << 4);
    assert DecodeFull(b0 >> 2, (b0 & 3) << 4, 0, 0)[..1] == [b0];
  }

  /** Two leftover bytes: three characters and `=`. */
  lemma TwoBytesPadded(b0: byte, b1: byte)
    ensures DecodeLast([SextetChar(b0 >> 2), SextetChar(((b0 & 3) << 4) | (b1 >> 4)), SextetChar((b1 & 15) << 2), Pad])
         == Some([b0, b1])
  {
    SextetCharRoundTrip(b0 >> 2);
    SextetCharRoundTrip(((b0 & 3) << 4) | (b1 >> 4));
    SextetCharRoundTrip((b1 & 15) << 2);
    assert DecodeFull(b0 >> 2, ((b0 & 3) << 4) | (b1 >> 4), (b1 & 15) << 2, 0)[..2] == [b0, b1];
  }

  lemma OneByteRoundTrip(b: seq<byte>)
    requires |b| == 1
    ensures DecodeQuanta(Encode(b)) == Some(b)
  {
    OneBytePadded(b[0]);
    assert b == [b[0]];
  }

  lemma TwoByteRoundTrip(b: seq<byte>)
    requires |b| == 2
    ensures DecodeQuanta(Encode(b)) == Some(b)
  {
    TwoBytesPadded(b[0], b[1]);
    assert b == [b[0], b[1]];
  }

  lemma {:induction false} EncodedQuantaRoundTrip(b: seq<byte>)
    ensures DecodeQuanta(Encode(b)) == Some(b)
    decreases |b|, 1
  {
    if |b| == 1 {
      OneByteRoundTrip(b);
    } else if |b| == 2 {
      TwoByteRoundTrip(b);
    } else if |b| == 3 {
      ThreeByteRoundTrip(b);
    } else if |b| > 3 {
      MoreQuantaRoundTrip(b);
    }
  }

  lemma ThreeByteRoundTrip(b: seq<byte>)
    requires |b| == 3
    ensures DecodeQuanta(Encode(b)) == Some(b)
  {
    EncodeFirstQuantum(b);
    assert b[3..] == [] && b == [b[0], b[1], b[2]];
    QuantumRoundTrip(b[0], b[1], b[2]);
  }

  lemma EncodeFirstQuantum(b: seq<byte>)
    requires |b| >= 3
    ensures Encode(b) == EncodeQuantum(b[0], b[1], b[2]) + Encode(b[3..])
  {
  }

  /** A full quantum in front of further quanta decodes on its own. */
  lemma DecodeQuantaFront(q: string, rest: string)
    requires |q| == 4 && |rest| % 4 == 0 && |rest| > 0
    ensures DecodeQuanta(q + rest) ==
      match DecodeQuantum(q[0], q[1], q[2], q[3])
      case None => None
      case Some(head) => (match DecodeQuanta(rest) case None => None case Some(tail) => Some(head + tail))
  {
    var t := q + rest;
    assert t[4..] == rest;
    assert t[0] == q[0] && t[1] == q[1] && t[2] == q[2] && t[3] == q[3];
  }

  lemma {:induction false} MoreQuantaRoundTrip(b: seq<byte>)
    requires |b| > 3
    ensures DecodeQuanta(Encode(b)) == Some(b)
    decreases |b|, 0
  {
    var q, rest := EncodeQuantum(b[0], b[1], b[2]), Encode(b[3..]);
    EncodeFirstQuantum(b);
    DecodeQuantaFront(q, rest);
    QuantumRoundTrip(b[0], b[1], b[2]);
    EncodedQuantaRoundTrip(b[3..]);
    assert b == [b[0], b[1], b[2]] + b[3..];
  }

  /** Any character other than an alphabet character, `=`, `\r` or `\n` makes decoding fail. */
  lemma {:induction false} ForeignCharacterRejected(s: string, i: nat)
    requires i < |s| && !InAlphabet(s[i]) && s[i] != Pad && s[i] != '\r' && s[i] != '\n'
    ensures Decode(s) == None
  {
    var t := StripNewlines(s);
    var j := StripKeepsOthers(s, i);
    if |t| % 4 == 0 {
      QuantaRejectForeign(t, j);
    }
  }

  lemma {:induction false} StripKeepsOthers(s: string, i: nat) returns (j: nat)
    requires i < |s| && s[i] != '\r' && s[i] != '\n'
    ensures j < |StripNewlines(s)| && StripNewlines(s)[j] == s[i]
  {
    if i == 0 {
      j := 0;
    } else {
      var k := StripKeepsOthers(s[1..], i - 1);
      j := if s[0] == '\r' || s[0] == '\n' then k else k + 1;
    }
  }

  lemma {:induction false} QuantaRejectForeign(t: string, j: nat)
    requires |t| % 4 == 0 && j < |t| && !InAlphabet(t[j]) && t[j] != Pad
    ensures DecodeQuanta(t) == None
  {
    assert CharSextet(t[j]).None?;
    if j >= 4 && |t| > 4 {
      QuantaRejectForeign(t[4..], j - 4);
    }
  }

  /** Three bytes per quantum, the last one holding one to three, is the rounded-up count. */
  lemma QuantaCount(n: nat, len: nat)
    requires len % 4 == 0 && 4 * n <= 3 * len < 4 * n + 12
    ensures len == (n + 2) / 3 * 4
  {
    var k := len / 4;
    assert len == 4 * k;
    assert 3 * k - 2 <= n <= 3 * k;
    assert (n + 2) / 3 == k;
  }

  /**
   * A text decodes only when its length, line breaks aside, is four
   * characters per three decoded bytes rounded up; in particular a ragged
   * length is always rejected.
   */
  lemma DecodeLength(s: string)
    ensures Decode(s).Some? ==> |StripNewlines(s)| == (|Decode(s).value| + 2) / 3 * 4
    ensures |StripNewlines(s)| % 4 != 0 ==> Decode(s) == None
  {
    var t := StripNewlines(s);
    if Decode(s).Some? {
      QuantaCount(|Decode(s).value|, |t|);
    }
  }
}
