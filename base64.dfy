/**
 * Base64 encoding with the standard alphabet and `=` padding (RFC 4648, section 4),
 * as `base64::encode` produces it, and the matching decoder.
 */
module Base64 {
  import opened Wrappers
  import opened Primitives

  /** A six-bit group: an index into the alphabet. */
  type Sextet = x: int | 0 <= x < 64

  predicate IsAlphabetChar(c: char) {
    'A' <= c <= 'Z' || 'a' <= c <= 'z' || '0' <= c <= '9' || c == '+' || c == '/'
  }

  /** The alphabet of section 4 of RFC 4648: A-Z, a-z, 0-9, '+', '/'. */
  function CharOf(v: Sextet): (c: char)
    ensures IsAlphabetChar(c)
  {
    if v < 26 then (65 + v) as char
    else if v < 52 then (71 + v) as char
    else if v < 62 then (v - 4) as char
    else if v == 62 then '+' else '/'
  }

  function ValueOf(c: char): Sextet
    requires IsAlphabetChar(c)
  {
    if 'A' <= c <= 'Z' then c as int - 65
    else if 'a' <= c <= 'z' then c as int - 71
    else if '0' <= c <= '9' then c as int + 4
    else if c == '+' then 62 else 63
  }

  lemma ValueOfCharOf(v: Sextet)
    ensures ValueOf(CharOf(v)) == v
  {
  }

  /** Three bytes as four characters. */
  function Quad(b0: byte, b1: byte, b2: byte): string {
    [CharOf(b0 / 4), CharOf(b0 % 4 * 16 + b1 / 16), CharOf(b1 % 16 * 4 + b2 / 64), CharOf(b2 % 64)]
  }

  /** The closing group of the encoding: nothing, or one or two bytes padded with `=`. */
  function Final(s: Bytes): (r: string)
    requires |s| < 3
  {
    if |s| == 0 then ""
    else if |s| == 1 then [CharOf(s[0] / 4), CharOf(s[0] % 4 * 16), '=', '=']
    else [CharOf(s[0] / 4), CharOf(s[0] % 4 * 16 + s[1] / 16), CharOf(s[1] % 16 * 4), '=']
  }

  /** The encoding of `s`: four characters per three bytes, the last group padded with `=`. */
  function Encode(s: Bytes): (r: string)
    ensures |r| == 4 * ((|s| + 2) / 3)
    decreases |s|
  {
    if |s| < 3 then Final(s) else Quad(s[0], s[1], s[2]) + Encode(s[3..])
  }

  /** One step of the encoding: the first three bytes become four characters. */
  lemma EncodeStep(s: Bytes)
    requires |s| >= 3
    ensures Encode(s) == Quad(s[0], s[1], s[2]) + Encode(s[3..])
  {
  }

  /** The encoding of two bytes: three characters and one `=`. */
  lemma EncodeTwo(s: Bytes)
    requires |s| == 2
    ensures Encode(s) == [CharOf(s[0] / 4), CharOf(s[0] % 4 * 16 + s[1] / 16), CharOf(s[1] % 16 * 4), '=']
  {
  }

  /** The number of `=` characters that close the encoding of `n` bytes. */
  function Padding(n: nat): nat {
    (3 - n % 3) % 3
  }

  lemma PaddingStep(n: nat)
    ensures Padding(n + 3) == Padding(n)
  {
    assert (n + 3) % 3 == n % 3;
  }

  /** `r` is alphabet characters followed by exactly `pad` characters `=`. */
  ghost predicate Shaped(r: string, pad: nat) {
    && pad <= |r|
    && (forall i :: 0 <= i < |r| - pad ==> IsAlphabetChar(r[i]))
    && (forall i :: |r| - pad <= i < |r| ==> r[i] == '=')
  }

  lemma ShapedPrepend(q: string, t: string, pad: nat)
    requires forall i :: 0 <= i < |q| ==> IsAlphabetChar(q[i])
    requires Shaped(t, pad)
    ensures Shaped(q + t, pad)
  {
    var r := q + t;
    forall i | 0 <= i < |r| - pad ensures IsAlphabetChar(r[i]) {
      if i >= |q| { assert r[i] == t[i - |q|]; }
    }
    forall i | |r| - pad <= i < |r| ensures r[i] == '=' {
      assert r[i] == t[i - |q|];
    }
  }

  lemma QuadAlphabet(b0: byte, b1: byte, b2: byte)
    ensures forall i :: 0 <= i < |Quad(b0, b1, b2)| ==> IsAlphabetChar(Quad(b0, b1, b2)[i])
  {
  }

  lemma FinalShape(s: Bytes)
    requires |s| < 3
    ensures Shaped(Final(s), Padding(|s|))
  {
  }

  /** The encoding holds alphabet characters followed by exactly `Padding(|s|)` characters `=`. */
  lemma {:induction false} EncodeShape(s: Bytes)
    ensures Shaped(Encode(s), Padding(|s|))
    decreases |s|
  {
    if |s| < 3 {
      FinalShape(s);
    } else {
      EncodeShape(s[3..]);
      EncodeStep(s);
      QuadAlphabet(s[0], s[1], s[2]);
      PaddingStep(|s| - 3);
      ShapedPrepend(Quad(s[0], s[1], s[2]), Encode(s[3..]), Padding(|s|));
    }
  }

  function Byte0(v0: Sextet, v1: Sextet): byte {
    v0 * 4 + v1 / 16
  }

  function Byte1(v1: Sextet, v2: Sextet): byte {
    v1 % 16 * 16 + v2 / 4
  }

  function Byte2(v2: Sextet, v3: Sextet): byte {
    v2 % 4 * 64 + v3
  }

  /** The decoder for what `Encode` produces: None for any other text. */
  function Decode(r: string): Option<Bytes>
    decreases |r|
  {
    if |r| == 0 then Some([])
    else if |r| < 4 || !IsAlphabetChar(r[0]) || !IsAlphabetChar(r[1]) then None
    else if |r| == 4 && r[2] == '=' && r[3] == '=' then
      Some([Byte0(ValueOf(r[0]), ValueOf(r[1]))])
    else if !IsAlphabetChar(r[2]) then None
    else if |r| == 4 && r[3] == '=' then
      Some([Byte0(ValueOf(r[0]), ValueOf(r[1])), Byte1(ValueOf(r[1]), ValueOf(r[2]))])
    else if !IsAlphabetChar(r[3]) then None
    else
      match Decode(r[4..])
      case None => None
      case Some(rest) =>
        Some([Byte0(ValueOf(r[0]), ValueOf(r[1])), Byte1(ValueOf(r[1]), ValueOf(r[2])), Byte2(ValueOf(r[2]), ValueOf(r[3]))] + rest)
  }

  /** Splitting three bytes into sextets and joining them again gives the bytes back. */
  lemma SextetsRoundTrip(b0: byte, b1: byte, b2: byte)
    ensures Byte0(b0 / 4, b0 % 4 * 16 + b1 / 16) == b0
    ensures Byte1(b0 % 4 * 16 + b1 / 16, b1 % 16 * 4 + b2 / 64) == b1
    ensures Byte2(b1 % 16 * 4 + b2 / 64, b2 % 64) == b2
  {
    assert (b0 % 4 * 16 + b1 / 16) / 16 == b0 % 4;
    assert (b0 % 4 * 16 + b1 / 16) % 16 == b1 / 16;
    assert (b1 % 16 * 4 + b2 / 64) / 4 == b1 % 16;
    assert (b1 % 16 * 4 + b2 / 64) % 4 == b2 / 64;
  }

  lemma DecodeOneByte(b0: byte)
    ensures Decode([CharOf(b0 / 4), CharOf(b0 % 4 * 16), '=', '=']) == Some([b0])
  {
    ValueOfCharOf(b0 / 4);
    ValueOfCharOf(b0 % 4 * 16);
    SextetsRoundTrip(b0, 0, 0);
  }

  lemma DecodeTwoBytes(b0: byte, b1: byte)
    ensures Decode([CharOf(b0 / 4), CharOf(b0 % 4 * 16 + b1 / 16), CharOf(b1 % 16 * 4), '=']) == Some([b0, b1])
  {
    var r := [CharOf(b0 / 4), CharOf(b0 % 4 * 16 + b1 / 16), CharOf(b1 % 16 * 4), '='];
    ValueOfCharOf(b0 / 4);
    ValueOfCharOf(b0 % 4 * 16 + b1 / 16);
    ValueOfCharOf(b1 % 16 * 4);
    SextetsRoundTrip(b0, b1, 0);
    assert r[2] != '=';
  }

  /** The four characters of a group decode back to its three bytes. */
  lemma QuadValues(b0: byte, b1: byte, b2: byte)
    ensures var q := Quad(b0, b1, b2);
      && IsAlphabetChar(q[0]) && IsAlphabetChar(q[1]) && IsAlphabetChar(q[2]) && IsAlphabetChar(q[3])
      && q[2] != '=' && q[3] != '='
      && Byte0(ValueOf(q[0]), ValueOf(q[1])) == b0
      && Byte1(ValueOf(q[1]), ValueOf(q[2])) == b1
      && Byte2(ValueOf(q[2]), ValueOf(q[3])) == b2
  {
    ValueOfCharOf(b0 / 4);
    ValueOfCharOf(b0 % 4 * 16 + b1 / 16);
    ValueOfCharOf(b1 % 16 * 4 + b2 / 64);
    ValueOfCharOf(b2 % 64);
    SextetsRoundTrip(b0, b1, b2);
  }

  lemma DecodeQuad(b0: byte, b1: byte, b2: byte, tail: string, rest: Bytes)
    requires Decode(tail) == Some(rest)
    ensures Decode(Quad(b0, b1, b2) + tail) == Some([b0, b1, b2] + rest)
  {
    var q := Quad(b0, b1, b2);
    var r := q + tail;
    QuadValues(b0, b1, b2);
    assert r[0] == q[0] && r[1] == q[1] && r[2] == q[2] && r[3] == q[3];
    assert r[4..] == tail;
  }

  lemma DecodeEncodeOne(s: Bytes)
    requires |s| == 1
    ensures Decode(Encode(s)) == Some(s)
  {
    DecodeOneByte(s[0]);
    assert s == [s[0]];
  }

  lemma DecodeEncodeTwo(s: Bytes)
    requires |s| == 2
    ensures Decode(Encode(s)) == Some(s)
  {
    DecodeTwoBytes(s[0], s[1]);
    assert s == [s[0], s[1]];
  }

  lemma SplitThree(s: Bytes)
    requires |s| >= 3
    ensures s == [s[0], s[1], s[2]] + s[3..]
  {
  }

  lemma DecodeEncodeStep(s: Bytes)
    requires |s| >= 3 && Decode(Encode(s[3..])) == Some(s[3..])
    ensures Decode(Encode(s)) == Some(s)
  {
    EncodeStep(s);
    DecodeQuad(s[0], s[1], s[2], Encode(s[3..]), s[3..]);
    SplitThree(s);
  }

  /** Decoding an encoding gives the bytes back. */
  lemma {:induction false} DecodeEncode(s: Bytes)
    ensures Decode(Encode(s)) == Some(s)
    decreases |s|
  {
    if |s| == 1 {
      DecodeEncodeOne(s);
    } else if |s| == 2 {
      DecodeEncodeTwo(s);
    } else if |s| >= 3 {
      DecodeEncode(s[3..]);
      DecodeEncodeStep(s);
    }
  }

  /** Different byte strings have different encodings. */
  lemma EncodeInjective(s: Bytes, t: Bytes)
    requires Encode(s) == Encode(t)
    ensures s == t
  {
    DecodeEncode(s);
    DecodeEncode(t);
  }
}
