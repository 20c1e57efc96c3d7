/**
 * The content version of an uploaded image (main.rs, `upload_image`): the image's
 * 64-bit hash as little-endian bytes, base64-encoded and truncated to 11 characters,
 * appended to the client's file name after `?v=`.
 */
module Version {
  import opened Primitives
  import Base64

  function Pow256(n: nat): nat {
    if n == 0 then 1 else 256 * Pow256(n - 1)
  }

  /** The `n` least significant bytes of `x`, least significant first. */
  function LittleEndian(x: nat, n: nat): (b: Bytes)
    ensures |b| == n
    decreases n
  {
    if n == 0 then [] else [x % 256] + LittleEndian(x / 256, n - 1)
  }

  function FromLittleEndian(b: Bytes): nat
    decreases |b|
  {
    if b == [] then 0 else b[0] + 256 * FromLittleEndian(b[1..])
  }

  lemma {:induction false} LittleEndianRoundTrip(x: nat, n: nat)
    requires x < Pow256(n)
    ensures FromLittleEndian(LittleEndian(x, n)) == x
    decreases n
  {
    if n > 0 {
      assert x / 256 < Pow256(n - 1);
      LittleEndianRoundTrip(x / 256, n - 1);
      assert LittleEndian(x, n)[1..] == LittleEndian(x / 256, n - 1);
    }
  }

  /** `u64::to_le_bytes`. */
  function ToLeBytes(h: u64): (b: Bytes)
    ensures |b| == 8
  {
    LittleEndian(h, 8)
  }

  lemma ToLeBytesInjective(h1: u64, h2: u64)
    requires ToLeBytes(h1) == ToLeBytes(h2)
    ensures h1 == h2
  {
    assert Pow256(8) == 0x1_0000_0000_0000_0000;
    LittleEndianRoundTrip(h1, 8);
    LittleEndianRoundTrip(h2, 8);
  }

  /** `String::truncate`: a string longer than `n` keeps its first `n` characters. */
  function Truncate(s: string, n: nat): (r: string)
    ensures |r| == if |s| <= n then |s| else n
    ensures r == s[..|r|]
  {
    if |s| <= n then s else s[..n]
  }

  const TokenLength: nat := 11
  const VersionMark: string := "?v="

  /** The content version of an image whose hash is `h`. */
  function Token(h: u64): (t: string)
    ensures |t| == TokenLength
  {
    Truncate(Base64.Encode(ToLeBytes(h)), TokenLength)
  }

  /** The stored name of an upload: the client's name, `?v=`, the token. */
  function VersionedName(clientName: string, h: u64): (r: string)
    ensures |r| == |clientName| + |VersionMark| + TokenLength
    ensures r[..|clientName|] == clientName
  {
    clientName + VersionMark + Token(h)
  }

  /** The encoding of eight bytes, spelled out group by group. */
  lemma EncodeEightBytes(b: Bytes)
    requires |b| == 8
    ensures Base64.Encode(b) ==
      Base64.Quad(b[0], b[1], b[2]) + Base64.Quad(b[3], b[4], b[5]) +
      [Base64.CharOf(b[6] / 4), Base64.CharOf(b[6] % 4 * 16 + b[7] / 16), Base64.CharOf(b[7] % 16 * 4), '=']
  {
    var mid := b[3..];
    var tail := b[6..];
    assert mid[3..] == tail;
    assert mid[0] == b[3] && mid[1] == b[4] && mid[2] == b[5];
    assert tail[0] == b[6] && tail[1] == b[7];
    Base64.EncodeStep(b);
    Base64.EncodeStep(mid);
    Base64.EncodeTwo(tail);
  }

  /** The encoding of eight bytes: eleven alphabet characters and one `=`. */
  lemma EightBytesShape(b: Bytes)
    requires |b| == 8
    ensures |Base64.Encode(b)| == 12 && Base64.Encode(b)[11] == '='
    ensures forall i :: 0 <= i < 11 ==> Base64.IsAlphabetChar(Base64.Encode(b)[i])
  {
    Base64.EncodeShape(b);
    assert Base64.Padding(8) == 1;
  }

  /** The eleventh character encodes the last four bits of the last byte followed by two zero bits, so it is never '/'. */
  lemma EightBytesLast(b: Bytes)
    requires |b| == 8
    ensures Base64.Encode(b)[10] != '/'
  {
    EncodeEightBytes(b);
    var v := b[7] % 16 * 4;
    assert Base64.Encode(b)[10] == Base64.CharOf(v);
    Base64.ValueOfCharOf(v);
  }

  /**
   * The token is exactly 11 alphabet characters, never `=`, never ending in `/`; the
   * truncation removes only the single `=` that pads the 12-character encoding.
   */
  lemma TokenShape(h: u64)
    ensures |Token(h)| == TokenLength
    ensures forall i :: 0 <= i < |Token(h)| ==> Base64.IsAlphabetChar(Token(h)[i])
    ensures '=' !in Token(h)
    ensures Token(h)[TokenLength - 1] != '/'
    ensures Base64.Encode(ToLeBytes(h)) == Token(h) + "="
  {
    var b := ToLeBytes(h);
    var r := Base64.Encode(b);
    EightBytesShape(b);
    EightBytesLast(b);
    var t := Token(h);
    assert t == r[..11];
    assert forall i :: 0 <= i < |t| ==> t[i] == r[i];
    assert r == r[..11] + "=";
  }

  /** The truncation loses nothing: different hashes give different tokens. */
  lemma TokenInjective(h1: u64, h2: u64)
    requires Token(h1) == Token(h2)
    ensures h1 == h2
  {
    TokenShape(h1);
    TokenShape(h2);
    Base64.EncodeInjective(ToLeBytes(h1), ToLeBytes(h2));
    ToLeBytesInjective(h1, h2);
  }

  /** A stored name determines both the client's name and the image hash it was made from. */
  lemma VersionedNameInjective(n1: string, h1: u64, n2: string, h2: u64)
    ensures VersionedName(n1, h1) == VersionedName(n2, h2) <==> n1 == n2 && h1 == h2
  {
    if VersionedName(n1, h1) == VersionedName(n2, h2) {
      var s := VersionedName(n1, h1);
      TokenShape(h1);
      TokenShape(h2);
      assert |n1| == |n2|;
      assert n1 == s[..|n1|] == n2;
      assert Token(h1) == s[|n1| + 3..] == Token(h2);
      TokenInjective(h1, h2);
    }
  }

  /** A stored name is the client's name, `?v=` and a token free of '.', whose last character is not '/'. */
  lemma VersionedNameShape(clientName: string, h: u64)
    ensures var s := VersionedName(clientName, h);
      && |s| == |clientName| + 14
      && s[..|clientName|] == clientName
      && s[|clientName|..|clientName| + 3] == VersionMark
      && s[|clientName| + 2] == '='
      && (forall i :: |clientName| + 3 <= i < |s| ==> Base64.IsAlphabetChar(s[i]))
      && (forall i :: |clientName| <= i < |s| ==> s[i] != '.')
      && s[|s| - 1] != '/'
  {
    var s := VersionedName(clientName, h);
    var n := |clientName|;
    var token := Token(h);
    TokenShape(h);
    forall i | n + 3 <= i < |s| ensures Base64.IsAlphabetChar(s[i]) {
      assert s[i] == token[i - n - 3];
    }
    assert s[|s| - 1] == token[10];
  }

  /** The client part of a stored name: the name without a trailing `?v=` and 11-character token. */
  function ClientName(stored: string): string {
    var n := |stored|;
    if n >= 14 && stored[n - 14..n - 11] == VersionMark then stored[..n - 14] else stored
  }

  lemma ClientNameOfVersioned(clientName: string, h: u64)
    ensures ClientName(VersionedName(clientName, h)) == clientName
  {
    TokenShape(h);
    var s := VersionedName(clientName, h);
    assert s[|s| - 14..|s| - 11] == VersionMark;
    assert s[..|s| - 14] == clientName;
  }
}
