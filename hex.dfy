// bytesToHexString, shared verbatim by both SimpleDiskCache revisions: it turns
// the MD5 digest of a key into the file name the disk store uses.
module Hex {

  /** Java's signed 8-bit byte. */
  newtype byte = x: int | -128 <= x < 128

  const HexDigits: string := "0123456789abcdef"

  /** `0xFF & b`: the byte read as an unsigned value (two's complement). */
  function Unsigned(b: byte): (u: int)
    ensures 0 <= u < 256
    ensures b >= 0 ==> u == b as int
    ensures b < 0 ==> u == b as int + 256
  {
    (b as int) % 256
  }

  /** Integer.toHexString for a non-negative int: lower-case, no leading zeros. */
  function ToHexString(n: nat): (s: string)
    ensures 1 <= |s|
    decreases n
  {
    if n < 16 then [HexDigits[n]] else ToHexString(n / 16) + [HexDigits[n % 16]]
  }

  /** The two characters one byte contributes: high nibble, then low nibble. */
  function HexPair(b: byte): string {
    var u := Unsigned(b);
    [HexDigits[u / 16], HexDigits[u % 16]]
  }

  /** What the builder holds after appending the first |bytes| bytes. */
  function HexOf(bytes: seq<byte>): string {
    if |bytes| == 0 then "" else HexOf(bytes[..|bytes| - 1]) + HexPair(bytes[|bytes| - 1])
  }

  /** The loop body: toHexString of the unsigned byte, padded with '0' when it is one digit. */
  lemma PaddedIsPair(b: byte)
    ensures var hex := ToHexString(Unsigned(b));
            (if |hex| == 1 then "0" + hex else hex) == HexPair(b)
  {
    var u := Unsigned(b);
    if u >= 16 {
      assert ToHexString(u / 16) == [HexDigits[u / 16]];
    }
  }

  /** bytesToHexString: a StringBuilder loop over the bytes. */
  method BytesToHexString(bytes: seq<byte>) returns (s: string)
    ensures s == HexOf(bytes)
    ensures |s| == 2 * |bytes|
  {
    var builder := "";
    var i := 0;
    while i < |bytes|
      invariant 0 <= i <= |bytes|
      invariant builder == HexOf(bytes[..i])
    {
      var b := bytes[i];
      var hex := ToHexString(Unsigned(b));
      if |hex| == 1 {
        builder := builder + "0";
      }
      builder := builder + hex;
      PaddedIsPair(b);
      HexStep(bytes, i);
      i := i + 1;
    }
    assert bytes[..i] == bytes;
    s := builder;
    HexLength(bytes);
  }

  /** Appending one byte appends its pair. */
  lemma HexStep(bytes: seq<byte>, i: int)
    requires 0 <= i < |bytes|
    ensures HexOf(bytes[..i + 1]) == HexOf(bytes[..i]) + HexPair(bytes[i])
  {
    assert bytes[..i + 1][..i] == bytes[..i];
  }

  /** Two characters per byte. */
  lemma {:induction false} HexLength(bytes: seq<byte>)
    ensures |HexOf(bytes)| == 2 * |bytes|
  {
    if |bytes| > 0 {
      HexLength(bytes[..|bytes| - 1]);
    }
  }

  /** Every character is a lower-case hexadecimal digit. */
  lemma {:induction false} HexAlphabet(bytes: seq<byte>)
    ensures forall i :: 0 <= i < |HexOf(bytes)| ==> HexOf(bytes)[i] in HexDigits
  {
    if |bytes| > 0 {
      HexAlphabet(bytes[..|bytes| - 1]);
    }
  }

  /** The value of a lower-case hex digit. */
  function DigitValue(c: char): (v: int)
    ensures 0 <= v < 16
    ensures forall d :: 0 <= d < 16 && HexDigits[d] == c ==> v == d
  {
    if '0' <= c <= '9' then c as int - '0' as int
    else if 'a' <= c <= 'f' then c as int - 'a' as int + 10
    else 0
  }

  /** The signed byte whose unsigned value is u. */
  function Signed(u: int): byte
    requires 0 <= u < 256
  {
    if u < 128 then u as byte else (u - 256) as byte
  }

  /** Reads a hex string back, two characters per byte. */
  function HexToBytes(s: string): seq<byte>
    decreases |s|
  {
    if |s| < 2 then []
    else HexToBytes(s[..|s| - 2]) + [Signed(16 * DigitValue(s[|s| - 2]) + DigitValue(s[|s| - 1]))]
  }

  /** The encoding loses nothing: distinct digests give distinct file names. */
  lemma {:induction false} HexRoundTrip(bytes: seq<byte>)
    ensures HexToBytes(HexOf(bytes)) == bytes
  {
    if |bytes| > 0 {
      var init := bytes[..|bytes| - 1];
      var b := bytes[|bytes| - 1];
      assert init + [b] == bytes;
      HexLast(init, b);
      PairRoundTrip(b);
      HexRoundTrip(init);
    }
  }

  /** The last two characters of a name are its last byte's pair. */
  lemma HexLast(init: seq<byte>, b: byte)
    ensures var s := HexOf(init + [b]);
            |s| >= 2 && s[..|s| - 2] == HexOf(init)
            && s[|s| - 2] == HexPair(b)[0] && s[|s| - 1] == HexPair(b)[1]
  {
    var s := HexOf(init + [b]);
    assert (init + [b])[..|init|] == init;
    HexLength(init);
    assert s == HexOf(init) + HexPair(b);
  }

  /** One byte's two digits read back as that byte. */
  lemma PairRoundTrip(b: byte)
    ensures Signed(16 * DigitValue(HexPair(b)[0]) + DigitValue(HexPair(b)[1])) == b
  {
    var u := Unsigned(b);
    var hi, lo := u / 16, u % 16;
    assert DigitValue(HexDigits[hi]) == hi;
    assert DigitValue(HexDigits[lo]) == lo;
    assert 16 * hi + lo == u;
  }

  /** Corollary used by the disk tier: the file name determines the digest. */
  lemma HexInjective(a: seq<byte>, b: seq<byte>)
    requires HexOf(a) == HexOf(b)
    ensures a == b
  {
    HexRoundTrip(a);
    HexRoundTrip(b);
  }
}
