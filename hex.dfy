/** Rendering of a digest as lowercase hexadecimal, two characters per byte,
    high nibble first (the `hexBytes` table and the `for` loop at the end of
    `genFileSHA1AndLen`). */
module Hex {
  import opened Common

  /** The source's 16-entry `hexBytes` table. */
  const HexBytes: string := "0123456789abcdef"

  predicate IsLowerHex(c: char) {
    '0' <= c <= '9' || 'a' <= c <= 'f'
  }

  /** The value a table character stands for: its index in `HexBytes`. */
  function NibbleValue(c: char): (v: nat)
    requires IsLowerHex(c)
    ensures v < 16
  {
    if c <= '9' then (c as int) - ('0' as int) else (c as int) - ('a' as int) + 10
  }

  /** Entry `v` of the table is a lowercase hex digit denoting `v`. */
  lemma HexBytesEntry(v: nat)
    requires v < 16
    ensures IsLowerHex(HexBytes[v]) && NibbleValue(HexBytes[v]) == v
  {
  }

  function High(b: byte): nat { (b >> 4) as nat }

  function Low(b: byte): nat { (b & 0x0f) as nat }

  /** The two characters appended for one digest byte. */
  function HexPair(b: byte): (s: string)
    ensures |s| == 2
  {
    [HexBytes[High(b)], HexBytes[Low(b)]]
  }

  /** Hex rendering of a byte sequence: each byte's pair appended in order. */
  function HexEncode(d: seq<byte>): (s: string)
    ensures |s| == 2 * |d|
  {
    if d == [] then [] else HexEncode(d[..|d| - 1]) + HexPair(d[|d| - 1])
  }

  /** A byte is determined by its two nibbles. */
  lemma NibblesDetermineByte(a: byte, b: byte)
    requires High(a) == High(b) && Low(a) == Low(b)
    ensures a == b
  {
    assert a >> 4 == b >> 4 && a & 0x0f == b & 0x0f;
    assert a == ((a >> 4) << 4) | (a & 0x0f);
    assert b == ((b >> 4) << 4) | (b & 0x0f);
  }

  /** Character `2i` renders the high nibble of byte `i`, character `2i+1`
      its low nibble, and both are lowercase hex digits. */
  lemma {:induction false} HexEncodeAt(d: seq<byte>, i: nat)
    requires i < |d|
    ensures HexEncode(d)[2 * i] == HexBytes[High(d[i])]
    ensures HexEncode(d)[2 * i + 1] == HexBytes[Low(d[i])]
    ensures IsLowerHex(HexEncode(d)[2 * i]) && IsLowerHex(HexEncode(d)[2 * i + 1])
  {
    var n := |d| - 1;
    assert HexEncode(d) == HexEncode(d[..n]) + HexPair(d[n]);
    if i < n {
      HexEncodeAt(d[..n], i);
      assert d[..n][i] == d[i];
    }
    HexBytesEntry(High(d[i]));
    HexBytesEntry(Low(d[i]));
  }

  /** Every character of a rendering is a lowercase hex digit. */
  lemma HexEncodeLowercase(d: seq<byte>)
    ensures forall k :: 0 <= k < |HexEncode(d)| ==> IsLowerHex(HexEncode(d)[k])
  {
    forall k | 0 <= k < |HexEncode(d)|
      ensures IsLowerHex(HexEncode(d)[k])
    {
      HexEncodeAt(d, k / 2);
    }
  }

  /** Distinct byte sequences render to distinct strings: the hex digest
      identifies the digest. */
  lemma HexEncodeInjective(a: seq<byte>, b: seq<byte>)
    requires HexEncode(a) == HexEncode(b)
    ensures a == b
  {
    assert |a| == |b|;
    forall i | 0 <= i < |a|
      ensures a[i] == b[i]
    {
      HexEncodeAt(a, i);
      HexEncodeAt(b, i);
      HexBytesEntry(High(a[i]));
      HexBytesEntry(High(b[i]));
      HexBytesEntry(Low(a[i]));
      HexBytesEntry(Low(b[i]));
      NibblesDetermineByte(a[i], b[i]);
    }
  }

  /** The rendering loop: `shaStr` grows by two table characters per
      digest byte. */
  method RenderHex(digest: seq<byte>) returns (shaStr: string)
    ensures shaStr == HexEncode(digest)
  {
    shaStr := "";
    for i := 0 to |digest|
      invariant shaStr == HexEncode(digest[..i])
    {
      assert digest[..i + 1][..i] == digest[..i];
      shaStr := shaStr + [HexBytes[High(digest[i])]];
      shaStr := shaStr + [HexBytes[Low(digest[i])]];
    }
    assert digest[..|digest|] == digest;
  }
}
