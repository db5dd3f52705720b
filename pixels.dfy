/** Colours and their on-disk byte order.  A TGA file stores a 32-bit pixel
    as the four bytes B, G, R, A; the decoder hands out Color(r, g, b, a). */
module Pixels {
  /** An unsigned 8-bit value (`u8`). */
  type byte = b: int | 0 <= b < 256

  /** `Color`: four 8-bit channels in R, G, B, A order. */
  datatype Color = Color(r: byte, g: byte, b: byte, a: byte)

  /** The colour the RLE stream starts with, `Color(0, 0, 0, 0)`. */
  const Blank: Color := Color(0, 0, 0, 0)

  /** The four bytes b, g, r, a at offset p, read back as a Color. */
  function BgraAt(data: seq<byte>, p: nat): (c: Color)
    requires p + 4 <= |data|
  {
    Color(data[p + 2], data[p + 1], data[p], data[p + 3])
  }

  /** How a Color is laid out on disk: blue, green, red, alpha. */
  function EncodeBgra(c: Color): (bytes: seq<byte>)
    ensures |bytes| == 4
  {
    [c.b, c.g, c.r, c.a]
  }

  /** Reading back an encoded colour gives the colour; encoding a read
      colour gives back the four bytes it came from. */
  lemma BgraRoundTrip(c: Color, data: seq<byte>, p: nat)
    requires p + 4 <= |data|
    ensures BgraAt(EncodeBgra(c), 0) == c
    ensures EncodeBgra(BgraAt(data, p)) == data[p..p + 4]
  {
  }

  /** Four bytes that are the encoding of c read back as c. */
  lemma BgraFromSlice(data: seq<byte>, p: nat, c: Color)
    requires p + 4 <= |data| && data[p..p + 4] == EncodeBgra(c)
    ensures BgraAt(data, p) == c
  {
    assert data[p] == data[p..p + 4][0];
    assert data[p + 1] == data[p..p + 4][1];
    assert data[p + 2] == data[p..p + 4][2];
    assert data[p + 3] == data[p..p + 4][3];
  }

  /** The n pixels stored uncompressed from offset p: pixel k is the colour
      at p + 4k. */
  function RawPixels(data: seq<byte>, p: nat, n: nat): (cs: seq<Color>)
    requires p + 4 * n <= |data|
    ensures |cs| == n
  {
    seq(n, k requires 0 <= k < n => BgraAt(data, p + 4 * k))
  }

  /** The bytes of a sequence of uncompressed pixels. */
  function EncodeRaw(cs: seq<Color>): (bytes: seq<byte>)
    ensures |bytes| == 4 * |cs|
  {
    if cs == [] then [] else EncodeBgra(cs[0]) + EncodeRaw(cs[1..])
  }

  /** Decoding the encoding of cs, wherever it sits in the file, gives cs
      back: pixel j is the colour at offset p + 4j. */
  lemma {:induction false} EncodedAt(data: seq<byte>, p: nat, cs: seq<Color>)
    requires p + 4 * |cs| <= |data| && data[p..p + 4 * |cs|] == EncodeRaw(cs)
    ensures forall j :: 0 <= j < |cs| ==> BgraAt(data, p + 4 * j) == cs[j]
    decreases |cs|
  {
    if cs != [] {
      var e := EncodeRaw(cs);
      assert e == EncodeBgra(cs[0]) + EncodeRaw(cs[1..]);
      assert data[p + 4..p + 4 * |cs|] == e[4..] == EncodeRaw(cs[1..]);
      EncodedAt(data, p + 4, cs[1..]);
      assert data[p..p + 4] == e[..4] == EncodeBgra(cs[0]);
      BgraFromSlice(data, p, cs[0]);
      forall j | 0 <= j < |cs| ensures BgraAt(data, p + 4 * j) == cs[j] {
        if j > 0 {
          assert BgraAt(data, p + 4 + 4 * (j - 1)) == cs[1..][j - 1];
        }
      }
    }
  }

  /** One more uncompressed pixel is appended at the end. */
  lemma RawPixelsSnoc(data: seq<byte>, p: nat, n: nat)
    requires p + 4 * (n + 1) <= |data|
    ensures RawPixels(data, p, n + 1) == RawPixels(data, p, n) + [BgraAt(data, p + 4 * n)]
  {
    var a, b := RawPixels(data, p, n + 1), RawPixels(data, p, n) + [BgraAt(data, p + 4 * n)];
    assert forall k :: 0 <= k < n + 1 ==> a[k] == b[k];
  }

  /** Encoding the pixels read from a region gives back that region's bytes. */
  lemma {:induction false} RawEncodesRegion(data: seq<byte>, p: nat, n: nat)
    requires p + 4 * n <= |data|
    ensures EncodeRaw(RawPixels(data, p, n)) == data[p..p + 4 * n]
    decreases n
  {
    if n > 0 {
      RawEncodesRegion(data, p + 4, n - 1);
      var cs := RawPixels(data, p, n);
      assert cs[1..] == RawPixels(data, p + 4, n - 1);
      assert data[p..p + 4 * n] == data[p..p + 4] + data[p + 4..p + 4 * n];
    }
  }
}
