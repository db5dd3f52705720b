/** The 18-byte packed TGA file header (`HeaderTGA` of texture.cpp), read
    byte for byte from the start of the file with its 16-bit fields in
    little-endian order, as in the Truevision TGA 2.0 layout. */
module TgaHeader {
  import opened Pixels
  import opened Bits

  /** An unsigned 16-bit value (`u16`). */
  type u16 = v: int | 0 <= v < 0x1_0000

  /** Size of the header on disk; the pixel data follows it. */
  const HEADER_SIZE: nat := 18

  datatype Header = Header(
    id: byte,              // length of the image identification field
    colorMap: byte,        // 0: no colour map, 1: colour map present
    imageType: byte,       // 2: true colour, 10: RLE true colour, ...
    colorMapIndex: u16,
    colorMapLength: u16,
    colorMapSize: byte,
    xOrigin: u16,
    yOrigin: u16,
    width: u16,
    height: u16,
    bpp: byte,             // bits per pixel
    attribute: byte)       // image descriptor

  /** A little-endian u16 at offset p. */
  function U16At(data: seq<byte>, p: nat): (v: u16)
    requires p + 2 <= |data|
    ensures v % 0x100 == data[p] && v / 0x100 == data[p + 1]
  {
    data[p] as int + 0x100 * data[p + 1] as int
  }

  /** The two bytes of a u16, low byte first. */
  function EncodeU16(v: u16): (bytes: seq<byte>)
    ensures |bytes| == 2
  {
    [v % 0x100, v / 0x100]
  }

  /** Reads the header fields at their byte offsets 0-17. */
  function ParseHeader(data: seq<byte>): (h: Header)
    requires |data| >= HEADER_SIZE
    ensures h.bpp == data[16] && h.attribute == data[17] && h.imageType == data[2]
    ensures h.width == data[12] as int + 0x100 * data[13] as int
    ensures h.height == data[14] as int + 0x100 * data[15] as int
  {
    Header(data[0], data[1], data[2], U16At(data, 3), U16At(data, 5), data[7],
           U16At(data, 8), U16At(data, 10), U16At(data, 12), U16At(data, 14),
           data[16], data[17])
  }

  /** The 18 bytes a header is stored as. */
  function EncodeHeader(h: Header): (bytes: seq<byte>)
    ensures |bytes| == HEADER_SIZE
  {
    [h.id, h.colorMap, h.imageType] + EncodeU16(h.colorMapIndex)
      + EncodeU16(h.colorMapLength) + [h.colorMapSize]
      + EncodeU16(h.xOrigin) + EncodeU16(h.yOrigin)
      + EncodeU16(h.width) + EncodeU16(h.height) + [h.bpp, h.attribute]
  }

  lemma U16RoundTrip(v: u16, data: seq<byte>, p: nat)
    requires p + 2 <= |data|
    ensures U16At(EncodeU16(v), 0) == v
    ensures EncodeU16(U16At(data, p)) == data[p..p + 2]
  {
  }

  /** Parsing the encoding of a header, whatever follows it, gives it back. */
  lemma ParseEncoded(h: Header, rest: seq<byte>)
    ensures ParseHeader(EncodeHeader(h) + rest) == h
  {
    var d := EncodeHeader(h) + rest;
    U16RoundTrip(h.colorMapIndex, d, 3);
    U16RoundTrip(h.colorMapLength, d, 5);
    U16RoundTrip(h.xOrigin, d, 8);
    U16RoundTrip(h.yOrigin, d, 10);
    U16RoundTrip(h.width, d, 12);
    U16RoundTrip(h.height, d, 14);
  }

  /** The header is a faithful view of the first 18 bytes: encoding the
      parsed header gives them back. */
  lemma EncodeParsed(data: seq<byte>)
    requires |data| >= HEADER_SIZE
    ensures EncodeHeader(ParseHeader(data)) == data[..HEADER_SIZE]
  {
    var e := EncodeHeader(ParseHeader(data));
    forall p | p in {3, 5, 8, 10, 12, 14}
      ensures EncodeU16(U16At(data, p)) == data[p..p + 2]
    {
      U16RoundTrip(0, data, p);
    }
    assert e[3..5] == data[3..5];
    assert e[5..7] == data[5..7];
    assert e[8..10] == data[8..10];
    assert e[10..12] == data[10..12];
    assert e[12..14] == data[12..14];
    assert e[14..16] == data[14..16];
  }

  /** `type_ & (1 << 3)`: the image type says the pixel data is run-length
      encoded. */
  predicate IsRle(h: Header)
    ensures IsRle(h) <==> h.imageType / 8 % 2 == 1
  {
    ShrConstant(h.imageType);
    HasBit(h.imageType, 3)
  }

  /** `attribute_ & (1 << 5)`: rows are stored top to bottom. */
  predicate TopDown(h: Header)
    ensures TopDown(h) <==> h.attribute / 32 % 2 == 1
  {
    ShrConstant(h.attribute);
    HasBit(h.attribute, 5)
  }

  /** The image-type values of the TGA format: 2 (true colour) is read
      uncompressed, 10 (RLE true colour) through the RLE stream. */
  lemma ImageTypes(h: Header)
    ensures h.imageType == 2 ==> !IsRle(h)
    ensures h.imageType == 10 ==> IsRle(h)
    ensures h.imageType == 3 ==> !IsRle(h)
    ensures h.imageType == 11 ==> IsRle(h)
  {
  }

  /** The descriptor value 0x28 (top-down, 8 alpha bits) is top-down; 0x08 is
      bottom-up. */
  lemma Descriptors(h: Header)
    ensures h.attribute == 0x28 ==> TopDown(h)
    ensures h.attribute == 0x08 ==> !TopDown(h)
  {
  }
}
