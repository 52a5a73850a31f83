/** The GIF writer: header, compressed raster in sub-blocks (section 15 of GIF89a), terminator; and a
    reader that recovers size and pixels. */
module Gif {
  import opened Bits
  import opened ByteStreams
  import opened Lzw
  import opened Results

  // ---- sub-blocks ----

  /** Blocks of 255 bytes, a last one of the rest, and the empty block that ends them. */
  function SubBlocks(raster: seq<Byte>): seq<Byte> {
    if |raster| > 255 then [255] + raster[..255] + SubBlocks(raster[255..])
    else [|raster|] + raster + [0]
  }

  /** The joined contents of the blocks up to an empty one, and what follows it. */
  function ReadSubBlocks(bytes: seq<Byte>): Option<(seq<Byte>, seq<Byte>)>
    decreases |bytes|
  {
    if |bytes| == 0 then None
    else
      var n := bytes[0] as nat;
      if n == 0 then Some(([], bytes[1..]))
      else if |bytes| < 1 + n then None
      else
        var (more, rest) :- ReadSubBlocks(bytes[1 + n..]);
        Some((bytes[1..1 + n] + more, rest))
  }

  /** Every block holds 1 to 255 bytes, and together they are the raster. */
  lemma {:induction false} SubBlocksRoundTrip(raster: seq<Byte>, rest: seq<Byte>)
    requires |raster| > 0
    ensures ReadSubBlocks(SubBlocks(raster) + rest) == Some((raster, rest))
    decreases |raster|
  {
    var bytes := SubBlocks(raster) + rest;
    if |raster| > 255 {
      SubBlocksRoundTrip(raster[255..], rest);
      assert bytes[1..256] == raster[..255];
      assert bytes[256..] == SubBlocks(raster[255..]) + rest;
      assert raster[..255] + raster[255..] == raster;
    } else {
      var n := |raster|;
      assert bytes[1..1 + n] == raster;
      var end := bytes[1 + n..];
      assert end == [0] + rest;
      assert end[1..] == rest;
      assert raster + [] == raster;
    }
  }

  // ---- the file ----

  /** Signature and screen descriptor. */
  function Screen(width: nat, height: nat): (b: seq<Byte>)
    ensures |b| == 13
  {
    Ascii("GIF87a") + Short(width) + Short(height) + [0x80, 0, 0]
  }

  /** Image descriptor. */
  function Descriptor(width: nat, height: nat): (b: seq<Byte>)
    ensures |b| == 10
  {
    Ascii(",") + Short(0) + Short(0) + Short(width) + Short(height) + [0]
  }

  const COLOR_MAP: seq<Byte> := [0, 0, 0, 0xff, 0xff, 0xff]

  function Header(width: nat, height: nat): (b: seq<Byte>)
    ensures |b| == 29
  {
    Screen(width, height) + COLOR_MAP + Descriptor(width, height)
  }

  function File(width: nat, height: nat, raster: seq<Byte>): seq<Byte> {
    Header(width, height) + [2] + SubBlocks(raster) + Ascii(";")
  }

  /** The first n pixels of a raster. */
  function ReadPixels(raster: seq<Byte>, n: nat): Option<seq<nat>> {
    var pixels :- Decode(UnpackLow(raster), Fresh(), n);
    if |pixels| < n then None else Some(pixels[..n])
  }

  /** Width, height and pixels of a file. */
  function Size(width: nat, height: nat): nat {
    width * height
  }

  /** The first 29 bytes of a file with one image of the given sides in two colours, black and white. */
  predicate IsHeader(b: seq<Byte>, width: nat, height: nat) {
    && |b| == 29
    && b[0] == 0x47 && b[1] == 0x49 && b[2] == 0x46 && b[3] == 0x38 && b[4] == 0x37 && b[5] == 0x61
    && b[6] as int + 256 * b[7] as int == width && b[8] as int + 256 * b[9] as int == height
    && b[10] == 0x80 && b[11] == 0 && b[12] == 0
    && b[13] == 0 && b[14] == 0 && b[15] == 0 && b[16] == 0xff && b[17] == 0xff && b[18] == 0xff
    && b[19] == 0x2c && b[20] == 0 && b[21] == 0 && b[22] == 0 && b[23] == 0
    && b[24] as int + 256 * b[25] as int == width && b[26] as int + 256 * b[27] as int == height && b[28] == 0
  }

  function ReadGif(bytes: seq<Byte>): Option<(nat, nat, seq<nat>)> {
    hide ReadPixels, ReadSubBlocks, IsHeader, Size;
    if |bytes| < 30 then None
    else
      var width := bytes[6] as nat + 256 * bytes[7] as nat;
      var height := bytes[8] as nat + 256 * bytes[9] as nat;
      if !IsHeader(bytes[..29], width, height) || bytes[29] != 2 then None
      else
        var (raster, rest) :- ReadSubBlocks(bytes[30..]);
        if rest != [0x3b] then None
        else
          var pixels :- ReadPixels(raster, Size(width, height));
          Some((width, height, pixels))
  }

  lemma SmallerArea(w: nat, h: nat, width: nat, height: nat)
    requires w <= width && h <= height
    ensures w * h <= width * height
  {
    assert w * h <= w * height by { assert w * (height - h) >= 0; }
    assert (width - w) * height >= 0;
  }

  /** What two bytes hold of a side. */
  function InTwoBytes(n: nat): nat {
    n % 65536
  }

  /** The pixels a file says it has. */
  function Area(width: nat, height: nat): (n: nat)
    ensures n <= width * height
    ensures n == InTwoBytes(width) * InTwoBytes(height)
  {
    SmallerArea(InTwoBytes(width), InTwoBytes(height), width, height);
    InTwoBytes(width) * InTwoBytes(height)
  }

  lemma HeaderSize(width: nat, height: nat)
    ensures var b := Header(width, height);
            && b[6] as int + 256 * b[7] as int == InTwoBytes(width)
            && b[8] as int + 256 * b[9] as int == InTwoBytes(height)
            && IsHeader(b, InTwoBytes(width), InTwoBytes(height))
  {
    hide InTwoBytes;
    ShortHolds(width);
    ShortHolds(height);
    ShortHolds(0);
  }

  lemma ShortHolds(n: nat)
    ensures Short(n)[0] as int + 256 * Short(n)[1] as int == InTwoBytes(n)
  {
    var q, r := n / 65536, n % 65536;
    var h, l := r / 256, r % 256;
    assert n == 256 * (256 * q + h) + l;
    DivModUnique(n, 256, 256 * q + h, l);
    DivModUnique(256 * q + h, 256, q, h);
  }

  lemma RasterNotEmpty(raster: seq<Byte>, data: seq<nat>)
    requires |data| > 0 && Pixels(data) && IsRaster(raster, data)
    ensures |raster| > 0
  {
    hide CodeBits, LowBits, UnpackLow;
    assert |RasterBits(data)| >= 3;
  }

  lemma Semicolon()
    ensures Ascii(";") == [0x3b]
  {
  }

  /** For every image, also an empty one: the file gives back the sides as far as two bytes hold them,
      and the pixels for those sides. */
  lemma FileRead(width: nat, height: nat, data: seq<nat>, raster: seq<Byte>)
    requires |data| == width * height && Pixels(Coded(data)) && IsRaster(raster, Coded(data))
    ensures ReadGif(File(width, height, raster)) == Some((InTwoBytes(width), InTwoBytes(height), data[..Area(width, height)]))
  {
    hide Area, Header, SubBlocks, ReadSubBlocks, UnpackLow, RasterBits, Decode, Ascii, Falses;
    var bytes := File(width, height, raster);
    HeaderSize(width, height);
    assert bytes[..29] == Header(width, height);
    assert Ascii(";") == [0x3b] by { Semicolon(); }
    assert bytes[30..] == SubBlocks(raster) + [0x3b];
    var coded, need := Coded(data), Area(width, height);
    RasterNotEmpty(raster, coded);
    SubBlocksRoundTrip(raster, [0x3b]);
    RasterRoundTrip(coded, Falses(8 * |raster| - |RasterBits(coded)|), need);
    var pixels := Decode(UnpackLow(raster), Fresh(), need).value;
    assert pixels[..need] == coded[..need] == data[..need];
  }

  /** So the file is the image exactly if both sides fit two bytes. */
  lemma FileRoundTrip(width: nat, height: nat, data: seq<nat>, raster: seq<Byte>)
    requires |data| == width * height && Pixels(Coded(data)) && IsRaster(raster, Coded(data))
    ensures ReadGif(File(width, height, raster)) == Some((width, height, data))
       <==> width < 65536 && height < 65536
  {
    hide ReadGif, File, IsRaster, RasterBits, Pixels;
    FileRead(width, height, data, raster);
    if width < 65536 && height < 65536 {
      assert InTwoBytes(width) == width && InTwoBytes(height) == height && data[..|data|] == data;
    }
  }

  // ---- the source's image object ----

  method WriteSubBlocks(out: ByteArrayOutputStream, raster: seq<Byte>)
    requires |raster| > 0
    modifies out
    ensures out.bytes == old(out.bytes) + SubBlocks(raster)
  {
    hide SubBlocks;
    var offset := 0;
    while |raster| - offset > 255
      invariant offset < |raster|
      invariant out.bytes + SubBlocks(raster[offset..]) == old(out.bytes) + SubBlocks(raster)
    {
      ghost var before := out.bytes;
      out.WriteByte(255);
      out.WriteBytes(raster, offset, 255);
      assert out.bytes == before + [255] + raster[offset..offset + 255];
      Regroup(before, raster, offset);
      offset := offset + 255;
    }
    LastBlock(raster, offset);
    out.WriteByte(|raster| - offset);
    out.WriteBytes(raster, offset, |raster| - offset);
    out.WriteByte(0);
  }

  lemma MoreBlocks(raster: seq<Byte>, offset: nat)
    requires offset + 255 < |raster|
    ensures SubBlocks(raster[offset..])
         == [255] + raster[offset..offset + 255] + SubBlocks(raster[offset + 255..])
  {
    assert raster[offset..][255..] == raster[offset + 255..];
    assert raster[offset..][..255] == raster[offset..offset + 255];
  }

  lemma Regroup(before: seq<Byte>, raster: seq<Byte>, offset: nat)
    requires offset + 255 < |raster|
    ensures before + [255] + raster[offset..offset + 255] + SubBlocks(raster[offset + 255..])
         == before + SubBlocks(raster[offset..])
  {
    hide SubBlocks;
    MoreBlocks(raster, offset);
  }

  lemma LastBlock(raster: seq<Byte>, offset: nat)
    requires offset < |raster| <= offset + 255
    ensures SubBlocks(raster[offset..]) == [|raster| - offset] + raster[offset..] + [0]
  {
    var rest := raster[offset..];
    assert rest[..|rest|] == rest;
    assert rest[|rest|..] == [];
  }

  method WriteScreen(out: ByteArrayOutputStream, width: nat, height: nat)
    modifies out
    ensures out.bytes == old(out.bytes) + Screen(width, height)
  {
    hide Ascii, Short;
    out.WriteString("GIF87a");
    out.WriteShort(width);
    out.WriteShort(height);
    out.WriteByte(0x80);
    out.WriteByte(0);
    out.WriteByte(0);
  }

  method WriteColorMap(out: ByteArrayOutputStream)
    modifies out
    ensures out.bytes == old(out.bytes) + COLOR_MAP
  {
    out.WriteByte(0x00);
    out.WriteByte(0x00);
    out.WriteByte(0x00);
    out.WriteByte(0xff);
    out.WriteByte(0xff);
    out.WriteByte(0xff);
  }

  method WriteDescriptor(out: ByteArrayOutputStream, width: nat, height: nat)
    modifies out
    ensures out.bytes == old(out.bytes) + Descriptor(width, height)
  {
    hide Ascii, Short;
    out.WriteString(",");
    out.WriteShort(0);
    out.WriteShort(0);
    out.WriteShort(width);
    out.WriteShort(height);
    out.WriteByte(0);
  }

  method WriteHeader(out: ByteArrayOutputStream, width: nat, height: nat)
    modifies out
    ensures out.bytes == old(out.bytes) + Header(width, height)
  {
    hide Screen, Descriptor;
    WriteScreen(out, width, height);
    WriteColorMap(out);
    WriteDescriptor(out, width, height);
  }

  class GifImage {
    const width: nat
    const height: nat
    const data: array<nat>

    ghost predicate Valid()
      reads data
    {
      data.Length == width * height && Pixels(data[..])
    }

    constructor (width: nat, height: nat)
      ensures Valid() && fresh(data) && this.width == width && this.height == height
    {
      this.width, this.height := width, height;
      data := new nat[width * height](_ => 0);
    }

    method SetPixel(x: nat, y: nat, pixel: nat)
      requires Valid() && x < width && y < height && pixel < 4
      modifies data
      ensures Valid()
      ensures y * width + x < data.Length
      ensures data[..] == old(data[..])[y * width + x := pixel]
    {
      InImage(x, y, width, height);
      data[y * width + x] := pixel;
    }

    /** Appends a file from which a reader recovers the image. */
    method Write(out: ByteArrayOutputStream)
      requires Valid()
      modifies out
      ensures old(out.bytes) <= out.bytes
      ensures ReadGif(out.bytes[|old(out.bytes)|..])
           == Some((InTwoBytes(width), InTwoBytes(height), data[..Area(width, height)]))
    {
      hide Header, SubBlocks, ReadGif, Ascii, IsRaster, Area;
      WriteHeader(out, width, height);
      var raster := GetLzwRaster(data[..]);
      RasterNotEmpty(raster, Coded(data[..]));
      out.WriteByte(2);
      WriteSubBlocks(out, raster);
      out.WriteString(";");
      FileRead(width, height, data[..], raster);
      assert out.bytes == old(out.bytes) + File(width, height, raster);
    }
  }

  lemma InImage(x: nat, y: nat, width: nat, height: nat)
    requires x < width && y < height
    ensures y * width + x < width * height
  {
    assert (height - y) * width >= width by { MulAtLeast(height - y, width); }
    assert (height - y) * width == height * width - y * width;
  }
}
