/** The data URL of an image: its GIF file in base64. */
module DataUrl {
  import opened Bits
  import opened BitBuffer
  import opened ByteStreams
  import opened Gif
  import opened Lzw
  import opened Results
  import Base64

  /** The i-th pixel in raster order. */
  function Pixel(width: nat, getPixel: (nat, nat) -> nat, i: nat): nat
    requires width > 0
  {
    getPixel(i % width, i / width)
  }

  /** The pixels row by row. */
  function Rows(width: nat, height: nat, getPixel: (nat, nat) -> nat): (p: seq<nat>)
    ensures |p| == width * height
  {
    seq(width * height, i requires 0 <= i < width * height => Pixel(width, getPixel, i))
  }

  lemma RowsAt(width: nat, height: nat, getPixel: (nat, nat) -> nat, x: nat, y: nat)
    requires x < width && y < height
    ensures y * width + x < width * height
    ensures Rows(width, height, getPixel)[y * width + x] == getPixel(x, y)
  {
    InImage(x, y, width, height);
    DivModUnique(y * width + x, width, y, x);
  }

  lemma RowBounds(width: nat, height: nat, y: nat)
    requires y < height
    ensures (y + 1) * width == y * width + width <= width * height
  {
    assert (height - (y + 1)) * width >= 0;
    assert (height - (y + 1)) * width == height * width - (y + 1) * width;
  }

  method DrawPixels(gif: GifImage, getPixel: (nat, nat) -> nat)
    requires gif.Valid()
    requires forall x, y :: getPixel(x, y) < 4
    modifies gif.data
    ensures gif.Valid() && gif.data[..] == Rows(gif.width, gif.height, getPixel)
  {
    hide Pixels, Rows;
    var width, height := gif.width, gif.height;
    ghost var rows := Rows(width, height, getPixel);
    var y := 0;
    ghost var k: nat := 0;
    while y < height
      invariant y <= height && k == y * width <= gif.data.Length == |rows|
      invariant gif.Valid() && gif.data[..k] == rows[..k]
    {
      RowBounds(width, height, y);
      var x := 0;
      while x < width
        invariant x <= width && k == y * width + x <= gif.data.Length == |rows|
        invariant gif.Valid() && gif.data[..k] == rows[..k]
      {
        RowsAt(width, height, getPixel, x, y);
        gif.SetPixel(x, y, getPixel(x, y));
        assert gif.data[..k + 1] == gif.data[..][..k + 1];
        x, k := x + 1, k + 1;
      }
      y := y + 1;
    }
    assert k == |rows| by { assert height * width == width * height; }
  }

  method ToBase64(bytes: seq<Byte>) returns (base64: seq<nat>)
    ensures base64 == Base64.Text(bytes)
  {
    hide Base64.Text, Base64.Chars, Unpack, ToBits, FromBits, Pow2;
    var stream := new Base64.EncodeOutputStream();
    for i := 0 to |bytes|
      invariant stream.Valid() && fresh(stream) && stream.bytes == bytes[..i]
    {
      stream.WriteByte(bytes[i]);
    }
    assert bytes[..|bytes|] == bytes;
    stream.Flush();
    base64 := stream.base64;
  }

  const PREFIX: string := "data:image/gif;base64,"

  /** Decoding the text behind the prefix and reading the file in it gives back every pixel drawn, if
      the sides fit the file's two bytes each; of a larger image, what those bytes still describe. */
  method CreateDataUrl(width: nat, height: nat, getPixel: (nat, nat) -> nat) returns (url: seq<nat>)
    requires forall x, y :: getPixel(x, y) < 4
    ensures |url| >= 22 && url[..22] == Ascii("data:image/gif;base64,")
    ensures ReadGif(Base64.ReadAll(url[22..]))
         == Some((InTwoBytes(width), InTwoBytes(height), Rows(width, height, getPixel)[..Area(width, height)]))
  {
    hide Area, ReadGif, Base64.Text, Base64.ReadAll, Pixels, Rows, Ascii;
    var gif := new GifImage(width, height);
    DrawPixels(gif, getPixel);
    var b := new ByteArrayOutputStream();
    gif.Write(b);
    assert b.bytes == b.bytes[0..];
    var base64 := ToBase64(b.bytes);
    BehindPrefix(Ascii(PREFIX), b.bytes);
    url := Ascii(PREFIX) + base64;
  }

  lemma BehindPrefix(prefix: seq<nat>, bytes: seq<Byte>)
    ensures var url := prefix + Base64.Text(bytes);
            url[..|prefix|] == prefix && Base64.ReadAll(url[|prefix|..]) == bytes
  {
    hide Base64.Text, Base64.ReadAll;
    Base64.ReadAllOfText(bytes);
    var url := prefix + Base64.Text(bytes);
    assert url[|prefix|..] == Base64.Text(bytes);
  }
}
