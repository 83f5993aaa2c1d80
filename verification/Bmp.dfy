/** The bitmap writer and reader of src/bmp.rs. Sizes and offsets are unbounded; fields of the file are 32 bits. */
module Bmp {
  import Modular
  import opened Prelude

  datatype Image = Image(width: nat, height: nat, bpp: nat, pixels: seq<nat>)

  datatype Error =
    | TooShort | InvalidSignature | UnsupportedHeader | UnsupportedBpp | CompressedNotSupported | DataOutOfBounds

  const HEADER: nat := 54
  const SIGN: nat := 0x8000_0000

  /** Rows are padded to a multiple of four bytes. */
  function RowSize(width: nat, bytes: nat): (r: nat)
    ensures r >= width * bytes
  {
    (width * bytes + 3) / 4 * 4
  }

  /** The pixel data of an image. */
  function DataSize(width: nat, bytes: nat, height: nat): nat {
    RowSize(width, bytes) * height
  }

  // ----- Little-endian fields -----

  function Join(a: nat, b: nat, c: nat, d: nat): nat {
    a + 256 * (b + 256 * (c + 256 * d))
  }

  function Word16(data: seq<Byte>, at: nat): nat
    requires at + 2 <= |data|
  {
    Join(data[at], data[at + 1], 0, 0)
  }

  function Word32(data: seq<Byte>, at: nat): nat
    requires at + 4 <= |data|
  {
    Join(data[at], data[at + 1], data[at + 2], data[at + 3])
  }

  /** The absolute value of a field read as a signed integer. */
  function Magnitude(v: nat): nat {
    if v < SIGN then v else if v <= 0x1_0000_0000 then 0x1_0000_0000 - v else 0
  }

  /** A colour as it is stored: blue, green, red. */
  function Stored(data: seq<Byte>, at: nat): nat
    requires at + 3 <= |data|
  {
    Join(data[at], data[at + 1], data[at + 2], 0)
  }

  method Write32(buf: array<Byte>, at: nat, v: nat)
    requires at + 4 <= buf.Length && v < 0x1_0000_0000
    modifies buf
    ensures Word32(buf[..], at) == v
    ensures forall i | 0 <= i < buf.Length && !(at <= i < at + 4) :: buf[i] == old(buf[i])
  {
    var v1 := v / 256;
    var v2 := v1 / 256;
    buf[at], buf[at + 1], buf[at + 2], buf[at + 3] := v % 256, v1 % 256, v2 % 256, v2 / 256;
  }

  method Write16(buf: array<Byte>, at: nat, v: nat)
    requires at + 2 <= buf.Length && v < 0x1_0000
    modifies buf
    ensures Word16(buf[..], at) == v
    ensures forall i | 0 <= i < buf.Length && !(at <= i < at + 2) :: buf[i] == old(buf[i])
  {
    buf[at], buf[at + 1] := v % 256, v / 256;
  }

  method WriteColour(buf: array<Byte>, at: nat, rgb: nat)
    requires at + 3 <= buf.Length
    modifies buf
    ensures Stored(buf[..], at) == rgb % 0x100_0000
    ensures forall i | 0 <= i < buf.Length && !(at <= i < at + 3) :: buf[i] == old(buf[i])
  {
    var gr := rgb / 256;
    var r := gr / 256;
    buf[at] := rgb % 256;
    buf[at + 1] := gr % 256;
    buf[at + 2] := r % 256;
    ColourBytes(rgb, gr, r, r / 256);
  }

  lemma ColourBytes(rgb: nat, gr: nat, r: nat, q: nat)
    requires gr == rgb / 256 && r == gr / 256 && q == r / 256
    ensures Join(rgb % 256, gr % 256, r % 256, 0) == rgb % 0x100_0000
  {
    var low := Join(rgb % 256, gr % 256, r % 256, 0);
    assert rgb == 256 * gr + rgb % 256 && gr == 256 * r + gr % 256 && r == 256 * q + r % 256;
    Modular.QuotientIs(rgb, 0x100_0000, q, low);
  }

  // ----- Where pixels are -----

  function Place(offset: nat, row: nat, bytes: nat, y: nat, x: nat): nat {
    offset + y * row + x * bytes
  }

  /** Places grow row by row and, within a row, pixel by pixel. */
  lemma PlaceGrows(offset: nat, row: nat, width: nat, bytes: nat, y: nat, x: nat, y': nat, x': nat)
    requires row >= width * bytes && x < width && (y < y' || (y == y' && x < x'))
    ensures Place(offset, row, bytes, y, x) + bytes <= Place(offset, row, bytes, y', x')
  {
    assert x * bytes + bytes == (x + 1) * bytes;
    if y < y' {
      MulMonotone(x + 1, width, bytes);
      MulMonotone(y + 1, y', row);
      assert (y + 1) * row == y * row + row;
      assert x' * bytes >= 0;
    } else {
      MulMonotone(x + 1, x', bytes);
    }
  }

  lemma PlaceInside(offset: nat, row: nat, width: nat, height: nat, bytes: nat, y: nat, x: nat)
    requires row >= width * bytes && x < width && y < height
    ensures offset <= Place(offset, row, bytes, y, x)
    ensures Place(offset, row, bytes, y, x) + bytes <= offset + row * height
  {
    MulMonotone(0, y, row);
    MulMonotone(0, x, bytes);
    PlaceGrows(offset, row, width, bytes, y, x, height, 0);
    assert height * row == row * height;
  }

  lemma IndexInside(width: nat, height: nat, y: nat, x: nat)
    requires x < width && y < height
    ensures 0 <= y * width + x < width * height
  {
    MulMonotone(y + 1, height, width);
    assert (y + 1) * width == y * width + width && height * width == width * height;
  }

  function Index(width: nat, height: nat, y: nat, x: nat): (i: nat)
    requires x < width && y < height
    ensures i == y * width + x < width * height
  {
    IndexInside(width, height, y, x);
    y * width + x
  }

  // ----- The reader -----

  /** The pixel in column x of row y, counted from the top. */
  ghost predicate PixelRead(data: seq<Byte>, img: Image, offset: nat, topDown: bool, y: nat, x: nat)
    requires |img.pixels| == img.width * img.height && x < img.width && y < img.height
  {
    var bytes := img.bpp / 8;
    var at := Place(offset, RowSize(img.width, bytes), bytes, if topDown then y else img.height - 1 - y, x);
    at + 3 <= |data| && img.pixels[Index(img.width, img.height, y, x)] == Stored(data, at)
  }

  /** What the reader answers for a file, with the errors in the order in which they are looked for. */
  ghost predicate Answers(data: seq<Byte>, r: Result<Image, Error>) {
    if |data| < HEADER then r == Err(TooShort)
    else if data[0] != 0x42 || data[1] != 0x4d then r == Err(InvalidSignature)
    else if Word32(data, 14) != 40 then r == Err(UnsupportedHeader)
    else
      var bpp, width, height := Word16(data, 28), Magnitude(Word32(data, 18)), Magnitude(Word32(data, 22));
      if bpp != 24 && bpp != 32 then r == Err(UnsupportedBpp)
      else if Word32(data, 30) != 0 then r == Err(CompressedNotSupported)
      else if |data| < Word32(data, 10) + DataSize(width, bpp / 8, height) then r == Err(DataOutOfBounds)
      else
        && r.Ok? && r.value.width == width && r.value.height == height && r.value.bpp == bpp
        && ReadSoFar(data, r.value, Word32(data, 10), Word32(data, 22) >= SIGN, height, 0)
  }

  /** Rows before y, and the pixels before x in row y, have been read. */
  ghost predicate ReadSoFar(data: seq<Byte>, img: Image, offset: nat, topDown: bool, y: nat, x: nat) {
    && |img.pixels| == img.width * img.height
    && forall v: nat, u: nat | v < img.height && u < img.width && (v < y || (v == y && u < x)) ::
         PixelRead(data, img, offset, topDown, v, u)
  }

  lemma OneIndex(width: nat, height: nat, y: nat, x: nat, v: nat, u: nat)
    requires x < width && y < height && u < width && v < height && (v < y || (v == y && u < x))
    ensures Index(width, height, v, u) < Index(width, height, y, x)
  {
    if v < y {
      MulMonotone(v + 1, y, width);
      assert (v + 1) * width == v * width + width;
    }
  }

  /** One pixel is read into its place. */
  lemma ReadNext(data: seq<Byte>, img: Image, offset: nat, topDown: bool, y: nat, x: nat, at: nat)
    requires ReadSoFar(data, img, offset, topDown, y, x) && x < img.width && y < img.height
    requires at == Place(offset, RowSize(img.width, img.bpp / 8), img.bpp / 8,
                         if topDown then y else img.height - 1 - y, x)
    requires at + 3 <= |data|
    ensures var i := Index(img.width, img.height, y, x);
            ReadSoFar(data, img.(pixels := img.pixels[i := Stored(data, at)]), offset, topDown, y, x + 1)
  {
    var i := Index(img.width, img.height, y, x);
    var next := img.(pixels := img.pixels[i := Stored(data, at)]);
    forall v: nat, u: nat | v < img.height && u < img.width && (v < y || (v == y && u < x + 1))
      ensures PixelRead(data, next, offset, topDown, v, u)
    {
      if v < y || u < x {
        assert PixelRead(data, img, offset, topDown, v, u);
        OneIndex(img.width, img.height, y, x, v, u);
      }
    }
  }

  method ReadRow(data: seq<Byte>, img: Image, offset: nat, topDown: bool, y: nat) returns (r: Image)
    requires y < img.height && (img.bpp == 24 || img.bpp == 32)
    requires ReadSoFar(data, img, offset, topDown, y, 0)
    requires offset + DataSize(img.width, img.bpp / 8, img.height) <= |data|
    ensures r.width == img.width && r.height == img.height && r.bpp == img.bpp
    ensures ReadSoFar(data, r, offset, topDown, y + 1, 0)
  {
    r := img;
    var bytes := img.bpp / 8;
    var row := RowSize(img.width, bytes);
    var srcY := if topDown then y else img.height - 1 - y;
    for x := 0 to img.width
      invariant r.width == img.width && r.height == img.height && r.bpp == img.bpp
      invariant ReadSoFar(data, r, offset, topDown, y, x)
    {
      var at := Place(offset, row, bytes, srcY, x);
      PlaceInside(offset, row, img.width, img.height, bytes, srcY, x);
      ReadNext(data, r, offset, topDown, y, x, at);
      var i := Index(img.width, img.height, y, x);
      r := r.(pixels := r.pixels[i := Stored(data, at)]);
    }
  }

  method ReadPixels(data: seq<Byte>, width: nat, height: nat, bpp: nat, offset: nat, topDown: bool) returns (img: Image)
    requires (bpp == 24 || bpp == 32) && offset + DataSize(width, bpp / 8, height) <= |data|
    ensures img.width == width && img.height == height && img.bpp == bpp
    ensures ReadSoFar(data, img, offset, topDown, height, 0)
  {
    img := Image(width, height, bpp, seq(width * height, _ => 0));
    for y := 0 to height
      invariant img.width == width && img.height == height && img.bpp == bpp
      invariant ReadSoFar(data, img, offset, topDown, y, 0)
    {
      img := ReadRow(data, img, offset, topDown, y);
    }
  }

  method ParseBmp(data: seq<Byte>) returns (r: Result<Image, Error>)
    ensures Answers(data, r)
  {
    if |data| < HEADER {
      return Err(TooShort);
    }
    if data[0] != 0x42 || data[1] != 0x4d {
      return Err(InvalidSignature);
    }
    if Word32(data, 14) != 40 {
      return Err(UnsupportedHeader);
    }
    var bpp := Word16(data, 28);
    if bpp != 24 && bpp != 32 {
      return Err(UnsupportedBpp);
    }
    if Word32(data, 30) != 0 {
      return Err(CompressedNotSupported);
    }
    var width, height := Magnitude(Word32(data, 18)), Magnitude(Word32(data, 22));
    var topDown := Word32(data, 22) >= SIGN;
    var offset := Word32(data, 10);
    if |data| < offset + DataSize(width, bpp / 8, height) {
      return Err(DataOutOfBounds);
    }
    var img := ReadPixels(data, width, height, bpp, offset, topDown);
    r := Ok(img);
  }

  // ----- The writer -----

  /** The header of a 24-bit bottom-up file. */
  ghost predicate Header(data: seq<Byte>, width: nat, height: nat) {
    && |data| == HEADER + DataSize(width, 3, height) && data[0] == 0x42 && data[1] == 0x4d
    && Word32(data, 2) == |data| % 0x1_0000_0000 && Word16(data, 26) == 1
    && Word32(data, 10) == HEADER && Word32(data, 14) == 40 && Word32(data, 18) == width
    && Word32(data, 22) == height && Word16(data, 28) == 24 && Word32(data, 30) == 0
  }

  ghost predicate PixelWritten(data: seq<Byte>, width: nat, height: nat, pixels: seq<nat>, y: nat, x: nat)
    requires y < height && x < width && |pixels| >= width * height
  {
    var at := Place(HEADER, RowSize(width, 3), 3, y, x);
    at + 3 <= |data| && Stored(data, at) == pixels[Index(width, height, height - 1 - y, x)] % 0x100_0000
  }

  ghost predicate WrittenSoFar(data: seq<Byte>, width: nat, height: nat, pixels: seq<nat>, y: nat, x: nat) {
    && |pixels| >= width * height
    && forall v: nat, u: nat | v < height && u < width && (v < y || (v == y && u < x)) ::
         PixelWritten(data, width, height, pixels, v, u)
  }

  lemma HeaderKept(before: seq<Byte>, after: seq<Byte>, width: nat, height: nat)
    requires Header(before, width, height) && |after| == |before|
    requires forall i | 0 <= i < HEADER :: after[i] == before[i]
    ensures Header(after, width, height)
  {
  }

  lemma WriteNext(before: seq<Byte>, after: seq<Byte>, width: nat, height: nat, pixels: seq<nat>, y: nat, x: nat)
    requires WrittenSoFar(before, width, height, pixels, y, x) && y < height && x < width && |after| == |before|
    requires var at := Place(HEADER, RowSize(width, 3), 3, y, x);
             && at + 3 <= |after| && (forall i | 0 <= i < at :: after[i] == before[i])
             && Stored(after, at) == pixels[Index(width, height, height - 1 - y, x)] % 0x100_0000
    ensures WrittenSoFar(after, width, height, pixels, y, x + 1)
  {
    forall v: nat, u: nat | v < height && u < width && (v < y || (v == y && u < x + 1))
      ensures PixelWritten(after, width, height, pixels, v, u)
    {
      if v < y || u < x {
        assert PixelWritten(before, width, height, pixels, v, u);
        PlaceGrows(HEADER, RowSize(width, 3), width, 3, v, u, y, x);
      }
    }
  }

  /** A file with its header, and its pixels up to a point. */
  ghost predicate File(data: seq<Byte>, width: nat, height: nat, pixels: seq<nat>, y: nat, x: nat) {
    Header(data, width, height) && WrittenSoFar(data, width, height, pixels, y, x)
  }

  lemma FileNext(before: seq<Byte>, after: seq<Byte>, width: nat, height: nat, pixels: seq<nat>,
                 y: nat, x: nat, at: nat)
    requires File(before, width, height, pixels, y, x) && y < height && x < width && |after| == |before|
    requires HEADER <= at == Place(HEADER, RowSize(width, 3), 3, y, x) && at + 3 <= |after|
    requires forall i | 0 <= i < at :: after[i] == before[i]
    requires Stored(after, at) == pixels[Index(width, height, height - 1 - y, x)] % 0x100_0000
    ensures File(after, width, height, pixels, y, x + 1)
  {
    HeaderKept(before, after, width, height);
    WriteNext(before, after, width, height, pixels, y, x);
  }

  lemma PlaceInFile(size: nat, width: nat, height: nat, y: nat, x: nat, at: nat)
    requires size == HEADER + DataSize(width, 3, height) && y < height && x < width
    requires at == Place(HEADER, RowSize(width, 3), 3, y, x)
    ensures HEADER <= at && at + 3 <= size
  {
    PlaceInside(HEADER, RowSize(width, 3), width, height, 3, y, x);
  }

  method WriteFileHeader(buf: array<Byte>)
    requires buf.Length >= HEADER
    modifies buf
    ensures buf[0] == 0x42 && buf[1] == 0x4d && Word32(buf[..], 10) == HEADER
    ensures Word32(buf[..], 2) == buf.Length % 0x1_0000_0000
    ensures forall i | 14 <= i < buf.Length :: buf[i] == old(buf[i])
  {
    Write32(buf, 2, buf.Length % 0x1_0000_0000);
    Write32(buf, 10, HEADER);
    buf[0] := 0x42;
    buf[1] := 0x4d;
  }

  method WriteInfoHeader(buf: array<Byte>, width: nat, height: nat)
    requires buf.Length >= HEADER && width < 0x1_0000_0000 && height < 0x1_0000_0000
    modifies buf
    ensures Word32(buf[..], 14) == 40 && Word32(buf[..], 18) == width && Word32(buf[..], 22) == height
    ensures Word16(buf[..], 26) == 1 && Word16(buf[..], 28) == 24
    ensures forall i | 0 <= i < buf.Length && !(14 <= i < 30) :: buf[i] == old(buf[i])
  {
    Write16(buf, 28, 24);
    Write16(buf, 26, 1);
    Write32(buf, 22, height);
    Write32(buf, 18, width);
    Write32(buf, 14, 40);
  }

  method WriteHeader(buf: array<Byte>, width: nat, height: nat)
    requires width < 0x1_0000_0000 && height < 0x1_0000_0000 && buf.Length == HEADER + DataSize(width, 3, height)
    requires forall i | 0 <= i < HEADER :: buf[i] == 0
    modifies buf
    ensures Header(buf[..], width, height)
  {
    WriteFileHeader(buf);
    WriteInfoHeader(buf, width, height);
  }

  method WriteRow(buf: array<Byte>, width: nat, height: nat, pixels: seq<nat>, y: nat)
    requires y < height && File(buf[..], width, height, pixels, y, 0)
    modifies buf
    ensures File(buf[..], width, height, pixels, y + 1, 0)
  {
    for x := 0 to width
      invariant File(buf[..], width, height, pixels, y, x)
    {
      ghost var before := buf[..];
      var at := Place(HEADER, RowSize(width, 3), 3, y, x);
      PlaceInFile(buf.Length, width, height, y, x, at);
      WriteColour(buf, at, pixels[Index(width, height, height - 1 - y, x)]);
      FileNext(before, buf[..], width, height, pixels, y, x, at);
    }
    RowDone(buf[..], width, height, pixels, y);
  }

  lemma RowDone(data: seq<Byte>, width: nat, height: nat, pixels: seq<nat>, y: nat)
    requires File(data, width, height, pixels, y, width)
    ensures File(data, width, height, pixels, y + 1, 0)
  {
  }

  /** `create_bmp`; the pixels must cover the image, or indexing them panics. */
  method CreateBmp(width: nat, height: nat, pixels: seq<nat>) returns (data: seq<Byte>)
    requires width < 0x1_0000_0000 && height < 0x1_0000_0000 && |pixels| >= width * height
    ensures File(data, width, height, pixels, height, 0)
  {
    var buf := new Byte[HEADER + DataSize(width, 3, height)](_ => 0);
    WriteHeader(buf, width, height);
    for y := 0 to height
      invariant File(buf[..], width, height, pixels, y, 0)
    {
      WriteRow(buf, width, height, pixels, y);
    }
    data := buf[..];
  }

  // ----- The round trip -----

  lemma MagnitudeIs(v: nat)
    requires v < 0x1_0000_0000
    ensures Magnitude(v) <= v && (Magnitude(v) == v <==> v <= SIGN)
  {
  }

  lemma SmallerFits(width: nat, height: nat, w: nat, h: nat)
    requires w <= width && h <= height
    ensures DataSize(w, 3, h) <= DataSize(width, 3, height)
  {
    assert RowSize(w, 3) <= RowSize(width, 3);
    MulMonotone(RowSize(w, 3), RowSize(width, 3), h);
    MulMonotone(h, height, RowSize(width, 3));
    assert h * RowSize(width, 3) == RowSize(width, 3) * h && height * RowSize(width, 3) == RowSize(width, 3) * height;
  }

  /** A written file is accepted, with the magnitudes of its sizes read as signed numbers. */
  lemma HeaderAccepted(data: seq<Byte>, width: nat, height: nat, r: Result<Image, Error>)
    requires width < 0x1_0000_0000 && height < 0x1_0000_0000 && Header(data, width, height) && Answers(data, r)
    ensures r.Ok? && r.value.width == Magnitude(width) && r.value.height == Magnitude(height) && r.value.bpp == 24
    ensures ReadSoFar(data, r.value, HEADER, height >= SIGN, Magnitude(height), 0)
  {
    MagnitudeIs(width);
    MagnitudeIs(height);
    SmallerFits(width, height, Magnitude(width), Magnitude(height));
    assert Word16(data, 28) / 8 == 3;
  }

  /** The pixels of the image are those of a written file, cut to 24 bits, from the same
      row, or from the row at the same distance from the other end. */
  ghost predicate SamePixels(img: Image, width: nat, height: nat, pixels: seq<nat>, upsideDown: bool)
    requires |pixels| >= width * height && |img.pixels| == width * height
  {
    forall y: nat, x: nat | y < height && x < width ::
      img.pixels[Index(width, height, y, x)]
        == pixels[Index(width, height, if upsideDown then height - 1 - y else y, x)] % 0x100_0000
  }

  lemma PixelsReturn(data: seq<Byte>, width: nat, height: nat, pixels: seq<nat>, img: Image, topDown: bool)
    requires File(data, width, height, pixels, height, 0) && img.width == width && img.height == height && img.bpp == 24
    requires ReadSoFar(data, img, HEADER, topDown, height, 0)
    ensures |img.pixels| == width * height && SamePixels(img, width, height, pixels, topDown)
  {
    forall y: nat, x: nat | y < height && x < width
      ensures img.pixels[Index(width, height, y, x)]
           == pixels[Index(width, height, if topDown then height - 1 - y else y, x)] % 0x100_0000
    {
      assert PixelRead(data, img, HEADER, topDown, y, x);
      assert PixelWritten(data, width, height, pixels, if topDown then y else height - 1 - y, x);
    }
  }

  /** Reading a written file gives back its size exactly when neither side exceeds 2^31, and then every pixel cut to
      24 bits: from its own row when the height is below 2^31, and upside down when it is 2^31, whose sign bit asks for
      rows from the top. */
  lemma RoundTrip(data: seq<Byte>, width: nat, height: nat, pixels: seq<nat>, r: Result<Image, Error>)
    requires width < 0x1_0000_0000 && height < 0x1_0000_0000
    requires File(data, width, height, pixels, height, 0) && Answers(data, r)
    ensures r.Ok? && r.value.bpp == 24
    ensures r.value.width == width && r.value.height == height <==> width <= SIGN && height <= SIGN
    ensures width <= SIGN && height <= SIGN ==>
              |r.value.pixels| == width * height && SamePixels(r.value, width, height, pixels, height == SIGN)
  {
    HeaderAccepted(data, width, height, r);
    MagnitudeIs(width);
    MagnitudeIs(height);
    if width <= SIGN && height <= SIGN {
      PixelsReturn(data, width, height, pixels, r.value, height >= SIGN);
    }
  }
}
