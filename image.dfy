/**
 * The image side of the program: the Image class with its pixel map, the
 * conversion of the interleaved byte vector an image file yields into an
 * Image, the vertical flip of the global pixel map, and the convolution step,
 * which copies the image.  The globals IMAGE_WIDTH, IMAGE_HEIGHT and PIXMAP
 * are passed explicitly.
 */
module Pixmap {
  import opened Layout

  /** One unsigned 8-bit channel value of the byte vector. */
  newtype byte = b: int | 0 <= b < 256

  /** One RGBA pixel; the channels are floats in the program and reals here. */
  datatype Pixel = Pixel(r: real, g: real, b: real, a: real)

  /**
   * An image: a contiguous block of `width * height` pixels and a table of row
   * pointers, row `i` starting `width` pixels after row `i - 1`.
   */
  class Image {
    const width: nat
    const height: nat
    const rows: array<nat>
    const pixels: array<Pixel>

    ghost predicate Valid()
      reads rows
    {
      && height > 0
      && rows.Length == height
      && pixels.Length == height * width
      && forall i :: 0 <= i < height ==> rows[i] == Cell(width, i, 0)
    }

    /** pixmap[row][col], reached through the row table; it is cell `(row, col)` of the block. */
    function Get(row: nat, col: nat): (p: Pixel)
      reads rows, pixels
      requires Valid() && row < height && col < width
      ensures Cell(width, row, col) < pixels.Length
      ensures p == pixels[Cell(width, row, col)]
    {
      CellInBlock(height, width, row, col);
      pixels[rows[row] + col]
    }

    /**
     * Allocates the pixel block and lays out the row table.  The pixels are
     * left as the allocation leaves them.  The program writes row pointer 0
     * unconditionally, so it needs at least one row.
     */
    constructor(x: nat, y: nat)
      requires y > 0
      ensures Valid() && width == x && height == y
      ensures fresh(pixels)
    {
      var table := RowTable(y, x);
      var block := new Pixel[x * y];
      width, height, rows, pixels := x, y, table, block;
    }
  }

  // ---------------------------------------------------------------------------
  // Decoding the byte vector

  /** A channel byte as a value between 0 and 1. */
  function Intensity(b: byte): (v: real)
    ensures 0.0 <= v <= 1.0
  {
    (b as int) as real / 255.0
  }

  /** The bytes of pixel `t` of a stream of `count` pixels lie inside the vector. */
  lemma PixelBytesInRange(t: nat, count: nat, channels: nat)
    requires t < count
    ensures t * channels + channels <= count * channels
  {
    MulMonotone(t + 1, count, channels);
  }

  /**
   * The pixel whose channel bytes start at `i`: red, green and blue, then the
   * alpha byte when there are four channels and full opacity when there are
   * three.
   */
  function ReadPixel(bytes: seq<byte>, i: nat, channels: int): Pixel
    requires channels == 3 || channels == 4
    requires i + channels <= |bytes|
  {
    Pixel(Intensity(bytes[i]), Intensity(bytes[i + 1]), Intensity(bytes[i + 2]),
          if channels == 3 then 1.0 else Intensity(bytes[i + 3]))
  }

  /** The first `count` pixels of an interleaved vector, in the order the vector lists them. */
  function Decode(bytes: seq<byte>, channels: int, count: nat): (stream: seq<Pixel>)
    requires channels == 3 || channels == 4
    requires count * channels <= |bytes|
    ensures |stream| == count
  {
    seq(count, t requires 0 <= t < count =>
      PixelBytesInRange(t, count, channels);
      ReadPixel(bytes, t * channels, channels))
  }

  /**
   * Where the channel bytes of image cell `(row, col)` start.  The vector
   * lists the rows from the bottom row of the image up, each row from left to
   * right.
   */
  function ByteOffset(width: nat, height: nat, channels: nat, row: nat, col: nat): (i: nat)
    requires row < height && col < width
    ensures i + channels <= width * height * channels
  {
    CellInBlock(height, width, height - 1 - row, col);
    PixelBytesInRange(Cell(width, height - 1 - row, col), width * height, channels);
    Cell(width, height - 1 - row, col) * channels
  }

  /** Two different cells read disjoint runs of bytes. */
  lemma ByteOffsetsDisjoint(width: nat, height: nat, channels: nat, row1: nat, col1: nat, row2: nat, col2: nat)
    requires row1 < height && col1 < width && row2 < height && col2 < width
    requires row1 != row2 || col1 != col2
    ensures ByteOffset(width, height, channels, row1, col1) + channels <= ByteOffset(width, height, channels, row2, col2)
         || ByteOffset(width, height, channels, row2, col2) + channels <= ByteOffset(width, height, channels, row1, col1)
  {
    var t1 := Cell(width, height - 1 - row1, col1);
    var t2 := Cell(width, height - 1 - row2, col2);
    if t1 == t2 {
      CellInjective(width, height - 1 - row1, col1, height - 1 - row2, col2);
    } else if t1 < t2 {
      MulMonotone(t1 + 1, t2, channels);
    } else {
      MulMonotone(t2 + 1, t1, channels);
    }
  }

  /** Every one of the first `width * height * channels` bytes is a channel of some cell. */
  lemma ByteOffsetsCover(width: nat, height: nat, channels: nat, i: nat)
    requires channels > 0 && i < width * height * channels
    ensures exists row: nat, col: nat :: row < height && col < width &&
              ByteOffset(width, height, channels, row, col) <= i < ByteOffset(width, height, channels, row, col) + channels
  {
    var t, k := i / channels, i % channels;
    assert i == t * channels + k && k < channels;
    if t >= width * height {
      MulMonotone(width * height, t, channels);
    }
    CellCovers(height, width, t);
    var r: nat, col: nat :| r < height && col < width && Cell(width, r, col) == t;
    var row := height - 1 - r;
    assert ByteOffset(width, height, channels, row, col) == t * channels;
  }

  /** Cell `(row, col)` of the mirrored stream is the pixel whose bytes start at its byte offset. */
  lemma DecodedCell(bytes: seq<byte>, channels: int, width: nat, height: nat, row: nat, col: nat)
    requires channels == 3 || channels == 4
    requires width * height * channels <= |bytes|
    requires row < height && col < width
    ensures Cell(width, row, col) < width * height
    ensures ByteOffset(width, height, channels, row, col) + channels <= |bytes|
    ensures MirrorRows(Decode(bytes, channels, width * height), width)[Cell(width, row, col)]
         == ReadPixel(bytes, ByteOffset(width, height, channels, row, col), channels)
  {
    var stream := Decode(bytes, channels, width * height);
    MirrorRowsCell(stream, height, width, row, col);
  }

  // ---------------------------------------------------------------------------
  // The operations on images

  /** The result of convertVectorToImage: an image, or the error the program reports before exiting. */
  datatype Conversion = Converted(image: Image) | CouldNotConvert

  /**
   * The body of the conversion loops: reads red, green and blue, and alpha when
   * there are four channels, advancing the byte index past each byte it reads.
   */
  method ReadChannels(bytes: seq<byte>, start: nat, channels: int) returns (pixel: Pixel, next: nat)
    requires channels == 3 || channels == 4
    requires start + channels <= |bytes|
    ensures pixel == ReadPixel(bytes, start, channels)
    ensures next == start + channels
  {
    var i := start;
    var red := Intensity(bytes[i]);
    i := i + 1;
    var green := Intensity(bytes[i]);
    i := i + 1;
    var blue := Intensity(bytes[i]);
    i := i + 1;
    var alpha := 1.0;
    if channels == 4 {
      alpha := Intensity(bytes[i]);
      i := i + 1;
    }
    pixel, next := Pixel(red, green, blue, alpha), i;
  }

  /**
   * The loop nest of both accepted branches of convertVectorToImage: the
   * image rows are taken from the last one to row 0, each from left to right,
   * while the byte index runs forward through the vector, so the first row of
   * the vector becomes the last row of the image.  With three channels every
   * alpha is 1; with four the alpha byte is read as well.
   */
  method FillFromBytes(image: Image, bytes: seq<byte>, channels: int)
    requires image.Valid()
    requires channels == 3 || channels == 4
    requires image.width * image.height * channels <= |bytes|
    modifies image.pixels
    ensures image.pixels[..] == MirrorRows(Decode(bytes, channels, image.width * image.height), image.width)
  {
    var w, h := image.width, image.height;
    ghost var stream := Decode(bytes, channels, w * h);
    ghost var target := MirrorRows(stream, w);
    var i := 0;
    ghost var t := 0;
    var row := h - 1;
    while row >= 0
      invariant -1 <= row < h
      invariant t == Cell(w, h - 1 - row, 0) && t <= w * h
      invariant channels == 3 ==> i == 3 * t
      invariant channels == 4 ==> i == 4 * t
      invariant forall j :: Cell(w, row + 1, 0) <= j < w * h ==> image.pixels[j] == target[j]
      modifies image.pixels
    {
      RowInBlock(h, w, h - 1 - row);
      RowInBlock(h, w, row);
      NextRow(w, row);
      NextRow(w, h - 1 - row);
      ghost var first := t;
      var base := image.rows[row];
      var col := 0;
      while col < w
        invariant 0 <= col <= w && t == first + col
        invariant channels == 3 ==> i == 3 * t
        invariant channels == 4 ==> i == 4 * t
        invariant forall j :: base <= j < base + col ==> image.pixels[j] == target[j]
        invariant forall j :: base + w <= j < w * h ==> image.pixels[j] == target[j]
        modifies image.pixels
      {
        DecodedCell(bytes, channels, w, h, row, col);
        assert i == ByteOffset(w, h, channels, row, col);
        var pixel;
        pixel, i := ReadChannels(bytes, i, channels);
        image.pixels[image.rows[row] + col] := pixel;
        t := t + 1;
        col := col + 1;
      }
      row := row - 1;
    }
  }

  /**
   * convertVectorToImage: allocates an image of the global size and fills it
   * from the byte vector.  Only 3 and 4 channels are accepted; any other count
   * is the error the program reports before exiting.
   */
  method ConvertVectorToImage(bytes: seq<byte>, channels: int, imageWidth: nat, imageHeight: nat)
    returns (result: Conversion)
    requires imageHeight > 0
    requires channels == 3 || channels == 4 ==> imageWidth * imageHeight * channels <= |bytes|
    ensures result.Converted? <==> channels == 3 || channels == 4
    ensures result.Converted? ==>
              && result.image.Valid()
              && result.image.width == imageWidth && result.image.height == imageHeight
              && result.image.pixels[..] == MirrorRows(Decode(bytes, channels, imageWidth * imageHeight), imageWidth)
    ensures result.Converted? ==>
              forall row, col :: 0 <= row < imageHeight && 0 <= col < imageWidth ==>
                && result.image.Get(row, col) == ReadPixel(bytes, ByteOffset(imageWidth, imageHeight, channels, row, col), channels)
                && (channels == 3 ==> result.image.Get(row, col).a == 1.0)
  {
    var image := new Image(imageWidth, imageHeight);
    if channels != 3 && channels != 4 {
      return CouldNotConvert;
    }
    FillFromBytes(image, bytes, channels);
    forall row, col | 0 <= row < imageHeight && 0 <= col < imageWidth
      ensures image.Get(row, col) == ReadPixel(bytes, ByteOffset(imageWidth, imageHeight, channels, row, col), channels)
      ensures channels == 3 ==> image.Get(row, col).a == 1.0
    {
      DecodedCell(bytes, channels, imageWidth, imageHeight, row, col);
    }
    return Converted(image);
  }

  /**
   * flipImageVertical: copies every row of the pixel map `pixmap` into the
   * mirrored row of `flip`, taking the rows of `pixmap` from the last one to
   * row 0, and
   * returns `flip`.
   */
  method FlipImageVertical(pixmap: Image, flip: Image, imageWidth: nat, imageHeight: nat)
    returns (flipped: Image)
    requires pixmap.Valid() && pixmap.width == imageWidth && pixmap.height == imageHeight
    requires flip.Valid() && flip.width == imageWidth && flip.height == imageHeight
    requires pixmap.pixels != flip.pixels
    modifies flip.pixels
    ensures flipped == flip
    ensures pixmap.pixels[..] == old(pixmap.pixels[..])
    ensures flip.pixels[..] == MirrorRows(pixmap.pixels[..], imageWidth)
    ensures forall row, col :: 0 <= row < imageHeight && 0 <= col < imageWidth ==>
              flip.Get(row, col) == pixmap.Get(imageHeight - 1 - row, col)
  {
    var w, h := imageWidth, imageHeight;
    ghost var target := MirrorRows(pixmap.pixels[..], w);
    var row := h - 1;
    while row >= 0
      invariant -1 <= row < h
      invariant Cell(w, h - 1 - row, 0) <= w * h
      invariant forall j :: 0 <= j < Cell(w, h - 1 - row, 0) ==> flip.pixels[j] == target[j]
      modifies flip.pixels
    {
      RowInBlock(h, w, h - 1 - row);
      var col := 0;
      while col < w
        invariant 0 <= col <= w && Cell(w, h - 1 - row, w) <= w * h
        invariant forall j :: 0 <= j < Cell(w, h - 1 - row, col) ==> flip.pixels[j] == target[j]
        modifies flip.pixels
      {
        CellInBlock(h, w, row, col);
        MirrorRowsCell(pixmap.pixels[..], h, w, h - 1 - row, col);
        flip.pixels[flip.rows[(h - 1) - row] + col] := pixmap.pixels[pixmap.rows[row] + col];
        col := col + 1;
      }
      NextRow(w, h - 1 - row);
      row := row - 1;
    }
    assert flip.pixels[..] == target;
    forall row, col | 0 <= row < h && 0 <= col < w
      ensures flip.Get(row, col) == pixmap.Get(h - 1 - row, col)
    {
      MirrorRowsCell(pixmap.pixels[..], h, w, row, col);
    }
    flipped := flip;
  }

  /**
   * convolveImage: allocates a new image of the global size and copies every
   * pixel of `copy` into it, row by row.  No filter is applied.
   */
  method ConvolveImage(copy: Image, imageWidth: nat, imageHeight: nat) returns (convolved: Image)
    requires copy.Valid() && copy.width == imageWidth && copy.height == imageHeight
    ensures convolved.Valid() && convolved.width == imageWidth && convolved.height == imageHeight
    ensures fresh(convolved.pixels) && convolved.pixels != copy.pixels
    ensures convolved.pixels[..] == copy.pixels[..]
    ensures forall row, col :: 0 <= row < imageHeight && 0 <= col < imageWidth ==>
              convolved.Get(row, col) == copy.Get(row, col)
  {
    convolved := new Image(imageWidth, imageHeight);
    var w := copy.width;
    ghost var k := 0;
    var row := 0;
    while row < copy.height
      invariant 0 <= row <= copy.height && k == Cell(w, row, 0) && k <= w * copy.height
      invariant forall j :: 0 <= j < k ==> convolved.pixels[j] == copy.pixels[j]
      modifies convolved.pixels
    {
      RowInBlock(copy.height, w, row);
      var col := 0;
      while col < copy.width
        invariant 0 <= col <= w && k == Cell(w, row, col) && Cell(w, row, w) <= w * copy.height
        invariant forall j :: 0 <= j < k ==> convolved.pixels[j] == copy.pixels[j]
        modifies convolved.pixels
      {
        CellInBlock(copy.height, w, row, col);
        convolved.pixels[convolved.rows[row] + col] := copy.pixels[copy.rows[row] + col];
        k := k + 1;
        col := col + 1;
      }
      NextRow(w, row);
      row := row + 1;
    }
    assert convolved.pixels[..] == copy.pixels[..];
  }
}
