/**
 * The atlas image writer `FontImage._save_tga_for_rtcw`: an 18-byte
 * Truevision TGA header for an uncompressed true-colour image (image type 2)
 * of 32 bits per pixel with the origin at the lower left, followed by the
 * pixels bottom row first, each as blue, green, red, alpha.
 */
module Tga {
  import opened Wrappers
  import opened Bytes

  /** One pixel of an RGBA image. */
  datatype Rgba = Rgba(r: byte, g: byte, b: byte, a: byte)

  /** An RGBA image: `height` rows of `width` pixels, top row first. */
  datatype Image = Image(width: nat, height: nat, rows: seq<seq<Rgba>>)

  predicate WellFormed(img: Image) {
    |img.rows| == img.height && forall r :: 0 <= r < |img.rows| ==> |img.rows[r]| == img.width
  }

  const HeaderSize: nat := 18

  /** Image type 2, width and height as 16-bit little-endian numbers, 32 bits per pixel, descriptor 0. */
  function Header(width: nat, height: nat): (r: seq<byte>)
    ensures |r| == HeaderSize
  {
    [0, 0, 2, 0, 0, 0, 0, 0, 0, 0, 0, 0,
     width % 256, (width / 256) % 256, height % 256, (height / 256) % 256, 32, 0]
  }

  /** A pixel as the file stores it. */
  function Bgra(p: Rgba): seq<byte> {
    [p.b, p.g, p.r, p.a]
  }

  /** The bytes of one row of pixels, left to right. */
  function RowBytes(row: seq<Rgba>): seq<byte> {
    Concat(seq(|row|, c requires 0 <= c < |row| => Bgra(row[c])))
  }

  /** The rows of the file, bottom row of the image first. */
  function FlippedRows(img: Image): seq<seq<byte>> {
    seq(|img.rows|, r requires 0 <= r < |img.rows| => RowBytes(img.rows[|img.rows| - 1 - r]))
  }

  /** The bytes `_save_tga_for_rtcw` writes for an RGBA image: the header and four bytes per pixel. */
  function SaveTga(img: Image): (r: seq<byte>)
    requires WellFormed(img)
    ensures |r| == HeaderSize + 4 * img.width * img.height
  {
    FlippedRowsWidth(img);
    ConcatLength(FlippedRows(img), 4 * img.width);
    Header(img.width, img.height) + Concat(FlippedRows(img))
  }

  // ---------------------------------------------------------------------------
  // Layout
  // ---------------------------------------------------------------------------

  /** The 16-bit little-endian number at bytes `k` and `k + 1`. */
  function Le16(b: seq<byte>, k: nat): int
    requires k + 2 <= |b|
  {
    b[k] as int + 256 * b[k + 1] as int
  }

  /** The header holds the size modulo 65536 and the fixed type, depth and descriptor; every other byte is zero. */
  lemma HeaderSpec(width: nat, height: nat)
    ensures var h := Header(width, height);
      && h[2] == 2 && h[16] == 32 && h[17] == 0
      && Le16(h, 12) == width % 65536 && Le16(h, 14) == height % 65536
      && forall k :: 0 <= k < 12 && k != 2 ==> h[k] == 0
  {
    var h := Header(width, height);
    assert Le16(h, 12) == width % 65536 by { Split16(width); }
    assert Le16(h, 14) == height % 65536 by { Split16(height); }
  }

  lemma Split16(n: nat)
    ensures n % 256 + 256 * ((n / 256) % 256) == n % 65536
  {
    var k, m := n / 65536, n % 65536;
    var hi, lo := m / 256, m % 256;
    assert m == hi * 256 + lo;
    assert n == (k * 256 + hi) * 256 + lo;
    DivMod256(k * 256 + hi, lo);
    DivMod256(k, hi);
  }

  lemma RowBytesLength(row: seq<Rgba>)
    ensures |RowBytes(row)| == 4 * |row|
  {
    ConcatLength(seq(|row|, c requires 0 <= c < |row| => Bgra(row[c])), 4);
  }

  lemma FlippedRowsWidth(img: Image)
    requires WellFormed(img)
    ensures AllWidth(FlippedRows(img), 4 * img.width)
  {
    forall r | 0 <= r < |img.rows| ensures |FlippedRows(img)[r]| == 4 * img.width {
      RowBytesLength(img.rows[|img.rows| - 1 - r]);
    }
  }

  /** Where pixel `c` of row `r` of the file starts. */
  function Offset(width: nat, r: nat, c: nat): nat {
    HeaderSize + 4 * width * r + 4 * c
  }

  lemma SubSlice(s: seq<byte>, a: nat, b: nat, i: nat, j: nat)
    requires a <= b <= |s| && i <= j <= b - a
    ensures s[a + i .. a + j] == s[a..b][i..j]
  {
    assert forall k :: 0 <= k < j - i ==> s[a + i .. a + j][k] == s[a + i + k] == s[a..b][i..j][k];
  }

  lemma HeaderThen(head: seq<byte>, body: seq<byte>, k: nat)
    requires |head| == HeaderSize && k + 4 <= |body|
    ensures (head + body)[HeaderSize + k .. HeaderSize + k + 4] == body[k .. k + 4]
  {
  }

  /** File row `r` holds image row `height - 1 - r`. */
  lemma FileRow(img: Image, r: nat)
    requires WellFormed(img) && r < img.height
    ensures 4 * img.width * r + 4 * img.width <= |Concat(FlippedRows(img))|
    ensures Concat(FlippedRows(img))[4 * img.width * r .. 4 * img.width * r + 4 * img.width]
      == RowBytes(img.rows[img.height - 1 - r])
  {
    FlippedRowsWidth(img);
    ConcatBlock(FlippedRows(img), 4 * img.width, r);
  }

  /** Pixel `c` of a row takes bytes `[4 c, 4 c + 4)` of the row's bytes. */
  lemma RowPixel(row: seq<Rgba>, c: nat)
    requires c < |row|
    ensures 4 * c + 4 <= |RowBytes(row)|
    ensures RowBytes(row)[4 * c .. 4 * c + 4] == Bgra(row[c])
  {
    ConcatBlock(seq(|row|, k requires 0 <= k < |row| => Bgra(row[k])), 4, c);
  }

  /** Pixel `c` of file row `r` is pixel `c` of image row `height - 1 - r`, stored blue, green, red, alpha. */
  lemma PixelAt(img: Image, r: nat, c: nat)
    requires WellFormed(img) && r < img.height && c < img.width
    ensures Offset(img.width, r, c) + 4 <= |SaveTga(img)|
    ensures SaveTga(img)[Offset(img.width, r, c) .. Offset(img.width, r, c) + 4]
      == Bgra(img.rows[img.height - 1 - r][c])
  {
    var row := img.rows[img.height - 1 - r];
    var body := Concat(FlippedRows(img));
    var rw := 4 * img.width;
    var start := 4 * img.width * r;
    FileRow(img, r);
    RowPixel(row, c);
    SubSlice(body, start, start + rw, 4 * c, 4 * c + 4);
    HeaderThen(Header(img.width, img.height), body, start + 4 * c);
  }

  // ---------------------------------------------------------------------------
  // Reading the file back
  // ---------------------------------------------------------------------------

  /** The pixel a TGA reader finds at image row `r`, column `c`, undoing the flip and the channel order. */
  function ReadPixel(b: seq<byte>, width: nat, height: nat, r: nat, c: nat): Rgba
    requires r < height && c < width && Offset(width, height - 1 - r, c) + 4 <= |b|
  {
    var o := Offset(width, height - 1 - r, c);
    Rgba(b[o + 2], b[o + 1], b[o], b[o + 3])
  }

  /** An uncompressed 32-bit true-colour TGA file with its origin at the lower left, read back. */
  function LoadTga(b: seq<byte>): (r: Option<Image>)
  {
    if |b| < HeaderSize || b[2] != 2 || b[16] != 32 || b[17] != 0 then None
    else
      var width: nat := Le16(b, 12);
      var height: nat := Le16(b, 14);
      if |b| != HeaderSize + 4 * width * height then None
      else
        Some(Image(width, height, seq(height, r requires 0 <= r < height =>
          seq(width, c requires 0 <= c < width =>
            OffsetFits(width, height, height - 1 - r, c); ReadPixel(b, width, height, r, c)))))
  }

  lemma OffsetFits(width: nat, height: nat, r: nat, c: nat)
    requires r < height && c < width
    ensures Offset(width, r, c) + 4 <= HeaderSize + 4 * width * height
  {
    assert 4 * width * r + 4 * width <= 4 * width * height by {
      assert 4 * width * r + 4 * width == 4 * width * (r + 1);
    }
  }

  /** Reading back what was written gives the image again, when both sides fit in 16 bits. */
  lemma TgaRoundTrip(img: Image)
    requires WellFormed(img) && img.width < 65536 && img.height < 65536
    ensures LoadTga(SaveTga(img)) == Some(img)
  {
    var b := SaveTga(img);
    HeaderSpec(img.width, img.height);
    assert |b| == HeaderSize + 4 * img.width * img.height;
    assert b[..HeaderSize] == Header(img.width, img.height);
    assert Le16(b, 12) == img.width && Le16(b, 14) == img.height;
    var w := img.width;
    var h := img.height;
    forall r, c | 0 <= r < h && 0 <= c < w
      ensures Offset(w, h - 1 - r, c) + 4 <= |b|
      ensures ReadPixel(b, w, h, r, c) == img.rows[r][c]
    {
      OffsetFits(w, h, h - 1 - r, c);
      PixelAt(img, h - 1 - r, c);
      var o := Offset(w, h - 1 - r, c);
      assert b[o .. o + 4] == Bgra(img.rows[r][c]);
      assert b[o] == b[o .. o + 4][0] && b[o + 1] == b[o .. o + 4][1];
      assert b[o + 2] == b[o .. o + 4][2] && b[o + 3] == b[o .. o + 4][3];
    }
    var back := LoadTga(b).value;
    assert back.rows == img.rows by {
      forall r | 0 <= r < h ensures back.rows[r] == img.rows[r] {
        assert |back.rows[r]| == w;
      }
    }
  }
}
