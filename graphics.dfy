/** The double-buffered framebuffer of src/devices/graphics/graphics.c: the
    current VBE mode's geometry, the mapped video memory, the off-screen
    write buffer, colour conversion, pixel writes, frame commit and sprite
    blitting. Both buffers are byte arrays; `info` is the record the VBE
    mode query filled in. */
module Graphics {
  import opened Bytes

  datatype Option<T> = None | Some(value: T)

  /** The three fields of vbe_mode_info_t that the framebuffer reads. */
  datatype ModeInfo = ModeInfo(xRes: uint16, yRes: uint16, bitsPerPixel: byte)

  /** Bytes per pixel: (BitsPerPixel + 7) / 8, as vg_draw_pixel computes it. */
  function Stride(bpp: int): int
  {
    (bpp + 7) / 8
  }

  /** The size shared by the video mapping, the write buffer and the frame
      copy: X * Y * (bpp + 7) / 8, evaluated left to right, so the division
      comes last and the result is not X * Y * Stride(bpp). */
  function BufferSize(info: ModeInfo): nat
  {
    info.xRes * info.yRes * (info.bitsPerPixel + 7) / 8
  }

  function Red(color: uint32): byte { (color / 0x1_0000) % 0x100 }
  function Green(color: uint32): byte { (color / 0x100) % 0x100 }
  function Blue(color: uint32): byte { color % 0x100 }

  /** fix_color: RGB888 into the mode's native encoding. The shifts are
      divisions and multiplications by powers of two; the bitwise ors join
      disjoint bit ranges, so they are sums. */
  function FixColor(color: uint32, bpp: int): (r: uint32)
    // 5-5-5: each field holds the top five bits of its channel, red highest
    ensures bpp == 15 ==> r < 0x8000 && r / 0x400 == Red(color) / 8
                          && (r / 0x20) % 0x20 == Green(color) / 8 && r % 0x20 == Blue(color) / 8
    // 5-6-5: green keeps six bits
    ensures bpp == 16 ==> r < 0x1_0000 && r / 0x800 == Red(color) / 8
                          && (r / 0x20) % 0x40 == Green(color) / 4 && r % 0x20 == Blue(color) / 8
    // packed 24-bit: the top byte of the argument is dropped
    ensures bpp == 24 || bpp == 32 ==> r == color % 0x100_0000
    ensures bpp != 15 && bpp != 16 && bpp != 24 && bpp != 32 ==> r == 0
  {
    var red, green, blue := Red(color), Green(color), Blue(color);
    if bpp == 15 then
      Fields555(red / 8, green / 8, blue / 8);
      (red / 8) * 0x400 + (green / 8) * 0x20 + blue / 8
    else if bpp == 16 then
      Fields565(red / 8, green / 4, blue / 8);
      (red / 8) * 0x800 + (green / 4) * 0x20 + blue / 8
    else if bpp == 24 then
      Packed888(color);
      red * 0x1_0000 + green * 0x100 + blue
    else if bpp == 32 then
      Packed888(color);
      red * 0x1_0000 + green * 0x100 + blue
    else 0
  }

  /** Splitting a 5-5-5 word back into its fields. */
  lemma Fields555(a: nat, b: nat, c: nat)
    requires a < 0x20 && b < 0x20 && c < 0x20
    ensures var r := a * 0x400 + b * 0x20 + c;
            r < 0x8000 && r / 0x400 == a && (r / 0x20) % 0x20 == b && r % 0x20 == c
  {
    var r := a * 0x400 + b * 0x20 + c;
    assert r == (a * 0x20 + b) * 0x20 + c;
    assert r / 0x20 == a * 0x20 + b;
  }

  /** Splitting a 5-6-5 word back into its fields. */
  lemma Fields565(a: nat, b: nat, c: nat)
    requires a < 0x20 && b < 0x40 && c < 0x20
    ensures var r := a * 0x800 + b * 0x20 + c;
            r < 0x1_0000 && r / 0x800 == a && (r / 0x20) % 0x40 == b && r % 0x20 == c
  {
    var r := a * 0x800 + b * 0x20 + c;
    assert r == (a * 0x40 + b) * 0x20 + c;
    assert r / 0x20 == a * 0x40 + b;
  }

  /** Reassembling the three channels gives the low 24 bits of the colour. */
  lemma Packed888(color: uint32)
    ensures Red(color) * 0x1_0000 + Green(color) * 0x100 + Blue(color) == color % 0x100_0000
  {
    var q1 := color / 0x100;
    var q2 := q1 / 0x100;
    assert color == q1 * 0x100 + Blue(color);
    assert q1 == q2 * 0x100 + Green(color);
    assert color / 0x1_0000 == q2;
    assert q2 == (q2 / 0x100) * 0x100 + Red(color);
    assert color == (q2 / 0x100) * 0x100_0000 + (Red(color) * 0x1_0000 + Green(color) * 0x100 + Blue(color));
  }

  /** Every native encoding fits in the bytes memcpy copies out of it, so the
      copy never truncates the colour. */
  lemma FixColorFits(color: uint32, bpp: byte)
    ensures FixColor(color, bpp) < Pow256(Stride(bpp))
  {
    var s := Stride(bpp);
    if bpp == 15 || bpp == 16 {
      assert s == 2 && Pow256(2) == 0x1_0000;
    } else if bpp == 24 {
      assert s == 3 && Pow256(3) == 0x100_0000;
    } else if bpp == 32 {
      assert s == 4 && Pow256(4) == 0x1_0000_0000;
    }
  }

  /** The eight colour keys vg_draw_pixel never writes (sprite backgrounds). */
  predicate IsTransparent(color: uint32)
  {
    color == 0xAFFFFF || color == 0xB1FFFF || color == 0xB9FBFB || color == 0x9ADDDD
    || color == 0x080707 || color == 0x282727 || color == 0xA6F1F1 || color == 0xA3ECEC
  }

  /** vg_draw_pixel's two early returns, as written: the bounds test uses `>`,
      so x == XRes and y == YRes pass; the tests against 0 never fire for
      unsigned coordinates. */
  predicate Accepted(info: ModeInfo, x: uint16, y: uint16, color: uint32)
  {
    !(x > info.xRes || y > info.yRes) && !IsTransparent(color)
  }

  /** Byte offset of pixel (x, y) in the write buffer. */
  function PixelIndex(info: ModeInfo, x: uint16, y: uint16): nat
  {
    (info.xRes * y + x) * Stride(info.bitsPerPixel)
  }

  /** The native bytes memcpy copies for a colour: the low Stride bytes of
      the encoded value, least significant first. */
  function PixelBytes(info: ModeInfo, color: uint32): seq<byte>
  {
    LittleEndian(FixColor(color, info.bitsPerPixel), Stride(info.bitsPerPixel))
  }

  /** buf with bs copied in at offset at. */
  function Overwrite(buf: seq<byte>, at: nat, bs: seq<byte>): (r: seq<byte>)
    requires at + |bs| <= |buf|
    ensures |r| == |buf|
    ensures forall k :: 0 <= k < |r| ==> r[k] == if at <= k < at + |bs| then bs[k - at] else buf[k]
  {
    buf[..at] + bs + buf[at + |bs|..]
  }

  /** The byte ranges [c, c+n) and [d, d+m) do not overlap. */
  predicate Apart(c: nat, n: nat, d: nat, m: nat)
  {
    c + n <= d || d + m <= c
  }

  /** Whether the bytes of pixel (x, y) lie inside a buffer of n bytes. */
  predicate Fits(info: ModeInfo, x: uint16, y: uint16, n: nat)
  {
    PixelIndex(info, x, y) + Stride(info.bitsPerPixel) <= n
  }

  /** The value the bytes of pixel (x, y) hold in buf, read little-endian. */
  function PixelValue(info: ModeInfo, buf: seq<byte>, x: uint16, y: uint16): nat
    requires Fits(info, x, y, |buf|)
  {
    FromLittleEndian(buf[PixelIndex(info, x, y)..PixelIndex(info, x, y) + Stride(info.bitsPerPixel)])
  }

  /** Two buffers that agree on the bytes [c, c+s) of pixel (x, y) hold the
      same value there. */
  lemma SameCellValue(info: ModeInfo, a: seq<byte>, b: seq<byte>, x: uint16, y: uint16, c: nat, s: nat)
    requires c == PixelIndex(info, x, y)
    requires s == Stride(info.bitsPerPixel)
    requires c + s <= |a|
    requires |b| == |a|
    requires a[c..c + s] == b[c..c + s]
    ensures Fits(info, x, y, |a|)
    ensures PixelValue(info, a, x, y) == PixelValue(info, b, x, y)
  {
  }

  /** The write buffer after vg_draw_pixel(x, y, color). */
  function DrawnPixel(info: ModeInfo, buf: seq<byte>, x: uint16, y: uint16, color: uint32): (r: seq<byte>)
    ensures |r| == |buf|
    ensures !Accepted(info, x, y, color) ==> r == buf
  {
    if Accepted(info, x, y, color) && Fits(info, x, y, |buf|)
    then Overwrite(buf, PixelIndex(info, x, y), PixelBytes(info, color))
    else buf
  }

  /** An accepted write changes exactly the Stride bytes at the pixel's
      offset, and those bytes read back, little-endian, as fix_color's
      encoding of the colour. */
  lemma DrawnPixelEffect(info: ModeInfo, buf: seq<byte>, x: uint16, y: uint16, color: uint32)
    requires Accepted(info, x, y, color) && Fits(info, x, y, |buf|)
    ensures PixelValue(info, DrawnPixel(info, buf, x, y, color), x, y) == FixColor(color, info.bitsPerPixel)
    ensures var r, idx, s := DrawnPixel(info, buf, x, y, color), PixelIndex(info, x, y), Stride(info.bitsPerPixel);
            forall k :: 0 <= k < |buf| && !(idx <= k < idx + s) ==> r[k] == buf[k]
  {
    var r, idx, s := DrawnPixel(info, buf, x, y, color), PixelIndex(info, x, y), Stride(info.bitsPerPixel);
    assert r[idx..idx + s] == PixelBytes(info, color);
    FixColorFits(color, info.bitsPerPixel);
    DecodeEncode(FixColor(color, info.bitsPerPixel), s);
  }

  /** A transparent colour key never reaches the buffer, wherever it is drawn. */
  lemma TransparentLeavesBuffer(info: ModeInfo, buf: seq<byte>, x: uint16, y: uint16, color: uint32)
    requires IsTransparent(color)
    ensures DrawnPixel(info, buf, x, y, color) == buf
  {
  }

  /** Because the guard uses `>`, column XRes is accepted and lands on the
      first pixel of the next row. */
  lemma EdgeColumnIsNextRow(info: ModeInfo, buf: seq<byte>, y: uint16, color: uint32)
    requires y < info.yRes
    ensures PixelIndex(info, info.xRes, y) == PixelIndex(info, 0, y + 1)
    ensures DrawnPixel(info, buf, info.xRes, y, color) == DrawnPixel(info, buf, 0, y + 1, color)
  {
    assert info.xRes * y + info.xRes == info.xRes * (y + 1);
  }

  lemma MulLeftMono(a: nat, b: nat, c: nat)
    requires b <= c
    ensures a * b <= a * c
  {
  }

  /** The allocated size covers a full screen of Stride-byte pixels. */
  lemma ScreenFitsBuffer(info: ModeInfo)
    ensures info.xRes * info.yRes * Stride(info.bitsPerPixel) <= BufferSize(info)
  {
    var p, s := info.xRes * info.yRes, Stride(info.bitsPerPixel);
    MulLeftMono(p, 8 * s, info.bitsPerPixel + 7);
    assert p * (8 * s) == (p * s) * 8;
  }

  /** Every on-screen pixel lies inside the buffer, whatever the mode. */
  lemma {:induction false} OnScreenPixelFits(info: ModeInfo, x: uint16, y: uint16)
    requires x < info.xRes && y < info.yRes
    ensures Fits(info, x, y, BufferSize(info))
  {
    var xr, yr, s := info.xRes, info.yRes, Stride(info.bitsPerPixel);
    var l := xr * y + x;
    MulLeftMono(xr, y + 1, yr);
    assert xr * (y + 1) == xr * y + xr;
    assert l + 1 <= xr * yr;
    MulLeftMono(s, l + 1, xr * yr);
    assert s * (l + 1) == l * s + s;
    assert s * (xr * yr) == xr * yr * s;
    ScreenFitsBuffer(info);
    assert PixelIndex(info, x, y) == l * s;
  }

  /** For the depths VBE modes use, the slack the size formula leaves also
      covers the off-screen row and column the guard lets through. */
  lemma {:induction false} GuardedPixelFits(info: ModeInfo, x: uint16, y: uint16)
    requires info.bitsPerPixel in {8, 15, 16, 24, 32}
    requires info.xRes >= 2 && info.yRes >= 8
    requires x <= info.xRes && y <= info.yRes
    ensures Fits(info, x, y, BufferSize(info))
  {
    var xr, yr, bpp, s := info.xRes, info.yRes, info.bitsPerPixel, Stride(info.bitsPerPixel);
    var p := xr * yr;
    MulLeftMono(xr, 8, yr);
    MulLeftMono(xr, y, yr);
    assert xr * y + x <= p + xr;
    MulLeftMono(s, xr * y + x + 1, p + xr + 1);
    assert PixelIndex(info, x, y) + s <= (p + xr + 1) * s;
    assert BufferSize(info) == p * (bpp + 7) / 8;
    if bpp == 8 {
      assert s == 1;
    } else if bpp == 15 || bpp == 16 {
      assert s == 2;
    } else if bpp == 24 {
      assert s == 3;
    } else {
      assert s == 4;
    }
  }

  /** In a 1-bit-per-pixel mode the size formula leaves no slack, and the
      guard admits a pixel whose bytes lie past the end of the buffer. */
  lemma GuardAdmitsOverrun()
    ensures var info := ModeInfo(2, 2, 1);
            Accepted(info, 2, 2, 0) && !Fits(info, 2, 2, BufferSize(info))
  {
  }

  /** The image xpm_load returns for XPM_8_8_8_8: four bytes per pixel. */
  datatype Xpm = Xpm(width: uint16, height: uint16, pixels: seq<byte>)

  predicate Loaded(img: Xpm)
  {
    |img.pixels| == 4 * (img.width * img.height)
  }

  /** Row i, column j of the image is pixel i * width + j, inside the map. */
  lemma PixelInImage(img: Xpm, i: nat, j: nat)
    requires Loaded(img) && i < img.height && j < img.width
    ensures i * img.width + j < |img.pixels|
  {
    MulLeftMono(img.width, i + 1, img.height);
  }

  /** The byte draw_xpm reads for row i, column j: map[i * width + j]. */
  function ImageByte(img: Xpm, i: nat, j: nat): byte
    requires Loaded(img) && i < img.height && j < img.width
  {
    PixelInImage(img, i, j);
    img.pixels[i * img.width + j]
  }

  /** base + d converted to uint16_t, as passing it to vg_draw_pixel does. */
  function Offset16(base: uint16, d: int): uint16
  {
    (base + d) % 0x1_0000
  }

  /** Below 2^16 the conversion to uint16_t keeps the value. */
  lemma NoWrap(base: uint16, d: nat)
    requires base + d < 0x1_0000
    ensures Offset16(base, d) == base + d
  {
  }

  /** buf after draw_xpm's inner loop has drawn columns 0 .. j-1 of row i:
      column j goes to (x + j, y + i), both wrapped to 16 bits by the uint16_t
      parameters of vg_draw_pixel, with the single byte pixels[i * width + j]
      as its colour. */
  function DrawnRow(info: ModeInfo, buf: seq<byte>, img: Xpm, x: uint16, y: uint16, i: nat, j: nat): (r: seq<byte>)
    requires Loaded(img) && i < img.height && j <= img.width
    ensures |r| == |buf|
  {
    if j == 0 then buf
    else
      DrawnPixel(info, DrawnRow(info, buf, img, x, y, i, j - 1),
                 Offset16(x, j - 1), Offset16(y, i), ImageByte(img, i, j - 1))
  }

  /** Drawing column j extends the row drawn so far by one pixel. */
  lemma DrawnRowStep(info: ModeInfo, buf: seq<byte>, img: Xpm, x: uint16, y: uint16, i: nat, j: nat)
    requires Loaded(img) && i < img.height && j < img.width
    ensures i * img.width + j < |img.pixels|
    ensures DrawnRow(info, buf, img, x, y, i, j + 1)
         == DrawnPixel(info, DrawnRow(info, buf, img, x, y, i, j), Offset16(x, j), Offset16(y, i),
                       img.pixels[i * img.width + j])
  {
    PixelInImage(img, i, j);
  }

  /** buf after draw_xpm's outer loop has drawn rows 0 .. i-1. */
  function DrawnRows(info: ModeInfo, buf: seq<byte>, img: Xpm, x: uint16, y: uint16, i: nat): (r: seq<byte>)
    requires Loaded(img) && i <= img.height
    ensures |r| == |buf|
  {
    if i == 0 then buf
    else DrawnRow(info, DrawnRows(info, buf, img, x, y, i - 1), img, x, y, i - 1, img.width)
  }

  /** A row whose screen y is below YRes is clipped entirely. */
  lemma {:induction false} ClippedRowLeavesBuffer(info: ModeInfo, buf: seq<byte>, img: Xpm, x: uint16, y: uint16, i: nat, j: nat)
    requires Loaded(img) && i < img.height && j <= img.width
    requires Offset16(y, i) > info.yRes
    ensures DrawnRow(info, buf, img, x, y, i, j) == buf
  {
    if j > 0 {
      ClippedRowLeavesBuffer(info, buf, img, x, y, i, j - 1);
    }
  }

  /** A sprite all of whose rows land below the screen (after the 16-bit
      wrap of y + i) leaves the back buffer untouched: clipping is silent. */
  lemma {:induction false} ClippedSpriteLeavesBuffer(info: ModeInfo, buf: seq<byte>, img: Xpm, x: uint16, y: uint16, n: nat)
    requires Loaded(img) && n <= img.height
    requires forall i :: 0 <= i < n ==> Offset16(y, i) > info.yRes
    ensures DrawnRows(info, buf, img, x, y, n) == buf
  {
    if n > 0 {
      ClippedSpriteLeavesBuffer(info, buf, img, x, y, n - 1);
      ClippedRowLeavesBuffer(info, buf, img, x, y, n - 1, img.width);
    }
  }

  /** Each colour draw_xpm passes is one byte of the image, so none is ever
      a transparency key and each draws as a blue-only colour. */
  lemma SpriteByteIsBlueOnly(c: byte, bpp: byte)
    ensures !IsTransparent(c)
    ensures bpp == 15 || bpp == 16 ==> FixColor(c, bpp) == c / 8
    ensures bpp == 24 || bpp == 32 ==> FixColor(c, bpp) == c
  {
    assert Red(c) == 0 && Green(c) == 0 && Blue(c) == c;
    if bpp == 15 {
      assert FixColor(c, bpp) == (Red(c) / 8) * 0x400 + (Green(c) / 8) * 0x20 + Blue(c) / 8;
    } else if bpp == 16 {
      assert FixColor(c, bpp) == (Red(c) / 8) * 0x800 + (Green(c) / 4) * 0x20 + Blue(c) / 8;
    }
  }

  /** Byte offset of the pixel draw_xpm draws for row i, column j of the image. */
  function CellAt(info: ModeInfo, x: uint16, y: uint16, i: nat, j: nat): nat
  {
    PixelIndex(info, Offset16(x, j), Offset16(y, i))
  }

  /** A pixel write leaves every byte range apart from its own bytes as it was. */
  lemma WriteKeepsApart(info: ModeInfo, buf: seq<byte>, a: uint16, b: uint16, color: uint32, c: nat, n: nat)
    requires c + n <= |buf|
    requires Apart(c, n, PixelIndex(info, a, b), Stride(info.bitsPerPixel))
    ensures DrawnPixel(info, buf, a, b, color)[c..c + n] == buf[c..c + n]
  {
    var r := DrawnPixel(info, buf, a, b, color);
    assert forall t :: c <= t < c + n ==> r[t] == buf[t];
  }

  /** The byte range [c, c+n) is apart from the pixels of columns j0 .. j1-1 of row i. */
  predicate ColumnsApart(info: ModeInfo, x: uint16, y: uint16, i: nat, j0: nat, j1: nat, c: nat, n: nat)
  {
    forall j: nat :: j0 <= j < j1 ==> Apart(c, n, CellAt(info, x, y, i, j), Stride(info.bitsPerPixel))
  }

  /** The byte range [c, c+n) is apart from every pixel of rows i0 .. i1-1. */
  predicate RowsApart(info: ModeInfo, img: Xpm, x: uint16, y: uint16, i0: nat, i1: nat, c: nat, n: nat)
  {
    forall i: nat :: i0 <= i < i1 ==> ColumnsApart(info, x, y, i, 0, img.width, c, n)
  }

  /** Drawing columns j0 .. j1-1 of row i keeps a byte range apart from their pixels. */
  lemma {:induction false} RowKeepsApart(info: ModeInfo, buf: seq<byte>, img: Xpm, x: uint16, y: uint16,
                                         i: nat, j0: nat, j1: nat, c: nat, n: nat)
    requires Loaded(img) && i < img.height && j0 <= j1 <= img.width
    requires c + n <= |buf|
    requires ColumnsApart(info, x, y, i, j0, j1, c, n)
    ensures DrawnRow(info, buf, img, x, y, i, j1)[c..c + n] == DrawnRow(info, buf, img, x, y, i, j0)[c..c + n]
  {
    if j0 < j1 {
      RowKeepsApart(info, buf, img, x, y, i, j0, j1 - 1, c, n);
      assert Apart(c, n, CellAt(info, x, y, i, j1 - 1), Stride(info.bitsPerPixel));
      WriteKeepsApart(info, DrawnRow(info, buf, img, x, y, i, j1 - 1), Offset16(x, j1 - 1), Offset16(y, i),
                      ImageByte(img, i, j1 - 1), c, n);
    }
  }

  /** Drawing rows i0 .. i1-1 keeps a byte range apart from all their pixels. */
  lemma {:induction false} RowsKeepApart(info: ModeInfo, buf: seq<byte>, img: Xpm, x: uint16, y: uint16,
                                         i0: nat, i1: nat, c: nat, n: nat)
    requires Loaded(img) && i0 <= i1 <= img.height
    requires c + n <= |buf|
    requires RowsApart(info, img, x, y, i0, i1, c, n)
    ensures DrawnRows(info, buf, img, x, y, i1)[c..c + n] == DrawnRows(info, buf, img, x, y, i0)[c..c + n]
  {
    if i0 < i1 {
      RowsKeepApart(info, buf, img, x, y, i0, i1 - 1, c, n);
      assert ColumnsApart(info, x, y, i1 - 1, 0, img.width, c, n);
      RowKeepsApart(info, DrawnRows(info, buf, img, x, y, i1 - 1), img, x, y, i1 - 1, 0, img.width, c, n);
    }
  }

  /** Pixels in an earlier row, or earlier in the same row, come first in
      row-major order. */
  lemma RowMajorBefore(xr: nat, a: nat, b: nat, a2: nat, b2: nat)
    requires a < xr && a2 < xr
    requires b < b2 || (b == b2 && a < a2)
    ensures xr * b + a < xr * b2 + a2
  {
    if b < b2 {
      MulLeftMono(xr, b + 1, b2);
    }
  }

  /** For a sprite lying wholly on screen, a later pixel's bytes start after
      an earlier pixel's bytes end. */
  lemma CellsApart(info: ModeInfo, img: Xpm, x: uint16, y: uint16, i: nat, j: nat, i2: nat, j2: nat)
    requires x + img.width <= info.xRes && y + img.height <= info.yRes
    requires i < img.height && i2 < img.height && j < img.width && j2 < img.width
    requires i < i2 || (i == i2 && j < j2)
    ensures CellAt(info, x, y, i, j) + Stride(info.bitsPerPixel) <= CellAt(info, x, y, i2, j2)
  {
    var xr, s := info.xRes, Stride(info.bitsPerPixel);
    NoWrap(x, j);
    NoWrap(x, j2);
    NoWrap(y, i);
    NoWrap(y, i2);
    var l, l2 := xr * (y + i) + (x + j), xr * (y + i2) + (x + j2);
    RowMajorBefore(xr, x + j, y + i, x + j2, y + i2);
    MulLeftMono(s, l + 1, l2);
    assert (l + 1) * s == l * s + s;
  }

  /** In an on-screen sprite, the pixels after (i, j) in its row are apart from it. */
  lemma LaterColumnsApart(info: ModeInfo, img: Xpm, x: uint16, y: uint16, i: nat, j: nat, c: nat, s: nat)
    requires x + img.width <= info.xRes && y + img.height <= info.yRes
    requires i < img.height && j < img.width
    requires c == CellAt(info, x, y, i, j) && s == Stride(info.bitsPerPixel)
    ensures ColumnsApart(info, x, y, i, j + 1, img.width, c, s)
  {
    forall j2: nat | j + 1 <= j2 < img.width
      ensures Apart(CellAt(info, x, y, i, j), Stride(info.bitsPerPixel), CellAt(info, x, y, i, j2), Stride(info.bitsPerPixel))
    {
      CellsApart(info, img, x, y, i, j, i, j2);
    }
  }

  /** In an on-screen sprite, every pixel of the rows below row i is apart from pixel (i, j). */
  lemma LaterRowsApart(info: ModeInfo, img: Xpm, x: uint16, y: uint16, i: nat, j: nat, c: nat, s: nat)
    requires x + img.width <= info.xRes && y + img.height <= info.yRes
    requires i < img.height && j < img.width
    requires c == CellAt(info, x, y, i, j) && s == Stride(info.bitsPerPixel)
    ensures RowsApart(info, img, x, y, i + 1, img.height, c, s)
  {
    forall i2: nat | i + 1 <= i2 < img.height
      ensures ColumnsApart(info, x, y, i2, 0, img.width, CellAt(info, x, y, i, j), Stride(info.bitsPerPixel))
    {
      forall j2: nat | j2 < img.width
        ensures Apart(CellAt(info, x, y, i, j), Stride(info.bitsPerPixel), CellAt(info, x, y, i2, j2), Stride(info.bitsPerPixel))
      {
        CellsApart(info, img, x, y, i, j, i2, j2);
      }
    }
  }

  /** Drawing column j of an on-screen sprite row puts fix_color of its image
      byte into that pixel's bytes. */
  lemma PixelDrawn(info: ModeInfo, buf: seq<byte>, img: Xpm, x: uint16, y: uint16, i: nat, j: nat)
    requires Loaded(img) && |buf| == BufferSize(info)
    requires x + img.width <= info.xRes && y + img.height <= info.yRes
    requires i < img.height && j < img.width
    ensures Fits(info, Offset16(x, j), Offset16(y, i), |buf|)
    ensures PixelValue(info, DrawnRow(info, buf, img, x, y, i, j + 1), Offset16(x, j), Offset16(y, i))
         == FixColor(ImageByte(img, i, j), info.bitsPerPixel)
  {
    var u, v := Offset16(x, j), Offset16(y, i);
    NoWrap(x, j);
    NoWrap(y, i);
    OnScreenPixelFits(info, u, v);
    var color := ImageByte(img, i, j);
    SpriteByteIsBlueOnly(color, info.bitsPerPixel);
    var prev := DrawnRow(info, buf, img, x, y, i, j);
    assert DrawnRow(info, buf, img, x, y, i, j + 1) == DrawnPixel(info, prev, u, v, color);
    DrawnPixelEffect(info, prev, u, v, color);
  }

  /** RowKeepsApart for the columns after j of row i. */
  lemma RowTailKeepsApart(info: ModeInfo, buf: seq<byte>, img: Xpm, x: uint16, y: uint16, i: nat, j: nat, c: nat, n: nat)
    requires Loaded(img) && i < img.height && j < img.width
    requires c + n <= |buf|
    requires ColumnsApart(info, x, y, i, j + 1, img.width, c, n)
    ensures DrawnRow(info, buf, img, x, y, i, img.width)[c..c + n] == DrawnRow(info, buf, img, x, y, i, j + 1)[c..c + n]
  {
    RowKeepsApart(info, buf, img, x, y, i, j + 1, img.width, c, n);
  }

  /** RowsKeepApart for the rows after row i. */
  lemma LowerRowsKeepApart(info: ModeInfo, buf: seq<byte>, img: Xpm, x: uint16, y: uint16, i: nat, c: nat, n: nat)
    requires Loaded(img) && i < img.height
    requires c + n <= |buf|
    requires RowsApart(info, img, x, y, i + 1, img.height, c, n)
    ensures DrawnRows(info, buf, img, x, y, img.height)[c..c + n] == DrawnRows(info, buf, img, x, y, i + 1)[c..c + n]
  {
    RowsKeepApart(info, buf, img, x, y, i + 1, img.height, c, n);
  }

  /** The columns after j in row i of an on-screen sprite leave the bytes of
      pixel (i, j) as drawing column j left them. */
  lemma RowSliceKept(info: ModeInfo, buf: seq<byte>, img: Xpm, x: uint16, y: uint16, i: nat, j: nat, c: nat, s: nat)
    requires Loaded(img)
    requires x + img.width <= info.xRes && y + img.height <= info.yRes
    requires i < img.height && j < img.width
    requires c == CellAt(info, x, y, i, j) && s == Stride(info.bitsPerPixel)
    requires c + s <= |buf|
    ensures DrawnRow(info, buf, img, x, y, i, img.width)[c..c + s] == DrawnRow(info, buf, img, x, y, i, j + 1)[c..c + s]
  {
    LaterColumnsApart(info, img, x, y, i, j, c, s);
    RowTailKeepsApart(info, buf, img, x, y, i, j, c, s);
  }

  /** The rows after row i of an on-screen sprite leave the bytes of pixel
      (i, j) as drawing row i left them. */
  lemma RowsSliceKept(info: ModeInfo, buf: seq<byte>, img: Xpm, x: uint16, y: uint16, i: nat, j: nat, c: nat, s: nat)
    requires Loaded(img)
    requires x + img.width <= info.xRes && y + img.height <= info.yRes
    requires i < img.height && j < img.width
    requires c == CellAt(info, x, y, i, j) && s == Stride(info.bitsPerPixel)
    requires c + s <= |buf|
    ensures DrawnRows(info, buf, img, x, y, img.height)[c..c + s] == DrawnRows(info, buf, img, x, y, i + 1)[c..c + s]
  {
    LaterRowsApart(info, img, x, y, i, j, c, s);
    LowerRowsKeepApart(info, buf, img, x, y, i, c, s);
  }

  /** The columns after j in row i of an on-screen sprite leave the value of
      pixel (i, j) as drawing column j left it. */
  lemma RestOfRowKeepsPixel(info: ModeInfo, buf: seq<byte>, img: Xpm, x: uint16, y: uint16, i: nat, j: nat, c: nat, s: nat)
    requires Loaded(img)
    requires x + img.width <= info.xRes && y + img.height <= info.yRes
    requires i < img.height && j < img.width
    requires c == CellAt(info, x, y, i, j) && s == Stride(info.bitsPerPixel)
    requires Fits(info, Offset16(x, j), Offset16(y, i), |buf|)
    ensures PixelValue(info, DrawnRow(info, buf, img, x, y, i, img.width), Offset16(x, j), Offset16(y, i))
         == PixelValue(info, DrawnRow(info, buf, img, x, y, i, j + 1), Offset16(x, j), Offset16(y, i))
  {
    RowSliceKept(info, buf, img, x, y, i, j, c, s);
    SameCellValue(info, DrawnRow(info, buf, img, x, y, i, img.width), DrawnRow(info, buf, img, x, y, i, j + 1),
                  Offset16(x, j), Offset16(y, i), c, s);
  }

  /** The rows after row i of an on-screen sprite leave the value of pixel
      (i, j) as drawing row i left it. */
  lemma LaterRowsKeepPixel(info: ModeInfo, buf: seq<byte>, img: Xpm, x: uint16, y: uint16, i: nat, j: nat, c: nat, s: nat)
    requires Loaded(img)
    requires x + img.width <= info.xRes && y + img.height <= info.yRes
    requires i < img.height && j < img.width
    requires c == CellAt(info, x, y, i, j) && s == Stride(info.bitsPerPixel)
    requires Fits(info, Offset16(x, j), Offset16(y, i), |buf|)
    ensures PixelValue(info, DrawnRows(info, buf, img, x, y, img.height), Offset16(x, j), Offset16(y, i))
         == PixelValue(info, DrawnRows(info, buf, img, x, y, i + 1), Offset16(x, j), Offset16(y, i))
  {
    RowsSliceKept(info, buf, img, x, y, i, j, c, s);
    SameCellValue(info, DrawnRows(info, buf, img, x, y, img.height), DrawnRows(info, buf, img, x, y, i + 1),
                  Offset16(x, j), Offset16(y, i), c, s);
  }

  /** SpriteShown with the screen coordinates as draw_xpm computes them. */
  lemma SpriteCellShown(info: ModeInfo, buf: seq<byte>, img: Xpm, x: uint16, y: uint16, i: nat, j: nat)
    requires Loaded(img) && |buf| == BufferSize(info)
    requires x + img.width <= info.xRes && y + img.height <= info.yRes
    requires i < img.height && j < img.width
    ensures Fits(info, Offset16(x, j), Offset16(y, i), |buf|)
    ensures PixelValue(info, DrawnRows(info, buf, img, x, y, img.height), Offset16(x, j), Offset16(y, i))
         == FixColor(ImageByte(img, i, j), info.bitsPerPixel)
  {
    var before := DrawnRows(info, buf, img, x, y, i);
    assert DrawnRows(info, buf, img, x, y, i + 1) == DrawnRow(info, before, img, x, y, i, img.width);
    PixelDrawn(info, before, img, x, y, i, j);
    var c, s := CellAt(info, x, y, i, j), Stride(info.bitsPerPixel);
    RestOfRowKeepsPixel(info, before, img, x, y, i, j, c, s);
    LaterRowsKeepPixel(info, buf, img, x, y, i, j, c, s);
  }

  /** A sprite lying wholly on screen shows its image: after draw_xpm, the
      bytes of screen pixel (x+j, y+i) read back, little-endian, as fix_color
      of the image byte draw_xpm takes for row i, column j. */
  lemma SpriteShown(info: ModeInfo, buf: seq<byte>, img: Xpm, x: uint16, y: uint16, i: nat, j: nat)
    requires Loaded(img) && |buf| == BufferSize(info)
    requires x + img.width <= info.xRes && y + img.height <= info.yRes
    requires i < img.height && j < img.width
    ensures Fits(info, x + j, y + i, |buf|)
    ensures PixelValue(info, DrawnRows(info, buf, img, x, y, img.height), x + j, y + i)
         == FixColor(ImageByte(img, i, j), info.bitsPerPixel)
  {
    NoWrap(x, j);
    NoWrap(y, i);
    SpriteCellShown(info, buf, img, x, y, i, j);
  }

  /** draw_xpm changes no byte outside the pixels it draws, wherever the
      sprite lies (16-bit wrap and clipping included). */
  lemma UntouchedBytesKept(info: ModeInfo, buf: seq<byte>, img: Xpm, x: uint16, y: uint16, k: nat)
    requires Loaded(img) && k < |buf|
    requires forall i: nat, j: nat :: i < img.height && j < img.width ==>
               !(CellAt(info, x, y, i, j) <= k < CellAt(info, x, y, i, j) + Stride(info.bitsPerPixel))
    ensures DrawnRows(info, buf, img, x, y, img.height)[k] == buf[k]
  {
    RowsKeepApart(info, buf, img, x, y, 0, img.height, k, 1);
    assert DrawnRows(info, buf, img, x, y, img.height)[k..k + 1][0] == buf[k..k + 1][0];
  }

  /** A positive multiple of w is at least w; a negative one at most -w. */
  lemma MulAtLeast(w: nat, k: int)
    ensures k >= 1 ==> w * k >= w
    ensures k <= -1 ==> w * k + w <= 0
  {
    if k >= 1 {
      MulLeftMono(w, 1, k);
    }
    if k <= -1 {
      MulLeftMono(w, 1, -k);
    }
  }

  /** memcpy(&dst[at], src, |src|): dst becomes Overwrite(dst, at, src). */
  method Memcpy(dst: array<byte>, at: nat, src: seq<byte>)
    requires at + |src| <= dst.Length
    modifies dst
    ensures dst[..] == Overwrite(old(dst[..]), at, src)
  {
    for k := 0 to |src|
      invariant forall t :: 0 <= t < dst.Length ==>
        dst[t] == if at <= t < at + k then src[t - at] else old(dst[t])
    {
      dst[at + k] := src[k];
    }
  }

  class FrameBuffer {
    var info: ModeInfo
    var videoBuffer: array<byte>
    var writeBuffer: array<byte>

    /** Both buffers exist, are distinct and have the mode's size. */
    ghost predicate Valid()
      reads this
    {
      videoBuffer != writeBuffer
      && videoBuffer.Length == BufferSize(info) && writeBuffer.Length == BufferSize(info)
    }

    /** The zero-initialised globals before any mode has been set. */
    constructor ()
      ensures info == ModeInfo(0, 0, 0) && Valid()
    {
      info := ModeInfo(0, 0, 0);
      videoBuffer := new byte[0];
      writeBuffer := new byte[0];
    }

    /** set_buffer: clear info, take the mode's description from the VBE query
        (None when the query fails) and map video memory of the mode's size. */
    method SetBuffer(reply: Option<ModeInfo>) returns (status: int)
      modifies this
      ensures writeBuffer == old(writeBuffer)
      ensures reply.None? ==> status == 1 && info == ModeInfo(0, 0, 0) && videoBuffer == old(videoBuffer)
      ensures reply.Some? ==> status == 0 && info == reply.value
                              && fresh(videoBuffer) && videoBuffer.Length == BufferSize(info)
    {
      info := ModeInfo(0, 0, 0);
      if reply.None? {
        return 1;
      }
      info := reply.value;
      var vramSize := BufferSize(info);
      videoBuffer := new byte[vramSize];
      return 0;
    }

    /** allocate_write_buffer: a fresh, zero-filled back buffer of the mode's size. */
    method AllocateWriteBuffer() returns (status: int)
      modifies this`writeBuffer
      ensures status == 0 && fresh(writeBuffer) && writeBuffer.Length == BufferSize(info)
      ensures forall k :: 0 <= k < writeBuffer.Length ==> writeBuffer[k] == 0
      ensures old(videoBuffer.Length) == BufferSize(info) ==> Valid()
    {
      var bufferSize := BufferSize(info);
      var buf := new byte[bufferSize];
      for k := 0 to bufferSize
        invariant forall t :: 0 <= t < k ==> buf[t] == 0
      {
        buf[k] := 0;
      }
      writeBuffer := buf;
      return 0;
    }

    /** switch_buffers: copy the first BufferSize(info) bytes of the back buffer
        into video memory; the back buffer is left as it was. A second call
        without writes in between copies the same bytes again. */
    method SwitchBuffers()
      requires videoBuffer != writeBuffer
      requires BufferSize(info) <= videoBuffer.Length && BufferSize(info) <= writeBuffer.Length
      modifies videoBuffer
      ensures videoBuffer[..BufferSize(info)] == writeBuffer[..BufferSize(info)]
      ensures videoBuffer[BufferSize(info)..] == old(videoBuffer[BufferSize(info)..])
      ensures Valid() ==> videoBuffer[..] == writeBuffer[..]
    {
      var bufferSize := BufferSize(info);
      Memcpy(videoBuffer, 0, writeBuffer[..bufferSize]);
      assert videoBuffer[..bufferSize] == writeBuffer[..bufferSize];
    }

    /** vg_draw_pixel. Always returns 0. */
    method DrawPixel(x: uint16, y: uint16, color: uint32) returns (status: int)
      modifies writeBuffer
      ensures status == 0
      ensures writeBuffer[..] == DrawnPixel(info, old(writeBuffer[..]), x, y, color)
    {
      if x > info.xRes || y > info.yRes || y < 0 || x < 0 {
        return 0;
      }
      if IsTransparent(color) {
        return 0;
      }
      var bpp := (info.bitsPerPixel + 7) / 8;
      var idx := (info.xRes * y + x) * bpp;
      var newColor := FixColor(color, info.bitsPerPixel);
      var bytes := LittleEndian(newColor, bpp);
      assert idx == PixelIndex(info, x, y) && bytes == PixelBytes(info, color);
      // A write past the end of the buffer is undefined in C; the model skips it.
      if idx + bpp <= writeBuffer.Length {
        Memcpy(writeBuffer, idx, bytes);
      }
      return 0;
    }

    /** draw_xpm: blit the image row by row with its top-left corner at (x, y).
        Always returns 0, because vg_draw_pixel never fails. */
    method DrawXpm(img: Xpm, x: uint16, y: uint16) returns (status: int)
      requires Loaded(img)
      modifies writeBuffer
      ensures status == 0
      ensures writeBuffer[..] == DrawnRows(info, old(writeBuffer[..]), img, x, y, img.height)
    {
      ghost var before := writeBuffer[..];
      var width: int, height: int := img.width, img.height;
      for i := 0 to height
        invariant writeBuffer[..] == DrawnRows(info, before, img, x, y, i)
      {
        for j := 0 to width
          invariant writeBuffer[..] == DrawnRow(info, DrawnRows(info, before, img, x, y, i), img, x, y, i, j)
        {
          DrawnRowStep(info, DrawnRows(info, before, img, x, y, i), img, x, y, i, j);
          var color := img.pixels[i * img.width + j];
          var _ := DrawPixel(Offset16(x, j), Offset16(y, i), color);
        }
      }
      return 0;
    }
  }
}
