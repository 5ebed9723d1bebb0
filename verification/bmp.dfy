/** The BMP encoder: an uncompressed, 8-bit paletted Windows bitmap with a
    BITMAPINFOHEADER, a synthetic 256-entry colour table and the pixel rows
    stored bottom-up, each padded with zeros to a multiple of four bytes. */
module Bmp {
  import opened Bytes

  /** Bytes in the 14-byte file header plus the 40-byte BITMAPINFOHEADER. */
  const HeaderLength := 54
  /** Bytes in the colour table: 256 entries of 4 bytes. */
  const ColorTableLength := 256 * 4
  /** Where the pixel rows start: the length of the static header buffer. */
  const PixelOffset := HeaderLength + ColorTableLength
  /** Largest value of a C `int`; the file size is computed in `int` arithmetic. */
  const IntMax := 0x7fff_ffff

  // ---------------------------------------------------------------------
  // Little-endian fields, built by the source's `%256` and `/256` chains

  /** The four bytes of a 32-bit little-endian field holding `n`. */
  function Le32(n: nat): (b: seq<byte>)
    requires n < 0x1_0000_0000
    ensures |b| == 4 && Le32Value(b) == n
  {
    [n % 256, (n / 256) % 256, ((n / 256) / 256) % 256, (((n / 256) / 256) / 256) % 256]
  }

  /** The number a 32-bit little-endian field holds. */
  function Le32Value(b: seq<byte>): nat
    requires |b| == 4
  {
    b[0] as int + 256 * (b[1] as int) + 65536 * (b[2] as int) + 16777216 * (b[3] as int)
  }

  /** Reading a field and writing it back gives the same four bytes. */
  lemma Le32OfValue(b: seq<byte>)
    requires |b| == 4
    ensures Le32Value(b) < 0x1_0000_0000
    ensures Le32(Le32Value(b)) == b
  {
    var n := Le32Value(b);
    assert n / 256 == b[1] as int + 256 * (b[2] as int) + 65536 * (b[3] as int);
    assert (n / 256) / 256 == b[2] as int + 256 * (b[3] as int);
    assert ((n / 256) / 256) / 256 == b[3] as int;
  }

  /** The two bytes of a 16-bit little-endian field holding `n`. */
  function Le16(n: nat): (b: seq<byte>)
    requires n < 0x1_0000
    ensures |b| == 2 && Le16Value(b) == n
  {
    [n % 256, (n / 256) % 256]
  }

  /** The number a 16-bit little-endian field holds. */
  function Le16Value(b: seq<byte>): nat
    requires |b| == 2
  {
    b[0] as int + 256 * (b[1] as int)
  }

  // ---------------------------------------------------------------------
  // Geometry

  /** Zero bytes after each row so that a stored row is a multiple of four bytes long. */
  function EndPad(xRes: nat): (p: nat)
    ensures p <= 3
    ensures (xRes + p) % 4 == 0
    ensures p == 0 <==> xRes % 4 == 0
  {
    if xRes % 4 == 0 then 0 else 4 - xRes % 4
  }

  /** Bytes one stored row takes: the pixels plus the padding. */
  function Stride(xRes: nat): nat
  {
    xRes + EndPad(xRes)
  }

  /** The file size the encoder computes (`arrySize`). */
  function FileSize(xRes: nat, yRes: nat): nat
  {
    PixelOffset + xRes * yRes + yRes * EndPad(xRes)
  }

  /** Dimensions the encoder handles: both are C `int`s, and neither the size
      nor the offset `i * yRes` of the last row read overflows `int` arithmetic. */
  predicate SizeFits(xRes: nat, yRes: nat)
  {
    && xRes <= IntMax && yRes <= IntMax && FileSize(xRes, yRes) <= IntMax
    && (yRes == 0 || (yRes - 1) * yRes <= IntMax)
  }

  /** Every row the encoder reads lies inside `pic`. Row `r` is read from
      `pic[r * yRes]`, so the last row read starts at `(yRes - 1) * yRes`. */
  predicate RowsReadable(pic: seq<byte>, xRes: nat, yRes: nat)
  {
    yRes == 0 || (yRes - 1) * yRes + xRes <= |pic|
  }

  lemma RowInBounds(pic: seq<byte>, xRes: nat, yRes: nat, r: nat)
    requires RowsReadable(pic, xRes, yRes) && r < yRes
    ensures 0 <= r * yRes && r * yRes + xRes <= |pic|
  {
    MulLe(0, r, yRes);
    MulLe(r, yRes - 1, yRes);
  }

  // ---------------------------------------------------------------------
  // The 1078 header bytes

  /** The 14-byte file header: signature, file size, two reserved fields, pixel offset. */
  function FileHeader(fileSize: nat): seq<byte>
    requires fileSize < 0x1_0000_0000
  {
    Ascii("BM") + Le32(fileSize) + Zeros(4) + Le32(PixelOffset)
  }

  /** The 40-byte BITMAPINFOHEADER: its own size, width, height, one plane,
      8 bits per pixel, no compression, zero image size and resolutions,
      256 palette colours, zero important colours. */
  function DibHeader(xRes: nat, yRes: nat): seq<byte>
    requires xRes <= IntMax && yRes <= IntMax
  {
    Le32(40) + Le32(xRes) + Le32(yRes) + Le16(1) + Le16(8)
    + Zeros(4) + Zeros(4) + Zeros(4) + Zeros(4)
    + Le32(256) + Zeros(4)
  }

  /** Byte `o` of the colour table: entry `o / 4` is `(k, 2k mod 256, 3k mod 256, 0)`. */
  function ColorTableByte(o: nat): byte
    requires o < ColorTableLength
  {
    var k := o / 4;
    match o % 4
    case 0 => k
    case 1 => (2 * k) % 256
    case 2 => (3 * k) % 256
    case 3 => 0
  }

  function ColorTable(): seq<byte>
  {
    seq(ColorTableLength, o requires 0 <= o < ColorTableLength => ColorTableByte(o))
  }

  /** What the static buffer `arry` holds once filled, and what is written first. */
  function HeaderBytes(xRes: nat, yRes: nat): seq<byte>
    requires SizeFits(xRes, yRes)
  {
    FileHeader(FileSize(xRes, yRes)) + DibHeader(xRes, yRes) + ColorTable()
  }

  // ---------------------------------------------------------------------
  // Pixel rows

  /** The `xRes` bytes written for source row `r`: they start at `pic[r * yRes]`. */
  function Row(pic: seq<byte>, xRes: nat, yRes: nat, r: nat): (row: seq<byte>)
    requires RowsReadable(pic, xRes, yRes) && r < yRes
    ensures |row| == xRes
  {
    RowInBounds(pic, xRes, yRes, r);
    pic[r * yRes .. r * yRes + xRes]
  }

  /** A stored row: the pixels of row `r` followed by the padding. */
  function Block(pic: seq<byte>, xRes: nat, yRes: nat, r: nat): (block: seq<byte>)
    requires RowsReadable(pic, xRes, yRes) && r < yRes
    ensures |block| == Stride(xRes)
  {
    Row(pic, xRes, yRes, r) + Zeros(EndPad(xRes))
  }

  /** The stored rows in file order: the loop runs from row `yRes - 1` down to
      row 0, so stored row `b` is source row `yRes - 1 - b`. */
  function StoredRows(pic: seq<byte>, xRes: nat, yRes: nat): (rows: seq<seq<byte>>)
    requires RowsReadable(pic, xRes, yRes)
    ensures |rows| == yRes
    ensures forall b :: 0 <= b < yRes ==> rows[b] == Block(pic, xRes, yRes, yRes - 1 - b)
  {
    seq(yRes, b requires 0 <= b < yRes => Block(pic, xRes, yRes, yRes - 1 - b))
  }

  /** The whole file: the header buffer, then the stored rows. */
  function BmpFile(pic: seq<byte>, xRes: nat, yRes: nat): seq<byte>
    requires SizeFits(xRes, yRes) && RowsReadable(pic, xRes, yRes)
  {
    HeaderBytes(xRes, yRes) + Flatten(StoredRows(pic, xRes, yRes))
  }

  // ---------------------------------------------------------------------
  // Properties of the layout

  /** The header buffer is 1078 bytes long. */
  lemma HeaderBytesLength(xRes: nat, yRes: nat)
    requires SizeFits(xRes, yRes)
    ensures |HeaderBytes(xRes, yRes)| == PixelOffset
  {
  }

  /** The fields of the file header. */
  lemma FileHeaderFields(fileSize: nat)
    requires fileSize < 0x1_0000_0000
    ensures var f := FileHeader(fileSize);
      && |f| == 14
      && f[0] == 'B' as int && f[1] == 'M' as int
      && Le32Value(f[2..6]) == fileSize
      && f[6..10] == [0, 0, 0, 0]
      && f[10..14] == [54, 4, 0, 0] && Le32Value(f[10..14]) == PixelOffset
  {
    var f := FileHeader(fileSize);
    assert f[2..6] == Le32(fileSize);
    assert f[6..10] == Zeros(4);
    assert f[10..14] == Le32(PixelOffset);
  }

  /** The fields of the BITMAPINFOHEADER. */
  lemma DibHeaderFields(xRes: nat, yRes: nat)
    requires xRes <= IntMax && yRes <= IntMax
    ensures var d := DibHeader(xRes, yRes);
      && |d| == 40
      && Le32Value(d[0..4]) == 40
      && Le32Value(d[4..8]) == xRes
      && Le32Value(d[8..12]) == yRes
      && Le16Value(d[12..14]) == 1
      && Le16Value(d[14..16]) == 8
      && d[16..32] == Zeros(16)
      && d[32..36] == [0, 1, 0, 0] && Le32Value(d[32..36]) == 256
      && d[36..40] == [0, 0, 0, 0]
  {
    var d := DibHeader(xRes, yRes);
    assert d[0..4] == Le32(40);
    assert d[4..8] == Le32(xRes);
    assert d[8..12] == Le32(yRes);
    assert d[12..14] == Le16(1);
    assert d[14..16] == Le16(8);
    assert d[16..32] == Zeros(16);
    assert d[32..36] == Le32(256);
    assert d[36..40] == Zeros(4);
  }

  /** Every fixed field of the 54-byte header holds the value the format gives it,
      and the variable fields read back as the file size, the width and the height. */
  lemma HeaderFields(xRes: nat, yRes: nat)
    requires SizeFits(xRes, yRes)
    ensures var h := HeaderBytes(xRes, yRes);
      && |h| == PixelOffset
      && h[0] == 'B' as int && h[1] == 'M' as int
      && Le32Value(h[2..6]) == FileSize(xRes, yRes)
      && h[6..10] == [0, 0, 0, 0]
      && h[10..14] == [54, 4, 0, 0] && Le32Value(h[10..14]) == PixelOffset
      && Le32Value(h[14..18]) == 40
      && Le32Value(h[18..22]) == xRes
      && Le32Value(h[22..26]) == yRes
      && Le16Value(h[26..28]) == 1
      && Le16Value(h[28..30]) == 8
      && h[30..46] == Zeros(16)
      && h[46..50] == [0, 1, 0, 0] && Le32Value(h[46..50]) == 256
      && h[50..54] == [0, 0, 0, 0]
  {
    var f := FileHeader(FileSize(xRes, yRes));
    var d := DibHeader(xRes, yRes);
    FileHeaderFields(FileSize(xRes, yRes));
    DibHeaderFields(xRes, yRes);
    var h := HeaderBytes(xRes, yRes);
    assert h[..14] == f;
    assert h[14..54] == d;
    assert h[2..6] == f[2..6];
    assert h[6..10] == f[6..10];
    assert h[10..14] == f[10..14];
    assert h[14..18] == d[0..4];
    assert h[18..22] == d[4..8];
    assert h[22..26] == d[8..12];
    assert h[26..28] == d[12..14];
    assert h[28..30] == d[14..16];
    assert h[30..46] == d[16..32];
    assert h[46..50] == d[32..36];
    assert h[50..54] == d[36..40];
  }

  /** The four bytes of entry `k`, one by one. */
  lemma EntryBytes(k: nat)
    requires k < 256
    ensures ColorTableByte(4 * k) == k
    ensures ColorTableByte(4 * k + 1) == (2 * k) % 256
    ensures ColorTableByte(4 * k + 2) == (3 * k) % 256
    ensures ColorTableByte(4 * k + 3) == 0
  {
    assert (4 * k) / 4 == k && (4 * k) % 4 == 0;
    assert (4 * k + 1) / 4 == k && (4 * k + 1) % 4 == 1;
    assert (4 * k + 2) / 4 == k && (4 * k + 2) % 4 == 2;
    assert (4 * k + 3) / 4 == k && (4 * k + 3) % 4 == 3;
  }

  /** Colour-table entry `k` is `(k, 2k mod 256, 3k mod 256, 0)`. */
  lemma ColorTableEntry(k: nat)
    requires k < 256
    ensures ColorTable()[4 * k .. 4 * k + 4] == [k, (2 * k) % 256, (3 * k) % 256, 0]
  {
    var t := ColorTable();
    EntryBytes(k);
    assert t[4 * k] == k;
    assert t[4 * k + 1] == (2 * k) % 256;
    assert t[4 * k + 2] == (3 * k) % 256;
    assert t[4 * k + 3] == 0;
  }

  /** In the file, colour-table entry `k` sits at offset `54 + 4k`, whatever the image. */
  lemma ColorTableInHeader(xRes: nat, yRes: nat, k: nat)
    requires SizeFits(xRes, yRes) && k < 256
    ensures HeaderBytes(xRes, yRes)[HeaderLength + 4 * k .. HeaderLength + 4 * k + 4]
         == [k, (2 * k) % 256, (3 * k) % 256, 0]
  {
    FileHeaderFields(FileSize(xRes, yRes));
    DibHeaderFields(xRes, yRes);
    ColorTableEntry(k);
    var h := HeaderBytes(xRes, yRes);
    assert h[HeaderLength..] == ColorTable();
    assert h[HeaderLength + 4 * k .. HeaderLength + 4 * k + 4] == ColorTable()[4 * k .. 4 * k + 4];
  }

  /** The computed size is the header buffer plus `yRes` stored rows. */
  lemma SizeIsStoredLength(xRes: nat, yRes: nat)
    ensures FileSize(xRes, yRes) == PixelOffset + yRes * Stride(xRes)
  {
    var p := EndPad(xRes);
    assert yRes * (xRes + p) == xRes * yRes + yRes * p;
  }

  /** The size field matches the number of bytes the encoder emits. */
  lemma SizeFieldMatchesLength(pic: seq<byte>, xRes: nat, yRes: nat)
    requires SizeFits(xRes, yRes) && RowsReadable(pic, xRes, yRes)
    ensures |BmpFile(pic, xRes, yRes)| == PixelOffset + yRes * Stride(xRes)
    ensures Le32Value(BmpFile(pic, xRes, yRes)[2..6]) == |BmpFile(pic, xRes, yRes)|
  {
    HeaderFields(xRes, yRes);
    FlattenLength(StoredRows(pic, xRes, yRes), Stride(xRes));
    SliceOfLeft(HeaderBytes(xRes, yRes), Flatten(StoredRows(pic, xRes, yRes)), 2, 6);
    SizeIsStoredLength(xRes, yRes);
  }

  /** Block `b` of the pixel data (0-based, in file order) holds source row
      `yRes - 1 - b`, read from `pic[(yRes - 1 - b) * yRes ..]`, followed by the
      padding zeros: the rows are stored bottom-up. */
  lemma PixelBlockAt(pic: seq<byte>, xRes: nat, yRes: nat, b: nat)
    requires SizeFits(xRes, yRes) && RowsReadable(pic, xRes, yRes) && b < yRes
    ensures PixelOffset + b * Stride(xRes) + Stride(xRes) <= |BmpFile(pic, xRes, yRes)|
    ensures BmpFile(pic, xRes, yRes)[PixelOffset + b * Stride(xRes) .. PixelOffset + b * Stride(xRes) + xRes]
         == Row(pic, xRes, yRes, yRes - 1 - b)
    ensures BmpFile(pic, xRes, yRes)[PixelOffset + b * Stride(xRes) + xRes .. PixelOffset + b * Stride(xRes) + Stride(xRes)]
         == Zeros(EndPad(xRes))
  {
    var w := Stride(xRes);
    var rows := StoredRows(pic, xRes, yRes);
    var header := HeaderBytes(xRes, yRes);
    HeaderBytesLength(xRes, yRes);
    FlattenPiece(rows, w, b);
    MulLe(0, b, w);
    var start := PixelOffset + b * w;
    var block := Block(pic, xRes, yRes, yRes - 1 - b);
    assert BmpFile(pic, xRes, yRes)[start .. start + w] == block by {
      SliceOfRightPart(header, Flatten(rows), b * w, b * w + w);
    }
    assert block[..xRes] == Row(pic, xRes, yRes, yRes - 1 - b);
    assert block[xRes..] == Zeros(EndPad(xRes));
  }

  /** Rows are read with stride `yRes`. When the image is square, at most one
      row high or zero wide, row `r` is then row `r` of the row-major layout. */
  lemma RowsAreRowMajor(pic: seq<byte>, xRes: nat, yRes: nat, r: nat)
    requires RowsReadable(pic, xRes, yRes) && r < yRes
    requires xRes == yRes || yRes == 1 || xRes == 0
    ensures 0 <= r * xRes && r * xRes + xRes <= |pic|
    ensures Row(pic, xRes, yRes, r) == pic[r * xRes .. r * xRes + xRes]
  {
    RowInBounds(pic, xRes, yRes, r);
    MulLe(0, r, xRes);
    if xRes == 0 {
      assert r * xRes == 0;
    } else if yRes == 1 {
      assert r == 0;
    }
  }

  /** A buffer of exactly `xRes * yRes` bytes, which is what a row-major image
      of that size occupies, covers every read exactly when the image is no
      taller than it is wide (or at most one row high); for a taller image the
      stride `yRes` runs the last rows past the end of such a buffer. */
  lemma ImageSizedBufferReadable(xRes: nat, yRes: nat)
    ensures RowsReadable(Zeros(xRes * yRes), xRes, yRes) <==> (yRes <= 1 || yRes <= xRes)
  {
    if yRes >= 2 {
      assert (yRes - 1) * yRes + xRes - xRes * yRes == (yRes - xRes) * (yRes - 1);
      if yRes <= xRes {
        MulLe(0, xRes - yRes, yRes - 1);
      } else {
        MulLe(1, yRes - xRes, yRes - 1);
      }
    }
  }

  /** A pixel buffer whose only non-zero byte is at index `yRes`, long enough
      for both the reads of the encoder and the row-major rows 0 and 1. */
  function MarkedBuffer(xRes: nat, yRes: nat): seq<byte>
  {
    seq((yRes * yRes + xRes) + 2 * xRes, k => if k == yRes then 1 else 0)
  }

  /** In every other shape, at least two rows high, at least one byte wide and
      not square, the stride `yRes` is not the row-major stride: for some
      buffer, row 1 as the encoder reads it differs from row 1 of the
      row-major layout. */
  lemma NonSquareRowsAreNotRowMajor(xRes: nat, yRes: nat)
    requires yRes >= 2 && xRes >= 1 && xRes != yRes
    ensures var pic := MarkedBuffer(xRes, yRes);
      && RowsReadable(pic, xRes, yRes)
      && 2 * xRes <= |pic|
      && Row(pic, xRes, yRes, 1) != pic[xRes .. 2 * xRes]
  {
    var pic := MarkedBuffer(xRes, yRes);
    MulLe(yRes - 1, yRes, yRes);
    MulLe(1, yRes, yRes);
    assert Row(pic, xRes, yRes, 1)[0] == pic[yRes] == 1;
    assert pic[xRes .. 2 * xRes][0] == pic[xRes] == 0;
  }

  // ---------------------------------------------------------------------
  // The encoder
  //
  // The buffer is filled from index 0 upwards. Each step below states the new
  // prefix of `arry` as the prefix before the step followed by the bytes the
  // step assigns, and that every byte past the step is left alone.

  /** One `for (char i = lo; i < hi; i++) arry[i] = 0;` loop of the source. */
  method ZeroFill(arry: array<byte>, lo: nat, hi: nat)
    requires lo <= hi <= arry.Length
    modifies arry
    ensures arry[..hi] == old(arry[..lo]) + Zeros(hi - lo)
    ensures forall k :: hi <= k < arry.Length ==> arry[k] == old(arry[k])
  {
    for i := lo to hi
      invariant arry[..i] == old(arry[..lo]) + Zeros(i - lo)
      invariant forall k :: i <= k < arry.Length ==> arry[k] == old(arry[k])
    {
      ghost var before := arry[..i];
      arry[i] := 0;
      assert arry[..i + 1] == before + [0];
      assert Zeros(i + 1 - lo) == Zeros(i - lo) + [0];
    }
  }

  /** The four assignments `arry[at + d] = ((n / 256) … / 256) % 256`, `d` from
      0 to 3, that store a 32-bit little-endian field. */
  method StoreLe32(arry: array<byte>, at: nat, n: nat)
    requires at + 4 <= arry.Length && n < 0x1_0000_0000
    modifies arry
    ensures arry[..at + 4] == old(arry[..at]) + Le32(n)
    ensures forall k :: at + 4 <= k < arry.Length ==> arry[k] == old(arry[k])
  {
    arry[at] := n % 256;
    arry[at + 1] := (n / 256) % 256;
    arry[at + 2] := ((n / 256) / 256) % 256;
    arry[at + 3] := (((n / 256) / 256) / 256) % 256;
    assert arry[..at + 4] == old(arry[..at]) + arry[at..at + 4];
  }

  /** The file header written byte by byte. */
  lemma FileHeaderBytes(fileSize: nat)
    requires fileSize < 0x1_0000_0000
    ensures FileHeader(fileSize) == [66, 77] + Le32(fileSize) + Zeros(4) + [54, 4, 0, 0]
  {
    assert Ascii("BM") == [66, 77];
    assert Le32(PixelOffset) == [54, 4, 0, 0];
  }

  /** drawBmp.h lines 13-27: the file header, stored in `arry[0..14]`. */
  method FillFileHeader(arry: array<byte>, arrySize: nat)
    requires arry.Length == PixelOffset && arrySize < 0x1_0000_0000
    modifies arry
    ensures arry[..14] == FileHeader(arrySize)
    ensures forall k :: 14 <= k < arry.Length ==> arry[k] == old(arry[k])
  {
    arry[0] := 'B' as int;
    arry[1] := 'M' as int;
    assert arry[..2] == [66, 77];
    StoreLe32(arry, 2, arrySize);
    ZeroFill(arry, 6, 10);
    ghost var before := arry[..10];
    arry[10] := 54;
    arry[11] := 4;
    arry[12] := 0;
    arry[13] := 0;
    assert arry[..14] == before + [54, 4, 0, 0];
    FileHeaderBytes(arrySize);
  }

  /** Bytes 14..26: header size, width and height. */
  function DibGeometry(xRes: nat, yRes: nat): seq<byte>
    requires xRes <= IntMax && yRes <= IntMax
  {
    Le32(40) + Le32(xRes) + Le32(yRes)
  }

  /** Bytes 26..46: planes, bits per pixel, compression, image size and resolutions. */
  function DibFormat(): seq<byte>
  {
    Le16(1) + Le16(8) + Zeros(16)
  }

  /** Bytes 46..54: palette colours and important colours. */
  function DibPalette(): seq<byte>
  {
    Le32(256) + Zeros(4)
  }

  /** The BITMAPINFOHEADER as the three parts its fill is split into. */
  lemma DibHeaderParts(xRes: nat, yRes: nat)
    requires xRes <= IntMax && yRes <= IntMax
    ensures DibHeader(xRes, yRes) == DibGeometry(xRes, yRes) + DibFormat() + DibPalette()
  {
    assert Zeros(4) + Zeros(4) + Zeros(4) + Zeros(4) == Zeros(16);
  }

  /** The buffer contents as the five parts its fill is split into. */
  lemma HeaderBytesParts(xRes: nat, yRes: nat)
    requires SizeFits(xRes, yRes)
    ensures HeaderBytes(xRes, yRes)
         == FileHeader(FileSize(xRes, yRes)) + DibGeometry(xRes, yRes) + DibFormat() + DibPalette()
            + ColorTable()
  {
    DibHeaderParts(xRes, yRes);
  }

  /** drawBmp.h lines 29-41: header size, width and height in `arry[14..26]`. */
  method FillDibGeometry(arry: array<byte>, xRes: nat, yRes: nat)
    requires arry.Length == PixelOffset && xRes <= IntMax && yRes <= IntMax
    modifies arry
    ensures arry[..26] == old(arry[..14]) + DibGeometry(xRes, yRes)
    ensures forall k :: 26 <= k < arry.Length ==> arry[k] == old(arry[k])
  {
    arry[14] := 40;
    assert arry[..15] == old(arry[..14]) + [40];
    ZeroFill(arry, 15, 18);
    StoreLe32(arry, 18, xRes);
    StoreLe32(arry, 22, yRes);
    assert [40] + Zeros(3) == Le32(40);
  }

  /** drawBmp.h lines 42-55: planes, bits per pixel, compression, image size
      and resolutions in `arry[26..46]`. */
  method FillDibFormat(arry: array<byte>)
    requires arry.Length == PixelOffset
    modifies arry
    ensures arry[..46] == old(arry[..26]) + DibFormat()
    ensures forall k :: 46 <= k < arry.Length ==> arry[k] == old(arry[k])
  {
    arry[26] := 1;
    arry[27] := 0;
    arry[28] := 8;
    arry[29] := 0;
    assert arry[..30] == old(arry[..26]) + [1, 0, 8, 0];
    ZeroFill(arry, 30, 34);
    ZeroFill(arry, 34, 38);
    ZeroFill(arry, 38, 42);
    ZeroFill(arry, 42, 46);
    assert Zeros(4) + Zeros(4) + Zeros(4) + Zeros(4) == Zeros(12) + Zeros(4);
  }

  /** drawBmp.h lines 56-61: palette colours and important colours in `arry[46..54]`. */
  method FillDibPalette(arry: array<byte>)
    requires arry.Length == PixelOffset
    modifies arry
    ensures arry[..54] == old(arry[..46]) + DibPalette()
    ensures forall k :: 54 <= k < arry.Length ==> arry[k] == old(arry[k])
  {
    arry[46] := 0;
    arry[47] := 1;
    assert arry[..48] == old(arry[..46]) + [0, 1];
    ZeroFill(arry, 48, 50);
    ZeroFill(arry, 50, 54);
    assert [0, 1] + Zeros(2) == Le32(256);
  }

  /** drawBmp.h lines 62-69: the colour table, stored in `arry[54..1078]`. */
  method FillColorTable(arry: array<byte>)
    requires arry.Length == PixelOffset
    modifies arry
    ensures arry[..] == old(arry[..HeaderLength]) + ColorTable()
  {
    var i := 54;
    ghost var k: nat := 0;
    while i < 256 * 4 + 54
      invariant i == 54 + 4 * k && k <= 256
      invariant arry[..i] == old(arry[..HeaderLength]) + ColorTable()[..i - 54]
    {
      assert (i - 54) / 4 == k;
      ghost var before := arry[..i];
      arry[i] := (i - 54) / 4;
      arry[i + 1] := 2 * ((i - 54) / 4) % 256;
      arry[i + 2] := 3 * ((i - 54) / 4) % 256;
      arry[i + 3] := 0;
      assert arry[..i + 4] == before + [k, (2 * k) % 256, (3 * k) % 256, 0];
      ColorTableEntry(k);
      SliceSplit(ColorTable(), 0, i - 54, i - 50);
      i := i + 4;
      k := k + 1;
    }
    assert arry[..] == arry[..i];
    assert ColorTable()[..i - 54] == ColorTable();
  }

  /** drawBmp.h lines 10-69: every byte of the header buffer is assigned,
      so what it held before does not matter. */
  method FillHeader(arry: array<byte>, arrySize: nat, xRes: nat, yRes: nat)
    requires arry.Length == PixelOffset
    requires SizeFits(xRes, yRes) && arrySize == FileSize(xRes, yRes)
    modifies arry
    ensures arry[..] == HeaderBytes(xRes, yRes)
  {
    FillFileHeader(arry, arrySize);
    FillDibGeometry(arry, xRes, yRes);
    FillDibFormat(arry);
    FillDibPalette(arry);
    FillColorTable(arry);
    HeaderBytesParts(xRes, yRes);
  }

  /** drawBmp.h lines 72-74: the header buffer, byte by byte. */
  method WriteHeader(arry: array<byte>) returns (out: seq<byte>)
    ensures out == arry[..]
  {
    out := [];
    for i := 0 to arry.Length
      invariant out == arry[..i]
    {
      out := out + [arry[i]];
    }
  }

  /** drawBmp.h lines 76-80: rows `yRes - 1` down to 0, each followed by
      `endPad` bytes of a three-byte zero array. */
  method WriteRows(pic: seq<byte>, xRes: nat, yRes: nat, endPad: nat) returns (out: seq<byte>)
    requires RowsReadable(pic, xRes, yRes) && endPad == EndPad(xRes)
    ensures out == Flatten(StoredRows(pic, xRes, yRes))
  {
    out := [];
    var padding: seq<byte> := [0, 0, 0];
    ghost var rows := StoredRows(pic, xRes, yRes);
    var i := yRes - 1;
    while i >= 0
      invariant -1 <= i < yRes
      invariant out == Flatten(rows[..yRes - 1 - i])
    {
      RowInBounds(pic, xRes, yRes, i);
      assert rows[..yRes - i] == rows[..yRes - 1 - i] + [Block(pic, xRes, yRes, i)];
      FlattenSnoc(rows[..yRes - 1 - i], Block(pic, xRes, yRes, i));
      out := out + pic[i * yRes .. i * yRes + xRes];
      out := out + padding[..endPad];
      i := i - 1;
    }
    assert rows[..yRes] == rows;
  }

  /** `drawBmp`: fills the static header buffer `arry`, writes it, then writes the
      rows from `yRes - 1` down to 0, each followed by `endPad` zero bytes taken
      from a three-byte zero array. The result is the byte stream written to the
      file; the header buffer is passed in because it is `static` and keeps its
      contents between calls. */
  method DrawBmp(arry: array<byte>, pic: seq<byte>, xRes: nat, yRes: nat) returns (out: seq<byte>)
    requires arry.Length == PixelOffset
    requires SizeFits(xRes, yRes) && RowsReadable(pic, xRes, yRes)
    modifies arry
    ensures arry[..] == HeaderBytes(xRes, yRes)
    ensures out == BmpFile(pic, xRes, yRes)
  {
    var endPad: nat;
    if xRes % 4 == 0 {
      endPad := 0;
    } else {
      endPad := 4 - xRes % 4;
    }
    var arrySize := HeaderLength + ColorTableLength + xRes * yRes + yRes * endPad;
    FillHeader(arry, arrySize, xRes, yRes);

    var header := WriteHeader(arry);
    var pixels := WriteRows(pic, xRes, yRes, endPad);
    out := header + pixels;
  }
}
