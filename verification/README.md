# Image serialisers: BMP and PNM

This project models the two image writers `drawBmp` and `drawPnm` of a small C
graphics program. Each turns an 8-bit pixel buffer into the bytes of an image
file. The file is modelled as the sequence of bytes written to it, in order.

- `Bmp` (`bmp.dfy`) models `drawBmp`. It writes an uncompressed, 8-bit
  paletted Windows bitmap with a BITMAPINFOHEADER:
  - A static 1078-byte buffer `arry` holds the 54 header bytes and a
    256-entry colour table. It is filled field by field, with the
    multi-byte fields stored little-endian.
  - The buffer is then written out in full.
  - Then come `yRes` pixel rows, from the last row up to the first. Each
    row is padded with zeros to a multiple of four bytes.

  The buffer is a Dafny `array<byte>` that the methods fill in place. The
  C `static` array keeps its contents between calls, so `DrawBmp` takes the
  buffer as a parameter. Its postcondition shows that neither the buffer
  nor the output depends on what the buffer held before.
- `Pnm` (`pnm.dfy`) models `drawPnm`. It writes a Netpbm `P5` (greyscale)
  or `P6` (colour) file:
  - The header is in ASCII, with the width and height in decimal.
  - Mode 0 copies the first `xRes * yRes` bytes of the buffer.
  - Mode 1 writes the triple `(3v mod 256, 2v mod 256, v)` for each pixel.
  - Any other mode writes nothing.
- `Bytes` (`bytes.dfy`) holds shared pieces: the `byte` type, zero runs,
  ASCII text as bytes, and `Flatten`, which joins a sequence of pieces.

Both writers read pixel `(i, j)` at flat index `i * yRes + j`, as the source
does:
- `drawBmp` reads a row from `&pic[i*y_res]`.
- `drawPnm` declares its parameter as `arr[x_res][y_res]`.

The model keeps this stride. When the image is square, at most one row high
or zero wide, it is the row-major layout: `Bmp.RowsAreRowMajor` for the rows
the BMP writer reads, `Pnm.PixelsAreRowMajor` for the pixels the PNM writer
reads. For every other shape it is not: some buffer has a row 1 that differs
from its row-major row 1 (`Bmp.NonSquareRowsAreNotRowMajor`, and see also
`Bmp.ImageSizedBufferReadable`), and some buffer has a pixel `(1, 0)` that
differs from its row-major pixel (`Pnm.NonSquarePixelsAreNotRowMajor`). The
preconditions `RowsReadable` and `ColorReadable` require the buffer to cover
every index the loops read.

Each imperative part of the C code is a method proved equal to a
specification function:
- `DrawBmp` produces `BmpFile` and leaves `HeaderBytes` in the buffer.
- `WriteColorBody` produces `ColorBody`.
- `DrawPnm` produces the header followed by the body, for each mode.

Lemmas about those functions state the properties of the file formats.

The table below lists the members whose contracts state something. The
specification functions they speak about are definitions without a row of
their own:
- `Bmp.FileSize` is `arrySize` (drawBmp.h:11).
- `Bmp.HeaderBytes` is the filled `arry` (drawBmp.h:10-69).
- `Bmp.BmpFile` is the whole BMP output (drawBmp.h:71-80).
- `Pnm.HeaderBytes` is the `fprintf` header (drawPnm.h:11-16).
- `Pnm.Pixel` is `arr[i][j]`, and `Pnm.Triple` is the three bytes printed for it (drawPnm.h:19-21).
- `Pnm.ColorBody` is the P6 body (drawPnm.h:17-23).

## Model

| member | source | states |
|---|---|---|
| Bmp.EndPad | drawBmp.h:7-9 | the padding is at most 3, so it never over-reads the three-byte `padding` array; it brings the row length to a multiple of 4; it is 0 exactly when the width is a multiple of 4 |
| Bmp.Le32 | drawBmp.h:17-20 | the four bytes of the `%256`/`/256` chain decode, little-endian, to the value stored |
| Bmp.Le32OfValue | drawBmp.h:17-20 | every four bytes decode to a value below 2^32 that re-encodes to the same bytes, so the encoding is a bijection |
| Bmp.Le16 | drawBmp.h:43-47 | the two-byte planes and bits-per-pixel fields decode, little-endian, to the value stored |
| Bmp.RowInBounds | drawBmp.h:77-78 | every row read from `pic[r*yRes]` lies inside the pixel buffer |
| Bmp.FileHeaderFields | drawBmp.h:13-27 | the file header is 14 bytes: `'B','M'`, then the size field decoding to the given size, four zero bytes, and `54,4,0,0` decoding to 1078 |
| Bmp.FileHeaderBytes | drawBmp.h:13-27 | the file header, byte by byte, as the assignments write it |
| Bmp.DibHeaderFields | drawBmp.h:28-61 | the BITMAPINFOHEADER is 40 bytes: its fields decode to 40, width, height, 1 plane and 8 bits; 16 zero bytes follow; the palette count is `0,1,0,0`, decoding to 256; 4 zero bytes close it |
| Bmp.DibHeaderParts | drawBmp.h:28-61 | the BITMAPINFOHEADER is made of three parts: geometry (bytes 14..26), format (26..46) and palette counts (46..54) |
| Bmp.HeaderBytesParts | drawBmp.h:10-69 | the buffer is the file header, then the three BITMAPINFOHEADER parts, then the colour table, in the order the source fills them |
| Bmp.HeaderBytesLength | drawBmp.h:10 | the header buffer is 54 + 256·4 = 1078 bytes |
| Bmp.HeaderFields | drawBmp.h:10-61 | the buffer is 1078 bytes; at its absolute offsets it holds every fixed field with its value; bytes 2..5 decode to `arrySize`, 18..21 to the width and 22..25 to the height |
| Bmp.EntryBytes | drawBmp.h:65-68 | the four bytes of palette entry k are k, 2k mod 256, 3k mod 256 and 0 |
| Bmp.ColorTableEntry | drawBmp.h:64-69 | palette entry k is `(k, 2k mod 256, 3k mod 256, 0)` |
| Bmp.ColorTableInHeader | drawBmp.h:62-69 | palette entry k sits at offset 54 + 4k of the buffer, whatever the image size |
| Bmp.SizeIsStoredLength | drawBmp.h:11 | `arrySize` equals 1078 plus `yRes` rows of `xRes + endPad` bytes |
| Bmp.SizeFieldMatchesLength | drawBmp.h:11-20 | the file is 1078 + `yRes * (xRes + endPad)` bytes long, and its size field decodes to exactly that length |
| Bmp.Row | drawBmp.h:78 | the bytes written for a row are `xRes` long |
| Bmp.Block | drawBmp.h:78-79 | a stored row is a whole stride, a multiple of four bytes |
| Bmp.PixelBlockAt | drawBmp.h:77-80 | in the file, block b starts at 1078 + b·stride; it holds `pic[(yRes-1-b)*yRes ..][..xRes]` followed by `endPad` zeros, so the rows are stored bottom-up |
| Bmp.RowsAreRowMajor | drawBmp.h:78 | when the image is square, one row high or zero wide, row r read with stride `yRes` is row r of the row-major buffer |
| Bmp.NonSquareRowsAreNotRowMajor | drawBmp.h:78 | for every shape at least two rows high, at least one byte wide and not square, there is a buffer where row 1 read with stride `yRes` differs from row-major row 1 |
| Bmp.ImageSizedBufferReadable | drawBmp.h:77-78 | a buffer of exactly `xRes*yRes` bytes covers every read exactly when `yRes <= 1` or `yRes <= xRes` |
| Bmp.ZeroFill | drawBmp.h:22-61 | each of the eight zeroing loops (lines 22, 31, 49, 51, 53, 55, 59 and 61) leaves `arry[..lo]` as it was and zeroes `arry[lo..hi]`; bytes from `hi` on are unchanged |
| Bmp.StoreLe32 | drawBmp.h:17-20 | the four `%256`/`/256` assignments store the 32-bit little-endian field for n at `arry[at..at+4]`; bytes before are kept and bytes after are unchanged |
| Bmp.FillFileHeader | drawBmp.h:13-27 | `arry[0..14]` becomes the file header for `arrySize`; the rest of the buffer is unchanged |
| Bmp.FillDibGeometry | drawBmp.h:29-41 | `arry[14..26]` becomes the header size 40, the width and the height; the bytes before are kept and the bytes after are unchanged |
| Bmp.FillDibFormat | drawBmp.h:42-55 | `arry[26..46]` becomes 1 plane, 8 bits per pixel and 16 zero bytes (compression, image size, resolutions); the bytes before are kept and the bytes after are unchanged |
| Bmp.FillDibPalette | drawBmp.h:56-61 | `arry[46..54]` becomes the palette count 256 and a zero important-colour count; the bytes before are kept and the bytes after are unchanged |
| Bmp.FillColorTable | drawBmp.h:62-69 | `arry[54..1078]` becomes the colour table; the 54 header bytes are kept |
| Bmp.FillHeader | drawBmp.h:10-69 | after the fill, the whole buffer equals the header of the image, independent of its old contents |
| Bmp.WriteHeader | drawBmp.h:72-74 | the bytes written are the buffer, in order |
| Bmp.WriteRows | drawBmp.h:76-80 | the bytes written are the stored rows, last image row first, each padded with `endPad` zeros |
| Bmp.DrawBmp | drawBmp.h:1-82 | the file is the header followed by the bottom-up padded rows, and the static buffer ends up holding the header |
| Pnm.DigitChar | drawPnm.h:11 | a digit is a character '0'..'9' whose code minus '0' is the digit |
| Pnm.Dec | drawPnm.h:11 | `%d` of a non-negative number is canonical: at least one digit, with no leading zero except "0" itself |
| Pnm.DecRoundTrip | drawPnm.h:11 | reading back the decimal text of n gives n |
| Pnm.DecOfValue | drawPnm.h:11 | every canonical digit string is the decimal text of the number it denotes |
| Pnm.DecInjective | drawPnm.h:11 | different numbers have different decimal texts |
| Pnm.DecBytes | drawPnm.h:11 | the bytes of a dimension field are all digit codes |
| Pnm.HeaderPieces | drawPnm.h:11 | the header is `P`, the magic digit, newline, the width digits, space, the height digits, then "\n255\n" |
| Pnm.DecBytesExample | drawPnm.h:11 | 640 prints as "640" and 480 as "480" |
| Pnm.HeaderExample | drawPnm.h:11 | a 640 by 480 greyscale image gets the header "P5\n640 480\n255\n" |
| Pnm.AfterMagic | drawPnm.h:11 | byte 1 of the file is the magic digit; from byte 3 come the width digits, a space, the height digits, a newline, "255\n" and the body |
| Pnm.DigitRunEndsAtDelimiter | drawPnm.h:11 | a reader scanning digits stops exactly at the space or newline after a dimension |
| Pnm.SplitAtDelimiter | drawPnm.h:11 | a digit field followed by a non-digit delimiter splits off in one way only |
| Pnm.HeaderUnambiguous | drawPnm.h:11-16 | a file determines its magic number, width, height and body: two files that are byte-for-byte equal agree on all four |
| Pnm.PixelInBounds | drawPnm.h:19-21 | pixel `(i, j)` read at `i*yRes + j` lies inside the buffer |
| Pnm.PixelsAreRowMajor | drawPnm.h:19-21 | when the image is square or one row high, pixel `(i, j)` read at `i*yRes + j` is the byte at the row-major index `i*xRes + j` |
| Pnm.NonSquarePixelsAreNotRowMajor | drawPnm.h:19-21 | for every shape at least two rows high, at least one pixel wide and not square, there is a buffer where pixel `(1, 0)` differs from the byte at row-major index `xRes` |
| Pnm.ColorRowLength | drawPnm.h:18-22 | a row of the colour body is `3*xRes` bytes |
| Pnm.ColorBodyLength | drawPnm.h:17-23 | the colour body is exactly `3*xRes*yRes` bytes |
| Pnm.ColorTripleAt | drawPnm.h:17-23 | the triple for pixel `(i, j)` starts at body offset `3*(i*xRes + j)` (top-down, left to right) and is `(3v mod 256, 2v mod 256, v)` for `v = arr[i*yRes + j]` |
| Pnm.WriteColorRow | drawPnm.h:18-22 | the inner loop writes the triples of row i, left to right |
| Pnm.WriteColorBody | drawPnm.h:17-23 | the nested loops write the rows top-down, giving the colour body |
| Pnm.DrawPnm | drawPnm.h:1-26 | mode 0 writes the `P5` header and exactly the first `xRes*yRes` bytes, unchanged; mode 1 writes the `P6` header and the colour body; any other mode writes nothing |

## Left out

- The file is not modelled. `fopen`, `fprintf`, `fwrite` and `fclose` become appends to the returned byte sequence.
- The open-failure path is not modelled (drawBmp.h:2-6, drawPnm.h:5-8). It prints a message and calls `exit(1)`, which ends the process. The model always writes the file.
- The stray `printf("hello")` to standard output in mode 0 (drawPnm.h:12) is not modelled, because it does not touch the file.
- Negative dimensions are excluded: `xRes` and `yRes` are `nat`. For negative values, C's truncating `/` and `%` and a `%d` with a minus sign would apply.
- Bmp.DrawBmp requires `SizeFits`: both dimensions, the file size and the last row offset `(yRes - 1) * yRes` are at most 2^31 - 1. The source computes `x_res*y_res`, `arrySize` and `i*y_res` in signed `int`, where an overflow is undefined behaviour. The model does not capture what happens past that bound.
- Pnm.DrawPnm takes `xRes` and `yRes` as unbounded naturals. It does not model overflow of the C `int` product `x_res*y_res` in mode 0.
- The meaning of the colours is not modelled: the palette's blue/green/red order and what a `P6` triple looks like. Only the byte values are.
