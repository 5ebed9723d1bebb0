/** The PNM encoder: Netpbm binary greyscale (`P5`) or binary colour (`P6`)
    with an ASCII header giving the width, the height and the maximum value 255. */
module Pnm {
  import opened Bytes

  // ---------------------------------------------------------------------
  // Decimal text, as `%d` prints a non-negative `int`

  predicate IsDigits(s: string)
  {
    forall k :: 0 <= k < |s| ==> '0' <= s[k] <= '9'
  }

  /** Text `%d` can print: digits, at least one, and no leading zero except in "0". */
  predicate IsCanonical(s: string)
  {
    |s| >= 1 && IsDigits(s) && (s[0] == '0' ==> s == "0")
  }

  function DigitChar(d: nat): (c: char)
    requires d < 10
    ensures '0' <= c <= '9' && c as int - '0' as int == d
  {
    ('0' as int + d) as char
  }

  /** The decimal text of `n`. */
  function Dec(n: nat): (s: string)
    ensures IsCanonical(s)
    ensures s == "0" <==> n == 0
  {
    if n < 10 then [DigitChar(n)] else Dec(n / 10) + [DigitChar(n % 10)]
  }

  /** The number a string of digits denotes. */
  function DecValue(s: string): nat
    requires IsDigits(s)
  {
    if s == [] then 0 else 10 * DecValue(s[..|s| - 1]) + (s[|s| - 1] as int - '0' as int)
  }

  /** Reading the decimal text of `n` gives `n` back. */
  lemma {:induction false} DecRoundTrip(n: nat)
    ensures DecValue(Dec(n)) == n
  {
    if n >= 10 {
      DecRoundTrip(n / 10);
      var s := Dec(n);
      assert s[..|s| - 1] == Dec(n / 10);
    }
  }

  /** Every canonical digit string is the decimal text of the number it denotes. */
  lemma {:induction false} DecOfValue(s: string)
    requires IsCanonical(s)
    ensures Dec(DecValue(s)) == s
  {
    var n := |s| - 1;
    var d := s[n] as int - '0' as int;
    if n == 0 {
      assert DecValue(s) == d;
      assert [DigitChar(d)] == s;
    } else {
      var front := s[..n];
      assert IsCanonical(front);
      DecOfValue(front);
      assert front != "0";
      assert DecValue(front) != 0;
      assert DecValue(s) == 10 * DecValue(front) + d;
      assert DecValue(s) / 10 == DecValue(front) && DecValue(s) % 10 == d;
      assert s == front + [DigitChar(d)];
    }
  }

  /** Two numbers with the same decimal text are equal. */
  lemma DecInjective(a: nat, b: nat)
    requires Dec(a) == Dec(b)
    ensures a == b
  {
    DecRoundTrip(a);
    DecRoundTrip(b);
  }

  // ---------------------------------------------------------------------
  // The header

  /** Byte codes of the digits '0'..'9'. */
  predicate IsDigitCodes(b: seq<byte>)
  {
    forall k :: 0 <= k < |b| ==> 48 <= b[k] <= 57
  }

  /** The bytes of the decimal text of `n`. */
  function DecBytes(n: nat): (b: seq<byte>)
    ensures IsDigitCodes(b)
  {
    Ascii(Dec(n))
  }

  /** The header `fprintf(f, "P5\n%d %d\n255\n", …)` (or `P6`) writes:
      magic number, width, height and maximum value, the numbers in decimal. */
  function HeaderBytes(magic: char, xRes: nat, yRes: nat): seq<byte>
    requires magic == '5' || magic == '6'
  {
    Ascii(['P', magic, '\n']) + DecBytes(xRes) + Ascii(" ") + DecBytes(yRes) + Ascii("\n255\n")
  }

  /** The decimal text of 640 and of 480. */
  lemma DecBytesExample()
    ensures DecBytes(640) == [54, 52, 48] && DecBytes(480) == [52, 56, 48]
  {
    assert Dec(64) == Dec(6) + ['4'];
    assert Dec(640) == Dec(64) + ['0'];
    assert Dec(48) == Dec(4) + ['8'];
    assert Dec(480) == Dec(48) + ['0'];
  }

  /** A 640 by 480 greyscale image gets the header "P5\n640 480\n255\n". */
  lemma HeaderExample()
    ensures HeaderBytes('5', 640, 480)
         == [80, 53, 10, 54, 52, 48, 32, 52, 56, 48, 10, 50, 53, 53, 10]
  {
    HeaderPieces('5', 640, 480);
    DecBytesExample();
  }

  /** The header bytes with the fixed text spelled out as byte codes. */
  lemma HeaderPieces(magic: char, xRes: nat, yRes: nat)
    requires magic == '5' || magic == '6'
    ensures HeaderBytes(magic, xRes, yRes)
         == [80, magic as int, 10] + DecBytes(xRes) + [32] + DecBytes(yRes) + [10, 50, 53, 53, 10]
  {
    assert Ascii(['P', magic, '\n']) == [80, magic as int, 10];
    assert Ascii(" ") == [32];
    assert Ascii("\n255\n") == [10, 50, 53, 53, 10];
  }

  /** What follows the magic number in a file: width digits, a space, height
      digits, a newline, then the rest. */
  lemma AfterMagic(magic: char, xRes: nat, yRes: nat, body: seq<byte>)
    requires magic == '5' || magic == '6'
    ensures |HeaderBytes(magic, xRes, yRes) + body| >= 3
    ensures (HeaderBytes(magic, xRes, yRes) + body)[1] == magic as int
    ensures (HeaderBytes(magic, xRes, yRes) + body)[3..]
         == DecBytes(xRes) + [32] + (DecBytes(yRes) + [10] + ([50, 53, 53, 10] + body))
  {
    HeaderPieces(magic, xRes, yRes);
    var p: seq<byte>, x, y, t := [80, magic as int, 10], DecBytes(xRes), DecBytes(yRes), [50, 53, 53, 10] + body;
    var tail: seq<byte> := [10, 50, 53, 53, 10];
    Assoc(p + x + [32] + y, tail, body);
    assert tail + body == [10] + t;
    Assoc(p + x + [32], y, [10] + t);
    Assoc(y, [10], t);
    var r := y + [10] + t;
    Assoc(p + x, [32], r);
    Assoc(p, x, [32] + r);
    Assoc(x, [32], r);
    assert HeaderBytes(magic, xRes, yRes) + body == p + (x + [32] + r);
  }

  /** The number of leading digit codes of `w`: where a decimal field ends. */
  function DigitRun(w: seq<byte>): (n: nat)
    ensures n <= |w|
  {
    if w != [] && 48 <= w[0] <= 57 then 1 + DigitRun(w[1..]) else 0
  }

  /** A run of digit codes ends at the delimiter that follows it. */
  lemma {:induction false} DigitRunEndsAtDelimiter(u: seq<byte>, d: byte, r: seq<byte>)
    requires IsDigitCodes(u) && !(48 <= d <= 57)
    ensures DigitRun(u + [d] + r) == |u|
  {
    if u == [] {
      assert (u + [d] + r)[0] == d;
    } else {
      assert (u + [d] + r)[1..] == u[1..] + [d] + r;
      DigitRunEndsAtDelimiter(u[1..], d, r);
    }
  }

  /** A run of digit codes followed by a non-digit delimiter can be split off
      in one way only. */
  lemma SplitAtDelimiter(u: seq<byte>, v: seq<byte>, d: byte, r1: seq<byte>, r2: seq<byte>)
    requires IsDigitCodes(u) && IsDigitCodes(v) && !(48 <= d <= 57)
    requires u + [d] + r1 == v + [d] + r2
    ensures u == v && r1 == r2
  {
    var w := u + [d] + r1;
    DigitRunEndsAtDelimiter(u, d, r1);
    DigitRunEndsAtDelimiter(v, d, r2);
    assert u == w[..|u|] && v == (v + [d] + r2)[..|v|];
    assert r1 == w[|u| + 1..] && r2 == (v + [d] + r2)[|v| + 1..];
  }

  /** The header fields are separated unambiguously: a file determines its
      magic number, its width, its height and the body that follows the header. */
  lemma HeaderUnambiguous(m1: char, x1: nat, y1: nat, body1: seq<byte>,
                          m2: char, x2: nat, y2: nat, body2: seq<byte>)
    requires m1 == '5' || m1 == '6'
    requires m2 == '5' || m2 == '6'
    requires HeaderBytes(m1, x1, y1) + body1 == HeaderBytes(m2, x2, y2) + body2
    ensures m1 == m2 && x1 == x2 && y1 == y2 && body1 == body2
  {
    AfterMagic(m1, x1, y1, body1);
    AfterMagic(m2, x2, y2, body2);
    var t1, t2 := [50, 53, 53, 10] + body1, [50, 53, 53, 10] + body2;
    SplitAtDelimiter(DecBytes(x1), DecBytes(x2), 32, DecBytes(y1) + [10] + t1, DecBytes(y2) + [10] + t2);
    SplitAtDelimiter(DecBytes(y1), DecBytes(y2), 10, t1, t2);
    assert body1 == t1[4..] && body2 == t2[4..];
    AsciiInjective(Dec(x1), Dec(x2));
    AsciiInjective(Dec(y1), Dec(y2));
    DecInjective(x1, x2);
    DecInjective(y1, y2);
  }

  // ---------------------------------------------------------------------
  // The body

  /** Every pixel the colour loop reads lies in `arr`: pixel `(i, j)` is
      `arr[i][j]` of an array declared `[xRes][yRes]`, the flat index `i * yRes + j`,
      for `i < yRes` and `j < xRes`. */
  predicate ColorReadable(arr: seq<byte>, xRes: nat, yRes: nat)
  {
    xRes == 0 || yRes == 0 || (yRes - 1) * yRes + xRes <= |arr|
  }

  /** Every byte the chosen mode reads lies in `arr`. */
  predicate Readable(arr: seq<byte>, xRes: nat, yRes: nat, mode: byte)
  {
    && (mode == 0 ==> xRes * yRes <= |arr|)
    && (mode == 1 ==> ColorReadable(arr, xRes, yRes))
  }

  lemma PixelInBounds(arr: seq<byte>, xRes: nat, yRes: nat, i: nat, j: nat)
    requires ColorReadable(arr, xRes, yRes) && i < yRes && j < xRes
    ensures 0 <= i * yRes && i * yRes + j < |arr|
  {
    MulLe(0, i, yRes);
    MulLe(i, yRes - 1, yRes);
  }

  /** The value of pixel `(i, j)`. */
  function Pixel(arr: seq<byte>, xRes: nat, yRes: nat, i: nat, j: nat): byte
    requires ColorReadable(arr, xRes, yRes) && i < yRes && j < xRes
  {
    PixelInBounds(arr, xRes, yRes, i, j);
    arr[i * yRes + j]
  }

  /** When the image is square or at most one row high, pixel `(i, j)` is the
      byte at the row-major index `i * xRes + j`. */
  lemma PixelsAreRowMajor(arr: seq<byte>, xRes: nat, yRes: nat, i: nat, j: nat)
    requires ColorReadable(arr, xRes, yRes) && i < yRes && j < xRes
    requires xRes == yRes || yRes == 1
    ensures 0 <= i * xRes + j < |arr|
    ensures Pixel(arr, xRes, yRes, i, j) == arr[i * xRes + j]
  {
    PixelInBounds(arr, xRes, yRes, i, j);
    if yRes == 1 {
      assert i == 0;
    }
  }

  /** A pixel buffer whose only non-zero byte is at index `yRes`, long enough
      for every read of the encoder and for the row-major index `xRes`. */
  function MarkedPixels(xRes: nat, yRes: nat): seq<byte>
  {
    seq(yRes * yRes + xRes + 1, k => if k == yRes then 1 else 0)
  }

  /** In every other shape, at least two rows high, at least one pixel wide
      and not square, the stride `yRes` is not the row-major stride: for some
      buffer, pixel `(1, 0)` differs from the byte at row-major index `xRes`. */
  lemma NonSquarePixelsAreNotRowMajor(xRes: nat, yRes: nat)
    requires yRes >= 2 && xRes >= 1 && xRes != yRes
    ensures var arr := MarkedPixels(xRes, yRes);
      && ColorReadable(arr, xRes, yRes)
      && xRes < |arr|
      && Pixel(arr, xRes, yRes, 1, 0) != arr[xRes]
  {
    var arr := MarkedPixels(xRes, yRes);
    MulLe(yRes - 1, yRes, yRes);
    assert Pixel(arr, xRes, yRes, 1, 0) == arr[yRes] == 1;
    assert arr[xRes] == 0;
  }

  /** The three bytes written for a pixel of value `v`. */
  function Triple(v: byte): seq<byte>
  {
    [(v as int * 3) % 256, (v as int * 2) % 256, v]
  }

  /** The triples of row `i`, left to right. */
  function ColorPixels(arr: seq<byte>, xRes: nat, yRes: nat, i: nat): (ts: seq<seq<byte>>)
    requires ColorReadable(arr, xRes, yRes) && i < yRes
  {
    seq(xRes, j requires 0 <= j < xRes => Triple(Pixel(arr, xRes, yRes, i, j)))
  }

  /** The bytes written for row `i`. */
  function ColorRow(arr: seq<byte>, xRes: nat, yRes: nat, i: nat): seq<byte>
    requires ColorReadable(arr, xRes, yRes) && i < yRes
  {
    Flatten(ColorPixels(arr, xRes, yRes, i))
  }

  /** The rows of the colour body, top to bottom. */
  function ColorRows(arr: seq<byte>, xRes: nat, yRes: nat): (rows: seq<seq<byte>>)
    requires ColorReadable(arr, xRes, yRes)
  {
    seq(yRes, i requires 0 <= i < yRes => ColorRow(arr, xRes, yRes, i))
  }

  /** The body of a `P6` file. */
  function ColorBody(arr: seq<byte>, xRes: nat, yRes: nat): seq<byte>
    requires ColorReadable(arr, xRes, yRes)
  {
    Flatten(ColorRows(arr, xRes, yRes))
  }

  lemma ColorRowLength(arr: seq<byte>, xRes: nat, yRes: nat, i: nat)
    requires ColorReadable(arr, xRes, yRes) && i < yRes
    ensures |ColorRow(arr, xRes, yRes, i)| == 3 * xRes
  {
    FlattenLength(ColorPixels(arr, xRes, yRes, i), 3);
  }

  /** The colour body holds three bytes per pixel. */
  lemma ColorBodyLength(arr: seq<byte>, xRes: nat, yRes: nat)
    requires ColorReadable(arr, xRes, yRes)
    ensures |ColorBody(arr, xRes, yRes)| == 3 * xRes * yRes
  {
    var rows := ColorRows(arr, xRes, yRes);
    forall i | 0 <= i < yRes
      ensures |rows[i]| == 3 * xRes
    {
      ColorRowLength(arr, xRes, yRes, i);
    }
    FlattenLength(rows, 3 * xRes);
  }

  /** The triple for pixel `(i, j)` starts at body offset `3 * (i * xRes + j)`:
      rows top-down, pixels left to right, with no row inversion; its bytes
      are `v * 3` and `v * 2` modulo 256, then `v`, for `v = arr[i * yRes + j]`. */
  lemma ColorTripleAt(arr: seq<byte>, xRes: nat, yRes: nat, i: nat, j: nat)
    requires ColorReadable(arr, xRes, yRes) && i < yRes && j < xRes
    ensures 0 <= i * yRes + j < |arr|
    ensures 0 <= 3 * (i * xRes + j) && 3 * (i * xRes + j) + 3 <= |ColorBody(arr, xRes, yRes)|
    ensures var v := arr[i * yRes + j];
      ColorBody(arr, xRes, yRes)[3 * (i * xRes + j) .. 3 * (i * xRes + j) + 3]
      == [(v as int * 3) % 256, (v as int * 2) % 256, v]
  {
    PixelInBounds(arr, xRes, yRes, i, j);
    var w := 3 * xRes;
    var rows := ColorRows(arr, xRes, yRes);
    forall r | 0 <= r < yRes
      ensures |rows[r]| == w
    {
      ColorRowLength(arr, xRes, yRes, r);
    }
    FlattenPiece(rows, w, i);
    MulLe(0, i, w);
    var pixels := ColorPixels(arr, xRes, yRes, i);
    FlattenPiece(pixels, 3, j);
    MulLe(0, j, 3);
    assert 3 * (i * xRes + j) == i * w + 3 * j by {
      MulAssoc3(i, xRes);
    }
    SliceWithin(ColorBody(arr, xRes, yRes), i * w, rows[i], 3 * j, 3);
  }

  lemma MulAssoc3(i: nat, x: nat)
    ensures i * (3 * x) == 3 * (i * x)
  {
  }

  // ---------------------------------------------------------------------
  // The encoder

  /** drawPnm.h lines 18-22: the triples of row `i`. */
  method WriteColorRow(arr: seq<byte>, xRes: nat, yRes: nat, i: nat) returns (out: seq<byte>)
    requires ColorReadable(arr, xRes, yRes) && i < yRes
    ensures out == ColorRow(arr, xRes, yRes, i)
  {
    out := [];
    ghost var pixels := ColorPixels(arr, xRes, yRes, i);
    var j := 0;
    while j < xRes
      invariant 0 <= j <= xRes
      invariant out == Flatten(pixels[..j])
    {
      PixelInBounds(arr, xRes, yRes, i, j);
      var v := arr[i * yRes + j];
      assert pixels[..j + 1] == pixels[..j] + [Triple(v)];
      FlattenSnoc(pixels[..j], Triple(v));
      out := out + [(v as int * 3) % 256, (v as int * 2) % 256, v];
      j := j + 1;
    }
    assert pixels[..xRes] == pixels;
  }

  /** drawPnm.h lines 17-23: the rows from 0 to `yRes - 1`. */
  method WriteColorBody(arr: seq<byte>, xRes: nat, yRes: nat) returns (out: seq<byte>)
    requires ColorReadable(arr, xRes, yRes)
    ensures out == ColorBody(arr, xRes, yRes)
  {
    out := [];
    ghost var rows := ColorRows(arr, xRes, yRes);
    var i := 0;
    while i < yRes
      invariant 0 <= i <= yRes
      invariant out == Flatten(rows[..i])
    {
      var row := WriteColorRow(arr, xRes, yRes, i);
      assert rows[..i + 1] == rows[..i] + [row];
      FlattenSnoc(rows[..i], row);
      out := out + row;
      i := i + 1;
    }
    assert rows[..yRes] == rows;
  }

  /** `drawPnm`: the bytes written to the file. Mode 0 writes the `P5` header
      and the first `xRes * yRes` bytes of `arr` unchanged; mode 1 writes the
      `P6` header and a triple per pixel, row `i` from 0 to `yRes - 1`, column
      `j` from 0 to `xRes - 1`; any other mode matches no case of the switch
      and writes nothing. */
  method DrawPnm(xRes: nat, yRes: nat, arr: seq<byte>, mode: byte) returns (out: seq<byte>)
    requires Readable(arr, xRes, yRes, mode)
    ensures mode == 0 ==> out == HeaderBytes('5', xRes, yRes) + arr[..xRes * yRes]
    ensures mode == 1 ==> out == HeaderBytes('6', xRes, yRes) + ColorBody(arr, xRes, yRes)
    ensures mode != 0 && mode != 1 ==> out == []
  {
    out := [];
    match mode
    case 0 =>
      out := out + HeaderBytes('5', xRes, yRes);
      out := out + arr[..xRes * yRes];
    case 1 =>
      out := out + HeaderBytes('6', xRes, yRes);
      var body := WriteColorBody(arr, xRes, yRes);
      out := out + body;
    case _ =>
  }
}
