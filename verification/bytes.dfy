/** Bytes as written to an image file: the unsigned 8-bit values that
    fprintf("%c", …) and fwrite put into the output stream. */
module Bytes {

  /** An `unsigned char`. */
  type byte = b: int | 0 <= b < 256

  /** `n` zero bytes. */
  function Zeros(n: nat): seq<byte>
  {
    seq(n, _ => 0)
  }

  /** Characters that fit in one byte (every character a format string here contains). */
  predicate IsAscii(s: string)
  {
    forall k :: 0 <= k < |s| ==> s[k] as int < 256
  }

  /** The bytes that fprintf writes for the characters of `s`. */
  function Ascii(s: string): (b: seq<byte>)
    requires IsAscii(s)
    ensures |b| == |s|
    ensures forall k :: 0 <= k < |s| ==> b[k] as char == s[k]
  {
    seq(|s|, k requires 0 <= k < |s| => s[k] as int)
  }

  /** Different text gives different bytes. */
  lemma AsciiInjective(s: string, t: string)
    requires IsAscii(s) && IsAscii(t) && Ascii(s) == Ascii(t)
    ensures s == t
  {
    assert |s| == |t|;
    forall k | 0 <= k < |s|
      ensures s[k] == t[k]
    {
      assert Ascii(s)[k] as char == s[k] && Ascii(t)[k] as char == t[k];
    }
  }

  lemma Assoc<T>(a: seq<T>, b: seq<T>, c: seq<T>)
    ensures (a + b) + c == a + (b + c)
  {
  }

  /** A slice that lies in the left operand of a concatenation. */
  lemma SliceOfLeft<T>(a: seq<T>, c: seq<T>, i: nat, j: nat)
    requires i <= j <= |a|
    ensures (a + c)[i..j] == a[i..j]
  {
  }

  /** A slice of a piece, found inside the sequence that holds the piece. */
  lemma SliceWithin<T>(s: seq<T>, a: nat, t: seq<T>, c: nat, n: nat)
    requires a + |t| <= |s| && s[a .. a + |t|] == t && c + n <= |t|
    ensures s[a + c .. a + c + n] == t[c .. c + n]
  {
    forall j | a + c <= j < a + c + n
      ensures s[j] == t[j - a]
    {
      assert s[a .. a + |t|][j - a] == s[j];
    }
  }

  /** The pieces of `parts` written one after another. */
  function Flatten<T>(parts: seq<seq<T>>): seq<T>
  {
    if parts == [] then [] else Flatten(parts[..|parts| - 1]) + parts[|parts| - 1]
  }

  /** Writing one more piece appends it. */
  lemma FlattenSnoc<T>(parts: seq<seq<T>>, p: seq<T>)
    ensures Flatten(parts + [p]) == Flatten(parts) + p
  {
    assert (parts + [p])[..|parts|] == parts;
  }

  /** A slice that lies in the right operand of a concatenation. */
  lemma SliceOfRightPart<T>(a: seq<T>, c: seq<T>, i: nat, j: nat)
    requires i <= j <= |c|
    ensures (a + c)[|a| + i .. |a| + j] == c[i..j]
  {
  }

  /** Pieces of `w` elements each take `w` elements per piece. */
  lemma {:induction false} FlattenLength<T>(parts: seq<seq<T>>, w: nat)
    requires forall i :: 0 <= i < |parts| ==> |parts[i]| == w
    ensures |Flatten(parts)| == |parts| * w
  {
    if parts != [] {
      var n := |parts| - 1;
      FlattenLength(parts[..n], w);
      assert |parts| * w == n * w + w;
    }
  }

  /** Writing two runs of pieces writes the first run, then the second. */
  lemma {:induction false} FlattenAppend<T>(a: seq<seq<T>>, c: seq<seq<T>>)
    ensures Flatten(a + c) == Flatten(a) + Flatten(c)
  {
    if c == [] {
      assert a + c == a;
    } else {
      var n := |c| - 1;
      var ac := a + c;
      assert ac[..|ac| - 1] == a + c[..n] && ac[|ac| - 1] == c[n];
      assert Flatten(ac) == Flatten(a + c[..n]) + c[n];
      FlattenAppend(a, c[..n]);
      assert Flatten(c) == Flatten(c[..n]) + c[n];
      Assoc(Flatten(a), Flatten(c[..n]), c[n]);
    }
  }

  /** Piece `b` of `w`-element pieces sits at offset `b * w`. */
  lemma FlattenPiece<T>(parts: seq<seq<T>>, w: nat, b: nat)
    requires forall i :: 0 <= i < |parts| ==> |parts[i]| == w
    requires b < |parts|
    ensures |Flatten(parts)| == |parts| * w
    ensures b * w + w <= |parts| * w
    ensures Flatten(parts)[b * w .. b * w + w] == parts[b]
  {
    FlattenLength(parts, w);
    FlattenAround(parts, b);
    var front := Flatten(parts[..b]);
    FlattenLength(parts[..b], w);
    SliceOfRightPart(front, parts[b] + Flatten(parts[b + 1..]), 0, w);
    SliceOfLeft(parts[b], Flatten(parts[b + 1..]), 0, w);
    MulLe(b + 1, |parts|, w);
    MulSucc(b, w);
  }

  /** The pieces before piece `b`, piece `b`, then the pieces after it. */
  lemma FlattenAround<T>(parts: seq<seq<T>>, b: nat)
    requires b < |parts|
    ensures Flatten(parts) == Flatten(parts[..b]) + (parts[b] + Flatten(parts[b + 1..]))
  {
    SplitAround(parts, b);
    FlattenAppend(parts[..b], [parts[b]] + parts[b + 1..]);
    FlattenAppend([parts[b]], parts[b + 1..]);
    FlattenSingle(parts[b]);
  }

  lemma FlattenSingle<T>(p: seq<T>)
    ensures Flatten([p]) == p
  {
    assert [p][..0] == [];
  }

  lemma SplitAround<T>(s: seq<T>, b: nat)
    requires b < |s|
    ensures s == s[..b] + ([s[b]] + s[b + 1..])
  {
  }

  /** A slice split at an inner index. */
  lemma SliceSplit<T>(s: seq<T>, i: nat, j: nat, k: nat)
    requires i <= j <= k <= |s|
    ensures s[i..k] == s[i..j] + s[j..k]
  {
  }

  lemma MulLe(a: nat, b: nat, w: nat)
    requires a <= b
    ensures a * w <= b * w
  {
  }

  lemma MulSucc(a: nat, w: nat)
    ensures (a + 1) * w == a * w + w
  {
  }
}
