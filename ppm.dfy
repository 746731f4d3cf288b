/** The binary Netpbm PPM ("P6") format as the image writers emit it: the
    magic `P6`, a newline, the width and the height in decimal separated by a
    space, a newline, the maximum channel value `255` and a newline, then three
    bytes (red, green, blue) per pixel in row-major order.  `Decode` is an
    independent reader of exactly that layout. */
module Ppm {
  import opened Bytes

  datatype Option<T> = None | Some(value: T)

  /** A decoded image: its size and its `3 * width * height` channel bytes. */
  datatype PpmImage = PpmImage(width: nat, height: nat, pixels: seq<byte>)

  /** `P6` and a newline. */
  const Magic: seq<byte> := [80, 54, 10]
  const Space: byte := 32
  const Newline: byte := 10
  /** `255` and a newline. */
  const MaxVal: seq<byte> := [50, 53, 53, 10]

  predicate IsDigit(b: byte) {
    48 <= b <= 57
  }

  predicate AllDigits(d: seq<byte>) {
    forall i :: 0 <= i < |d| ==> IsDigit(d[i])
  }

  /** `printf("%d")` of a natural number: its decimal digits, most significant
      first, never empty, and with a leading `0` only for zero itself. */
  function Decimal(n: nat): (d: seq<byte>)
    ensures |d| >= 1 && AllDigits(d)
    ensures d[0] == 48 <==> n == 0
  {
    if n < 10 then [(48 + n) as byte] else Decimal(n / 10) + [(48 + n % 10) as byte]
  }

  /** The number a string of decimal digits denotes. */
  function Value(d: seq<byte>): nat
    requires AllDigits(d)
  {
    if |d| == 0 then 0 else 10 * Value(d[..|d| - 1]) + (d[|d| - 1] as int - 48)
  }

  /** Reading back what `Decimal` writes gives the number. */
  lemma {:induction false} ValueDecimal(n: nat)
    ensures Value(Decimal(n)) == n
  {
    if n >= 10 {
      ValueDecimal(n / 10);
      var d := Decimal(n);
      assert d[..|d| - 1] == Decimal(n / 10);
    }
  }

  /** The number of leading decimal digits of `s`. */
  function DigitSpan(s: seq<byte>): (k: nat)
    ensures k <= |s| && AllDigits(s[..k])
    ensures k < |s| ==> !IsDigit(s[k])
  {
    if |s| == 0 || !IsDigit(s[0]) then 0
    else
      var k := 1 + DigitSpan(s[1..]);
      assert s[..k] == [s[0]] + s[1..][..k - 1];
      k
  }

  /** A digit string followed by a non-digit, or by nothing, is read whole. */
  lemma {:induction false} DigitSpanOf(d: seq<byte>, rest: seq<byte>)
    requires AllDigits(d)
    requires |rest| == 0 || !IsDigit(rest[0])
    ensures DigitSpan(d + rest) == |d|
  {
    if |d| > 0 {
      assert (d + rest)[1..] == d[1..] + rest;
      DigitSpanOf(d[1..], rest);
    } else {
      assert d + rest == rest;
    }
  }

  /** Reads a decimal number at the start of `s`: its value and what follows
      it, or nothing when `s` does not start with a digit. */
  function ReadNat(s: seq<byte>): (r: Option<(nat, seq<byte>)>)
    ensures r.Some? ==> |r.value.1| < |s|
  {
    var k := DigitSpan(s);
    if k == 0 then None else Some((Value(s[..k]), s[k..]))
  }

  /** The header `P6\n<width> <height>\n255\n`. */
  function Header(width: nat, height: nat): (h: seq<byte>)
    ensures |h| > |Magic| + |Decimal(width)| + 1 + |MaxVal|
    ensures h[..|Magic|] == Magic && h[|h| - |MaxVal|..] == MaxVal
    ensures h[|Magic|..|Magic| + |Decimal(width)|] == Decimal(width)
    ensures h[|Magic| + |Decimal(width)|] == Space
  {
    Magic + Decimal(width) + [Space] + Decimal(height) + [Newline] + MaxVal
  }

  /** A PPM file: the header, then the channel bytes unchanged. */
  function Encode(width: nat, height: nat, payload: seq<byte>): (file: seq<byte>)
    ensures |file| == |Header(width, height)| + |payload|
    ensures file[..|Header(width, height)|] == Header(width, height)
    ensures file[|Header(width, height)|..] == payload
  {
    Header(width, height) + payload
  }

  /** Reads a PPM file of the layout above.  It fails on a wrong magic, a
      missing number or separator, a maximum other than `255`, and a payload
      whose length is not three bytes per pixel. */
  function Decode(file: seq<byte>): (r: Option<PpmImage>)
    ensures r.Some? ==> |r.value.pixels| == 3 * r.value.width * r.value.height
    ensures r.Some? ==> |file| >= |Magic| && file[..|Magic|] == Magic
  {
    if |file| < |Magic| || file[..|Magic|] != Magic then None
    else match ReadNat(file[|Magic|..])
      case None => None
      case Some((width, rest)) => DecodeHeight(width, rest)
  }

  /** The rest of the header after the width: a space, the height, then the
      pixels. */
  function DecodeHeight(width: nat, s: seq<byte>): (r: Option<PpmImage>)
    ensures r.Some? ==> r.value.width == width
    ensures r.Some? ==> |r.value.pixels| == 3 * r.value.width * r.value.height
  {
    if |s| == 0 || s[0] != Space then None
    else match ReadNat(s[1..])
      case None => None
      case Some((height, rest)) => DecodePixels(width, height, rest)
  }

  /** The end of the header after the height, then exactly three bytes per
      pixel. */
  function DecodePixels(width: nat, height: nat, s: seq<byte>): (r: Option<PpmImage>)
    ensures r.Some? ==> r.value.width == width && r.value.height == height
    ensures r.Some? ==> |r.value.pixels| == 3 * width * height
    ensures r.Some? ==> s == [Newline] + MaxVal + r.value.pixels
  {
    var n := 1 + |MaxVal|;
    if |s| < n || s[..n] != [Newline] + MaxVal || |s[n..]| != 3 * width * height then None
    else
      assert s == s[..n] + s[n..];
      Some(PpmImage(width, height, s[n..]))
  }

  /** A number written by `Decimal` and followed by a non-digit is read back
      whole. */
  lemma ReadDecimal(n: nat, rest: seq<byte>)
    requires |rest| == 0 || !IsDigit(rest[0])
    ensures ReadNat(Decimal(n) + rest) == Some((n, rest))
  {
    var d := Decimal(n);
    DigitSpanOf(d, rest);
    assert (d + rest)[..|d|] == d && (d + rest)[|d|..] == rest;
    ValueDecimal(n);
  }

  /** Round trip: reading a written file gives back its size and its bytes. */
  lemma DecodeEncode(width: nat, height: nat, payload: seq<byte>)
    requires |payload| == 3 * width * height
    ensures Decode(Encode(width, height, payload)) == Some(PpmImage(width, height, payload))
  {
    var file := Encode(width, height, payload);
    var s1 := [Space] + Decimal(height) + [Newline] + MaxVal + payload;
    assert file == Magic + (Decimal(width) + s1);
    assert file[..|Magic|] == Magic && file[|Magic|..] == Decimal(width) + s1;
    ReadDecimal(width, s1);
    DecodeHeightOf(width, height, payload);
  }

  /** The second stage of the round trip: the space, the height and the
      pixels. */
  lemma DecodeHeightOf(width: nat, height: nat, payload: seq<byte>)
    requires |payload| == 3 * width * height
    ensures DecodeHeight(width, [Space] + Decimal(height) + [Newline] + MaxVal + payload) ==
      Some(PpmImage(width, height, payload))
  {
    var s1 := [Space] + Decimal(height) + [Newline] + MaxVal + payload;
    var s2 := [Newline] + MaxVal + payload;
    assert s1 == [Space] + (Decimal(height) + s2);
    assert s1[0] == Space && s1[1..] == Decimal(height) + s2;
    ReadDecimal(height, s2);
    assert s2[..1 + |MaxVal|] == [Newline] + MaxVal && s2[1 + |MaxVal|..] == payload;
  }

  /** Files of different sizes or contents are different files. */
  lemma EncodeInjective(w1: nat, h1: nat, p1: seq<byte>, w2: nat, h2: nat, p2: seq<byte>)
    requires |p1| == 3 * w1 * h1 && |p2| == 3 * w2 * h2
    ensures Encode(w1, h1, p1) == Encode(w2, h2, p2) ==> w1 == w2 && h1 == h2 && p1 == p2
  {
    DecodeEncode(w1, h1, p1);
    DecodeEncode(w2, h2, p2);
  }
}
