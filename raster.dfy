/** The pixel loop of `draw_cb` in `voxel.c`: every pixel of an ARGB32 surface
    is painted opaque white when the ray of its pixel hits the unit cube and
    opaque black otherwise.  The surface is a buffer of 32-bit words whose rows
    start `stride` bytes apart. */
module Raster {
  import opened Ranges
  import opened UnitCube
  import opened Arith

  /** The eye, `axis.p`; every ray starts here. */
  const Eye: V3 := V3(0.0, 0.0, -50.0)

  /** The pixel pitch `px` on the plane `z = 0`. */
  const Px: real := 30.0 / 1980.0

  const Black: bv32 := 0xFF00_0000
  const White: bv32 := 0xFFFF_FFFF

  /** The ray of pixel `(x, y)`: from the eye through the point of the plane
      `z = 0` that the pixel covers, with the image centred on the z axis and
      `y` growing downwards. */
  function PixelRay(width: nat, height: nat, x: int, y: int): (ray: Ray)
    ensures ray.p == Eye && ray.q.z == 0.0
    ensures ray.q.x == (2 * x - width + 1) as real / 132.0
    ensures ray.q.y == (height - 1 - 2 * y) as real / 132.0
  {
    Ray(Eye, V3(Px * (x as real - (width as real - 1.0) / 2.0),
                Px * ((height as real - 1.0) / 2.0 - y as real),
                0.0))
  }

  /** The word `255 << 24 | r << 16 | g << 8 | b`: alpha in the top byte, then
      red, green and blue, each recoverable from its byte. */
  function Argb(r: bv32, g: bv32, b: bv32): (w: bv32)
    requires r < 256 && g < 256 && b < 256
    ensures w >> 24 == 0xFF
    ensures (w >> 16) & 0xFF == r && (w >> 8) & 0xFF == g && w & 0xFF == b
  {
    (0xFF << 24) | (r << 16) | (g << 8) | b
  }

  /** The pixel `(x, y)` lies within 33 pixels of the image centre in both
      directions; `PixelHitsIff` proves these are the pixels whose rays hit
      the cube. */
  predicate InSquare(width: nat, height: nat, x: int, y: int) {
    Abs(2 * x - width + 1) <= 66 && Abs(2 * y - height + 1) <= 66
  }

  /** What the loop writes for pixel `(x, y)`. */
  function Colour(width: nat, height: nat, x: int, y: int): bv32 {
    if InSquare(width, height, x, y) then White else Black
  }

  /** Word `k` of a buffer with rows `s` words apart is pixel
      `(k % s, k / s)` of a `width` by `height` image. */
  predicate IsPixel(s: nat, width: nat, height: int, k: int) {
    s > 0 && 0 <= k && k / s < height && k % s < width
  }

  /** Word `k` is one of the first `x` pixels of row `y`. */
  predicate InRow(s: nat, y: int, x: int, k: int) {
    s > 0 && 0 <= k && k / s == y && k % s < x
  }

  /** `draw_cb`: when the surface is ARGB32, each pixel `(x, y)` of the area is
      painted with `Colour`, the colour of its ray (`ColourIsRayColour`); its word is at byte offset
      `y * stride + 4 * x`.  Every other word, and the whole buffer for another
      format, is left as it was.  The ghost `writes` lists the word offsets in
      the order they are stored: strictly increasing, so no word is written
      twice, and `width * height` of them, all pixels, so every pixel is
      written exactly once. */
  method DrawCb(buf: array<bv32>, width: nat, height: nat, stride: nat, argb32: bool)
    returns (ghost writes: seq<int>)
    requires argb32 ==> stride % 4 == 0 && 4 * width <= stride
    requires argb32 ==> height * (stride / 4) <= buf.Length
    modifies buf
    ensures argb32 ==> forall x: nat, y: nat :: x < width && y < height ==>
      buf[WordIndex(stride, width, height, x, y)] == Colour(width, height, x, y)
    ensures forall k :: 0 <= k < buf.Length && !(argb32 && IsPixel(stride / 4, width, height, k)) ==>
      buf[k] == old(buf[k])
    ensures |writes| == if argb32 then width * height else 0
    ensures forall i, j :: 0 <= i < j < |writes| ==> writes[i] < writes[j]
    ensures forall i :: 0 <= i < |writes| ==> IsPixel(stride / 4, width, height, writes[i])
  {
    var s := stride / 4;
    writes := [];
    if argb32 {
      var y := 0;
      var rowStart := 0;
      while y < height
        invariant 0 <= y <= height
        invariant rowStart == y * s
        invariant |writes| == y * width
        invariant forall i, j :: 0 <= i < j < |writes| ==> writes[i] < writes[j]
        invariant forall i :: 0 <= i < |writes| ==> IsPixel(s, width, y, writes[i])
        invariant forall x: nat, y': nat :: x < width && y' < y ==>
          buf[Slot(s, width, height, x, y')] == Colour(width, height, x, y')
        invariant forall k :: 0 <= k < buf.Length && !IsPixel(s, width, y, k) ==>
          buf[k] == old(buf[k])
      {
        var row := DrawRow(buf, width, height, s, y, rowStart);
        AppendRow(s, width, y, writes, row);
        NextRowPixels(s, width, y);
        writes := writes + row;
        rowStart := rowStart + s;
        y := y + 1;
      }
    }
    assert argb32 ==> width * height == height * width;
  }

  /** One pass of the inner loop of `draw_cb`: row `y` is painted from left to
      right, and no other word changes.  `row` lists the word offsets written,
      in order. */
  method DrawRow(buf: array<bv32>, width: nat, height: nat, s: nat, y: nat, rowStart: nat)
    returns (ghost row: seq<int>)
    requires width <= s && y < height && height * s <= buf.Length
    requires rowStart == y * s
    modifies buf
    ensures forall x: nat :: x < width ==>
      buf[Slot(s, width, height, x, y)] == Colour(width, height, x, y)
    ensures forall k :: 0 <= k < buf.Length && !InRow(s, y, width, k) ==> buf[k] == old(buf[k])
    ensures |row| == width
    ensures forall i :: 0 <= i < width ==> row[i] == y * s + i
  {
    row := [];
    var x := 0;
    while x < width
      invariant 0 <= x <= width
      invariant row == seq(x, i => rowStart + i)
      invariant forall x': nat :: x' < x ==>
        buf[Slot(s, width, height, x', y)] == Colour(width, height, x', y)
      invariant forall k :: 0 <= k < buf.Length && !InRow(s, y, x, k) ==> buf[k] == old(buf[k])
    {
      var word := PixelWord(width, height, x, y);
      ghost var k := Slot(s, width, height, x, y);
      buf[rowStart + x] := word;
      forall k' | 0 <= k' < buf.Length
        ensures InRow(s, y, x + 1, k') <==> InRow(s, y, x, k') || k' == k
      {
        OffsetDivMod(s, x, y, k');
      }
      row := row + [rowStart + x];
      x := x + 1;
    }
  }

  /** Appending the offsets of row `y` to those of the rows above keeps them
      strictly increasing and all pixels of the first `y + 1` rows. */
  lemma AppendRow(s: nat, width: nat, y: nat, writes: seq<int>, row: seq<int>)
    requires width <= s
    requires |writes| == y * width
    requires forall i, j :: 0 <= i < j < |writes| ==> writes[i] < writes[j]
    requires forall i :: 0 <= i < |writes| ==> IsPixel(s, width, y, writes[i])
    requires |row| == width && forall i :: 0 <= i < width ==> row[i] == y * s + i
    ensures |writes + row| == (y + 1) * width
    ensures forall i, j :: 0 <= i < j < |writes + row| ==> (writes + row)[i] < (writes + row)[j]
    ensures forall i :: 0 <= i < |writes + row| ==> IsPixel(s, width, y + 1, (writes + row)[i])
  {
    forall i | 0 <= i < |writes|
      ensures writes[i] < y * s && IsPixel(s, width, y + 1, writes[i])
    {
      RowsBefore(s, width, y, writes[i]);
    }
    forall i | 0 <= i < width
      ensures IsPixel(s, width, y + 1, row[i])
    {
      OffsetDivMod(s, i, y, row[i]);
    }
    assert (y + 1) * width == y * width + width;
  }

  /** The pixels of the first `y + 1` rows are those of the first `y` rows and
      those of row `y`. */
  lemma NextRowPixels(s: nat, width: nat, y: nat)
    ensures forall k :: IsPixel(s, width, y + 1, k) <==> IsPixel(s, width, y, k) || InRow(s, y, width, k)
  {
  }

  /** The word of pixel `(x, y)` in a buffer with rows `s` words apart: it lies
      inside the `height` rows and is the word `IsPixel` reads as `(x, y)`. */
  function Slot(s: nat, width: nat, height: nat, x: nat, y: nat): (k: nat)
    requires width <= s && x < width && y < height
    ensures k == y * s + x
    ensures k < height * s
    ensures k / s == y && k % s == x
  {
    OffsetInBuffer(s, width, height, x, y);
    OffsetDivMod(s, x, y, y * s + x);
    y * s + x
  }

  /** The word that pixel `(x, y)` occupies: its byte offset is
      `y * stride + 4 * x`. */
  function WordIndex(stride: nat, width: nat, height: nat, x: nat, y: nat): (k: nat)
    requires stride % 4 == 0 && 4 * width <= stride && x < width && y < height
    ensures 4 * k == y * stride + 4 * x
    ensures k < height * (stride / 4)
    ensures k == Slot(stride / 4, width, height, x, y)
  {
    Slot(stride / 4, width, height, x, y)
  }

  /** The body of the pixel loop: build the pixel's ray, intersect it with the
      cube and encode black for an empty range, white otherwise. */
  method PixelWord(width: nat, height: nat, x: int, y: int) returns (word: bv32)
    ensures word == if Hits(PixelRay(width, height, x, y)) then White else Black
    ensures word == Colour(width, height, x, y)
    ensures word >> 24 == 0xFF
  {
    var ray := PixelRay(width, height, x, y);
    var range := IntersectUnitCube(ray);
    var c: bv32 := if IsEmpty(range) then 0 else 255;
    word := Argb(c, c, c);
    PixelHitsIff(width, height, x, y);
  }

  /** The word of pixel `(x, y)` lies inside the buffer. */
  lemma OffsetInBuffer(s: nat, width: nat, height: nat, x: int, y: int)
    requires width <= s && 0 <= x < width && 0 <= y < height
    ensures 0 <= y * s + x < height * s
  {
    MulMono(y + 1, height, s);
  }

  /** With rows `s` words apart, word `k` is pixel `(x, y)` exactly when
      `k == y * s + x`. */
  lemma OffsetDivMod(s: nat, x: int, y: int, k: int)
    requires 0 <= x < s && 0 <= y
    ensures (k / s == y && k % s == x) <==> k == y * s + x
  {
    if k == y * s + x {
      DivModUnique(s, y, x, k);
    }
  }

  /** Every word of the first `y` rows lies before row `y`. */
  lemma RowsBefore(s: nat, width: nat, y: int, k: int)
    requires width <= s && IsPixel(s, width, y, k)
    ensures k < y * s
  {
    var q, r := k / s, k % s;
    assert k == q * s + r;
    MulMono(q + 1, y, s);
    assert (q + 1) * s == q * s + s;
  }

  function Abs(n: int): nat {
    if n < 0 then -n else n
  }

  /** The picture `draw_cb` paints: the pixels whose rays hit the cube are
      exactly those within 33 pixels of the image centre in both directions,
      `|2x - (width - 1)| <= 66` and `|2y - (height - 1)| <= 66`, a white
      square on black. */
  lemma PixelHitsIff(width: nat, height: nat, x: int, y: int)
    ensures Hits(PixelRay(width, height, x, y)) <==> InSquare(width, height, x, y)
  {
    var nx := 2 * x - width + 1;
    var ny := height - 1 - 2 * y;
    EyeRayHits(nx as real / 132.0, ny as real / 132.0);
    WithinSlab(nx);
    WithinSlab(ny);
  }

  /** An integer `n` satisfies `|99 n / 132| <= 50` exactly when `|n| <= 66`. */
  lemma WithinSlab(n: int)
    ensures (-50.0 <= 99.0 * (n as real / 132.0) <= 50.0) <==> Abs(n) <= 66
  {
    assert 99.0 * (n as real / 132.0) == 0.75 * n as real;
  }

  /** A ray from the eye through `(cx, cy, 0)` hits the cube exactly when at
      `t = 0.99`, where it enters the slab of the z axis, it lies in the other
      two slabs. */
  lemma EyeRayHits(cx: real, cy: real)
    ensures Hits(Ray(Eye, V3(cx, cy, 0.0))) <==>
      -50.0 <= 99.0 * cx <= 50.0 && -50.0 <= 99.0 * cy <= 50.0
  {
    var ray := Ray(Eye, V3(cx, cy, 0.0));
    if -50.0 <= 99.0 * cx <= 50.0 && -50.0 <= 99.0 * cy <= 50.0 {
      assert InCube(PointAt(ray, 0.99));
    }
    if Hits(ray) {
      var t :| t >= 0.0 && InCube(PointAt(ray, t));
      EyeRayEnters(ray, t);
    }
  }

  /** A point of such a ray in the cube has `t >= 0.99` and lies in the x and
      y slabs at `t = 0.99` as well. */
  lemma EyeRayEnters(ray: Ray, t: real)
    requires ray.p == Eye && ray.q.z == 0.0
    requires t >= 0.0 && InCube(PointAt(ray, t))
    ensures -50.0 <= 99.0 * ray.q.x <= 50.0 && -50.0 <= 99.0 * ray.q.y <= 50.0
  {
    assert PointAt(ray, t).z == -50.0 + t * 50.0;
    assert t >= 0.99;
    assert PointAt(ray, t).x == t * ray.q.x;
    assert PointAt(ray, t).y == t * ray.q.y;
    NarrowestSlab(t, ray.q.x);
    NarrowestSlab(t, ray.q.y);
  }

  /** The closed form and the ray agree: `Colour` is white exactly for the
      pixels whose rays hit the cube, so the picture `DrawCb` paints is the
      ray-traced one. */
  lemma ColourIsRayColour(width: nat, height: nat, x: int, y: int)
    ensures Colour(width, height, x, y) ==
      if Hits(PixelRay(width, height, x, y)) then White else Black
  {
    PixelHitsIff(width, height, x, y);
  }

  /** A ray from the eye that meets `|t * c| <= 0.5` at some `t >= 0.99`
      already meets it at `t = 0.99`. */
  lemma NarrowestSlab(t: real, c: real)
    requires t >= 0.99 && InSlab(t * c)
    ensures -50.0 <= 99.0 * c <= 50.0
  {
    if c >= 0.0 {
      ProductNonNegative(t - 0.99, c);
    } else {
      ProductNonNegative(t - 0.99, -c);
    }
  }

  /** The pixel right of and below the centre of a 640 by 480 window is white. */
  lemma CentrePixelHits()
    ensures Hits(PixelRay(640, 480, 320, 240))
  {
    PixelHitsIff(640, 480, 320, 240);
  }

  /** A corner pixel of a 640 by 480 window is black. */
  lemma CornerPixelMisses()
    ensures !Hits(PixelRay(640, 480, 0, 0))
  {
    PixelHitsIff(640, 480, 0, 0);
  }
}
