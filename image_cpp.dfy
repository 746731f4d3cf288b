/** The `Image` of `voxel.cpp`: a height, a width and one flat vector of
    `height * width` pixels of three channel bytes (modelled as
    `3 * height * width` bytes), with row indexing, the PPM writer and the two
    fill loops of `test_ppm`. */
module ImageCpp {
  import opened Arith
  import opened Bytes
  import opened Ppm
  import opened Pattern

  class Image {
    var height: int
    var width: int
    const data: array<byte>

    /** The vector holds three bytes for each of the `height * width` pixels. */
    ghost predicate Valid()
      reads this
    {
      0 <= height && 0 <= width && data.Length == 3 * height * width
    }

    /** The constructor: stores the size and allocates `height * width`
        value-initialised, that is black, pixels. */
    constructor(height: nat, width: nat)
      ensures Valid()
      ensures this.height == height && this.width == width
      ensures data.Length == 3 * height * width
      ensures forall k :: 0 <= k < data.Length ==> data[k] == 0
      ensures fresh(data)
    {
      this.height := height;
      this.width := width;
      data := new byte[3 * height * width](_ => 0);
    }

    /** `image[i][j][c]`: `operator[]` starts row `i` at pixel `width * i`, so
        channel `c` of pixel `(i, j)` is byte `3 * (width * i + j) + c`.  It
        lies inside the vector, and row, column and channel can be read back
        from it, so distinct pixels and channels never share a byte. */
    function Index(i: int, j: int, c: int): (k: nat)
      reads this
      requires Valid() && 0 <= i < height && 0 <= j < width && 0 <= c < 3
      ensures k < data.Length
      ensures k / 3 == width * i + j
      ensures k / 3 / width == i && k / 3 % width == j && k % 3 == c
    {
      MulMono(i + 1, height, width);
      assert width * (i + 1) == width * i + width;
      DivModUnique(3, width * i + j, c, 3 * (width * i + j) + c);
      DivModUnique(width, i, j, width * i + j);
      3 * (width * i + j) + c
    }

    /** `save`: the header `P6\n<width> <height>\n255\n` followed by the whole
        vector, `3 * height * width` bytes in row-major order.  Decoding it
        gives back the size and the bytes. */
    function Save(): (file: seq<byte>)
      reads this, data
      requires Valid()
      ensures |file| == |Header(width, height)| + 3 * height * width
      ensures Decode(file) == Some(PpmImage(width, height, data[..]))
    {
      DecodeEncode(width, height, data[..]);
      Encode(width, height, data[..])
    }
  }

  /** Byte `k` of a `width`-wide image is channel `k % 3` of pixel
      `(k / 3 / width, k / 3 % width)`. */
  lemma IndexOnto(image: Image, k: int)
    requires image.Valid() && 0 <= k < image.data.Length
    ensures 0 <= k / 3 / image.width < image.height && 0 <= k / 3 % image.width < image.width
    ensures image.Index(k / 3 / image.width, k / 3 % image.width, k % 3) == k
  {
    Unflatten(image.height, image.width, k);
  }

  /** Byte `k` of `3 * height * width` is channel `k % 3` of pixel
      `(k / 3 / width, k / 3 % width)` in row-major order. */
  lemma Unflatten(height: nat, width: nat, k: int)
    requires 0 <= k < 3 * height * width
    ensures width > 0
    ensures 0 <= k / 3 / width < height && 0 <= k / 3 % width < width
    ensures 3 * (width * (k / 3 / width) + k / 3 % width) + k % 3 == k
  {
    var q := k / 3;
    assert 3 * height * width == 3 * (height * width);
    assert q < height * width;
    PositiveFactor(height, width);
    var i, j := q / width, q % width;
    assert q == width * i + j;
    assert i * width <= q;
    MulCancel(i, height, width);
  }

  /** A product of naturals that is positive has a positive second factor. */
  lemma PositiveFactor(a: nat, b: nat)
    requires a * b > 0
    ensures b > 0
  {
  }

  /** A positive factor can be cancelled from a strict inequality. */
  lemma MulCancel(a: int, b: int, s: int)
    requires s > 0 && a * s < b * s
    ensures a < b
  {
    assert (b - a) * s == b * s - a * s;
  }

  /** The first loop of `test_ppm`: every channel of every pixel becomes 255,
      so the image is white. */
  method PaintWhite(image: Image)
    requires image.Valid()
    modifies image.data
    ensures forall i, j, c :: 0 <= i < image.height && 0 <= j < image.width && 0 <= c < 3 ==>
      image.data[image.Index(i, j, c)] == 255
  {
    var i := 0;
    while i < image.height
      invariant 0 <= i <= image.height
      invariant forall r, j, c :: 0 <= r < i && 0 <= j < image.width && 0 <= c < 3 ==>
        image.data[image.Index(r, j, c)] == 255
    {
      PaintRowWhite(image, i);
      i := i + 1;
    }
  }

  /** One pass of the inner loop of the first `test_ppm` loop: row `i` becomes
      white and no other byte changes. */
  method PaintRowWhite(image: Image, i: int)
    requires image.Valid() && 0 <= i < image.height
    modifies image.data
    ensures forall r, j, c :: 0 <= r < image.height && 0 <= j < image.width && 0 <= c < 3 ==>
      image.data[image.Index(r, j, c)] == if r == i then 255 else old(image.data[image.Index(r, j, c)])
  {
    var j := 0;
    while j < image.width
      invariant 0 <= j <= image.width
      invariant forall r, j', c :: 0 <= r < image.height && 0 <= j' < image.width && 0 <= c < 3 ==>
        image.data[image.Index(r, j', c)] ==
          if r == i && j' < j then 255 else old(image.data[image.Index(r, j', c)])
    {
      image.data[image.Index(i, j, 0)] := 255;
      image.data[image.Index(i, j, 1)] := 255;
      image.data[image.Index(i, j, 2)] := 255;
      j := j + 1;
    }
  }

  /** The second loop of `test_ppm`: the pixels of the rectangle become red and
      every other byte keeps its value. */
  method PaintRectangle(image: Image)
    requires image.Valid()
    modifies image.data
    ensures forall i, j, c :: 0 <= i < image.height && 0 <= j < image.width && 0 <= c < 3 ==>
      image.data[image.Index(i, j, c)] ==
        if InRect(image.height, image.width, i, j) then Red(c) else old(image.data[image.Index(i, j, c)])
  {
    var h, w := image.height, image.width;
    var i := 100;
    while i < h - 50
      invariant 100 <= i && (i <= h - 50 || i == 100)
      invariant forall r, j, c :: 0 <= r < h && 0 <= j < w && 0 <= c < 3 ==>
        image.data[image.Index(r, j, c)] ==
          if r < i && InRect(h, w, r, j) then Red(c) else old(image.data[image.Index(r, j, c)])
    {
      PaintRowRed(image, i);
      i := i + 1;
    }
  }

  /** One pass of the inner loop of the second `test_ppm` loop: the pixels of
      row `i` inside the rectangle become red and no other byte changes. */
  method PaintRowRed(image: Image, i: int)
    requires image.Valid() && 100 <= i < image.height - 50
    modifies image.data
    ensures forall r, j, c :: 0 <= r < image.height && 0 <= j < image.width && 0 <= c < 3 ==>
      image.data[image.Index(r, j, c)] ==
        if r == i && InRect(image.height, image.width, r, j) then Red(c)
        else old(image.data[image.Index(r, j, c)])
  {
    var j := 200;
    while j < image.width - 100
      invariant 200 <= j && (j <= image.width - 100 || j == 200)
      invariant forall r, j', c :: 0 <= r < image.height && 0 <= j' < image.width && 0 <= c < 3 ==>
        image.data[image.Index(r, j', c)] ==
          if r == i && j' < j && InRect(image.height, image.width, r, j') then Red(c)
          else old(image.data[image.Index(r, j', c)])
    {
      image.data[image.Index(i, j, 0)] := 255;
      image.data[image.Index(i, j, 1)] := 0;
      image.data[image.Index(i, j, 2)] := 0;
      j := j + 1;
    }
  }

  /** The two fill loops of `test_ppm` in turn: the vector then holds the
      sample picture of the image's size, row after row. */
  method PaintSample(image: Image)
    requires image.Valid()
    modifies image.data
    ensures image.data[..] == Flatten(Picture(image.height, image.width))
  {
    PaintWhite(image);
    PaintRectangle(image);
    SampleBytes(image);
  }

  /** A vector whose pixels all have the colours of the sample picture holds
      the flattened sample picture. */
  lemma SampleBytes(image: Image)
    requires image.Valid()
    requires forall i, j, c :: 0 <= i < image.height && 0 <= j < image.width && 0 <= c < 3 ==>
      image.data[image.Index(i, j, c)] == Channel(image.height, image.width, i, j, c)
    ensures image.data[..] == Flatten(Picture(image.height, image.width))
  {
    var h, w := image.height, image.width;
    FlattenLength(Picture(h, w), 3 * w);
    assert h * (3 * w) == 3 * h * w;
    forall k | 0 <= k < image.data.Length
      ensures image.data[k] == Flatten(Picture(h, w))[k]
    {
      IndexOnto(image, k);
      var i, j, c := k / 3 / w, k / 3 % w, k % 3;
      FlatPicture(h, w, i, j, c);
      assert image.Index(i, j, c) == 3 * (w * i + j) + c;
    }
  }

  /** `test_ppm`: a 480 by 640 image, painted white, then the red rectangle,
      then saved.  The file is the sample picture, so by `SamplePicture` its
      pixels in rows 100 to 429 and columns 200 to 539 are red and all others
      white. */
  method TestPpm() returns (file: seq<byte>)
    ensures file == Encode(640, 480, Flatten(Picture(480, 640)))
    ensures Decode(file) == Some(PpmImage(640, 480, Flatten(Picture(480, 640))))
  {
    var image := new Image(480, 640);
    PaintSample(image);
    file := image.Save();
  }
}
