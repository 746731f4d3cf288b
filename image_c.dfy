/** The `Image` of `voxel.c`: a height, a width and an array of `height` row
    buffers, each holding `width` pixels of three channel bytes (modelled as
    `3 * width` bytes), with `init_image`, `free_image`, `save_image` and the
    two fill loops of `test_ppm`. */
module ImageC {
  import opened Bytes
  import opened Ppm
  import opened Pattern

  class Image {
    var height: int
    var width: int
    var data: array?<array?<byte>>

    /** The row buffers `data` points to. */
    ghost function Rows(): set<array<byte>>
      reads this, data
    {
      if data == null then {}
      else set i | 0 <= i < data.Length && data[i] != null :: data[i] as array<byte>
    }

    /** The shape `init_image` leaves and `free_image` restores: `height` distinct
        rows of `3 * width` bytes, or no rows at all once `data` is null (which
        only a freed, zero-sized image has). */
    ghost predicate Valid()
      reads this, data
    {
      0 <= height && 0 <= width &&
      (data == null ==> height == 0) &&
      (data != null ==>
        data.Length == height &&
        (forall i :: 0 <= i < height ==> data[i] != null && data[i].Length == 3 * width) &&
        (forall i, j :: 0 <= i < j < height ==> data[i] != data[j]))
    }

    /** The pixel bytes, row by row. */
    ghost function Contents(): (rows: seq<seq<byte>>)
      requires Valid()
      reads this, data, Rows()
      ensures |rows| == height
      ensures forall i :: 0 <= i < height ==> rows[i] == data[i][..]
    {
      if data == null then []
      else seq(height, i reads this, data, Rows() requires 0 <= i < height && Valid() => data[i][..])
    }

    /** `init_image`: stores the size and allocates one fresh row of
        `3 * width` bytes for each of the `height` rows.  What the rows hold
        is left open, as `malloc` leaves it. */
    constructor Init(height: nat, width: nat)
      ensures Valid()
      ensures this.height == height && this.width == width
      ensures data != null && fresh(data) && fresh(Rows())
    {
      var rows := new array?<byte>[height];
      var i := 0;
      while i < height
        invariant 0 <= i <= height
        invariant forall k :: 0 <= k < i ==> rows[k] != null && rows[k].Length == 3 * width
        invariant forall k :: 0 <= k < i ==> fresh(rows[k])
        invariant forall k, l :: 0 <= k < l < i ==> rows[k] != rows[l]
      {
        rows[i] := new byte[3 * width];
        i := i + 1;
      }
      this.height := height;
      this.width := width;
      data := rows;
    }

    /** `free_image`: the image becomes empty, with no rows.  Releasing the row
        buffers is not modelled. */
    method Free()
      requires Valid()
      modifies this
      ensures Valid()
      ensures height == 0 && width == 0 && data == null
    {
      height := 0;
      width := 0;
      data := null;
    }

    /** `save_image`: the header, then each row's bytes in turn.  Decoding the
        result gives back the size and the pixel bytes. */
    method Save() returns (file: seq<byte>)
      requires Valid()
      ensures file == Encode(width, height, Flatten(Contents()))
      ensures Decode(file) == Some(PpmImage(width, height, Flatten(Contents())))
    {
      ghost var rows := Contents();
      file := Header(width, height);
      var i := 0;
      while i < height
        invariant 0 <= i <= height
        invariant file == Header(width, height) + Flatten(rows[..i])
      {
        assert rows[..i + 1][..i] == rows[..i];
        file := file + data[i][..];
        i := i + 1;
      }
      assert rows[..height] == rows;
      FlattenLength(rows, 3 * width);
      DecodeEncode(width, height, Flatten(rows));
    }
  }

  /** The first loop of `test_ppm`: every channel of every pixel becomes 255,
      so the image is white; nothing but the row contents changes. */
  method PaintWhite(image: Image)
    requires image.Valid()
    modifies image.Rows()
    ensures unchanged(image)
    ensures image.Valid()
    ensures forall i, m :: 0 <= i < image.height && 0 <= m < 3 * image.width ==>
      image.data[i][m] == 255
  {
    var i := 0;
    while i < image.height
      invariant 0 <= i <= image.height
      invariant forall r, m :: 0 <= r < i && 0 <= m < 3 * image.width ==>
        image.data[r][m] == 255
    {
      var row := image.data[i];
      var j := 0;
      while j < image.width
        invariant 0 <= j <= image.width
        invariant forall r, m :: 0 <= r < i && 0 <= m < 3 * image.width ==>
          image.data[r][m] == 255
        invariant forall m :: 0 <= m < 3 * j ==> row[m] == 255
      {
        row[3 * j] := 255;
        row[3 * j + 1] := 255;
        row[3 * j + 2] := 255;
        j := j + 1;
      }
      i := i + 1;
    }
  }

  /** The second loop of `test_ppm`: the pixels of the rectangle become red and
      every other byte keeps its value. */
  method PaintRectangle(image: Image)
    requires image.Valid()
    modifies image.Rows()
    ensures unchanged(image)
    ensures image.Valid()
    ensures forall i, m :: 0 <= i < image.height && 0 <= m < 3 * image.width ==>
      image.data[i][m] ==
        if InRect(image.height, image.width, i, m / 3) then Red(m % 3) else old(image.data[i][m])
  {
    var h, w := image.height, image.width;
    ghost var before := image.Contents();
    var i := 100;
    while i < h - 50
      invariant 100 <= i && (i <= h - 50 || i == 100)
      invariant forall r, m :: 0 <= r < h && 0 <= m < 3 * w ==>
        image.data[r][m] == if r < i && InRect(h, w, r, m / 3) then Red(m % 3) else before[r][m]
    {
      PaintRowRed(image.data[i], h, w, i);
      i := i + 1;
    }
  }

  /** One pass of the inner loop of the second `test_ppm` loop: the pixels of
      row `i` inside the rectangle become red. */
  method PaintRowRed(row: array<byte>, h: int, w: int, i: int)
    requires row.Length == 3 * w && 100 <= i < h - 50
    modifies row
    ensures forall m :: 0 <= m < row.Length ==>
      row[m] == if InRect(h, w, i, m / 3) then Red(m % 3) else old(row[m])
  {
    var j := 200;
    while j < w - 100
      invariant 200 <= j && (j <= w - 100 || j == 200)
      invariant forall m :: 0 <= m < row.Length ==>
        row[m] == if m / 3 < j && InRect(h, w, i, m / 3) then Red(m % 3) else old(row[m])
    {
      row[3 * j] := 255;
      row[3 * j + 1] := 0;
      row[3 * j + 2] := 0;
      j := j + 1;
    }
  }

  /** The two fill loops of `test_ppm` in turn: the image then holds the
      sample picture of its size. */
  method PaintSample(image: Image)
    requires image.Valid()
    modifies image.Rows()
    ensures unchanged(image)
    ensures image.Valid()
    ensures image.Contents() == Picture(image.height, image.width)
  {
    PaintWhite(image);
    PaintRectangle(image);
    var h, w := image.height, image.width;
    forall i | 0 <= i < h
      ensures image.data[i][..] == Picture(h, w)[i]
    {
      assert forall m :: 0 <= m < 3 * w ==> image.data[i][m] == Picture(h, w)[i][m];
    }
  }

  /** `test_ppm`: a 480 by 640 image, painted white, then the red rectangle,
      then saved and freed.  The file is the sample picture, so by
      `SamplePicture` its pixels in rows 100 to 429 and columns 200 to 539
      are red and all others white. */
  method TestPpm() returns (file: seq<byte>)
    ensures file == Encode(640, 480, Flatten(Picture(480, 640)))
    ensures Decode(file) == Some(PpmImage(640, 480, Flatten(Picture(480, 640))))
  {
    var image := new Image.Init(480, 640);
    PaintSample(image);
    ghost var picture := image.Contents();
    assert picture == Picture(480, 640);
    file := image.Save();
    assert image.Contents() == picture;
    image.Free();
  }
}
