/** The sample picture both `test_ppm` functions render: a white image with a
    red rectangle whose top-left pixel is at row 100, column 200 and which
    stops 50 rows above the bottom edge and 100 columns left of the right
    edge. */
module Pattern {
  import opened Bytes

  /** Pixel `(i, j)` (row `i`, column `j`) lies in the red rectangle of an
      image of `height` rows and `width` columns. */
  predicate InRect(height: int, width: int, i: int, j: int) {
    100 <= i < height - 50 && 200 <= j < width - 100
  }

  /** Channel `c` of red, `(255, 0, 0)`. */
  function Red(c: int): byte {
    if c == 0 then 255 else 0
  }

  /** Channel `c` of pixel `(i, j)` of the finished picture. */
  function Channel(height: int, width: int, i: int, j: int, c: int): byte {
    if InRect(height, width, i, j) then Red(c) else 255
  }

  /** The finished picture as rows of `3 * width` channel bytes. */
  function Picture(height: nat, width: nat): (rows: seq<seq<byte>>)
    ensures |rows| == height
    ensures forall i :: 0 <= i < height ==> |rows[i]| == 3 * width
  {
    seq(height, i => seq(3 * width, m => Channel(height, width, i, m / 3, m % 3)))
  }

  /** In the 640 by 480 picture, pixel `(i, j)` is red `(255, 0, 0)` exactly
      when `100 <= i < 430` and `200 <= j < 540`, and white `(255, 255, 255)`
      otherwise. */
  lemma SamplePicture(i: int, j: int)
    requires 0 <= i < 480 && 0 <= j < 640
    ensures Picture(480, 640)[i][3 * j..3 * j + 3] ==
      if 100 <= i < 430 && 200 <= j < 540 then [255, 0, 0] else [255, 255, 255]
  {
    var row := Picture(480, 640)[i];
    assert row[3 * j] == Channel(480, 640, i, j, 0);
    assert row[3 * j + 1] == Channel(480, 640, i, j, 1);
    assert row[3 * j + 2] == Channel(480, 640, i, j, 2);
  }

  /** Flattened, channel `c` of pixel `(i, j)` is byte `3 * (width * i + j) + c`. */
  lemma FlatPicture(height: nat, width: nat, i: int, j: int, c: int)
    requires 0 <= i < height && 0 <= j < width && 0 <= c < 3
    ensures 3 * (width * i + j) + c < |Flatten(Picture(height, width))|
    ensures Flatten(Picture(height, width))[3 * (width * i + j) + c] == Channel(height, width, i, j, c)
  {
    var rows := Picture(height, width);
    var m := 3 * j + c;
    FlattenAt(rows, 3 * width, i, m);
    RowMajor(width, i, j, c);
    PictureAt(height, width, i, j, c);
  }

  /** Channel `c` of pixel `(i, j)` is byte `3 * j + c` of row `i`. */
  lemma PictureAt(height: nat, width: nat, i: int, j: int, c: int)
    requires 0 <= i < height && 0 <= j < width && 0 <= c < 3
    ensures Picture(height, width)[i][3 * j + c] == Channel(height, width, i, j, c)
  {
    assert (3 * j + c) / 3 == j && (3 * j + c) % 3 == c;
  }

  lemma RowMajor(width: nat, i: int, j: int, c: int)
    ensures 3 * (width * i + j) + c == i * (3 * width) + (3 * j + c)
  {
  }
}
