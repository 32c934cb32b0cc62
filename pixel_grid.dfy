/** Pixels and the column-major pixel grid that the seam-carving core borrows.
    A grid is an `array2<Pixel>` indexed `[col, row]`; its logical width and
    height are tracked by the caller and may be smaller than the physical
    dimensions once seams have been removed. */
module PixelGrid {

  /** One pixel: three independent integer colour channels. */
  datatype Pixel = Pixel(r: int, g: int, b: int)

  /** The value every cell of a fresh grid holds. */
  const Black := Pixel(0, 0, 0)

  /** The largest channel value an image file may hold. */
  const MaxChannel := 255

  predicate ChannelInRange(v: int) {
    0 <= v <= MaxChannel
  }

  predicate PixelInRange(p: Pixel) {
    ChannelInRange(p.r) && ChannelInRange(p.g) && ChannelInRange(p.b)
  }

  /** The logical width x height rectangle lies inside the physical grid. */
  predicate Fits(image: array2<Pixel>, width: int, height: int) {
    0 <= width <= image.Length0 && 0 <= height <= image.Length1
  }

  /** Every pixel of the logical rectangle has its channels in [0, 255]. */
  ghost predicate InRange(image: array2<Pixel>, width: int, height: int)
    reads image
    requires Fits(image, width, height)
  {
    forall c, r :: 0 <= c < width && 0 <= r < height ==> PixelInRange(image[c, r])
  }

  /** Row `r` of the grid, restricted to its first `n` columns. */
  ghost function Row(image: array2<Pixel>, r: int, n: int): (s: seq<Pixel>)
    reads image
    requires 0 <= r < image.Length1 && 0 <= n <= image.Length0
    ensures |s| == n
  {
    seq(n, c requires 0 <= c < n reads image => image[c, r])
  }

  /** Column `c` of the grid, restricted to its first `n` rows. */
  ghost function Column(image: array2<Pixel>, c: int, n: int): (s: seq<Pixel>)
    reads image
    requires 0 <= c < image.Length0 && 0 <= n <= image.Length1
    ensures |s| == n
  {
    seq(n, r requires 0 <= r < n reads image => image[c, r])
  }

  /** Allocates a width x height grid and sets every cell to black, row by row. */
  method CreateImage(width: nat, height: nat) returns (image: array2<Pixel>)
    ensures fresh(image)
    ensures image.Length0 == width && image.Length1 == height
    ensures forall c, r :: 0 <= c < width && 0 <= r < height ==> image[c, r] == Black
  {
    image := new Pixel[width, height];
    for row := 0 to height
      invariant forall c, r :: 0 <= c < width && 0 <= r < row ==> image[c, r] == Black
    {
      for col := 0 to width
        invariant forall c, r :: 0 <= c < width && 0 <= r < row ==> image[c, r] == Black
        invariant forall c :: 0 <= c < col ==> image[c, row] == Black
      {
        image[col, row] := Black;
      }
    }
  }

  /** Allocates a seam of the given length with every offset zero. */
  method CreateSeam(length: nat) returns (seam: array<int>)
    ensures fresh(seam)
    ensures seam.Length == length
    ensures forall i :: 0 <= i < length ==> seam[i] == 0
  {
    seam := new int[length];
    for i := 0 to length
      invariant forall j :: 0 <= j < i ==> seam[j] == 0
    {
      seam[i] := 0;
    }
  }
}
