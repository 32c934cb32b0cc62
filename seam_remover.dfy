/** Seam removal: every pixel of a row (or column) from the seam pixel on is
    overwritten by its successor, so the seam pixel disappears from the
    logical rectangle and the last logical column (or row) keeps its old
    value. */
module SeamRemover {
  import opened PixelGrid

  /** One line of pixels after removing the pixel at `k` from its first `n`
      entries: entries k .. n-2 move one place towards the front, the rest
      stay where they are. */
  function ShiftLeft(s: seq<Pixel>, k: int, n: int): (t: seq<Pixel>)
    requires 0 <= k && 0 <= n <= |s|
    ensures |t| == |s|
  {
    seq(|s|, i requires 0 <= i < |s| => if k <= i < n - 1 then s[i + 1] else s[i])
  }

  /** Removing the pixel at `k` of the logical line `s[..n]` leaves exactly
      the other pixels, in order, in the first n-1 places, and the line
      beyond them unchanged. */
  lemma ShiftLeftDeletes(s: seq<Pixel>, k: int, n: int)
    requires 0 <= k < n <= |s|
    ensures ShiftLeft(s, k, n)[..n - 1] == s[..k] + s[k + 1..n]
    ensures ShiftLeft(s, k, n)[n - 1..] == s[n - 1..]
  {
    var t := ShiftLeft(s, k, n);
    var rest := s[..k] + s[k + 1..n];
    forall i | 0 <= i < n - 1
      ensures t[i] == rest[i]
    {
      if i < k {
        assert rest[i] == s[..k][i];
      } else {
        assert rest[i] == s[k + 1..n][i - k];
      }
    }
  }

  /** So the remaining logical line is the old one with one copy of the
      seam pixel taken out: pixels are moved, never altered. */
  lemma ShiftLeftKeepsPixels(s: seq<Pixel>, k: int, n: int)
    requires 0 <= k < n <= |s|
    ensures multiset(ShiftLeft(s, k, n)[..n - 1]) + multiset{s[k]} == multiset(s[..n])
  {
    ShiftLeftDeletes(s, k, n);
    assert s[..n] == s[..k] + [s[k]] + s[k + 1..n];
  }

  /** A seam at or past the last logical entry moves nothing. */
  lemma ShiftLeftBeyondEnd(s: seq<Pixel>, k: int, n: int)
    requires 0 <= k && 0 <= n <= |s| && n - 1 <= k
    ensures ShiftLeft(s, k, n) == s
  {
  }

  /** Every pixel of the shortened line was a pixel of the old logical line,
      so a channel range that held before still holds. */
  lemma ShiftLeftKeepsRange(s: seq<Pixel>, k: int, n: int)
    requires 0 <= k && 1 <= n <= |s|
    requires forall i :: 0 <= i < n ==> PixelInRange(s[i])
    ensures forall i :: 0 <= i < n - 1 ==> PixelInRange(ShiftLeft(s, k, n)[i])
  {
  }

  /** Deletes the vertical seam: in each row r below `height`, the pixels in
      columns seam[r] .. width-2 take the value of their right neighbour.
      Column width-1 and every other cell keep their values, and each row is
      changed by its own seam entry only. */
  method RemoveVerticalSeam(image: array2<Pixel>, width: int, height: int, seam: array<int>)
    requires Fits(image, width, height)
    requires height <= seam.Length
    requires forall r :: 0 <= r < height ==> 0 <= seam[r]
    modifies image
    ensures forall c, r :: 0 <= c < image.Length0 && 0 <= r < image.Length1 ==>
      image[c, r] == if r < height && seam[r] <= c < width - 1 then old(image[c + 1, r]) else old(image[c, r])
    ensures forall r :: 0 <= r < height ==>
      Row(image, r, image.Length0) == ShiftLeft(old(Row(image, r, image.Length0)), seam[r], width)
    ensures 1 <= width && old(InRange(image, width, height)) ==> InRange(image, width - 1, height)
  {
    for row := 0 to height
      invariant forall c, r :: 0 <= c < image.Length0 && 0 <= r < image.Length1 ==>
        image[c, r] == if r < row && seam[r] <= c < width - 1 then old(image[c + 1, r]) else old(image[c, r])
    {
      var col := seam[row];
      while col < width - 1
        invariant seam[row] <= col && (col == seam[row] || col <= width - 1)
        invariant forall c, r :: 0 <= c < image.Length0 && 0 <= r < image.Length1 ==>
          image[c, r] ==
            if (r < row && seam[r] <= c < width - 1) || (r == row && seam[r] <= c < col)
            then old(image[c + 1, r]) else old(image[c, r])
        decreases width - col
      {
        image[col, row] := image[col + 1, row];
        col := col + 1;
      }
    }
  }

  /** Deletes the horizontal seam: in each column c below `width`, the
      pixels in rows seam[c] .. height-2 take the value of the pixel below.
      Row height-1 and every other cell keep their values. */
  method RemoveHorizontalSeam(image: array2<Pixel>, width: int, height: int, seam: array<int>)
    requires Fits(image, width, height)
    requires width <= seam.Length
    requires forall c :: 0 <= c < width ==> 0 <= seam[c]
    modifies image
    ensures forall c, r :: 0 <= c < image.Length0 && 0 <= r < image.Length1 ==>
      image[c, r] == if c < width && seam[c] <= r < height - 1 then old(image[c, r + 1]) else old(image[c, r])
    ensures forall c :: 0 <= c < width ==>
      Column(image, c, image.Length1) == ShiftLeft(old(Column(image, c, image.Length1)), seam[c], height)
    ensures 1 <= height && old(InRange(image, width, height)) ==> InRange(image, width, height - 1)
  {
    for col := 0 to width
      invariant forall c, r :: 0 <= c < image.Length0 && 0 <= r < image.Length1 ==>
        image[c, r] == if c < col && seam[c] <= r < height - 1 then old(image[c, r + 1]) else old(image[c, r])
    {
      var row := seam[col];
      while row < height - 1
        invariant seam[col] <= row && (row == seam[col] || row <= height - 1)
        invariant forall c, r :: 0 <= c < image.Length0 && 0 <= r < image.Length1 ==>
          image[c, r] ==
            if (c < col && seam[c] <= r < height - 1) || (c == col && seam[c] <= r < row)
            then old(image[c, r + 1]) else old(image[c, r])
        decreases height - row
      {
        image[col, row] := image[col, row + 1];
        row := row + 1;
      }
    }
  }
}
