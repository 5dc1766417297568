/** `Seam.merge` and `Seam.shrink`: a copy of an image with a seam painted
    blue, and a copy one column narrower with the seam taken out. An image
    is an `array2<int>` of packed RGB values, row-major like `int[row][col]`. */
module SeamRender {

  /** Pure blue, `0x0000ff`, the colour a highlighted seam is painted in. */
  const Blue: int := 0x0000ff

  /** The pixels of an image, row by row. */
  function Cells(a: array2<int>): (g: seq<seq<int>>)
    reads a
    ensures |g| == a.Length0
    ensures forall r :: 0 <= r < a.Length0 ==> |g[r]| == a.Length1
  {
    seq(a.Length0, r requires 0 <= r < a.Length0 reads a =>
      seq(a.Length1, c requires 0 <= c < a.Length1 reads a => a[r, c]))
  }

  /** `s` names one column of each row of `g` (and possibly more entries). */
  predicate OnImage(g: seq<seq<int>>, s: seq<int>)
  {
    |s| >= |g| && forall r :: 0 <= r < |g| ==> 0 <= s[r] < |g[r]|
  }

  /** `g` with the pixel `s[r]` of each row `r` replaced by `p`. */
  function Paint(g: seq<seq<int>>, s: seq<int>, p: int): seq<seq<int>>
    requires OnImage(g, s)
  {
    seq(|g|, r requires 0 <= r < |g| => g[r][s[r] := p])
  }

  /** `g` with the pixel `s[r]` of each row `r` painted blue. */
  function Highlight(g: seq<seq<int>>, s: seq<int>): seq<seq<int>>
    requires OnImage(g, s)
  {
    Paint(g, s, Blue)
  }

  /** `g` with the pixel `s[r]` of each row `r` cut out of the row. */
  function Carve(g: seq<seq<int>>, s: seq<int>): seq<seq<int>>
    requires OnImage(g, s)
  {
    seq(|g|, r requires 0 <= r < |g| => g[r][..s[r]] + g[r][s[r] + 1..])
  }

  /** The pixels a seam goes through, one per row. */
  function SeamPixels(g: seq<seq<int>>, s: seq<int>): seq<int>
    requires OnImage(g, s)
  {
    seq(|g|, r requires 0 <= r < |g| => g[r][s[r]])
  }

  /** `g` with `px[r]` put back into row `r` at column `s[r]`. */
  function Insert(g: seq<seq<int>>, s: seq<int>, px: seq<int>): seq<seq<int>>
    requires |s| >= |g| && |px| >= |g|
    requires forall r :: 0 <= r < |g| ==> 0 <= s[r] <= |g[r]|
  {
    seq(|g|, r requires 0 <= r < |g| => g[r][..s[r]] + [px[r]] + g[r][s[r]..])
  }

  /** `merge`: a fresh copy of the image in which each row's seam pixel is
      blue and every other pixel is the original's. The image is read only. */
  method Merge(image: array2<int>, seam: seq<int>) returns (copy: array2<int>)
    requires image.Length0 >= 1 && OnImage(Cells(image), seam)
    ensures fresh(copy) && copy.Length0 == image.Length0 && copy.Length1 == image.Length1
    ensures forall r, c :: 0 <= r < copy.Length0 && 0 <= c < copy.Length1 ==>
      copy[r, c] == if c == seam[r] then Blue else image[r, c]
    ensures Cells(copy) == Highlight(Cells(image), seam)
  {
    var width := image.Length1;
    var height := image.Length0;
    assert forall r :: 0 <= r < height ==> 0 <= seam[r] < width by {
      forall r | 0 <= r < height ensures 0 <= seam[r] < width {
        assert |Cells(image)[r]| == width;
      }
    }
    copy := new int[height, width];
    for row := 0 to height
      invariant forall r, c :: 0 <= r < row && 0 <= c < width ==> copy[r, c] == image[r, c]
    {
      for col := 0 to width
        invariant forall r, c :: 0 <= r < row && 0 <= c < width ==> copy[r, c] == image[r, c]
        invariant forall c :: 0 <= c < col ==> copy[row, c] == image[row, c]
      {
        copy[row, col] := image[row, col];
      }
    }

    for row := 0 to height
      invariant forall r, c :: 0 <= r < height && 0 <= c < width ==>
        copy[r, c] == if r < row && c == seam[r] then Blue else image[r, c]
    {
      copy[row, seam[row]] := Blue;
    }
    HighlightCells(Cells(image), seam, Cells(copy));
  }

  /** An image whose pixels are those of `g` except for blue on the seam is
      `Highlight(g, s)`. */
  lemma HighlightCells(g: seq<seq<int>>, s: seq<int>, h: seq<seq<int>>)
    requires OnImage(g, s) && |h| == |g|
    requires forall r :: 0 <= r < |g| ==> |h[r]| == |g[r]|
    requires forall r, c :: 0 <= r < |g| && 0 <= c < |g[r]| ==> h[r][c] == if c == s[r] then Blue else g[r][c]
    ensures h == Highlight(g, s)
  {
    forall r | 0 <= r < |g|
      ensures h[r] == Highlight(g, s)[r]
    {
      assert h[r] == g[r][s[r] := Blue];
    }
  }

  /** The first `n` rows of `result` are those of `image` without their
      seam pixels. */
  predicate ShrunkRows(image: array2<int>, seam: seq<int>, result: array2<int>, n: int)
    reads image, result
    requires |seam| >= n && result.Length1 == image.Length1 - 1
    requires n <= result.Length0 && n <= image.Length0
  {
    forall r, c :: 0 <= r < n && 0 <= c < result.Length1 ==>
      (c < seam[r] ==> result[r, c] == image[r, c]) &&
      (seam[r] <= c ==> result[r, c] == image[r, c + 1])
  }

  /** `shrink`: a fresh image one column narrower, each row being the
      original row without its seam pixel: pixels left of the seam keep
      their column, pixels right of it move one column left. The image is
      read only. */
  method Shrink(image: array2<int>, seam: seq<int>) returns (result: array2<int>)
    requires image.Length0 >= 1 && OnImage(Cells(image), seam)
    ensures fresh(result) && result.Length0 == image.Length0 && result.Length1 == image.Length1 - 1
    ensures forall r, c :: 0 <= r < result.Length0 && 0 <= c < result.Length1 ==>
      (c < seam[r] ==> result[r, c] == image[r, c]) && (seam[r] <= c ==> result[r, c] == image[r, c + 1])
    ensures Cells(result) == Carve(Cells(image), seam)
  {
    var width := image.Length1;
    var height := image.Length0;
    assert forall r :: 0 <= r < height ==> 0 <= seam[r] < width by {
      forall r | 0 <= r < height ensures 0 <= seam[r] < width {
        assert |Cells(image)[r]| == width;
      }
    }
    assert 0 <= seam[0] < width;
    result := new int[height, width - 1];
    for row := 0 to height
      invariant ShrunkRows(image, seam, result, row)
    {
      ShrinkRow(image, seam, result, row);
    }
    CarveCells(Cells(image), seam, Cells(result));
  }

  /** Copies row `row` of the image into `result` without its seam pixel:
      the columns left of the seam in place, those right of it one column
      to the left. The other rows are left as they were. */
  method ShrinkRow(image: array2<int>, seam: seq<int>, result: array2<int>, row: int)
    requires result != image && 0 <= row < image.Length0 == result.Length0 && |seam| >= image.Length0
    requires result.Length1 == image.Length1 - 1 && 0 <= seam[row] < image.Length1
    requires ShrunkRows(image, seam, result, row)
    modifies result
    ensures ShrunkRows(image, seam, result, row + 1)
    ensures forall r, c :: row < r < result.Length0 && 0 <= c < result.Length1 ==> result[r, c] == old(result[r, c])
  {
    var width := image.Length1;
    for col := 0 to seam[row]
      invariant ShrunkRows(image, seam, result, row)
      invariant forall r, c :: row < r < result.Length0 && 0 <= c < result.Length1 ==> result[r, c] == old(result[r, c])
      invariant forall c :: 0 <= c < col ==> result[row, c] == image[row, c]
    {
      result[row, col] := image[row, col];
    }
    for col := seam[row] + 1 to width
      invariant ShrunkRows(image, seam, result, row)
      invariant forall r, c :: row < r < result.Length0 && 0 <= c < result.Length1 ==> result[r, c] == old(result[r, c])
      invariant forall c :: 0 <= c < seam[row] ==> result[row, c] == image[row, c]
      invariant forall c :: seam[row] <= c < col - 1 ==> result[row, c] == image[row, c + 1]
    {
      result[row, col - 1] := image[row, col];
    }
  }

  /** An image whose rows are those of `g`, each without its seam pixel, is
      `Carve(g, s)`. */
  lemma CarveCells(g: seq<seq<int>>, s: seq<int>, h: seq<seq<int>>)
    requires OnImage(g, s) && |h| == |g|
    requires forall r :: 0 <= r < |g| ==> |h[r]| == |g[r]| - 1
    requires forall r, c :: 0 <= r < |g| && 0 <= c < |g[r]| - 1 ==>
      (c < s[r] ==> h[r][c] == g[r][c]) && (s[r] <= c ==> h[r][c] == g[r][c + 1])
    ensures h == Carve(g, s)
  {
    forall r | 0 <= r < |g|
      ensures h[r] == Carve(g, s)[r]
    {
      var row := g[r][..s[r]] + g[r][s[r] + 1..];
      assert |row| == |g[r]| - 1;
      forall c | 0 <= c < |row|
        ensures h[r][c] == row[c]
      {
        if c < s[r] {
          assert row[c] == g[r][..s[r]][c];
        } else {
          assert row[c] == g[r][s[r] + 1..][c - s[r]];
        }
      }
    }
  }

  /** Putting the carved pixels back where the seam was restores the image:
      `shrink` loses exactly the seam. */
  lemma CarveRestore(g: seq<seq<int>>, s: seq<int>)
    requires OnImage(g, s)
    ensures Insert(Carve(g, s), s, SeamPixels(g, s)) == g
  {
    var back := Insert(Carve(g, s), s, SeamPixels(g, s));
    forall r | 0 <= r < |g|
      ensures back[r] == g[r]
    {
      var row := g[r];
      assert Carve(g, s)[r] == row[..s[r]] + row[s[r] + 1..];
      assert back[r] == row[..s[r]] + [row[s[r]]] + row[s[r] + 1..];
      assert row == row[..s[r]] + [row[s[r]]] + row[s[r] + 1..];
    }
  }

  /** Carving the seam out of its highlighted copy gives what carving it out
      of the image gives: `merge` touches nothing but the seam. */
  lemma CarveHighlight(g: seq<seq<int>>, s: seq<int>)
    requires OnImage(g, s)
    ensures OnImage(Highlight(g, s), s)
    ensures Carve(Highlight(g, s), s) == Carve(g, s)
  {
    var h := Highlight(g, s);
    forall r | 0 <= r < |g|
      ensures Carve(h, s)[r] == Carve(g, s)[r]
    {
      assert h[r][..s[r]] == g[r][..s[r]];
      assert h[r][s[r] + 1..] == g[r][s[r] + 1..];
    }
  }

  /** Highlighting is idempotent, and the highlighted seam is blue. */
  lemma HighlightTwice(g: seq<seq<int>>, s: seq<int>)
    requires OnImage(g, s)
    ensures OnImage(Highlight(g, s), s)
    ensures Highlight(Highlight(g, s), s) == Highlight(g, s)
    ensures SeamPixels(Highlight(g, s), s) == seq(|g|, _ => Blue)
  {
    var h := Highlight(g, s);
    forall r | 0 <= r < |g|
      ensures Highlight(h, s)[r] == h[r]
    {
      assert h[r][s[r] := Blue] == h[r];
    }
  }
}
