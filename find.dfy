/** `Seam.find`: build the graph of an energy grid, run the shortest-path
    search from SOURCE to SINK, and turn the vertices of the walk into one
    column per row. */
module SeamFinder {
  import opened ShortestPath
  import opened SeamGraph

  /** Two sequences that agree on their first `n` entries and on entry `n`
      agree on their first `n + 1`. */
  lemma PrefixExtend<T>(a: seq<T>, b: seq<T>, n: int)
    requires 0 <= n < |a| && n < |b| && a[..n] == b[..n] && a[n] == b[n]
    ensures a[..n + 1] == b[..n + 1]
  {
    assert a[..n + 1] == a[..n] + [a[n]];
    assert b[..n + 1] == b[..n] + [b[n]];
  }

  /** Two sequences of the same length that agree on their first `n` entries
      and on the last two are equal. */
  lemma PrefixAndLastTwo<T>(a: seq<T>, b: seq<T>, n: int)
    requires |a| == |b| == n + 2 && 0 <= n && a[..n] == b[..n]
    requires a[n] == b[n] && a[n + 1] == b[n + 1]
    ensures a == b
  {
    assert a == a[..n] + [a[n], a[n + 1]];
    assert b == b[..n] + [b[n], b[n + 1]];
  }

  /** SOURCE's list: a `width`-slot array whose first `filled` slots are set
      to their own index. */
  method SourceList(width: int, filled: int) returns (first: seq<int>)
    requires 1 <= filled <= width
    ensures first == SourceSuccessors(width, filled)
  {
    var a := new int[width](_ => 0);
    for i := 0 to filled
      invariant forall k :: 0 <= k < width ==> a[k] == if k < i then k else 0
    {
      a[i] := i;
    }
    first := a[..];
  }

  /** Fills the lists of row `i`: SINK on the last row, otherwise the two
      or three neighbours on the next row, the left edge tested first. The
      array then agrees with the graph up to the end of that row, and the
      later rows, SOURCE's list and SINK's list stay as they were. */
  method FillRow(successor: array<seq<int>>, height: int, width: int, filled: int, i: int)
    requires 1 <= width && 1 <= filled <= width && 0 <= i < height
    requires successor.Length == height * width + 2
    requires 0 <= i * width <= height * width
    requires successor[..i * width] == Graph(height, width, filled)[..i * width]
    modifies successor
    ensures (i + 1) * width <= height * width
    ensures successor[..(i + 1) * width] == Graph(height, width, filled)[..(i + 1) * width]
    ensures forall v :: (i + 1) * width <= v < successor.Length ==> successor[v] == old(successor[v])
  {
    ghost var graph := Graph(height, width, filled);
    var nbPixel := width * height;
    var row := i * width;
    PixelBound(i, width - 1, height, width);
    for j := 0 to width
      invariant successor[..row + j] == graph[..row + j]
      invariant forall v :: row + j <= v < successor.Length ==> successor[v] == old(successor[v])
    {
      PixelVertex(height, width, filled, i, j);
      if i == height - 1 {
        successor[row + j] := [nbPixel + 1];
      } else if j == 0 {
        successor[row + j] := [(i + 1) * width + j, (i + 1) * width + (j + 1)];
      } else if j == width - 1 {
        successor[row + j] := [(i + 1) * width + (j - 1), (i + 1) * width + j];
      } else {
        successor[row + j] := [(i + 1) * width + (j - 1), (i + 1) * width + j, (i + 1) * width + (j + 1)];
      }
      PrefixExtend(successor[..], graph, row + j);
    }
    assert row + width == (i + 1) * width;
  }

  /** The successor array of the grid graph, built list by list. The loop
      over SOURCE's slots runs to `filled` (in `find`, the grid's height). */
  method BuildSuccessors(height: int, width: int, filled: int) returns (g: seq<seq<int>>)
    requires 1 <= height && 1 <= width && 1 <= filled <= width
    ensures g == Graph(height, width, filled)
  {
    ghost var graph := Graph(height, width, filled);
    var nbPixel := width * height;
    assert nbPixel == height * width;
    var successor := new seq<int>[nbPixel + 2];
    successor[nbPixel + 1] := [];
    var first := SourceList(width, filled);
    successor[nbPixel] := first;
    for i := 0 to height
      invariant successor[nbPixel] == graph[nbPixel] && successor[nbPixel + 1] == graph[nbPixel + 1]
      invariant 0 <= i * width <= nbPixel && successor[..i * width] == graph[..i * width]
    {
      FillRow(successor, height, width, filled, i);
    }
    g := successor[..];
    PrefixAndLastTwo(g, graph, nbPixel);
  }

  /** Fills the costs of row `i`, so that the array agrees with the cost
      array up to the end of that row; the later rows and SOURCE's and
      SINK's costs stay as they were. */
  method FillCosts(costs: array<nat>, energy: seq<seq<nat>>, height: int, width: int, i: int)
    requires 1 <= width && IsGrid(energy, height, width) && 0 <= i < height
    requires costs.Length == height * width + 2
    requires 0 <= i * width <= height * width
    requires costs[..i * width] == Costs(energy, height, width)[..i * width]
    modifies costs
    ensures (i + 1) * width <= height * width
    ensures costs[..(i + 1) * width] == Costs(energy, height, width)[..(i + 1) * width]
    ensures forall v :: (i + 1) * width <= v < costs.Length ==> costs[v] == old(costs[v])
  {
    ghost var cost := Costs(energy, height, width);
    var row := i * width;
    PixelBound(i, width - 1, height, width);
    for j := 0 to width
      invariant costs[..row + j] == cost[..row + j]
      invariant forall v :: row + j <= v < costs.Length ==> costs[v] == old(costs[v])
    {
      CostAt(energy, height, width, i, j);
      costs[row + j] := energy[i][j];
      PrefixExtend(costs[..], cost, row + j);
    }
    assert row + width == (i + 1) * width;
  }

  /** The cost array: each pixel's energy, 0 for SOURCE and SINK. */
  method BuildCosts(energy: seq<seq<nat>>, height: int, width: int) returns (c: seq<nat>)
    requires 1 <= height && 1 <= width && IsGrid(energy, height, width)
    ensures c == Costs(energy, height, width)
  {
    ghost var cost := Costs(energy, height, width);
    var nbPixel := width * height;
    assert nbPixel == height * width;
    var costs := new nat[nbPixel + 2](_ => 0);
    costs[nbPixel + 1] := 0;
    costs[nbPixel] := 0;
    for i := 0 to height
      invariant costs[nbPixel] == cost[nbPixel] && costs[nbPixel + 1] == cost[nbPixel + 1]
      invariant 0 <= i * width <= nbPixel && costs[..i * width] == cost[..i * width]
    {
      FillCosts(costs, energy, height, width, i);
    }
    c := costs[..];
    PrefixAndLastTwo(c, cost, nbPixel);
  }

  /** The body of `find`, with the bound of the loop over SOURCE's slots as
      a parameter: the seam returned weighs least among all seams whose
      first column is below that bound. */
  method FindWith(energy: seq<seq<nat>>, filled: int) returns (seam: seq<int>)
    requires |energy| >= 1 && |energy[0]| >= 1 && IsGrid(energy, |energy|, |energy[0]|)
    requires 1 <= filled <= |energy[0]| && (|energy| == 1 || |energy[0]| >= 2)
    ensures IsSeam(|energy|, |energy[0]|, seam) && seam[0] < filled
    ensures forall s :: IsSeam(|energy|, |energy[0]|, s) && s[0] < filled ==>
      SeamEnergy(energy, seam) <= SeamEnergy(energy, s)
  {
    var width := |energy[0]|;
    var height := |energy|;
    var nbPixel := width * height;
    var successor := BuildSuccessors(height, width, filled);
    var costs := BuildCosts(energy, height, width);

    GraphReady(height, width, filled);
    var vertices := Path(successor, costs, nbPixel, nbPixel + 1);
    PathIsSeam(height, width, filled, vertices);

    seam := ColumnsOf(vertices, width);
    PathSeamOptimal(energy, height, width, filled, vertices, seam);
  }

  /** The column of each row's vertex: vertex `p[j + 1]` of the walk is in
      row `j`. */
  method ColumnsOf(vertices: seq<int>, width: int) returns (seam: seq<int>)
    requires |vertices| >= 2
    ensures seam == Columns(width, vertices)
  {
    var columns := new int[|vertices| - 2];
    for j := 0 to |vertices| - 2
      invariant forall k :: 0 <= k < j ==> columns[k] == vertices[k + 1] - k * width
    {
      columns[j] := vertices[j + 1] - j * width;
    }
    seam := columns[..];
  }

  /** The seam of a least-cost SOURCE-to-SINK walk weighs least among the
      seams whose first column is in SOURCE's list. */
  lemma PathSeamOptimal(energy: seq<seq<nat>>, height: nat, width: nat, filled: nat, vertices: seq<int>, seam: seq<int>)
    requires height >= 1 && width >= 1 && 1 <= filled <= width && IsGrid(energy, height, width)
    requires IsSeam(height, width, seam) && seam[0] < filled
    requires vertices == SeamPath(height, width, seam)
    requires IsPath(Graph(height, width, filled), vertices, height * width, height * width + 1)
    requires forall q :: IsPath(Graph(height, width, filled), q, height * width, height * width + 1) ==>
      PathCost(Costs(energy, height, width), vertices) <= PathCost(Costs(energy, height, width), q)
    ensures forall s :: IsSeam(height, width, s) && s[0] < filled ==>
      SeamEnergy(energy, seam) <= SeamEnergy(energy, s)
  {
    var g := Graph(height, width, filled);
    var c := Costs(energy, height, width);
    SeamIsPath(energy, height, width, filled, seam);
    forall s | IsSeam(height, width, s) && s[0] < filled
      ensures SeamEnergy(energy, seam) <= SeamEnergy(energy, s)
    {
      SeamIsPath(energy, height, width, filled, s);
      var q := SeamPath(height, width, s);
      assert IsPath(g, q, height * width, height * width + 1);
      assert PathCost(c, vertices) <= PathCost(c, q);
    }
  }

  /** The graph meets the demands of `Path` from SOURCE to SINK. */
  lemma GraphReady(height: nat, width: nat, filled: nat)
    requires height >= 1 && width >= 1 && 1 <= filled <= width && (height == 1 || width >= 2)
    ensures width * height == height * width
    ensures IsGraph(Graph(height, width, filled)) && Acyclic(Graph(height, width, filled))
    ensures Reachable(Graph(height, width, filled), height * width, height * width + 1)
  {
    GraphIsDag(height, width, filled);
    var zeros := seq(height, _ => 0);
    assert IsSeam(height, width, zeros);
    SeamWalk(height, width, filled, zeros);
    var q := SeamPath(height, width, zeros);
    assert IsPath(Graph(height, width, filled), q, height * width, height * width + 1);
  }

  /** `find` as written: SOURCE's slots are filled up to the grid's height,
      so the grid must be at most as high as it is wide (a higher grid
      writes past SOURCE's list), and the seam returned weighs least among
      the seams that start in a column below the height. */
  method Find(energy: seq<seq<nat>>) returns (seam: seq<int>)
    requires 1 <= |energy| <= |energy[0]| && IsGrid(energy, |energy|, |energy[0]|)
    ensures IsSeam(|energy|, |energy[0]|, seam) && seam[0] < |energy|
    ensures forall s :: IsSeam(|energy|, |energy[0]|, s) && s[0] < |energy| ==>
      SeamEnergy(energy, seam) <= SeamEnergy(energy, s)
  {
    seam := FindWith(energy, |energy|);
  }

  /** On a square grid the seams `Find` chooses among are all the seams. */
  lemma SquareFindIsGlobal(energy: seq<seq<nat>>, seam: seq<int>)
    requires 1 <= |energy| == |energy[0]| && IsGrid(energy, |energy|, |energy[0]|)
    requires IsSeam(|energy|, |energy[0]|, seam)
    requires forall s :: IsSeam(|energy|, |energy[0]|, s) && s[0] < |energy| ==>
      SeamEnergy(energy, seam) <= SeamEnergy(energy, s)
    ensures forall s :: IsSeam(|energy|, |energy[0]|, s) ==> SeamEnergy(energy, seam) <= SeamEnergy(energy, s)
  {
  }

  /** `find` with SOURCE's slots filled up to the width, as its
      documentation ("best seam") intends: the seam returned weighs least
      among all seams. A single-column grid must have one row. */
  method FindCorrected(energy: seq<seq<nat>>) returns (seam: seq<int>)
    requires |energy| >= 1 && |energy[0]| >= 1 && IsGrid(energy, |energy|, |energy[0]|)
    requires |energy| == 1 || |energy[0]| >= 2
    ensures IsSeam(|energy|, |energy[0]|, seam)
    ensures forall s :: IsSeam(|energy|, |energy[0]|, s) ==> SeamEnergy(energy, seam) <= SeamEnergy(energy, s)
  {
    seam := FindWith(energy, |energy[0]|);
  }

  /** On the 1 x 2 grid [[5, 1]], every seam `Find` may return starts in
      column 0 and weighs 5, while the seam [1] weighs 1: SOURCE's list is
      [0, 0] and column 1 is never reached. */
  lemma SourceLoopMissesColumns()
    ensures IsSeam(1, 2, [1]) && SeamEnergy([[5, 1]], [1]) == 1
    ensures forall s :: IsSeam(1, 2, s) && s[0] < 1 ==> SeamEnergy([[5, 1]], s) == 5
  {
    assert [1][..0] == [];
    forall s | IsSeam(1, 2, s) && s[0] < 1
      ensures SeamEnergy([[5, 1]], s) == 5
    {
      assert s == [0];
      assert s[..0] == [];
    }
  }

  /** `find` as written on the grid [[5, 1]]: SOURCE's list is [0, 0], so the
      seam returned is [0], of energy 5, although [1] weighs 1. */
  method FindOneRow() returns (seam: seq<int>)
    ensures seam == [0] && SeamEnergy([[5, 1]], seam) == 5
    ensures IsSeam(1, 2, [1]) && SeamEnergy([[5, 1]], [1]) == 1
  {
    seam := Find([[5, 1]]);
    SourceLoopMissesColumns();
  }

  /** The grid [[1, 9, 9], [9, 1, 9], [9, 9, 1]]. */
  function Diagonal(): seq<seq<nat>>
  {
    [[1, 9, 9], [9, 1, 9], [9, 9, 1]]
  }

  lemma SeamEnergy3(energy: seq<seq<nat>>, s: seq<int>)
    requires IsGrid(energy, 3, 3) && IsSeam(3, 3, s)
    ensures SeamEnergy(energy, s) == energy[0][s[0]] + energy[1][s[1]] + energy[2][s[2]]
  {
    assert s[..3] == s;
    assert s[..2] == s[..3][..2];
    assert SeamEnergy(energy, s[..3]) == SeamEnergy(energy, s[..2]) + energy[2][s[2]];
    assert s[..2][..1] == s[..1];
    assert SeamEnergy(energy, s[..2]) == SeamEnergy(energy, s[..1]) + energy[1][s[1]];
    assert s[..1][..0] == [];
    assert SeamEnergy(energy, s[..1]) == energy[0][s[0]];
  }

  /** On the diagonal grid the seam [0, 1, 2] weighs 3 and every other seam
      weighs at least 11 (the seam [1, 1, 2] weighs exactly 11). */
  lemma DiagonalSeams()
    ensures IsSeam(3, 3, [0, 1, 2]) && SeamEnergy(Diagonal(), [0, 1, 2]) == 3
    ensures IsSeam(3, 3, [1, 1, 2]) && SeamEnergy(Diagonal(), [1, 1, 2]) == 11
    ensures forall s :: IsSeam(3, 3, s) && s != [0, 1, 2] ==> SeamEnergy(Diagonal(), s) >= 11
  {
    SeamEnergy3(Diagonal(), [0, 1, 2]);
    SeamEnergy3(Diagonal(), [1, 1, 2]);
    forall s | IsSeam(3, 3, s) && s != [0, 1, 2]
      ensures SeamEnergy(Diagonal(), s) >= 11
    {
      DiagonalOther(s);
    }
  }

  /** A seam of the diagonal grid that leaves the diagonal goes through at
      least one pixel of energy 9. */
  lemma DiagonalOther(s: seq<int>)
    requires IsSeam(3, 3, s) && s != [0, 1, 2]
    ensures SeamEnergy(Diagonal(), s) >= 11
  {
    SeamEnergy3(Diagonal(), s);
    assert s[0] != 0 || s[1] != 1 || s[2] != 2;
    forall i | 0 <= i < 3
      ensures Diagonal()[i][s[i]] == if s[i] == i then 1 else 9
    {
    }
  }

  /** `Find` on the diagonal grid returns [0, 1, 2]. */
  method FindDiagonal() returns (seam: seq<int>)
    ensures seam == [0, 1, 2] && SeamEnergy(Diagonal(), seam) == 3
  {
    seam := Find(Diagonal());
    DiagonalSeams();
  }
}
