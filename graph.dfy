/** The implicit graph `Seam.find` builds over an H x W energy grid: pixel
    (i, j) is vertex `i * W + j`, SOURCE is `H * W`, SINK is `H * W + 1`;
    and seams, the per-row column sequences its SOURCE-to-SINK walks stand for. */
module SeamGraph {
  import opened ShortestPath

  /** `energy` has `h` rows of `w` entries each. */
  predicate IsGrid(energy: seq<seq<nat>>, h: int, w: int)
  {
    |energy| == h && forall i :: 0 <= i < h ==> |energy[i]| == w
  }

  /** SOURCE's list: `new int[w]`, whose first `filled` slots are set to
      their own index and whose other slots keep 0. */
  function SourceSuccessors(w: nat, filled: nat): seq<int>
  {
    seq(w, k => if k < filled then k else 0)
  }

  /** The list of pixel (i, j): SINK on the last row, otherwise the pixels
      of row i + 1 in columns j - 1, j, j + 1 clipped at both edges (the
      left edge tested first). */
  function PixelSuccessors(h: int, w: int, i: int, j: int): seq<int>
  {
    if i == h - 1 then [h * w + 1]
    else if j == 0 then [(i + 1) * w + j, (i + 1) * w + (j + 1)]
    else if j == w - 1 then [(i + 1) * w + (j - 1), (i + 1) * w + j]
    else [(i + 1) * w + (j - 1), (i + 1) * w + j, (i + 1) * w + (j + 1)]
  }

  function Successors(h: nat, w: nat, filled: nat, v: int): seq<int>
    requires w > 0
  {
    if v == h * w + 1 then []
    else if v == h * w then SourceSuccessors(w, filled)
    else PixelSuccessors(h, w, v / w, v % w)
  }

  /** The whole successor array, `h * w + 2` lists. */
  function Graph(h: nat, w: nat, filled: nat): seq<seq<int>>
    requires w > 0
  {
    seq(h * w + 2, v => Successors(h, w, filled, v))
  }

  /** Cost of vertex `v`: the pixel's energy, 0 for SOURCE and SINK. */
  function VertexCost(energy: seq<seq<nat>>, h: nat, w: nat, v: int): nat
    requires w > 0 && IsGrid(energy, h, w) && 0 <= v
  {
    if v < h * w then Split(v, h, w); energy[v / w][v % w] else 0
  }

  /** The cost array, `h * w + 2` entries. */
  function Costs(energy: seq<seq<nat>>, h: nat, w: nat): seq<nat>
    requires w > 0 && IsGrid(energy, h, w)
  {
    seq(h * w + 2, v requires 0 <= v => VertexCost(energy, h, w, v))
  }

  /** A vertical seam of an h x w grid: one column per row, each in range,
      adjacent rows at most one column apart. */
  predicate IsSeam(h: int, w: int, s: seq<int>)
  {
    |s| == h &&
    (forall i :: 0 <= i < h ==> 0 <= s[i] < w) &&
    (forall i :: 1 <= i < h ==> -1 <= s[i] - s[i - 1] <= 1)
  }

  /** Total energy of the pixels a seam (or a prefix of one) goes through. */
  function SeamEnergy(energy: seq<seq<nat>>, s: seq<int>): nat
    requires |s| <= |energy| && forall i :: 0 <= i < |s| ==> 0 <= s[i] < |energy[i]|
  {
    if s == [] then 0 else SeamEnergy(energy, s[..|s| - 1]) + energy[|s| - 1][s[|s| - 1]]
  }

  /** The pixel vertices of the rows a seam prefix goes through. */
  function Pixels(w: int, s: seq<int>): seq<int>
  {
    seq(|s|, i requires 0 <= i < |s| => i * w + s[i])
  }

  /** The SOURCE-to-SINK walk that a seam stands for. */
  function SeamPath(h: int, w: int, s: seq<int>): seq<int>
  {
    [h * w] + Pixels(w, s) + [h * w + 1]
  }

  /** Vertex `i * w + j` is pixel (i, j). */
  lemma RowCol(i: int, j: int, w: int)
    requires 0 <= i && 0 <= j < w
    ensures (i * w + j) / w == i && (i * w + j) % w == j
  {
    var q := (i * w + j) / w;
    if q < i {
      MulLe(q + 1, i, w);
    } else if q > i {
      MulLe(i + 1, q, w);
    }
  }

  lemma MulLe(a: int, b: int, w: int)
    requires 0 <= a <= b && 0 <= w
    ensures a * w <= b * w
  {
  }

  /** Pixel (i, j) of an h x w grid is a vertex below SOURCE. */
  lemma PixelBound(i: int, j: int, h: int, w: int)
    requires 0 <= i < h && 0 <= j < w
    ensures 0 <= i * w + j < h * w
  {
    MulLe(i + 1, h, w);
    assert (i + 1) * w == i * w + w;
  }

  /** A vertex below SOURCE is a pixel of the grid. */
  lemma Split(v: int, h: int, w: int)
    requires 0 <= v < h * w && w > 0
    ensures 0 <= v / w < h && 0 <= v % w < w && v == (v / w) * w + v % w
  {
    if v / w >= h {
      MulLe(h, v / w, w);
    }
  }

  /** The cost stored for pixel (i, j) is its energy. */
  lemma CostAt(energy: seq<seq<nat>>, h: nat, w: nat, i: int, j: int)
    requires w >= 1 && IsGrid(energy, h, w) && 0 <= i < h && 0 <= j < w
    ensures 0 <= i * w + j < h * w && Costs(energy, h, w)[i * w + j] == energy[i][j]
  {
    PixelBound(i, j, h, w);
    RowCol(i, j, w);
  }

  /** The list stored for pixel (i, j) is `PixelSuccessors(h, w, i, j)`. */
  lemma PixelVertex(h: nat, w: nat, filled: nat, i: int, j: int)
    requires 0 <= i < h && 0 <= j < w
    ensures 0 <= i * w + j < h * w
    ensures Successors(h, w, filled, i * w + j) == PixelSuccessors(h, w, i, j)
  {
    PixelBound(i, j, h, w);
    RowCol(i, j, w);
  }

  /** Every edge out of a pixel above the last row reaches the next row,
      at most one column left or right. */
  lemma {:induction false} PixelStep(h: int, w: int, i: int, j: int, x: int)
    requires 0 <= i < h - 1 && 0 <= j < w && w >= 2
    requires x in PixelSuccessors(h, w, i, j)
    ensures 0 <= x - (i + 1) * w < w && -1 <= x - (i + 1) * w - j <= 1
  {
  }

  /** Conversely every pixel of the next row at most one column away is a
      successor. */
  lemma {:induction false} PixelStepBack(h: int, w: int, i: int, j: int, j': int)
    requires 0 <= i < h - 1 && 0 <= j < w && 0 <= j' < w && -1 <= j' - j <= 1
    ensures (i + 1) * w + j' in PixelSuccessors(h, w, i, j)
  {
    var s := PixelSuccessors(h, w, i, j);
    if j == 0 {
      assert s[j' - j] == (i + 1) * w + j';
    } else if j == w - 1 {
      assert s[j' - j + 1] == (i + 1) * w + j';
    } else {
      assert s[j' - j + 1] == (i + 1) * w + j';
    }
  }

  /** The numbering that makes the graph a DAG: SOURCE 0, pixels of row i
      get i + 1, SINK gets h + 1. */
  function Rank(h: nat, w: nat, v: int): nat
    requires w > 0 && 0 <= v
  {
    if v == h * w then 0 else if v == h * w + 1 then h + 1 else v / w + 1
  }

  /** Every list names vertices of the graph, and every edge goes strictly up
      in rows, SOURCE first and SINK last. Only the slot bound `1 <= filled <= w`
      of SOURCE is needed, and a grid of one column must have one row (else
      the left-edge list of that column would name column 1). */
  lemma {:induction false} GraphIsDag(h: nat, w: nat, filled: nat)
    requires h >= 1 && w >= 1 && 1 <= filled <= w && (h == 1 || w >= 2)
    ensures IsGraph(Graph(h, w, filled))
    ensures Ranks(Graph(h, w, filled), seq(h * w + 2, v requires 0 <= v => Rank(h, w, v)))
    ensures Acyclic(Graph(h, w, filled))
  {
    var g := Graph(h, w, filled);
    var rank := seq(h * w + 2, v requires 0 <= v => Rank(h, w, v));
    forall v, k | 0 <= v < |g| && 0 <= k < |g[v]|
      ensures 0 <= g[v][k] < |g| && rank[v] < rank[g[v][k]]
    {
      var x := g[v][k];
      if v == h * w {
        assert 0 <= x < w;
        PixelBound(0, x, h, w);
        RowCol(0, x, w);
      } else if v < h * w {
        Split(v, h, w);
        var i, j := v / w, v % w;
        assert g[v] == PixelSuccessors(h, w, i, j);
        if i < h - 1 {
          PixelStep(h, w, i, j, x);
          PixelBound(i + 1, x - (i + 1) * w, h, w);
          RowCol(i + 1, x - (i + 1) * w, w);
        }
      }
    }
    assert Ranks(g, rank);
  }

  /** A seam whose first column is in SOURCE's list is a SOURCE-to-SINK walk
      of the graph, and the walk costs what the seam's pixels weigh. */
  lemma SeamIsPath(energy: seq<seq<nat>>, h: nat, w: nat, filled: nat, s: seq<int>)
    requires h >= 1 && w >= 1 && 1 <= filled <= w && IsGrid(energy, h, w)
    requires IsSeam(h, w, s) && s[0] < filled
    ensures IsPath(Graph(h, w, filled), SeamPath(h, w, s), h * w, h * w + 1)
    ensures PathCost(Costs(energy, h, w), SeamPath(h, w, s)) == SeamEnergy(energy, s)
  {
    SeamWalk(h, w, filled, s);
    SeamInRange(h, w, s);
    SeamCost(energy, h, w, s, h);
    var q := SeamPath(h, w, s);
    assert s[..h] == s;
    assert q[..|q| - 1] == [h * w] + Pixels(w, s);
  }

  /** The walk of a seam starting in a filled slot follows the edges. */
  lemma SeamWalk(h: nat, w: nat, filled: nat, s: seq<int>)
    requires h >= 1 && w >= 1 && 1 <= filled <= w
    requires IsSeam(h, w, s) && s[0] < filled
    ensures IsPath(Graph(h, w, filled), SeamPath(h, w, s), h * w, h * w + 1)
  {
    var g := Graph(h, w, filled);
    var q := SeamPath(h, w, s);
    SeamInRange(h, w, s);
    SeamPathAt(h, w, s);
    forall k | 1 <= k < |q|
      ensures q[k] in g[q[k - 1]]
    {
      if k == 1 {
        assert g[q[0]] == SourceSuccessors(w, filled);
        assert g[q[0]][s[0]] == s[0];
      } else {
        var i := k - 2;
        assert q[k - 1] == i * w + s[i];
        if i < h - 1 {
          assert q[k] == (i + 1) * w + s[i + 1];
          PixelEdge(h, w, filled, i, s[i], s[i + 1], q[k - 1], q[k]);
        } else {
          assert q[k] == h * w + 1;
          LastEdge(h, w, filled, s[i], q[k - 1]);
        }
      }
    }
  }

  /** The walk of a seam: SOURCE, then pixel (k, s[k]) at position k + 1,
      then SINK. */
  lemma SeamPathAt(h: nat, w: int, s: seq<int>)
    requires |s| == h
    ensures |SeamPath(h, w, s)| == h + 2
    ensures SeamPath(h, w, s)[0] == h * w && SeamPath(h, w, s)[h + 1] == h * w + 1
    ensures forall k :: 0 <= k < h ==> SeamPath(h, w, s)[k + 1] == k * w + s[k]
  {
    forall k | 0 <= k < h
      ensures SeamPath(h, w, s)[k + 1] == k * w + s[k]
    {
      assert SeamPath(h, w, s)[k + 1] == Pixels(w, s)[k];
    }
  }

  /** Pixel (i, j), vertex `u`, has an edge to each pixel of the next row
      at most one column away. */
  lemma PixelEdge(h: nat, w: nat, filled: nat, i: int, j: int, j': int, u: int, x: int)
    requires 0 <= i < h - 1 && 0 <= j < w && 0 <= j' < w && -1 <= j' - j <= 1
    requires u == i * w + j && x == (i + 1) * w + j'
    ensures 0 <= u < h * w
    ensures x in Graph(h, w, filled)[u]
  {
    PixelVertex(h, w, filled, i, j);
    PixelStepBack(h, w, i, j, j');
  }

  /** Pixel (h - 1, j) of the last row, vertex `u`, has an edge to SINK. */
  lemma LastEdge(h: nat, w: nat, filled: nat, j: int, u: int)
    requires h >= 1 && 0 <= j < w && u == (h - 1) * w + j
    ensures 0 <= u < h * w
    ensures h * w + 1 in Graph(h, w, filled)[u]
  {
    PixelVertex(h, w, filled, h - 1, j);
    assert Graph(h, w, filled)[u] == [h * w + 1];
  }

  /** Every pixel a seam goes through is a vertex below SOURCE. */
  lemma SeamInRange(h: nat, w: nat, s: seq<int>)
    requires IsSeam(h, w, s)
    ensures forall i :: 0 <= i < h ==> 0 <= i * w + s[i] < h * w
  {
    forall i | 0 <= i < h
      ensures 0 <= i * w + s[i] < h * w
    {
      PixelBound(i, s[i], h, w);
    }
  }

  /** The walk `[SOURCE] + Pixels(s[..k])` costs what the seam's first k
      pixels weigh. */
  lemma {:induction false} SeamCost(energy: seq<seq<nat>>, h: nat, w: nat, s: seq<int>, k: nat)
    requires w >= 1 && IsGrid(energy, h, w) && IsSeam(h, w, s) && k <= h
    requires forall i :: 0 <= i < h ==> 0 <= i * w + s[i] < h * w
    ensures PathCost(Costs(energy, h, w), [h * w] + Pixels(w, s[..k])) == SeamEnergy(energy, s[..k])
  {
    if k == 0 {
      assert ([h * w] + Pixels(w, s[..0]))[..0] == [];
    } else {
      SeamCost(energy, h, w, s, k - 1);
      CostAt(energy, h, w, k - 1, s[k - 1]);
      SeamCostStep(Costs(energy, h, w), energy, h, w, s, k);
    }
  }

  /** One more row adds the cost of its seam pixel to the walk and its
      energy to the seam prefix. */
  lemma SeamCostStep(c: seq<nat>, energy: seq<seq<nat>>, h: nat, w: nat, s: seq<int>, k: nat)
    requires IsGrid(energy, h, w) && IsSeam(h, w, s) && 1 <= k <= h && |c| == h * w + 2
    requires forall i :: 0 <= i < h ==> 0 <= i * w + s[i] < h * w
    requires c[(k - 1) * w + s[k - 1]] == energy[k - 1][s[k - 1]]
    requires PathCost(c, [h * w] + Pixels(w, s[..k - 1])) == SeamEnergy(energy, s[..k - 1])
    ensures PathCost(c, [h * w] + Pixels(w, s[..k])) == SeamEnergy(energy, s[..k])
  {
    var prev := [h * w] + Pixels(w, s[..k - 1]);
    var cur := [h * w] + Pixels(w, s[..k]);
    assert cur == prev + [(k - 1) * w + s[k - 1]];
    assert cur[..|cur| - 1] == prev;
    assert s[..k][..k - 1] == s[..k - 1];
  }

  /** Row by row, a SOURCE-to-SINK walk goes through one pixel of each row:
      its k-th vertex is in row k - 1, its first pixel is in one of SOURCE's
      filled slots, and consecutive pixels are at most one column apart. */
  lemma {:induction false} PathRows(h: nat, w: nat, filled: nat, p: seq<int>, k: int)
    requires h >= 1 && w >= 1 && 1 <= filled <= w && (h == 1 || w >= 2)
    requires IsPath(Graph(h, w, filled), p, h * w, h * w + 1)
    requires 1 <= k <= h
    ensures k < |p| - 1 && 0 <= p[k] - (k - 1) * w < w
    ensures k == 1 ==> p[1] < filled
    ensures k >= 2 ==> -1 <= (p[k] - (k - 1) * w) - (p[k - 1] - (k - 2) * w) <= 1
    decreases k
  {
    var g := Graph(h, w, filled);
    if k == 1 {
      assert g[p[0]] == SourceSuccessors(w, filled);
      assert p[1] in SourceSuccessors(w, filled);
      var slot :| 0 <= slot < w && SourceSuccessors(w, filled)[slot] == p[1];
      PixelBound(0, p[1], h, w);
    } else {
      PathRows(h, w, filled, p, k - 1);
      var j := p[k - 1] - (k - 2) * w;
      PixelVertex(h, w, filled, k - 2, j);
      PixelStep(h, w, k - 2, j, p[k]);
      PixelBound(k - 1, p[k] - (k - 1) * w, h, w);
    }
  }

  /** The walk ends right after the last row, at SINK. */
  lemma PathLength(h: nat, w: nat, filled: nat, p: seq<int>)
    requires h >= 1 && w >= 1 && 1 <= filled <= w && (h == 1 || w >= 2)
    requires IsPath(Graph(h, w, filled), p, h * w, h * w + 1)
    ensures |p| == h + 2
  {
    var g := Graph(h, w, filled);
    PathRows(h, w, filled, p, h);
    var j := p[h] - (h - 1) * w;
    PixelVertex(h, w, filled, h - 1, j);
    assert p[h + 1] == h * w + 1;
    forall k | 0 <= k < |p| - 1
      ensures p[k] != h * w + 1
    {
      assert p[k + 1] in g[p[k]];
    }
  }

  /** The seam a walk stands for: the column of its k+1-th vertex in row k. */
  function Columns(w: int, p: seq<int>): seq<int>
    requires |p| >= 2
  {
    seq(|p| - 2, j requires 0 <= j < |p| - 2 => p[j + 1] - j * w)
  }

  /** Every SOURCE-to-SINK walk is the walk of a seam starting in one of
      SOURCE's filled slots, namely of the seam of its columns. */
  lemma PathIsSeam(h: nat, w: nat, filled: nat, p: seq<int>)
    requires h >= 1 && w >= 1 && 1 <= filled <= w && (h == 1 || w >= 2)
    requires IsPath(Graph(h, w, filled), p, h * w, h * w + 1)
    ensures |p| == h + 2
    ensures IsSeam(h, w, Columns(w, p)) && Columns(w, p)[0] < filled
    ensures p == SeamPath(h, w, Columns(w, p))
  {
    PathLength(h, w, filled, p);
    var s := Columns(w, p);
    forall k | 1 <= k <= h
      ensures 0 <= s[k - 1] < w && p[k] == (k - 1) * w + s[k - 1]
      ensures k >= 2 ==> -1 <= s[k - 1] - s[k - 2] <= 1
    {
      PathRows(h, w, filled, p, k);
    }
    PathRows(h, w, filled, p, 1);
    assert IsSeam(h, w, s);
    WalkOfColumns(h, w, p, s);
  }

  /** A walk from SOURCE to SINK whose k-th vertex is pixel (k - 1, s[k - 1])
      is the walk of the seam `s`. */
  lemma WalkOfColumns(h: nat, w: nat, p: seq<int>, s: seq<int>)
    requires |p| == h + 2 && |s| == h && p[0] == h * w && p[h + 1] == h * w + 1
    requires forall k :: 1 <= k <= h ==> p[k] == (k - 1) * w + s[k - 1]
    ensures p == SeamPath(h, w, s)
  {
    var q := SeamPath(h, w, s);
    forall k | 0 <= k < |p|
      ensures p[k] == q[k]
    {
      if 1 <= k <= h {
        assert q[k] == Pixels(w, s)[k - 1];
      }
    }
  }
}
