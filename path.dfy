/** `Seam.path`: label-correcting shortest path over a vertex-weighted graph
    given as successor lists, by full relaxation passes until a pass changes
    nothing, then a walk back along the predecessors. */
module ShortestPath {
  import opened Distances

  /** Every successor list names vertices of the graph. */
  predicate IsGraph(succ: seq<seq<int>>)
  {
    forall v, k :: 0 <= v < |succ| && 0 <= k < |succ[v]| ==> 0 <= succ[v][k] < |succ|
  }

  /** `rank` numbers the vertices so that every edge goes strictly up. */
  ghost predicate Ranks(succ: seq<seq<int>>, rank: seq<nat>)
  {
    |rank| == |succ| &&
    forall v, k :: 0 <= v < |succ| && 0 <= k < |succ[v]| ==>
      0 <= succ[v][k] < |succ| && rank[v] < rank[succ[v][k]]
  }

  ghost predicate Acyclic(succ: seq<seq<int>>)
  {
    exists rank :: Ranks(succ, rank)
  }

  /** `q` is a walk from `from` to `to` along the successor lists. */
  predicate IsPath(succ: seq<seq<int>>, q: seq<int>, from: int, to: int)
  {
    |q| >= 1 && q[0] == from && q[|q| - 1] == to &&
    (forall k :: 0 <= k < |q| ==> 0 <= q[k] < |succ|) &&
    (forall k :: 1 <= k < |q| ==> q[k] in succ[q[k - 1]])
  }

  ghost predicate Reachable(succ: seq<seq<int>>, from: int, to: int)
  {
    exists q :: IsPath(succ, q, from, to)
  }

  /** Sum of the costs of all vertices of `q`, the first one included. */
  function PathCost(costs: seq<nat>, q: seq<int>): nat
    requires forall k :: 0 <= k < |q| ==> 0 <= q[k] < |costs|
  {
    if q == [] then 0 else PathCost(costs, q[..|q| - 1]) + costs[q[|q| - 1]]
  }

  /** The test of the relaxation: going through `v` strictly lowers the
      distance of its successor `n`. */
  predicate Improves(d: seq<Dist>, costs: seq<nat>, v: int, n: int)
    requires 0 <= v < |d| && 0 <= n < |d| && |costs| == |d|
  {
    Less(Add(d[v], costs[n]), d[n])
  }

  /** The relaxation of the edge `v -> n` on distances `d` and predecessors
      `p`: when going through `v` is strictly shorter, `n` gets the distance
      `d[v] + costs[n]` and the predecessor `v`; otherwise nothing changes. */
  function RelaxEdge(costs: seq<nat>, d: seq<Dist>, p: seq<int>, v: int, n: int): (r: (seq<Dist>, seq<int>))
    requires 0 <= v < |d| && 0 <= n < |d| && |costs| == |d| && |p| == |d|
    ensures |r.0| == |d| && |r.1| == |d|
    ensures Improves(d, costs, v, n) ==> r.0[n] == Add(d[v], costs[n]) && r.1[n] == v
    ensures forall x :: 0 <= x < |d| && x != n ==> r.0[x] == d[x] && r.1[x] == p[x]
    ensures !Improves(d, costs, v, n) ==> r == (d, p)
  {
    if Improves(d, costs, v, n) then (d[n := Add(d[v], costs[n])], p[n := v]) else (d, p)
  }

  /** The first `k` edges out of `v` relaxed one after the other, in the
      order of `v`'s successor list. */
  function Edges(succ: seq<seq<int>>, costs: seq<nat>, d: seq<Dist>, p: seq<int>, v: int, k: int): (r: (seq<Dist>, seq<int>))
    requires IsGraph(succ) && |costs| == |succ| && |d| == |succ| && |p| == |succ|
    requires 0 <= v < |succ| && 0 <= k <= |succ[v]|
    ensures |r.0| == |succ| && |r.1| == |succ|
    decreases k
  {
    if k == 0 then (d, p)
    else
      var s := Edges(succ, costs, d, p, v, k - 1);
      RelaxEdge(costs, s.0, s.1, v, succ[v][k - 1])
  }

  /** The edges out of the vertices `0 .. u - 1` relaxed vertex by vertex,
      in increasing vertex order. */
  function Pass(succ: seq<seq<int>>, costs: seq<nat>, d: seq<Dist>, p: seq<int>, u: int): (r: (seq<Dist>, seq<int>))
    requires IsGraph(succ) && |costs| == |succ| && |d| == |succ| && |p| == |succ|
    requires 0 <= u <= |succ|
    ensures |r.0| == |succ| && |r.1| == |succ|
    decreases u
  {
    if u == 0 then (d, p)
    else
      var s := Pass(succ, costs, d, p, u - 1);
      Edges(succ, costs, s.0, s.1, u - 1, |succ[u - 1]|)
  }

  /** No edge can be relaxed any more: the state in which the passes stop. */
  ghost predicate Stable(succ: seq<seq<int>>, costs: seq<nat>, d: seq<Dist>)
  {
    IsGraph(succ) && |costs| == |succ| && |d| == |succ| &&
    forall v, k :: 0 <= v < |succ| && 0 <= k < |succ[v]| ==> !Improves(d, costs, v, succ[v][k])
  }

  /** What the relaxation keeps true of the distances `d` and the
      predecessors `p` (-1 for none). */
  ghost predicate Inv(succ: seq<seq<int>>, costs: seq<nat>, from: int, d: seq<Dist>, p: seq<int>)
  {
    IsGraph(succ) && |costs| == |succ| && |d| == |succ| && |p| == |succ| &&
    0 <= from < |succ| &&
    d[from] == Fin(costs[from]) && p[from] == -1 &&
    (forall x :: 0 <= x < |succ| && d[x].Fin? ==> costs[from] <= d[x].n) &&
    (forall x {:trigger p[x]} :: 0 <= x < |succ| && x != from && d[x].Fin? ==> p[x] != -1) &&
    (forall x {:trigger p[x]} :: 0 <= x < |succ| && p[x] != -1 ==>
       0 <= p[x] < |succ| && x in succ[p[x]] && d[x].Fin? && d[p[x]].Fin? &&
       d[p[x]].n + costs[x] <= d[x].n)
  }

  lemma EdgeRank(succ: seq<seq<int>>, rank: seq<nat>, u: int, x: int)
    requires Ranks(succ, rank) && 0 <= u < |succ| && x in succ[u]
    ensures 0 <= x < |succ| && rank[u] < rank[x]
  {
    var k :| 0 <= k < |succ[u]| && succ[u][k] == x;
  }

  lemma ExtendPath(succ: seq<seq<int>>, q: seq<int>, from: int, u: int, x: int)
    requires IsPath(succ, q, from, u) && 0 <= x < |succ| && x in succ[u]
    ensures IsPath(succ, q + [x], from, x)
  {
  }

  lemma TruncatePath(succ: seq<seq<int>>, q: seq<int>, from: int, x: int)
    requires IsPath(succ, q, from, x) && |q| >= 2
    ensures IsPath(succ, q[..|q| - 1], from, q[|q| - 2]) && x in succ[q[|q| - 2]]
  {
  }

  /** A successful relaxation of `v -> n` keeps the invariant, never touches
      `from`, and moves the distances strictly down the termination measure. */
  lemma RelaxKeepsInv(succ: seq<seq<int>>, costs: seq<nat>, from: int, d: seq<Dist>, p: seq<int>, v: int, n: int)
    requires Inv(succ, costs, from, d, p)
    requires 0 <= v < |succ| && 0 <= n < |succ| && n in succ[v] && Improves(d, costs, v, n)
    ensures n != from
    ensures Inv(succ, costs, from, d[n := Add(d[v], costs[n])], p[n := v])
    ensures Progress(d[n := Add(d[v], costs[n])], p[n := v], d, p, true)
  {
    LowerIsBelow(d, n, Add(d[v], costs[n]));
  }

  /** The vertices met walking the predecessors back from `x` to `from`,
      in forward order. */
  ghost function Chain(succ: seq<seq<int>>, costs: seq<nat>, from: int, d: seq<Dist>, p: seq<int>,
                       rank: seq<nat>, x: int): seq<int>
    requires Inv(succ, costs, from, d, p) && Ranks(succ, rank)
    requires 0 <= x < |succ| && d[x].Fin?
    decreases rank[x]
  {
    if x == from then [from]
    else
      EdgeRank(succ, rank, p[x], x);
      Chain(succ, costs, from, d, p, rank, p[x]) + [x]
  }

  /** The predecessor chain is a walk from `from` to `x`. */
  lemma {:induction false} ChainIsPath(succ: seq<seq<int>>, costs: seq<nat>, from: int, d: seq<Dist>, p: seq<int>,
                                       rank: seq<nat>, x: int)
    requires Inv(succ, costs, from, d, p) && Ranks(succ, rank)
    requires 0 <= x < |succ| && d[x].Fin?
    ensures IsPath(succ, Chain(succ, costs, from, d, p, rank, x), from, x)
    decreases rank[x]
  {
    if x != from {
      EdgeRank(succ, rank, p[x], x);
      ChainIsPath(succ, costs, from, d, p, rank, p[x]);
      ExtendPath(succ, Chain(succ, costs, from, d, p, rank, p[x]), from, p[x], x);
    }
  }

  /** Once no edge can be relaxed, the predecessor chain costs exactly the
      recorded distance. */
  lemma {:induction false} ChainCost(succ: seq<seq<int>>, costs: seq<nat>, from: int, d: seq<Dist>, p: seq<int>,
                                     rank: seq<nat>, x: int)
    requires Inv(succ, costs, from, d, p) && Ranks(succ, rank) && Stable(succ, costs, d)
    requires 0 <= x < |succ| && d[x].Fin?
    ensures IsPath(succ, Chain(succ, costs, from, d, p, rank, x), from, x)
    ensures PathCost(costs, Chain(succ, costs, from, d, p, rank, x)) == d[x].n
    decreases rank[x]
  {
    ChainIsPath(succ, costs, from, d, p, rank, x);
    var c := Chain(succ, costs, from, d, p, rank, x);
    if x == from {
      assert c[..0] == [];
    } else {
      var u := p[x];
      EdgeRank(succ, rank, u, x);
      ChainCost(succ, costs, from, d, p, rank, u);
      var cu := Chain(succ, costs, from, d, p, rank, u);
      assert c == cu + [x];
      assert c[..|c| - 1] == cu;
      var k :| 0 <= k < |succ[u]| && succ[u][k] == x;
      assert !Improves(d, costs, u, succ[u][k]);
    }
  }

  /** Once no edge can be relaxed, every walk from `from` to `x` costs at
      least the recorded distance of `x`, which is therefore finite. */
  lemma {:induction false} StableBound(succ: seq<seq<int>>, costs: seq<nat>, from: int, d: seq<Dist>, p: seq<int>,
                                       q: seq<int>, x: int)
    requires Inv(succ, costs, from, d, p) && Stable(succ, costs, d)
    requires IsPath(succ, q, from, x)
    ensures d[x].Fin? && d[x].n <= PathCost(costs, q)
    decreases |q|
  {
    if |q| == 1 {
      assert q[..0] == [];
    } else {
      var y := q[|q| - 2];
      TruncatePath(succ, q, from, x);
      StableBound(succ, costs, from, d, p, q[..|q| - 1], y);
      var k :| 0 <= k < |succ[y]| && succ[y][k] == x;
      assert !Improves(d, costs, y, succ[y][k]);
    }
  }

  /** How the state `(d, p)` stands to an earlier `(d0, p0)`: distances never
      grew, a predecessor changed only where its distance strictly dropped,
      and the measure fell strictly exactly when something was `changed`. */
  ghost predicate Progress(d: seq<Dist>, p: seq<int>, d0: seq<Dist>, p0: seq<int>, changed: bool)
  {
    |d| == |d0| && |p| == |p0| && |p| == |d| &&
    (changed ==> Below(d, d0)) &&
    (!changed ==> d == d0 && p == p0) &&
    (forall x :: 0 <= x < |d| ==> AtMost(d[x], d0[x])) &&
    (forall x :: 0 <= x < |p| && p[x] != p0[x] ==> Less(d[x], d0[x]))
  }

  lemma ProgressTrans(d2: seq<Dist>, p2: seq<int>, d1: seq<Dist>, p1: seq<int>, d0: seq<Dist>, p0: seq<int>,
                      m1: bool, m2: bool)
    requires Progress(d1, p1, d0, p0, m1) && Progress(d2, p2, d1, p1, m2)
    ensures Progress(d2, p2, d0, p0, m1 || m2)
  {
    forall x | 0 <= x < |p2| && p2[x] != p0[x]
      ensures Less(d2[x], d0[x])
    {
      if p2[x] != p1[x] {
        assert Less(d2[x], d1[x]) && AtMost(d1[x], d0[x]);
      } else {
        assert AtMost(d2[x], d1[x]) && Less(d1[x], d0[x]);
      }
    }
    forall x | 0 <= x < |d2|
      ensures AtMost(d2[x], d0[x])
    {
      assert AtMost(d2[x], d1[x]) && AtMost(d1[x], d0[x]);
    }
  }

  /** The relaxation of the edge `v -> n`: the distance and the predecessor
      of `n` are overwritten exactly when going through `v` is strictly
      shorter. */
  method Relax(succ: seq<seq<int>>, costs: seq<nat>, from: int, dist: array<Dist>, pred: array<int>, v: int, n: int)
    returns (lowered: bool)
    requires Inv(succ, costs, from, dist[..], pred[..]) && 0 <= v < |succ| && n in succ[v]
    modifies dist, pred
    ensures Inv(succ, costs, from, dist[..], pred[..])
    ensures Progress(dist[..], pred[..], old(dist[..]), old(pred[..]), lowered)
    ensures lowered == Improves(old(dist[..]), costs, v, n)
    ensures lowered ==> dist[..] == old(dist[..])[n := Add(old(dist[v]), costs[n])] && pred[..] == old(pred[..])[n := v]
    ensures !lowered ==> dist[..] == old(dist[..]) && pred[..] == old(pred[..])
    ensures (dist[..], pred[..]) == RelaxEdge(costs, old(dist[..]), old(pred[..]), v, n)
  {
    var candidate := Add(dist[v], costs[n]);
    lowered := Less(candidate, dist[n]);
    if lowered {
      ghost var d1, p1 := dist[..], pred[..];
      RelaxKeepsInv(succ, costs, from, d1, p1, v, n);
      dist[n] := candidate;
      pred[n] := v;
      assert dist[..] == d1[n := candidate] && pred[..] == p1[n := v];
    }
  }

  /** The relaxations of the edges out of one vertex `v` (the inner loop of
      a pass). */
  method RelaxSuccessors(succ: seq<seq<int>>, costs: seq<nat>, from: int, dist: array<Dist>, pred: array<int>, v: int)
    returns (changed: bool)
    requires Inv(succ, costs, from, dist[..], pred[..]) && 0 <= v < |succ|
    modifies dist, pred
    ensures Inv(succ, costs, from, dist[..], pred[..])
    ensures Progress(dist[..], pred[..], old(dist[..]), old(pred[..]), changed)
    ensures !changed ==> forall k :: 0 <= k < |succ[v]| ==> !Improves(dist[..], costs, v, succ[v][k])
    ensures (dist[..], pred[..]) == Edges(succ, costs, old(dist[..]), old(pred[..]), v, |succ[v]|)
  {
    ghost var d0, p0 := dist[..], pred[..];
    changed := false;
    for k := 0 to |succ[v]|
      invariant Inv(succ, costs, from, dist[..], pred[..])
      invariant (dist[..], pred[..]) == Edges(succ, costs, d0, p0, v, k)
      invariant Progress(dist[..], pred[..], d0, p0, changed)
      invariant !changed ==> NoneImproves(succ, costs, d0, v, k)
    {
      ghost var d1, p1 := dist[..], pred[..];
      var lowered := Relax(succ, costs, from, dist, pred, v, succ[v][k]);
      ProgressTrans(dist[..], pred[..], d1, p1, d0, p0, changed, lowered);
      if lowered {
        changed := true;
      } else if !changed {
        assert d1 == d0;
        NoneImprovesNext(succ, costs, d0, v, k);
      }
    }
  }

  /** No edge among the first `k` out of `v` can be relaxed. */
  ghost predicate NoneImproves(succ: seq<seq<int>>, costs: seq<nat>, d: seq<Dist>, v: int, k: int)
  {
    IsGraph(succ) && |costs| == |succ| && |d| == |succ| && 0 <= v < |succ| && k <= |succ[v]| &&
    forall j :: 0 <= j < k ==> !Improves(d, costs, v, succ[v][j])
  }

  lemma NoneImprovesNext(succ: seq<seq<int>>, costs: seq<nat>, d: seq<Dist>, v: int, k: int)
    requires NoneImproves(succ, costs, d, v, k) && 0 <= k < |succ[v]|
    requires !Improves(d, costs, v, succ[v][k])
    ensures NoneImproves(succ, costs, d, v, k + 1)
  {
  }

  /** One full pass over every vertex and every edge, vertices in
      increasing order (`Pass`). A distance or a
      predecessor is overwritten only on a strict decrease, so distances
      never grow and an equal-cost alternative never replaces a recorded
      predecessor; a pass that changes nothing leaves no edge to relax. */
  method RelaxPass(succ: seq<seq<int>>, costs: seq<nat>, from: int, dist: array<Dist>, pred: array<int>)
    returns (modified: bool)
    requires Inv(succ, costs, from, dist[..], pred[..])
    modifies dist, pred
    ensures Inv(succ, costs, from, dist[..], pred[..])
    ensures Progress(dist[..], pred[..], old(dist[..]), old(pred[..]), modified)
    ensures !modified ==> Stable(succ, costs, dist[..])
    ensures (dist[..], pred[..]) == Pass(succ, costs, old(dist[..]), old(pred[..]), |succ|)
  {
    ghost var d0, p0 := dist[..], pred[..];
    ghost var trace := [(d0, p0)];
    modified := false;
    for v := 0 to |succ|
      invariant Inv(succ, costs, from, dist[..], pred[..])
      invariant Progress(dist[..], pred[..], d0, p0, modified)
      invariant !modified ==> StableBefore(succ, costs, d0, v)
      invariant IsTrace(succ, costs, trace, v) && trace[0] == (d0, p0) && trace[v] == (dist[..], pred[..])
    {
      ghost var d1, p1 := dist[..], pred[..];
      var changed := RelaxSuccessors(succ, costs, from, dist, pred, v);
      TraceNext(succ, costs, trace, v, (dist[..], pred[..]));
      trace := trace + [(dist[..], pred[..])];
      ProgressTrans(dist[..], pred[..], d1, p1, d0, p0, modified, changed);
      if !modified && !changed {
        StableNext(succ, costs, d0, v);
      }
      modified := modified || changed;
    }
    TraceIsPass(succ, costs, trace, |succ|);
  }

  /** `trace[i + 1]` is `trace[i]` with the edges out of vertex `i` relaxed,
      for every vertex `i` below `v`. */
  ghost predicate IsTrace(succ: seq<seq<int>>, costs: seq<nat>, trace: seq<(seq<Dist>, seq<int>)>, v: int)
  {
    IsGraph(succ) && |costs| == |succ| && 0 <= v <= |succ| && |trace| == v + 1 &&
    (forall i :: 0 <= i <= v ==> |trace[i].0| == |succ| && |trace[i].1| == |succ|) &&
    forall i :: 0 <= i < v ==> trace[i + 1] == Edges(succ, costs, trace[i].0, trace[i].1, i, |succ[i]|)
  }

  /** Appending the state after the edges out of vertex `v` extends the
      trace by one vertex. */
  lemma TraceNext(succ: seq<seq<int>>, costs: seq<nat>, trace: seq<(seq<Dist>, seq<int>)>, v: int,
                  s: (seq<Dist>, seq<int>))
    requires IsTrace(succ, costs, trace, v) && v < |succ|
    requires s == Edges(succ, costs, trace[v].0, trace[v].1, v, |succ[v]|)
    ensures IsTrace(succ, costs, trace + [s], v + 1) && (trace + [s])[0] == trace[0] && (trace + [s])[v + 1] == s
  {
  }

  /** A trace over the first `v` vertices ends in `Pass`. */
  lemma {:induction false} TraceIsPass(succ: seq<seq<int>>, costs: seq<nat>, trace: seq<(seq<Dist>, seq<int>)>, v: int)
    requires IsTrace(succ, costs, trace, v)
    ensures trace[v] == Pass(succ, costs, trace[0].0, trace[0].1, v)
  {
    if v > 0 {
      TraceIsPass(succ, costs, trace[..v], v - 1);
    }
  }

  /** No edge out of a vertex below `v` can be relaxed. */
  ghost predicate StableBefore(succ: seq<seq<int>>, costs: seq<nat>, d: seq<Dist>, v: int)
  {
    IsGraph(succ) && |costs| == |succ| && |d| == |succ| && v <= |succ| &&
    forall u, k :: 0 <= u < v && 0 <= k < |succ[u]| ==> !Improves(d, costs, u, succ[u][k])
  }

  lemma StableNext(succ: seq<seq<int>>, costs: seq<nat>, d: seq<Dist>, v: int)
    requires StableBefore(succ, costs, d, v) && 0 <= v < |succ|
    requires forall k :: 0 <= k < |succ[v]| ==> !Improves(d, costs, v, succ[v][k])
    ensures StableBefore(succ, costs, d, v + 1)
  {
  }

  /** The number of vertices on the walk back from `to` along the
      predecessors (the first loop of the walk back). */
  method WalkLength(succ: seq<seq<int>>, costs: seq<nat>, from: int, to: int, predecessor: array<int>,
                    ghost d: seq<Dist>, ghost rank: seq<nat>) returns (count: int)
    requires Inv(succ, costs, from, d, predecessor[..]) && Ranks(succ, rank)
    requires 0 <= to < |succ| && d[to].Fin?
    ensures count == |Chain(succ, costs, from, d, predecessor[..], rank, to)|
  {
    ghost var pr := predecessor[..];
    var last := to;
    count := 1;
    while last != from
      invariant 0 <= last < |succ| && d[last].Fin?
      invariant count + |Chain(succ, costs, from, d, pr, rank, last)| == |Chain(succ, costs, from, d, pr, rank, to)| + 1
      decreases rank[last]
    {
      assert predecessor[last] == pr[last];
      EdgeRank(succ, rank, pr[last], last);
      last := predecessor[last];
      count := count + 1;
    }
  }

  /** The walk back from `to` along the predecessors: its length is counted,
      then an array of that length is filled from its end. */
  method WalkBack(succ: seq<seq<int>>, costs: seq<nat>, from: int, to: int, predecessor: array<int>,
                  ghost d: seq<Dist>, ghost rank: seq<nat>) returns (p: seq<int>)
    requires Inv(succ, costs, from, d, predecessor[..]) && Ranks(succ, rank)
    requires 0 <= to < |succ| && d[to].Fin?
    ensures p == Chain(succ, costs, from, d, predecessor[..], rank, to)
  {
    ghost var pr := predecessor[..];
    ghost var chain := Chain(succ, costs, from, d, pr, rank, to);
    var count := WalkLength(succ, costs, from, to, predecessor, d, rank);
    var a := new int[count];
    a[count - 1] := to;
    var current := to;
    for i := 1 to count
      invariant 0 <= current < |succ| && d[current].Fin?
      invariant Chain(succ, costs, from, d, pr, rank, current) == chain[..count - i + 1]
      invariant forall k :: count - i <= k < count ==> a[k] == chain[k]
    {
      ghost var back := ChainPrefix(succ, costs, from, d, pr, rank, chain, current, count - i);
      a[count - i - 1] := predecessor[current];
      current := predecessor[current];
    }
    p := a[..];
  }

  /** If the chain of `x` is the first `m + 1` vertices of `chain`, with
      `m >= 1`, then the chain of its predecessor is the first `m`. */
  lemma ChainPrefix(succ: seq<seq<int>>, costs: seq<nat>, from: int, d: seq<Dist>, p: seq<int>,
                    rank: seq<nat>, chain: seq<int>, x: int, m: int) returns (back: int)
    requires Inv(succ, costs, from, d, p) && Ranks(succ, rank)
    requires 0 <= x < |succ| && d[x].Fin? && 1 <= m < |chain|
    requires Chain(succ, costs, from, d, p, rank, x) == chain[..m + 1]
    ensures back == p[x] && 0 <= back < |succ| && d[back].Fin?
    ensures Chain(succ, costs, from, d, p, rank, back) == chain[..m] && chain[m - 1] == back
  {
    back := ChainBack(succ, costs, from, d, p, rank, x);
    assert chain[..m + 1][..m] == chain[..m];
  }

  /** A chain longer than one vertex ends with the chain of the predecessor
      followed by the vertex itself. */
  lemma ChainBack(succ: seq<seq<int>>, costs: seq<nat>, from: int, d: seq<Dist>, p: seq<int>,
                  rank: seq<nat>, x: int) returns (back: int)
    requires Inv(succ, costs, from, d, p) && Ranks(succ, rank)
    requires 0 <= x < |succ| && d[x].Fin? && |Chain(succ, costs, from, d, p, rank, x)| >= 2
    ensures back == p[x] && 0 <= back < |succ| && d[back].Fin?
    ensures Chain(succ, costs, from, d, p, rank, x) == Chain(succ, costs, from, d, p, rank, back) + [x]
  {
    back := p[x];
    assert x != from;
    EdgeRank(succ, rank, back, x);
  }

  /** The shortest walk from `from` to `to`, costs counted on every vertex,
      `from` included. The graph must be acyclic and `to` reachable: on an
      unreachable `to` the walk back would follow predecessor -1. */
  method Path(succ: seq<seq<int>>, costs: seq<nat>, from: int, to: int) returns (p: seq<int>)
    requires IsGraph(succ) && |costs| == |succ|
    requires 0 <= from < |succ| && 0 <= to < |succ|
    requires Acyclic(succ)
    requires Reachable(succ, from, to)
    ensures IsPath(succ, p, from, to)
    ensures forall q :: IsPath(succ, q, from, to) ==> PathCost(costs, p) <= PathCost(costs, q)
  {
    ghost var rank :| Ranks(succ, rank);
    var distance := new Dist[|succ|];
    var predecessor := new int[|succ|];
    for v := 0 to |succ|
      invariant forall x :: 0 <= x < v ==> distance[x] == Inf && predecessor[x] == -1
    {
      distance[v] := Inf;
      predecessor[v] := -1;
    }
    distance[from] := Fin(costs[from]);
    var modified := true;
    while modified
      invariant Inv(succ, costs, from, distance[..], predecessor[..])
      invariant !modified ==> Stable(succ, costs, distance[..])
      decreases modified, InfCount(distance[..]), FinSum(distance[..])
    {
      modified := RelaxPass(succ, costs, from, distance, predecessor);
    }

    ghost var d, pr := distance[..], predecessor[..];
    assert Inv(succ, costs, from, d, pr) && Stable(succ, costs, d);
    ghost var w0 :| IsPath(succ, w0, from, to);
    StableBound(succ, costs, from, d, pr, w0, to);
    ChainCost(succ, costs, from, d, pr, rank, to);
    ghost var chain := Chain(succ, costs, from, d, pr, rank, to);

    p := WalkBack(succ, costs, from, to, predecessor, d, rank);
    assert p == chain;
    forall q | IsPath(succ, q, from, to)
      ensures PathCost(costs, p) <= PathCost(costs, q)
    {
      StableBound(succ, costs, from, d, pr, q, to);
    }
  }
}
