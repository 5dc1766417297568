/** Tentative distances of the relaxation in `Seam.path`: the float
    +infinity it starts from, or a finite non-negative cost. */
module Distances {

  datatype Dist = Inf | Fin(n: nat)

  /** `x + c` on floats, where +infinity absorbs any finite cost. */
  function Add(x: Dist, c: nat): Dist
  {
    if x.Inf? then Inf else Fin(x.n + c)
  }

  /** `y > x` on floats: only a finite value is below another, and
      +infinity is not below itself. */
  predicate Less(x: Dist, y: Dist)
  {
    x.Fin? && (y.Inf? || x.n < y.n)
  }

  /** `x <= y` on the same values. */
  predicate AtMost(x: Dist, y: Dist)
  {
    x == y || Less(x, y)
  }

  /** Number of infinite entries. */
  function InfCount(s: seq<Dist>): nat
  {
    if s == [] then 0 else (if s[0].Inf? then 1 else 0) + InfCount(s[1..])
  }

  /** Sum of the finite entries. */
  function FinSum(s: seq<Dist>): nat
  {
    if s == [] then 0 else (if s[0].Fin? then s[0].n else 0) + FinSum(s[1..])
  }

  /** `s` is strictly below `t` in the order (infinite entries, finite sum),
      compared lexicographically; the relaxation loop descends it. */
  predicate Below(s: seq<Dist>, t: seq<Dist>)
  {
    InfCount(s) < InfCount(t) || (InfCount(s) == InfCount(t) && FinSum(s) < FinSum(t))
  }

  /** Replacing one entry changes the count and the sum by that entry alone. */
  lemma {:induction false} UpdateMeasure(s: seq<Dist>, i: int, x: Dist)
    requires 0 <= i < |s|
    ensures InfCount(s[i := x]) + (if s[i].Inf? then 1 else 0) == InfCount(s) + (if x.Inf? then 1 else 0)
    ensures FinSum(s[i := x]) + (if s[i].Fin? then s[i].n else 0) == FinSum(s) + (if x.Fin? then x.n else 0)
  {
    if i > 0 {
      UpdateMeasure(s[1..], i - 1, x);
      assert s[i := x][1..] == s[1..][i - 1 := x];
    }
  }

  /** Lowering one entry strictly, as a successful relaxation does, moves the
      whole vector strictly down the measure. */
  lemma LowerIsBelow(s: seq<Dist>, i: int, x: Dist)
    requires 0 <= i < |s| && Less(x, s[i])
    ensures Below(s[i := x], s)
  {
    UpdateMeasure(s, i, x);
  }
}
