/**
 * The injection step of the implicit vertical solve, for one column: the
 * optional floor terms are added to the diagonal and the right-hand side
 * where the edge mask is set, and the system is handed to a tridiagonal
 * solver, which is a parameter here. A floor term is given per cell, as the
 * elementwise product with the edge mask allows; a single value for the
 * whole column is the uniform case.
 */
module Implicit {
  import opened Wrappers
  import WaterMasks

  /** One column's banded system with its masks. */
  datatype Tridiagonal = Tridiagonal(
    lower: seq<real>, diag: seq<real>, upper: seq<real>, rhs: seq<real>,
    water: seq<bool>, edge: seq<bool>)

  /** A present term has one value per cell of the column. */
  predicate Fits(term: Option<seq<real>>, n: nat)
  {
    term.Some? ==> |term.value| == n
  }

  /** Adds `term`, when present, to the entries of `x` where `edge` holds. */
  function AddAtEdge(x: seq<real>, edge: seq<bool>, term: Option<seq<real>>): (r: seq<real>)
    requires |edge| == |x| && Fits(term, |x|)
    ensures |r| == |x|
    ensures term.None? ==> r == x
    ensures term.Some? ==> forall k :: 0 <= k < |x| ==>
      r[k] == (if edge[k] then x[k] + term.value[k] else x[k])
    ensures term.Some? ==> forall k :: 0 <= k < |x| && term.value[k] != 0.0 ==> (r[k] != x[k] <==> edge[k])
  {
    match term
    case None => x
    case Some(t) => seq(|x|, (k: int) requires 0 <= k < |x| => x[k] + (if edge[k] then t[k] else 0.0))
  }

  function Sum(x: seq<real>): real
  {
    if |x| == 0 then 0.0 else Sum(x[..|x| - 1]) + x[|x| - 1]
  }

  /** The sum of the entries of `t` at the cells where `edge` holds. */
  function EdgeSum(t: seq<real>, edge: seq<bool>): real
    requires |edge| == |t|
  {
    if |t| == 0 then 0.0
    else EdgeSum(t[..|t| - 1], edge[..|t| - 1]) + (if edge[|t| - 1] then t[|t| - 1] else 0.0)
  }

  /** `n` copies of `t` added up. */
  function Times(n: nat, t: real): real
  {
    if n == 0 then 0.0 else Times(n - 1, t) + t
  }

  /** The same value in each of `n` cells: a term given once for the whole column. */
  function Uniform(t: real, n: nat): (r: seq<real>)
    ensures |r| == n
    ensures forall k :: 0 <= k < n ==> r[k] == t
  {
    seq(n, _ => t)
  }

  /** The injected total is the sum of the term over the edge cells. */
  lemma {:induction false} AddAtEdgeSum(x: seq<real>, edge: seq<bool>, t: seq<real>)
    requires |edge| == |x| && |t| == |x|
    ensures Sum(AddAtEdge(x, edge, Some(t))) == Sum(x) + EdgeSum(t, edge)
  {
    var r := AddAtEdge(x, edge, Some(t));
    if |x| > 0 {
      var n := |x| - 1;
      assert r[..n] == AddAtEdge(x[..n], edge[..n], Some(t[..n]));
      AddAtEdgeSum(x[..n], edge[..n], t[..n]);
      assert Sum(r) == Sum(r[..n]) + r[n];
      assert Sum(x) == Sum(x[..n]) + x[n];
    } else {
      assert r == [];
    }
  }

  /** A term given once per column adds that value once per edge cell. */
  lemma {:induction false} UniformEdgeSum(t: real, edge: seq<bool>)
    ensures EdgeSum(Uniform(t, |edge|), edge) == Times(WaterMasks.Count(edge), t)
  {
    if |edge| > 0 {
      var n := |edge| - 1;
      assert Uniform(t, |edge|)[..n] == Uniform(t, n);
      UniformEdgeSum(t, edge[..n]);
    }
  }

  /** With a single edge cell `c`, the edge sum is the term's value there. */
  lemma {:induction false} OneHotEdgeSum(t: seq<real>, edge: seq<bool>, c: int)
    requires |edge| == |t|
    requires forall k :: 0 <= k < |edge| ==> (edge[k] <==> k == c)
    ensures EdgeSum(t, edge) == if 0 <= c < |t| then t[c] else 0.0
  {
    if |t| > 0 {
      var n := |t| - 1;
      var e := edge[..n];
      assert forall k :: 0 <= k < |e| ==> e[k] == edge[k];
      OneHotEdgeSum(t[..n], e, c);
    }
  }

  function Negate(t: seq<real>): (r: seq<real>)
    ensures |r| == |t|
    ensures forall k :: 0 <= k < |t| ==> r[k] + t[k] == 0.0
  {
    seq(|t|, (k: int) requires 0 <= k < |t| => -t[k])
  }

  /** Adding the negated term undoes an injection. */
  lemma AddAtEdgeInverse(x: seq<real>, edge: seq<bool>, t: seq<real>)
    requires |edge| == |x| && |t| == |x|
    ensures AddAtEdge(AddAtEdge(x, edge, Some(t)), edge, Some(Negate(t))) == x
  {
  }

  /** The system as the solver receives it, after the floor terms are injected. */
  function InjectEdges(a: seq<real>, b: seq<real>, c: seq<real>, d: seq<real>,
                       water: seq<bool>, edge: seq<bool>,
                       bEdge: Option<seq<real>>, dEdge: Option<seq<real>>): (s: Tridiagonal)
    requires |b| == |edge| && |d| == |edge|
    requires Fits(bEdge, |edge|) && Fits(dEdge, |edge|)
    ensures s.lower == a && s.upper == c && s.water == water && s.edge == edge
    ensures |s.diag| == |b| && |s.rhs| == |d|
    ensures forall k :: 0 <= k < |b| ==>
      s.diag[k] == b[k] + (if edge[k] && bEdge.Some? then bEdge.value[k] else 0.0)
    ensures forall k :: 0 <= k < |d| ==>
      s.rhs[k] == d[k] + (if edge[k] && dEdge.Some? then dEdge.value[k] else 0.0)
  {
    Tridiagonal(a, AddAtEdge(b, edge, bEdge), c, AddAtEdge(d, edge, dEdge), water, edge)
  }

  /** The implicit solve: inject the floor terms, then solve the banded system. */
  function SolveImplicit(a: seq<real>, b: seq<real>, c: seq<real>, d: seq<real>,
                         water: seq<bool>, edge: seq<bool>,
                         bEdge: Option<seq<real>>, dEdge: Option<seq<real>>,
                         solve: Tridiagonal -> seq<real>): (r: seq<real>)
    requires |b| == |edge| && |d| == |edge|
    requires Fits(bEdge, |edge|) && Fits(dEdge, |edge|)
    ensures bEdge.None? && dEdge.None? ==> r == solve(Tridiagonal(a, b, c, d, water, edge))
  {
    solve(InjectEdges(a, b, c, d, water, edge, bEdge, dEdge))
  }

  /**
   * With masks built from `ks`, an injection shifts exactly the floor entry
   * `ks - 1` of a water column and nothing else.
   */
  lemma InjectionAtFloorOnly(x: seq<real>, ks: int, t: seq<real>)
    requires 1 <= ks <= |x| && |t| == |x|
    ensures var r := AddAtEdge(x, WaterMasks.Column(ks, |x|).edge, Some(t));
      && r[ks - 1] == x[ks - 1] + t[ks - 1]
      && forall k :: 0 <= k < |x| && k != ks - 1 ==> r[k] == x[k]
  {
  }

  /**
   * With masks built from `ks`, a column receives the term's value at its
   * floor cell if it is a water column whose floor lies in it, and nothing otherwise.
   */
  lemma {:induction false} InjectedTotal(x: seq<real>, ks: int, t: seq<real>)
    requires |t| == |x|
    ensures Sum(AddAtEdge(x, WaterMasks.Column(ks, |x|).edge, Some(t)))
         == Sum(x) + (if 1 <= ks <= |x| then t[ks - 1] else 0.0)
  {
    var m := WaterMasks.Column(ks, |x|);
    AddAtEdgeSum(x, m.edge, t);
    OneHotEdgeSum(t, m.edge, if ks >= 1 then ks - 1 else -1);
  }

  /** A term given once per column is added once per edge cell. */
  lemma {:induction false} UniformInjectedTotal(x: seq<real>, edge: seq<bool>, t: real)
    requires |edge| == |x|
    ensures Sum(AddAtEdge(x, edge, Some(Uniform(t, |x|)))) == Sum(x) + Times(WaterMasks.Count(edge), t)
  {
    AddAtEdgeSum(x, edge, Uniform(t, |x|));
    UniformEdgeSum(t, edge);
  }

  /** A land column reaches the solver untouched, whatever floor terms are given. */
  lemma LandColumnInert(a: seq<real>, b: seq<real>, c: seq<real>, d: seq<real>, ks: int,
                        bEdge: Option<seq<real>>, dEdge: Option<seq<real>>, solve: Tridiagonal -> seq<real>)
    requires ks < 1 && |b| == |d|
    requires Fits(bEdge, |b|) && Fits(dEdge, |b|)
    ensures var m := WaterMasks.Column(ks, |b|);
      SolveImplicit(a, b, c, d, m.water, m.edge, bEdge, dEdge, solve)
        == solve(Tridiagonal(a, b, c, d, m.water, m.edge))
  {
    var m := WaterMasks.Column(ks, |b|);
    var s := InjectEdges(a, b, c, d, m.water, m.edge, bEdge, dEdge);
    assert s.diag == b;
    assert s.rhs == d;
  }
}
