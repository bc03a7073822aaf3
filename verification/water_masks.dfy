/**
 * Land and water masks derived from `ks`, the per-column index (counted
 * from 1) of the deepest active level; values below 1 mark land.
 * Level index `k` runs over `0 .. nz - 1`.
 */
module WaterMasks {

  /** The three masks of one horizontal column. */
  datatype ColumnMasks = ColumnMasks(land: bool, water: seq<bool>, edge: seq<bool>)

  /** The three masks of a whole grid, indexed `[i][j]` and `[i][j][k]`. */
  datatype Masks = Masks(land: seq<seq<bool>>, water: seq<seq<seq<bool>>>, edge: seq<seq<seq<bool>>>)

  /** Number of true cells. */
  function Count(s: seq<bool>): (n: nat)
    ensures n <= |s|
  {
    if |s| == 0 then 0 else Count(s[..|s| - 1]) + (if s[|s| - 1] then 1 else 0)
  }

  /** How many of the indices `0 .. n - 1` lie in `lo .. hi - 1`. */
  function Overlap(lo: int, hi: int, n: nat): nat
  {
    var a := if lo < 0 then 0 else lo;
    var b := if hi > n then n else hi;
    if b <= a then 0 else b - a
  }

  /** A mask that is true exactly on an index range has as many true cells as the range covers. */
  lemma {:induction false} CountRange(s: seq<bool>, lo: int, hi: int)
    requires forall k :: 0 <= k < |s| ==> (s[k] <==> lo <= k < hi)
    ensures Count(s) == Overlap(lo, hi, |s|)
  {
    if |s| > 0 {
      var p := s[..|s| - 1];
      assert forall k :: 0 <= k < |p| ==> p[k] == s[k];
      CountRange(p, lo, hi);
    }
  }

  /** Masks of one column with `nz` levels. */
  function Column(ks: int, nz: nat): (m: ColumnMasks)
    ensures m.land <==> ks >= 1
    ensures |m.water| == nz && |m.edge| == nz
    ensures forall k :: 0 <= k < nz ==> (m.water[k] <==> m.land && k >= ks - 1)
    ensures forall k :: 0 <= k < nz ==> (m.edge[k] <==> m.land && k == ks - 1)
  {
    var k0 := ks - 1;
    var land := k0 >= 0;
    ColumnMasks(land, seq(nz, k => land && k >= k0), seq(nz, k => land && k == k0))
  }

  /** Every edge cell is a water cell. */
  lemma EdgeImpliesWater(ks: int, nz: nat, k: nat)
    requires k < nz
    ensures Column(ks, nz).edge[k] ==> Column(ks, nz).water[k]
  {
  }

  /** Once a level is water, every higher level index is water too. */
  lemma WaterMonotone(ks: int, nz: nat, k: nat, k': nat)
    requires k <= k' < nz
    ensures Column(ks, nz).water[k] ==> Column(ks, nz).water[k']
  {
  }

  /** The edge cell is the first water cell: water there and not water just below it. */
  lemma EdgeIsFirstWater(ks: int, nz: nat, k: nat)
    requires k < nz
    ensures var m := Column(ks, nz);
      m.edge[k] <==> m.water[k] && (k == 0 || !m.water[k - 1])
  {
  }

  /** A land column has no water cell and no edge cell. */
  lemma {:induction false} LandColumnDry(ks: int, nz: nat)
    requires ks < 1
    ensures Count(Column(ks, nz).water) == 0
    ensures Count(Column(ks, nz).edge) == 0
  {
    var m := Column(ks, nz);
    CountRange(m.water, 0, 0);
    CountRange(m.edge, 0, 0);
  }

  /**
   * Exactly one edge cell, at level `ks - 1`, when that level exists;
   * none otherwise (land, or `ks` beyond the column).
   */
  lemma {:induction false} EdgeCount(ks: int, nz: nat)
    ensures Count(Column(ks, nz).edge) == if 1 <= ks <= nz then 1 else 0
    ensures 1 <= ks <= nz ==> Column(ks, nz).edge[ks - 1]
  {
    var m := Column(ks, nz);
    if ks >= 1 {
      CountRange(m.edge, ks - 1, ks);
    } else {
      LandColumnDry(ks, nz);
    }
  }

  /** A water column has water on the levels from `ks - 1` up to `nz - 1`. */
  lemma {:induction false} WaterCount(ks: int, nz: nat)
    requires ks >= 1
    ensures Count(Column(ks, nz).water) == if ks - 1 < nz then nz - (ks - 1) else 0
  {
    CountRange(Column(ks, nz).water, ks - 1, nz);
  }

  /** The masks of a grid: each column's masks, laid out like `ks`. */
  function CreateWaterMasks(ks: seq<seq<int>>, nz: nat): (m: Masks)
    ensures |m.land| == |ks| && |m.water| == |ks| && |m.edge| == |ks|
    ensures forall i :: 0 <= i < |ks| ==>
      |m.land[i]| == |ks[i]| && |m.water[i]| == |ks[i]| && |m.edge[i]| == |ks[i]|
    ensures forall i, j :: 0 <= i < |ks| && 0 <= j < |ks[i]| ==>
      Column(ks[i][j], nz) == ColumnMasks(m.land[i][j], m.water[i][j], m.edge[i][j])
  {
    Masks(
      seq(|ks|, (i: int) requires 0 <= i < |ks| =>
        seq(|ks[i]|, (j: int) requires 0 <= j < |ks[i]| => Column(ks[i][j], nz).land)),
      seq(|ks|, (i: int) requires 0 <= i < |ks| =>
        seq(|ks[i]|, (j: int) requires 0 <= j < |ks[i]| => Column(ks[i][j], nz).water)),
      seq(|ks|, (i: int) requires 0 <= i < |ks| =>
        seq(|ks[i]|, (j: int) requires 0 <= j < |ks[i]| => Column(ks[i][j], nz).edge)))
  }

  /** The grid invariants: edge implies water cell by cell, one floor cell per reachable water column, dry land. */
  lemma GridInvariants(ks: seq<seq<int>>, nz: nat)
    ensures var m := CreateWaterMasks(ks, nz);
      && (forall i, j :: 0 <= i < |ks| && 0 <= j < |ks[i]| ==> (m.land[i][j] <==> ks[i][j] >= 1))
      && (forall i, j, k :: 0 <= i < |ks| && 0 <= j < |ks[i]| && 0 <= k < nz ==>
            (m.edge[i][j][k] ==> m.water[i][j][k]))
      && (forall i, j :: 0 <= i < |ks| && 0 <= j < |ks[i]| ==>
            Count(m.edge[i][j]) == if 1 <= ks[i][j] <= nz then 1 else 0)
      && (forall i, j :: 0 <= i < |ks| && 0 <= j < |ks[i]| && !m.land[i][j] ==>
            Count(m.water[i][j]) == 0)
  {
    var m := CreateWaterMasks(ks, nz);
    forall i, j | 0 <= i < |ks| && 0 <= j < |ks[i]|
      ensures Count(m.edge[i][j]) == if 1 <= ks[i][j] <= nz then 1 else 0
      ensures !m.land[i][j] ==> Count(m.water[i][j]) == 0
    {
      EdgeCount(ks[i][j], nz);
      if !m.land[i][j] {
        LandColumnDry(ks[i][j], nz);
      }
    }
  }
}
