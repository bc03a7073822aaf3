/**
 * Edge-replicating padding of the vertical (z) axis. Arrays are modelled by
 * rank: a 1-D column, a 3-D field, and the 0-D and 2-D shapes the kernel
 * rejects.
 */
module Padding {
  import opened Wrappers

  /** A dense array of rank 0 to 3; a 3-D array records the length of its z axis. */
  datatype NdArray<T> =
    | Scalar(x: T)
    | Vector(v: seq<T>)
    | Matrix(m: seq<seq<T>>)
    | Cube(c: seq<seq<seq<T>>>, depth: nat)
  {
    /** Number of dimensions. */
    function Rank(): nat
    {
      match this
      case Scalar(_) => 0
      case Vector(_) => 1
      case Matrix(_) => 2
      case Cube(_, _) => 3
    }

    /** Every z column of a 3-D array has the recorded length. */
    ghost predicate WellShaped()
    {
      Cube? ==> forall i, j :: 0 <= i < |c| && 0 <= j < |c[i]| ==> |c[i][j]| == depth
    }
  }

  datatype PadError =
    | InvalidRank(rank: nat)   // the kernel's ValueError for 0-D and 2-D input
    | EmptyAxis                // edge mode cannot extend an axis of length zero

  function Clamp(k: int, lo: int, hi: int): (r: int)
    requires lo <= hi
    ensures lo <= r <= hi
    ensures lo <= k <= hi ==> r == k
  {
    if k < lo then lo else if k > hi then hi else k
  }

  /** Pads one column by one cell at each end, replicating the edge values. */
  function PadEdge<T>(v: seq<T>): (r: seq<T>)
    requires |v| > 0
    ensures |r| == |v| + 2
    ensures forall k :: 0 <= k < |r| ==> r[k] == v[Clamp(k - 1, 0, |v| - 1)]
    ensures r[0] == v[0] && r[|v| + 1] == v[|v| - 1]
    ensures r[1..|v| + 1] == v
  {
    [v[0]] + v + [v[|v| - 1]]
  }

  /** Pads every z column of a 3-D array, leaving the two horizontal axes alone. */
  function PadColumns<T>(c: seq<seq<seq<T>>>, depth: nat): (r: seq<seq<seq<T>>>)
    requires depth > 0
    requires forall i, j :: 0 <= i < |c| && 0 <= j < |c[i]| ==> |c[i][j]| == depth
    ensures |r| == |c|
    ensures forall i :: 0 <= i < |c| ==> |r[i]| == |c[i]|
    ensures forall i, j :: 0 <= i < |c| && 0 <= j < |c[i]| ==> |r[i][j]| == depth + 2
    ensures forall i, j, k :: 0 <= i < |c| && 0 <= j < |c[i]| && 0 <= k < depth + 2 ==>
      r[i][j][k] == c[i][j][Clamp(k - 1, 0, depth - 1)]
  {
    seq(|c|, (i: int) requires 0 <= i < |c| =>
      seq(|c[i]|, (j: int) requires 0 <= j < |c[i]| => PadEdge(c[i][j])))
  }

  /**
   * The padding kernel: a 1-D array is padded at both ends, a 3-D array on
   * its third axis only, and any other rank is an error.
   */
  function PadZEdges<T>(a: NdArray<T>): (r: Result<NdArray<T>, PadError>)
    requires a.WellShaped()
    ensures a.Rank() == 0 || a.Rank() == 2 ==> r == Failure(InvalidRank(a.Rank()))
    ensures r.Success? <==> (a.Vector? && |a.v| > 0) || (a.Cube? && a.depth > 0)
    ensures r.Success? ==> r.value.Rank() == a.Rank() && r.value.WellShaped()
    ensures r.Success? && a.Vector? ==>
      var L := |a.v|;
      && |r.value.v| == L + 2
      && r.value.v[0] == a.v[0] && r.value.v[L + 1] == a.v[L - 1]
      && r.value.v[1..L + 1] == a.v
    ensures r.Success? && a.Cube? ==>
      && r.value.depth == a.depth + 2
      && |r.value.c| == |a.c|
      && (forall i :: 0 <= i < |a.c| ==> |r.value.c[i]| == |a.c[i]|)
      && (forall i, j :: 0 <= i < |a.c| && 0 <= j < |a.c[i]| ==>
            && r.value.c[i][j][0] == a.c[i][j][0]
            && r.value.c[i][j][a.depth + 1] == a.c[i][j][a.depth - 1]
            && r.value.c[i][j][1..a.depth + 1] == a.c[i][j])
  {
    match a
    case Vector(v) =>
      if |v| == 0 then Failure(EmptyAxis) else Success(Vector(PadEdge(v)))
    case Cube(c, depth) =>
      if depth == 0 then Failure(EmptyAxis) else Success(Cube(PadColumns(c, depth), depth + 2))
    case _ => Failure(InvalidRank(a.Rank()))
  }

  /** Removes one cell from each end of the z axis: the inverse of the padding. */
  function TrimZEdges<T>(a: NdArray<T>): (r: NdArray<T>)
    requires a.WellShaped()
    requires a.Vector? ==> |a.v| >= 2
    requires a.Cube? ==> a.depth >= 2
    ensures r.Rank() == a.Rank() && r.WellShaped()
    ensures r.Vector? ==> |r.v| == |a.v| - 2
    ensures r.Cube? ==> r.depth == a.depth - 2 && |r.c| == |a.c|
  {
    match a
    case Vector(v) => Vector(v[1..|v| - 1])
    case Cube(c, depth) =>
      Cube(seq(|c|, (i: int) requires 0 <= i < |c| =>
             seq(|c[i]|, (j: int) requires 0 <= j < |c[i]| => c[i][j][1..depth - 1])), depth - 2)
    case _ => a
  }

  /** Padding loses nothing: trimming a padded array gives the original back. */
  lemma TrimAfterPad<T>(a: NdArray<T>)
    requires a.WellShaped()
    ensures PadZEdges(a).Success? ==> TrimZEdges(PadZEdges(a).value) == a
  {
    if PadZEdges(a).Success? {
      var p := PadZEdges(a).value;
      match a
      case Vector(v) =>
      case Cube(c, depth) =>
        var t := TrimZEdges(p);
        forall i | 0 <= i < |c|
          ensures t.c[i] == c[i]
        {
          forall j | 0 <= j < |c[i]|
            ensures t.c[i][j] == c[i][j]
          {
            assert p.c[i][j] == PadEdge(c[i][j]);
          }
        }
    }
  }
}
