/**
 * Boundary enforcement for a field whose first (x) axis carries a halo of
 * two rows on each side. A field is a sequence of rows along that axis; the
 * row type `T` is opaque, because the kernel only ever moves whole rows.
 */
module Boundaries {

  /**
   * The branch rule of the kernel: no inter-process exchange happens when
   * the x axis holds a single process, when the execution context is not
   * safe for communication, or when the caller asks for a local update.
   */
  predicate StaysLocal(numProcX: int, distSafe: bool, local: bool)
  {
    numProcX == 1 || !distSafe || local
  }

  /** First update of the local wrap: the two high halo rows take the first two interior rows. */
  function WrapHigh<T>(a: seq<T>): (r: seq<T>)
    requires |a| >= 4
    ensures |r| == |a|
    ensures r[|a| - 2] == a[2] && r[|a| - 1] == a[3]
    ensures forall k :: 0 <= k < |a| - 2 ==> r[k] == a[k]
  {
    a[..|a| - 2] + a[2..4]
  }

  /** Second update of the local wrap: the two low halo rows take the last two interior rows. */
  function WrapLow<T>(a: seq<T>): (r: seq<T>)
    requires |a| >= 4
    ensures |r| == |a|
    ensures r[0] == a[|a| - 4] && r[1] == a[|a| - 3]
    ensures forall k :: 2 <= k < |a| ==> r[k] == a[k]
  {
    a[|a| - 4..|a| - 2] + a[2..]
  }

  /**
   * Reference description of a cyclic wrap, cell by cell: `r` is `a` with
   * its high halo copied from the low interior, its low halo copied from the
   * high interior, and every other row left alone.
   */
  ghost predicate WrappedFrom<T>(a: seq<T>, r: seq<T>)
    requires |a| >= 4
  {
    && |r| == |a|
    && r[0] == a[|a| - 4] && r[1] == a[|a| - 3]
    && r[|a| - 2] == a[2] && r[|a| - 1] == a[3]
    && forall k :: 2 <= k < |a| - 2 ==> r[k] == a[k]
  }

  /** The local periodic wrap: the two slice overwrites applied one after the other. */
  function CyclicWrap<T>(a: seq<T>): (r: seq<T>)
    requires |a| >= 4
    ensures WrappedFrom(a, r)
  {
    WrapLow(WrapHigh(a))
  }

  /**
   * The reference description pins the wrap down: any sequence meeting it is
   * the wrap's result (and the wrap's result meets it, by its contract).
   */
  lemma WrapUnique<T>(a: seq<T>, r: seq<T>)
    requires |a| >= 4
    requires WrappedFrom(a, r)
    ensures r == CyclicWrap(a)
  {
  }

  /** A field whose halo rows already agree with the opposite interior rows. */
  ghost predicate CyclicallyConsistent<T>(a: seq<T>)
    requires |a| >= 4
  {
    a[|a| - 2] == a[2] && a[|a| - 1] == a[3] && a[0] == a[|a| - 4] && a[1] == a[|a| - 3]
  }

  /** The wrap leaves a field unchanged exactly when its halo is already consistent. */
  lemma WrapFixesExactlyConsistent<T>(a: seq<T>)
    requires |a| >= 4
    ensures CyclicWrap(a) == a <==> CyclicallyConsistent(a)
  {
  }

  /**
   * The wrap makes the halo consistent, except with five rows, where the
   * halos overlap the rows copied into them. With four rows the wrap is the
   * identity and every field is consistent.
   */
  lemma WrapMakesConsistent<T>(a: seq<T>)
    requires |a| >= 4 && |a| != 5
    ensures CyclicallyConsistent(CyclicWrap(a))
  {
    var n := |a|;
    var w := CyclicWrap(a);
    if n == 4 {
      WrapOfFourRowsIsIdentity(a);
    } else {
      assert w[2] == a[2] && w[3] == a[3];
      assert w[n - 4] == a[n - 4] && w[n - 3] == a[n - 3];
    }
  }

  /** Hence, for those lengths, wrapping twice is the same as wrapping once. */
  lemma WrapIdempotent<T>(a: seq<T>)
    requires |a| >= 4 && |a| != 5
    ensures CyclicWrap(CyclicWrap(a)) == CyclicWrap(a)
  {
    WrapMakesConsistent(a);
    WrapFixesExactlyConsistent(CyclicWrap(a));
  }

  /** With four rows both overwrites copy rows onto themselves. */
  lemma WrapOfFourRowsIsIdentity<T>(a: seq<T>)
    requires |a| == 4
    ensures CyclicWrap(a) == a
  {
  }

  /** With five rows a single wrap does not yet give a consistent field. */
  lemma WrapOfFiveRowsNotConsistent()
    ensures !CyclicallyConsistent(CyclicWrap([0, 1, 2, 3, 4]))
  {
  }

  /**
   * The distributed overlap exchange, seen from one tile: it overwrites rows
   * in place, so row `i` of the result is whatever the exchange delivers for
   * it. The exchange protocol itself is a parameter.
   */
  function Exchanged<T>(a: seq<T>, cyclic: bool, exchange: (seq<T>, bool, nat) -> T): (r: seq<T>)
    ensures |r| == |a|
    ensures forall i :: 0 <= i < |a| ==> r[i] == exchange(a, cyclic, i)
  {
    seq(|a|, (i: nat) => exchange(a, cyclic, i))
  }

  /**
   * The boundary kernel. `numProcX` is the process count along x, `distSafe`
   * whether the context allows communication, `local` the caller's request.
   */
  function EnforceBoundaries<T>(a: seq<T>, cyclic: bool, local: bool, numProcX: int, distSafe: bool,
                                exchange: (seq<T>, bool, nat) -> T): (r: seq<T>)
    requires StaysLocal(numProcX, distSafe, local) && cyclic ==> |a| == 0 || |a| >= 4
    ensures |r| == |a|
    ensures StaysLocal(numProcX, distSafe, local) && !cyclic ==> r == a
    ensures StaysLocal(numProcX, distSafe, local) && cyclic && |a| >= 4 ==> WrappedFrom(a, r)
    ensures !StaysLocal(numProcX, distSafe, local) ==>
      forall i :: 0 <= i < |a| ==> r[i] == exchange(a, cyclic, i)
  {
    if StaysLocal(numProcX, distSafe, local) then
      // an empty field has empty slices: both overwrites do nothing
      if cyclic && |a| > 0 then CyclicWrap(a) else a
    else
      Exchanged(a, cyclic, exchange)
  }

  /** On the local branch the exchange protocol is never consulted. */
  lemma LocalIgnoresExchange<T>(a: seq<T>, cyclic: bool, local: bool, numProcX: int, distSafe: bool,
                                e1: (seq<T>, bool, nat) -> T, e2: (seq<T>, bool, nat) -> T)
    requires StaysLocal(numProcX, distSafe, local)
    requires cyclic ==> |a| == 0 || |a| >= 4
    ensures EnforceBoundaries(a, cyclic, local, numProcX, distSafe, e1)
         == EnforceBoundaries(a, cyclic, local, numProcX, distSafe, e2)
  {
  }

  /**
   * Conversely, off the local branch the result is the exchange's: two
   * exchanges that deliver different rows give different results.
   */
  lemma DistributedUsesExchange<T>(a: seq<T>, cyclic: bool, local: bool, numProcX: int, distSafe: bool,
                                   x: T, y: T)
    requires !StaysLocal(numProcX, distSafe, local)
    requires |a| > 0 && x != y
    ensures EnforceBoundaries(a, cyclic, local, numProcX, distSafe, (_, _, _) => x)
         != EnforceBoundaries(a, cyclic, local, numProcX, distSafe, (_, _, _) => y)
  {
    var rx := EnforceBoundaries(a, cyclic, local, numProcX, distSafe, (_, _, _) => x);
    var ry := EnforceBoundaries(a, cyclic, local, numProcX, distSafe, (_, _, _) => y);
    assert rx[0] == x && ry[0] == y;
  }
}
