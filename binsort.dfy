// A model of the binary search `srch` in demo/binsort.c.
//
// The C routine takes a pointer to `alen` ints, sorted in non-decreasing
// order, and a target. It narrows a half-open window [base, limit) that holds
// every index whose element equals the target, and returns either an index of
// such an element or `alen` itself as the "not found" sentinel.
//
// The C types are kept, with the widths of an LP64 platform (C itself fixes
// neither): elements and target are 32-bit `int`, and the window bounds,
// the midpoint and the result are 64-bit `size_t`. Every arithmetic step on
// a `size_t` is therefore checked not to wrap.

module BinSort {

  /** C's `size_t`, unsigned 64-bit on an LP64 platform. */
  newtype SizeT = x: int | 0 <= x < 0x1_0000_0000_0000_0000

  /** C's `int`, signed 32-bit on an LP64 platform. */
  newtype Int32 = x: int | -0x8000_0000 <= x < 0x8000_0000

  /** The caller's precondition: the elements are in non-decreasing order. */
  ghost predicate Sorted(s: seq<Int32>)
  {
    forall i, j :: 0 <= i < j < |s| ==> s[i] <= s[j]
  }

  /** Strictly increasing: every value occurs at most once. */
  ghost predicate StrictlySorted(s: seq<Int32>)
  {
    forall i, j :: 0 <= i < j < |s| ==> s[i] < s[j]
  }

  // ---------------------------------------------------------------------
  // The midpoint
  // ---------------------------------------------------------------------

  /**
   * The midpoint of a non-empty window, as a mathematical integer. It lies
   * inside the window, and the window left on either side of it is at most
   * half as long as the window itself, so the search makes progress; see
   * ProbesBound for the number of passes this gives.
   */
  function Midpoint(base: nat, limit: nat): (i: nat)
    requires base < limit
    ensures base <= i < limit
    ensures 2 * (i - base) <= limit - base
    ensures 2 * (limit - (i + 1)) <= limit - base
  {
    base + (limit - base) / 2
  }

  /**
   * The midpoint as the C code computes it, in `size_t` arithmetic: first
   * `limit - base`, then halved, then added to `base`. Because the operands
   * are of type SizeT, each step is checked not to leave the range of
   * `size_t`; the result agrees with the mathematical midpoint, so no
   * wrap-around happens for any window of `size_t` bounds.
   */
  function MidpointSizeT(base: SizeT, limit: SizeT): (i: SizeT)
    requires base < limit
    ensures i as int == Midpoint(base as int, limit as int)
    ensures base <= i < limit
  {
    base + (limit - base) / 2
  }

  // ---------------------------------------------------------------------
  // Discarding half of the window
  // ---------------------------------------------------------------------

  /**
   * In a sorted sequence, an element below the target rules out its own
   * index and every index before it.
   */
  lemma NoMatchUpTo(s: seq<Int32>, target: Int32, i: nat)
    requires Sorted(s)
    requires i < |s| && s[i] < target
    ensures forall j :: 0 <= j <= i ==> s[j] != target
  {
  }

  /**
   * In a sorted sequence, an element above the target rules out its own
   * index and every index after it.
   */
  lemma NoMatchFrom(s: seq<Int32>, target: Int32, i: nat)
    requires Sorted(s)
    requires i < |s| && s[i] > target
    ensures forall j :: i <= j < |s| ==> s[j] != target
  {
  }

  // ---------------------------------------------------------------------
  // The search as a function of the window
  // ---------------------------------------------------------------------

  /**
   * What one run of the loop computes from the window [base, limit): the
   * same three-way comparison at the midpoint as the C loop body, with the
   * empty window giving the sentinel |s|. The result is either the sentinel
   * or an index inside the window that holds the target.
   */
  function Search(s: seq<Int32>, target: Int32, base: nat, limit: nat): (r: nat)
    requires base <= limit <= |s|
    ensures r == |s| || (base <= r < limit && s[r] == target)
    decreases limit - base
  {
    if base < limit then
      var i := Midpoint(base, limit);
      if s[i] < target then Search(s, target, i + 1, limit)
      else if s[i] > target then Search(s, target, base, i)
      else i
    else |s|
  }

  /**
   * Completeness on a window: when the elements are sorted, the search of a
   * window finds something exactly when some index of the window holds the
   * target. Discarding the half below (above) the midpoint loses no match,
   * because every element there is at most (at least) the midpoint's.
   */
  lemma {:induction false} SearchFindsIff(s: seq<Int32>, target: Int32, base: nat, limit: nat)
    requires Sorted(s)
    requires base <= limit <= |s|
    ensures Search(s, target, base, limit) < |s| <==>
            exists j :: base <= j < limit && s[j] == target
    decreases limit - base
  {
    if base < limit {
      var i := Midpoint(base, limit);
      if s[i] < target {
        SearchFindsIff(s, target, i + 1, limit);
        NoMatchUpTo(s, target, i);
      } else if s[i] > target {
        SearchFindsIff(s, target, base, i);
        NoMatchFrom(s, target, i);
      }
    }
  }

  /**
   * The whole contract of `srch` on a sorted input: the result is in
   * [0, |s|]; a result below |s| is an index holding the target; the result
   * is the sentinel |s| exactly when the target occurs nowhere. In
   * particular the empty input gives 0.
   */
  lemma SearchCorrect(s: seq<Int32>, target: Int32)
    requires Sorted(s)
    ensures Search(s, target, 0, |s|) <= |s|
    ensures Search(s, target, 0, |s|) < |s| ==> s[Search(s, target, 0, |s|)] == target
    ensures Search(s, target, 0, |s|) == |s| <==> target !in s
  {
    SearchFindsIff(s, target, 0, |s|);
    if target in s {
      var j :| 0 <= j < |s| && s[j] == target;
    }
  }

  /**
   * When the target occurs at exactly one index, the search returns that
   * index; it cannot land on a neighbouring value.
   */
  lemma SearchFindsOnlyOccurrence(s: seq<Int32>, target: Int32, j: nat)
    requires Sorted(s)
    requires j < |s| && s[j] == target
    requires forall k :: 0 <= k < |s| && k != j ==> s[k] != target
    ensures Search(s, target, 0, |s|) == j
  {
    SearchCorrect(s, target);
  }

  /**
   * On a strictly increasing non-empty input, the first and the last
   * element are found at index 0 and |s| - 1.
   */
  lemma SearchFindsEnds(s: seq<Int32>)
    requires StrictlySorted(s) && |s| > 0
    ensures Search(s, s[0], 0, |s|) == 0
    ensures Search(s, s[|s| - 1], 0, |s|) == |s| - 1
  {
    SearchFindsOnlyOccurrence(s, s[0], 0);
    SearchFindsOnlyOccurrence(s, s[|s| - 1], |s| - 1);
  }

  // ---------------------------------------------------------------------
  // Number of passes
  // ---------------------------------------------------------------------

  function Pow2(k: nat): (p: nat)
    ensures p >= 1
  {
    if k == 0 then 1 else 2 * Pow2(k - 1)
  }

  /**
   * How many passes the C loop makes over the window [base, limit): one
   * element read and compared per pass, following the same branches as
   * Search.
   */
  function Probes(s: seq<Int32>, target: Int32, base: nat, limit: nat): (k: nat)
    requires base <= limit <= |s|
    ensures k == 0 <==> base == limit
    ensures k <= limit - base
    decreases limit - base
  {
    if base < limit then
      var i := Midpoint(base, limit);
      if s[i] < target then 1 + Probes(s, target, i + 1, limit)
      else if s[i] > target then 1 + Probes(s, target, base, i)
      else 1
    else 0
  }

  /**
   * The loop makes at most floor(log2 n) + 1 passes over a window of n
   * elements: with k passes, 2^k <= 2n. Each pass at least halves the
   * window, whatever the order of the elements.
   */
  lemma {:induction false} ProbesBound(s: seq<Int32>, target: Int32, base: nat, limit: nat)
    requires base < limit <= |s|
    ensures Pow2(Probes(s, target, base, limit)) <= 2 * (limit - base)
    decreases limit - base
  {
    var i := Midpoint(base, limit);
    if s[i] < target && i + 1 < limit {
      ProbesBound(s, target, i + 1, limit);
    } else if s[i] > target && base < i {
      ProbesBound(s, target, base, i);
    }
  }

  /**
   * A proof aid only: Search and Probes unfolded once on a non-empty window.
   * It states nothing beyond their definitions; Srch calls it so that the
   * solver need not unfold both functions itself in each loop pass.
   */
  lemma Pass(s: seq<Int32>, target: Int32, base: nat, limit: nat)
    requires base < limit <= |s|
    ensures var i := Midpoint(base, limit);
      (s[i] < target ==>
        Search(s, target, base, limit) == Search(s, target, i + 1, limit) &&
        Probes(s, target, base, limit) == 1 + Probes(s, target, i + 1, limit)) &&
      (s[i] > target ==>
        Search(s, target, base, limit) == Search(s, target, base, i) &&
        Probes(s, target, base, limit) == 1 + Probes(s, target, base, i)) &&
      (s[i] == target ==>
        Search(s, target, base, limit) == i && Probes(s, target, base, limit) == 1)
  {
  }

  // ---------------------------------------------------------------------
  // The C routine
  // ---------------------------------------------------------------------

  /**
   * `srch(a, alen, target)`: binary search over the first `alen` elements
   * of `a`. The loop keeps the invariant stated in the C source (every index
   * holding the target lies in [base, limit)) and shrinks limit - base on
   * each pass that does not return. It reads `a` only, so the array is
   * unchanged. The result is the one the functional model computes, so
   * every fact proved about Search holds of it; the ghost `passes` counts
   * the loop's passes and equals Probes, which ProbesBound bounds.
   */
  method Srch(a: array<Int32>, alen: SizeT, target: Int32) returns (r: SizeT, ghost passes: nat)
    requires alen as int <= a.Length
    requires Sorted(a[..alen])
    ensures r <= alen
    ensures r < alen ==> a[r] == target
    ensures r == alen <==> target !in a[..alen]
    ensures r as int == Search(a[..alen], target, 0, alen as int)
    ensures passes == Probes(a[..alen], target, 0, alen as int)
  {
    ghost var s := a[..alen];
    var base: SizeT := 0;
    var limit: SizeT := alen;
    passes := 0;
    while base < limit
      invariant base <= limit <= alen
      invariant forall j :: 0 <= j < |s| && s[j] == target ==> base as int <= j < limit as int
      invariant Search(s, target, base as int, limit as int) == Search(s, target, 0, |s|)
      invariant passes + Probes(s, target, base as int, limit as int) == Probes(s, target, 0, |s|)
      decreases limit - base
    {
      var i := MidpointSizeT(base, limit);
      Pass(s, target, base as int, limit as int);
      passes := passes + 1;
      if a[i] < target {
        NoMatchUpTo(s, target, i as int);
        base := i + 1;
      } else if a[i] > target {
        NoMatchFrom(s, target, i as int);
        limit := i;
      } else {
        return i, passes;
      }
    }
    return alen, passes;
  }

  /** The table `T` the C driver searches. */
  function DriverTable(): (s: seq<Int32>)
    ensures |s| == 9 && Sorted(s)
    ensures 6 !in s && 12 !in s && 0 !in s
    ensures s[5] == 7 && forall k :: 0 <= k < 9 && k != 5 ==> s[k] != 7
  {
    [1, 2, 3, 4, 5, 7, 8, 9, 10]
  }

  /**
   * One call `srch(T, Tlen, target)` of the driver, on a fresh copy of the
   * table in an array.
   */
  method DriverSrch(target: Int32) returns (r: SizeT)
    ensures r <= 9
    ensures r < 9 ==> DriverTable()[r] == target
    ensures r == 9 <==> target !in DriverTable()
  {
    var t := new Int32[9] (k requires 0 <= k < 9 => DriverTable()[k]);
    assert t[..9] == DriverTable();
    ghost var passes;
    r, passes := Srch(t, 9, target);
  }

  /**
   * The queries the C driver makes on its table {1,2,3,4,5,7,8,9,10}: 7 is
   * found at index 5, and 6, 12 and 0 each give the sentinel 9.
   */
  method DriverQueries() returns (r7: SizeT, r6: SizeT, r12: SizeT, r0: SizeT)
    ensures r7 == 5 && r6 == 9 && r12 == 9 && r0 == 9
  {
    r7 := DriverSrch(7);
    r6 := DriverSrch(6);
    r12 := DriverSrch(12);
    r0 := DriverSrch(0);
  }
}
