/** The physical frame allocator as a set of used frames. */
module FrameSets {
  /** The frames below `total` that the set leaves free, counted. */
  function FreeCount(used: set<nat>, total: nat): int {
    total - |used|
  }

  ghost predicate Below(used: set<nat>, total: nat) {
    forall f | f in used :: f < total
  }

  /** The first free frame at or after `from`; `total` when there is none. */
  function FirstFree(used: set<nat>, total: nat, from: nat): (f: nat)
    requires from <= total
    ensures from <= f <= total
    ensures f < total ==> f !in used
    ensures forall g | from <= g < f :: g in used
    decreases total - from
  {
    if from == total then total
    else if from !in used then from
    else FirstFree(used, total, from + 1)
  }

  /** What `pmm_alloc_page` marks and returns: the lowest free frame, or 0 when there is none. */
  function Alloc(used: set<nat>, total: nat): (r: (set<nat>, nat)) {
    var f := FirstFree(used, total, 0);
    if f < total then (used + {f}, f) else (used, 0)
  }

  function Free(used: set<nat>, f: nat): set<nat> {
    used - {f}
  }

  /** The numbers below n. */
  function Range(n: nat): (s: set<nat>)
    ensures forall f: nat :: f in s <==> f < n
    ensures |s| == n
  {
    if n == 0 then {} else Range(n - 1) + {n - 1}
  }

  lemma SubsetSize(a: set<nat>, b: set<nat>)
    requires a <= b
    ensures |a| <= |b|
    ensures |a| == |b| ==> a == b
  {
    assert b == a + (b - a);
    assert |b| == |a| + |b - a|;
  }

  /** No frame is counted free exactly when every frame is used. */
  lemma FreeCountZero(used: set<nat>, total: nat)
    requires Below(used, total)
    ensures FreeCount(used, total) >= 0
    ensures FreeCount(used, total) == 0 <==> FirstFree(used, total, 0) == total
  {
    var all := Range(total);
    SubsetSize(used, all);
    if FirstFree(used, total, 0) == total {
      assert all <= used;
      assert all == used;
    }
  }

  /** With frame 0 reserved, allocation fails exactly when nothing is free; otherwise it takes the
      lowest free frame and nothing else. */
  lemma AllocTakesLowest(used: set<nat>, total: nat)
    requires Below(used, total) && 0 in used
    ensures var (next, f) := Alloc(used, total);
            && (f == 0 <==> FreeCount(used, total) == 0)
            && (f == 0 ==> next == used)
            && (f != 0 ==> f < total && f !in used && next == used + {f}
                           && (forall g: nat | g < total && g !in used :: f <= g)
                           && FreeCount(next, total) == FreeCount(used, total) - 1
                           && Free(next, f) == used)
  {
    FreeCountZero(used, total);
    var (next, f) := Alloc(used, total);
    var first := FirstFree(used, total, 0);
    assert forall g | 0 <= g < first :: g in used;
    if f != 0 {
      assert next - {f} == used;
    }
  }
}
