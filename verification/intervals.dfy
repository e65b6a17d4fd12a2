/** The numeric kernels of the event builder: the greedy rejection scan that
    makes the build windows disjoint, the sorted-search coincidence mask,
    and the forward cursor scan that gives each hit its window. Timestamps
    are integers (nanoseconds). */
module Intervals {
  import opened Wrappers
  import opened Seqs

  // ---------------------------------------------------------------------
  // Rejection of overlapping candidate windows (`reduce_intervals`)
  // ---------------------------------------------------------------------

  /** The most recently accepted candidate before position j: the largest
      k < j that is not rejected (0 is never rejected). */
  function LastKept(reject: seq<nat>, j: nat): (k: nat)
    requires 1 <= j && 0 !in reject
    ensures k < j && k !in reject
    ensures forall m :: k < m < j ==> m in reject
  {
    if j - 1 !in reject then j - 1 else LastKept(reject, j - 1)
  }

  /** LastKept only looks at the rejections below j. */
  lemma {:induction false} LastKeptSame(r1: seq<nat>, r2: seq<nat>, j: nat)
    requires 1 <= j && 0 !in r1 && 0 !in r2
    requires forall m :: 0 <= m < j ==> (m in r1 <==> m in r2)
    ensures LastKept(r1, j) == LastKept(r2, j)
  {
    if j - 1 in r1 {
      LastKeptSame(r1, r2, j - 1);
    }
  }

  /** `reject` is exactly what the greedy scan drops among the candidates
      1 .. j-1: each is rejected iff its lower bound does not exceed the
      upper bound of the most recently accepted candidate. */
  ghost predicate GreedyUpTo(low: seq<int>, high: seq<int>, reject: seq<nat>, j: nat)
    requires |low| == |high|
  {
    && StrictlyIncreasing(reject)
    && (forall p :: 0 <= p < |reject| ==> 1 <= reject[p] < j && reject[p] < |low|)
    && (forall m {:trigger LastKept(reject, m)} :: 1 <= m < j && m < |low| ==>
          (m in reject <==> low[m] <= high[LastKept(reject, m)]))
  }

  /** `reject` is exactly what the greedy scan drops over all candidates. */
  ghost predicate IsGreedyReject(low: seq<int>, high: seq<int>, reject: seq<nat>)
    requires |low| == |high|
  {
    GreedyUpTo(low, high, reject, |low|)
  }

  lemma RejectStep(low: seq<int>, high: seq<int>, reject: seq<nat>, j: nat)
    requires |low| == |high| && 1 <= j < |low| && GreedyUpTo(low, high, reject, j)
    requires low[j] <= high[LastKept(reject, j)]
    ensures GreedyUpTo(low, high, reject + [j], j + 1)
    ensures LastKept(reject + [j], j + 1) == LastKept(reject, j)
  {
    var next := reject + [j];
    forall m | 1 <= m <= j ensures LastKept(next, m) == LastKept(reject, m) {
      LastKeptSame(next, reject, m);
    }
  }

  lemma AcceptStep(low: seq<int>, high: seq<int>, reject: seq<nat>, j: nat)
    requires |low| == |high| && 1 <= j < |low| && GreedyUpTo(low, high, reject, j)
    requires low[j] > high[LastKept(reject, j)]
    ensures GreedyUpTo(low, high, reject, j + 1)
    ensures LastKept(reject, j + 1) == j
  {
  }

  /** `reduce_intervals`: two indices walk the candidates; `i` is the last
      accepted one and `j` the candidate under test. */
  method ReduceIntervals(low: seq<int>, high: seq<int>) returns (reject: seq<nat>)
    requires |low| == |high|
    ensures IsGreedyReject(low, high, reject)
  {
    reject := [];
    var i, j := 0, 1;
    while i < |high| && j < |low|
      invariant i < j <= |low| + 1
      invariant GreedyUpTo(low, high, reject, j)
      invariant i == LastKept(reject, j)
    {
      var h := high[i];
      var l := low[j];
      if l <= h {
        RejectStep(low, high, reject, j);
        reject := reject + [j];
        j := j + 1;
      } else if l > h {
        AcceptStep(low, high, reject, j);
        i := j;
        j := j + 1;
      }
    }
  }

  /** Accepted candidates are pairwise disjoint and ordered, provided every
      candidate has lower <= upper. */
  lemma {:induction false} KeptDisjoint(low: seq<int>, high: seq<int>, reject: seq<nat>, a: nat, b: nat)
    requires |low| == |high| && IsGreedyReject(low, high, reject)
    requires forall k :: 0 <= k < |low| ==> low[k] <= high[k]
    requires a < b < |low| && a !in reject && b !in reject
    ensures high[a] < low[b]
    decreases b
  {
    var p := LastKept(reject, b);
    if a < p {
      KeptDisjoint(low, high, reject, a, p);
    }
  }

  /** Two sequences that are strictly increasing and hold the same elements
      are equal. */
  lemma {:induction false} IncreasingSameElements(a: seq<nat>, b: seq<nat>)
    requires StrictlyIncreasing(a) && StrictlyIncreasing(b)
    requires forall x :: x in a <==> x in b
    ensures a == b
  {
    assert a != [] ==> a[0] in b;
    assert b != [] ==> b[0] in a;
    if a != [] && b != [] {
      assert a[0] == b[0] by {
        assert a[0] in b && b[0] in a;
      }
      forall x ensures x in a[1..] <==> x in b[1..] {
        if x in a[1..] { assert x in b && x > a[0]; }
        if x in b[1..] { assert x in a && x > b[0]; }
      }
      IncreasingSameElements(a[1..], b[1..]);
      assert a == [a[0]] + a[1..] && b == [b[0]] + b[1..];
    }
  }

  /** The greedy scan's result is determined by the candidates: at most one
      rejection list satisfies IsGreedyReject. */
  lemma GreedyRejectUnique(low: seq<int>, high: seq<int>, r1: seq<nat>, r2: seq<nat>)
    requires |low| == |high| && IsGreedyReject(low, high, r1) && IsGreedyReject(low, high, r2)
    ensures r1 == r2
  {
    SameRejectionsBelow(low, high, r1, r2, |low|);
    forall x ensures x in r1 <==> x in r2 {
      if x in r1 { assert 1 <= x < |low|; }
      if x in r2 { assert 1 <= x < |low|; }
    }
    IncreasingSameElements(r1, r2);
  }

  lemma {:induction false} SameRejectionsBelow(low: seq<int>, high: seq<int>, r1: seq<nat>, r2: seq<nat>, n: nat)
    requires |low| == |high| && IsGreedyReject(low, high, r1) && IsGreedyReject(low, high, r2)
    requires n <= |low|
    ensures forall m :: 0 <= m < n ==> (m in r1 <==> m in r2)
  {
    if n > 1 {
      SameRejectionsBelow(low, high, r1, r2, n - 1);
      LastKeptSame(r1, r2, n - 1);
    }
  }

  /** Entry k is true when candidate k survives. */
  function KeepMask(n: nat, reject: seq<nat>): (m: seq<bool>)
    ensures |m| == n && forall k :: 0 <= k < n ==> (m[k] <==> k !in reject)
  {
    seq(n, k requires 0 <= k < n => k !in reject)
  }

  /** `np.delete(s, reject)`: the elements at positions not in `reject`. */
  function Delete(s: seq<int>, reject: seq<nat>): seq<int> {
    Select(s, KeepMask(|s|, reject))
  }

  /** Windows: equally long bound sequences, each window closed and
      non-empty, each ending before the next one starts. */
  predicate SortedDisjoint(lower: seq<int>, upper: seq<int>) {
    && |lower| == |upper|
    && (forall k :: 0 <= k < |lower| ==> lower[k] <= upper[k])
    && (forall p, q :: 0 <= p < q < |lower| ==> upper[p] < lower[q])
  }

  /** After `np.delete` of the greedy rejections the surviving windows are
      disjoint and ordered. */
  lemma SurvivorsDisjoint(low: seq<int>, high: seq<int>, reject: seq<nat>)
    requires |low| == |high| && IsGreedyReject(low, high, reject)
    requires forall k :: 0 <= k < |low| ==> low[k] <= high[k]
    ensures SortedDisjoint(Delete(low, reject), Delete(high, reject))
  {
    var idx := Indices(KeepMask(|low|, reject));
    var lower, upper := Delete(low, reject), Delete(high, reject);
    assert lower == Pick(low, idx) && upper == Pick(high, idx);
    forall p, q | 0 <= p < q < |lower| ensures upper[p] < lower[q] {
      assert upper[p] == high[idx[p]] && lower[q] == low[idx[q]];
      KeptDisjoint(low, high, reject, idx[p], idx[q]);
    }
  }

  /** The first candidate always survives, so at least one window is built
      from a non-empty reference set, and never more than the candidates. */
  lemma SurvivorsCount(s: seq<int>, reject: seq<nat>)
    requires 0 !in reject
    ensures |Delete(s, reject)| <= |s|
    ensures |s| > 0 ==> 1 <= |Delete(s, reject)|
  {
    var mask := KeepMask(|s|, reject);
    if |s| > 0 {
      assert mask[0];
      assert 0 in Indices(mask);
    }
  }
  /** The greedy survivors of closed candidate windows are disjoint and
      ordered, and there is at least one when there was any candidate. */
  lemma GreedySurvivors(low: seq<int>, high: seq<int>, reject: seq<nat>)
    requires |low| == |high| && IsGreedyReject(low, high, reject)
    requires forall k :: 0 <= k < |low| ==> low[k] <= high[k]
    ensures SortedDisjoint(Delete(low, reject), Delete(high, reject))
    ensures |Delete(low, reject)| <= |low| && (|low| > 0 ==> 1 <= |Delete(low, reject)|)
  {
    SurvivorsDisjoint(low, high, reject);
    assert 0 !in reject by {
      assert forall p :: 0 <= p < |reject| ==> 1 <= reject[p];
    }
    SurvivorsCount(low, reject);
  }


  // ---------------------------------------------------------------------
  // Which windows hold a hit (`find_coincident_events`)
  // ---------------------------------------------------------------------

  /** `np.searchsorted(c, v, "left")` on an ascending c: the number of
      elements below v. */
  function SearchLeft(c: seq<int>, v: int): (i: nat)
    ensures i <= |c| && (forall k :: 0 <= k < i ==> c[k] < v) && (i < |c| ==> v <= c[i])
  {
    if c == [] || v <= c[0] then 0 else 1 + SearchLeft(c[1..], v)
  }

  /** `np.searchsorted(c, v, "right")` on an ascending c: the number of
      elements at or below v. */
  function SearchRight(c: seq<int>, v: int): (i: nat)
    ensures i <= |c| && (forall k :: 0 <= k < i ==> c[k] <= v) && (i < |c| ==> v < c[i])
  {
    if c == [] || v < c[0] then 0 else 1 + SearchRight(c[1..], v)
  }

  /** Window [lo, hi] of the ascending times c holds one of them exactly
      when its two search positions differ. */
  lemma SearchWindow(c: seq<int>, lo: int, hi: int)
    requires Sorted(c) && lo <= hi
    ensures SearchLeft(c, lo) != SearchRight(c, hi) <==> exists p :: 0 <= p < |c| && lo <= c[p] <= hi
  {
    var l, r := SearchLeft(c, lo), SearchRight(c, hi);
    SearchOrder(c, lo, hi);
    if l != r {
      assert lo <= c[l] <= hi;
    }
    if p :| 0 <= p < |c| && lo <= c[p] <= hi {
      assert l <= p < r;
    }
  }

  lemma {:induction false} SearchOrder(c: seq<int>, a: int, b: int)
    requires Sorted(c) && a <= b
    ensures SearchLeft(c, a) <= SearchRight(c, b)
  {
    if c != [] && a > c[0] {
      SearchOrder(c[1..], a, b);
    }
  }

  /** Window q holds at least one of the hit times. */
  ghost predicate HasHit(lower: seq<int>, upper: seq<int>, data: seq<int>, q: nat)
    requires q < |lower| && q < |upper|
  {
    exists p :: 0 <= p < |data| && lower[q] <= data[p] <= upper[q]
  }

  /** `find_coincident_events(A, B, C)`: entry k compares the two search
      positions of window k's bounds among the hit times C. On ascending
      hit times and closed windows, entry k holds exactly when window k
      contains a hit. */
  function FindCoincidentEvents(a: seq<int>, b: seq<int>, c: seq<int>): (mask: seq<bool>)
    requires |a| == |b|
    ensures |mask| == |a|
    ensures Sorted(c) && (forall k :: 0 <= k < |a| ==> a[k] <= b[k]) ==>
              forall q :: 0 <= q < |a| ==> (mask[q] <==> HasHit(a, b, c, q))
  {
    var mask := seq(|a|, k requires 0 <= k < |a| => SearchLeft(c, a[k]) != SearchRight(c, b[k]));
    assert Sorted(c) && (forall k :: 0 <= k < |a| ==> a[k] <= b[k]) ==>
             forall q :: 0 <= q < |a| ==> (mask[q] <==> HasHit(a, b, c, q)) by {
      if Sorted(c) && (forall k :: 0 <= k < |a| ==> a[k] <= b[k]) {
        forall q | 0 <= q < |a| ensures mask[q] <==> HasHit(a, b, c, q) {
          SearchWindow(c, a[q], b[q]);
        }
      }
    }
    mask
  }

  /** `hit_index`: the windows holding a hit, in increasing order. */
  ghost predicate IsHitIndex(hitIndex: seq<nat>, lower: seq<int>, upper: seq<int>, data: seq<int>)
    requires |lower| == |upper|
  {
    && StrictlyIncreasing(hitIndex)
    && (forall p :: 0 <= p < |hitIndex| ==> hitIndex[p] < |lower|)
    && (forall q :: 0 <= q < |lower| ==> (q in hitIndex <==> HasHit(lower, upper, data, q)))
  }

  /** `np.arange(len(lower))[mask]` is such a hit index. */
  lemma HitIndexFromMask(lower: seq<int>, upper: seq<int>, data: seq<int>)
    requires |lower| == |upper| && Sorted(data)
    requires forall k :: 0 <= k < |lower| ==> lower[k] <= upper[k]
    ensures IsHitIndex(Indices(FindCoincidentEvents(lower, upper, data)), lower, upper, data)
  {
  }

  // ---------------------------------------------------------------------
  // Assigning each hit its window (`assign_event_index`)
  // ---------------------------------------------------------------------

  /** The window that contains time t, if any (the first one; with disjoint
      windows it is the only one). */
  function Containing(lower: seq<int>, upper: seq<int>, t: int): (r: Option<nat>)
    requires |lower| == |upper|
    ensures r.Some? ==> r.value < |lower| && lower[r.value] <= t <= upper[r.value]
    ensures r.None? ==> forall q :: 0 <= q < |lower| ==> !(lower[q] <= t <= upper[q])
  {
    ContainingFrom(lower, upper, t, 0)
  }

  function ContainingFrom(lower: seq<int>, upper: seq<int>, t: int, k: nat): (r: Option<nat>)
    requires |lower| == |upper| && k <= |lower|
    ensures r.Some? ==> k <= r.value < |lower| && lower[r.value] <= t <= upper[r.value]
    ensures r.None? ==> forall q :: k <= q < |lower| ==> !(lower[q] <= t <= upper[q])
    decreases |lower| - k
  {
    if k == |lower| then None
    else if lower[k] <= t <= upper[k] then Some(k)
    else ContainingFrom(lower, upper, t, k + 1)
  }

  lemma ContainingUnique(lower: seq<int>, upper: seq<int>, t: int, k: nat)
    requires SortedDisjoint(lower, upper) && k < |lower| && lower[k] <= t <= upper[k]
    ensures Containing(lower, upper, t) == Some(k)
  {
    var r := Containing(lower, upper, t);
    assert r.Some?;
    assert !(r.value < k) && !(k < r.value);
  }

  /** Bounds grow with the window index. */
  lemma BoundsMonotone(lower: seq<int>, upper: seq<int>, a: nat, b: nat)
    requires SortedDisjoint(lower, upper) && a <= b < |lower|
    ensures lower[a] <= lower[b] && upper[a] <= upper[b]
  {
    if a < b {
      assert lower[a] <= upper[a] < lower[b] <= upper[b];
    }
  }

  /** A hit strictly between hit windows i-1 and i (or after the last one)
      lies in no window: every window holding a hit is listed. */
  lemma NotContained(hitIndex: seq<nat>, lower: seq<int>, upper: seq<int>, data: seq<int>, i: nat, j: nat)
    requires SortedDisjoint(lower, upper) && IsHitIndex(hitIndex, lower, upper, data)
    requires i <= |hitIndex| && j < |data|
    requires i < |hitIndex| ==> data[j] < lower[hitIndex[i]]
    requires i > 0 ==> upper[hitIndex[i - 1]] < data[j]
    ensures Containing(lower, upper, data[j]) == None
  {
    forall q | 0 <= q < |lower| ensures !(lower[q] <= data[j] <= upper[q]) {
      if HasHit(lower, upper, data, q) {
        var s :| 0 <= s < |hitIndex| && hitIndex[s] == q;
        if s >= i {
          BoundsMonotone(lower, upper, hitIndex[i], q);
        } else {
          BoundsMonotone(lower, upper, q, hitIndex[i - 1]);
        }
      }
    }
  }

  /** When a scan for hit window i runs off the end, every hit lies at or
      before that window, so no later window can hold a hit. */
  lemma NoLaterHitWindow(hitIndex: seq<nat>, lower: seq<int>, upper: seq<int>, data: seq<int>, i: nat)
    requires SortedDisjoint(lower, upper) && IsHitIndex(hitIndex, lower, upper, data)
    requires i < |hitIndex|
    requires forall p :: 0 <= p < |data| ==> data[p] <= upper[hitIndex[i]]
    ensures i + 1 == |hitIndex|
  {
    assert forall s :: i < s < |hitIndex| ==> upper[hitIndex[i]] < lower[hitIndex[s]];
    assert i + 1 < |hitIndex| ==> HasHit(lower, upper, data, hitIndex[i + 1]);
  }

  /** The inner scan of `assign_event_index` for one window [l, h]: from the
      cursor on, hits inside the window get its number, hits before it are
      cleared, and the scan stops at the first hit after it (or runs out). */
  method ScanWindow(en: array<Option<nat>>, data: seq<int>, start: nat, l: int, h: int, hitNum: nat)
    returns (next: nat, ranOut: bool)
    requires en.Length == |data| && start <= |data| && l <= h
    modifies en
    ensures start <= next <= |data| && (ranOut <==> next == |data|)
    ensures !ranOut ==> h < data[next] && !(l <= data[next] <= h) && !(data[next] < l)
    ensures forall m :: start <= m < next ==>
              data[m] <= h && en[m] == (if l <= data[m] then Some(hitNum) else None)
    ensures forall m :: 0 <= m < start || next <= m < |data| ==> en[m] == old(en[m])
  {
    next := start;
    while next < |data|
      invariant start <= next <= |data|
      invariant forall m :: start <= m < next ==>
                  data[m] <= h && en[m] == (if l <= data[m] then Some(hitNum) else None)
      invariant forall m :: 0 <= m < start || next <= m < |data| ==> en[m] == old(en[m])
    {
      if l <= data[next] <= h {
        en[next] := Some(hitNum);
      } else if data[next] < l {
        en[next] := None;
      } else {
        return next, false;
      }
      next := next + 1;
    }
    ranOut := true;
  }

  /** `assign_event_index`: for each window holding a hit, scan the hits
      from a forward-only cursor, label those inside the window, clear those
      before it and stop at the first one after it. */
  method AssignEventIndex(hitIndex: seq<nat>, lower: seq<int>, upper: seq<int>, data: seq<int>)
    returns (eventNumber: seq<Option<nat>>)
    requires SortedDisjoint(lower, upper) && Sorted(data)
    requires IsHitIndex(hitIndex, lower, upper, data)
    ensures |eventNumber| == |data|
    ensures forall j :: 0 <= j < |data| ==> eventNumber[j] == Containing(lower, upper, data[j])
  {
    var n := |data|;
    ghost var expected := seq(n, m requires 0 <= m < n => Containing(lower, upper, data[m]));
    var en := new Option<nat>[n](_ => None);
    var start := 0;
    // `covered` is how far the mask is settled; the cursor `start` stays
    // put when a window runs to the end of the data, as in the source.
    ghost var covered := 0;
    ghost var exhausted := false;
    for i := 0 to |hitIndex|
      invariant 0 <= start <= covered <= n
      invariant !exhausted ==> start == covered
      invariant i == 0 ==> covered == 0
      invariant forall m :: 0 <= m < covered ==> en[m] == expected[m]
      invariant !exhausted ==> forall m :: covered <= m < n ==> en[m] == None
      invariant exhausted ==> i == |hitIndex| && covered == n
      invariant i > 0 ==> forall m :: 0 <= m < covered ==> data[m] <= upper[hitIndex[i - 1]]
      invariant i > 0 && !exhausted ==> covered < n && upper[hitIndex[i - 1]] < data[covered]
    {
      var hitNum := hitIndex[i];
      var l, h := lower[hitNum], upper[hitNum];
      assert i > 0 ==> upper[hitIndex[i - 1]] < l by {
        if i > 0 { assert hitIndex[i - 1] < hitNum; }
      }
      var next, ranOut := ScanWindow(en, data, start, l, h, hitNum);
      forall m | start <= m < next ensures en[m] == expected[m] {
        if l <= data[m] {
          ContainingUnique(lower, upper, data[m], hitNum);
        } else {
          NotContained(hitIndex, lower, upper, data, i, m);
        }
      }
      if ranOut {
        exhausted := true;
        NoLaterHitWindow(hitIndex, lower, upper, data, i);
      } else {
        start := next;
      }
      covered := next;
    }
    forall m | covered <= m < n ensures en[m] == expected[m] {
      NotContained(hitIndex, lower, upper, data, |hitIndex|, m);
    }
    eventNumber := en[..];
  }
}
