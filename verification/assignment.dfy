/** The table side of assigning a detector's hits to build windows: the
    window of every hit becomes an `event` column, hits in no window are
    dropped and only the first hit of each event is kept. */
module Assignment {
  import opened Wrappers
  import opened Seqs
  import opened Frames
  import opened Intervals

  /** The position the `event` column has after `with_columns`: its old
      position, or a new last column. */
  function EventColumn(columns: seq<string>): (e: nat)
    ensures e <= |columns|
    ensures e < |columns| <==> "event" in columns
    ensures e < |columns| ==> columns[e] == "event"
  {
    match ColumnIndex(columns, "event")
    case Some(e) => e
    case None => |columns|
  }

  /** A row with its `event` cell set to v. */
  function Label(row: seq<int>, e: nat, v: int): (r: seq<int>)
    requires e <= |row|
    ensures |r| == if e < |row| then |row| else |row| + 1
    ensures r[e] == v && forall c :: 0 <= c < |row| && c != e ==> r[c] == row[c]
  {
    if e < |row| then row[e := v] else row + [v]
  }

  /** Entry i is true for a hit that lies in a window (`~is_nan(event)`). */
  function AssignedMask(ev: seq<Option<nat>>): (m: seq<bool>)
    ensures |m| == |ev| && forall i :: 0 <= i < |ev| ==> (m[i] <==> ev[i].Some?)
  {
    seq(|ev|, i requires 0 <= i < |ev| => ev[i].Some?)
  }

  /** The assigned hits with their window number in the `event` column. */
  function Labelled(f: Frame, ev: seq<Option<nat>>): (g: Frame)
    requires Wf(f) && |ev| == |f.rows|
    ensures Wf(g) && EventColumn(f.columns) < |g.columns| && g.columns[EventColumn(f.columns)] == "event"
    ensures g.columns == if "event" in f.columns then f.columns else f.columns + ["event"]
    ensures var idx := Indices(AssignedMask(ev));
      && |g.rows| == |idx|
      && forall p :: 0 <= p < |idx| ==>
           ev[idx[p]].Some? && g.rows[p] == Label(f.rows[idx[p]], EventColumn(f.columns), ev[idx[p]].value)
  {
    var mask := AssignedMask(ev);
    var idx := Indices(mask);
    var vals := seq(|idx|, p requires 0 <= p < |idx| => ev[idx[p]].value as int);
    var kept := Filter(f, mask);
    var g := WithColumn(kept, "event", vals);
    var e := EventColumn(f.columns);
    forall p | 0 <= p < |idx|
      ensures g.rows[p] == Label(f.rows[idx[p]], e, ev[idx[p]].value)
    {
      var row := f.rows[idx[p]];
      assert kept.rows[p] == row;
      var want := Label(row, e, ev[idx[p]].value);
      assert |g.rows[p]| == |want|;
      forall c | 0 <= c < |want| ensures g.rows[p][c] == want[c] {
        if c != e { assert g.columns[c] != "event"; }
      }
    }
    g
  }

  /** `with_columns(event).filter(~is_nan(event)).unique(subset=["event"],
      keep="first", maintain_order=True)`. */
  function DropUnassigned(f: Frame, ev: seq<Option<nat>>): (g: Frame)
    requires Wf(f) && |ev| == |f.rows|
    ensures Wf(g) && g.columns == Labelled(f, ev).columns
  {
    UniqueFirst(Labelled(f, ev), EventColumn(f.columns))
  }

  /** The hit each row of the result comes from. */
  ghost function Origins(f: Frame, ev: seq<Option<nat>>): (o: seq<nat>)
    requires Wf(f) && |ev| == |f.rows|
  {
    var idx := Indices(AssignedMask(ev));
    var l := Labelled(f, ev);
    var idx2 := Indices(FirstMask(Keys(l.rows, EventColumn(f.columns))));
    seq(|idx2|, p requires 0 <= p < |idx2| => idx[idx2[p]])
  }

  /** The result holds, in their original order, hits that lie in a
      window, each labelled with its window. */
  lemma DropUnassignedRows(f: Frame, ev: seq<Option<nat>>)
    requires Wf(f) && |ev| == |f.rows|
    ensures var g, o := DropUnassigned(f, ev), Origins(f, ev);
      && |o| == |g.rows| && StrictlyIncreasing(o)
      && (forall p :: 0 <= p < |o| ==> o[p] < |ev| && ev[o[p]].Some?)
      && (forall p :: 0 <= p < |o| ==> g.rows[p] == Label(f.rows[o[p]], EventColumn(f.columns), ev[o[p]].value))
  {
    var e := EventColumn(f.columns);
    var idx := Indices(AssignedMask(ev));
    var l := Labelled(f, ev);
    var idx2 := Indices(FirstMask(Keys(l.rows, e)));
    var g, o := DropUnassigned(f, ev), Origins(f, ev);
    assert g.rows == Pick(l.rows, idx2);
    forall p | 0 <= p < |o|
      ensures o[p] < |ev| && ev[o[p]].Some?
      ensures g.rows[p] == Label(f.rows[o[p]], e, ev[o[p]].value)
    {
      assert o[p] == idx[idx2[p]] && g.rows[p] == l.rows[idx2[p]];
    }
  }

  /** Each kept hit is the first hit of its window. */
  lemma DropUnassignedKeepsFirst(f: Frame, ev: seq<Option<nat>>)
    requires Wf(f) && |ev| == |f.rows|
    ensures var o := Origins(f, ev);
      forall p, i :: 0 <= p < |o| && 0 <= i < o[p] ==> ev[i] != ev[o[p]]
  {
    var e := EventColumn(f.columns);
    var idx := Indices(AssignedMask(ev));
    var l := Labelled(f, ev);
    var keys := Keys(l.rows, e);
    var idx2 := Indices(FirstMask(keys));
    var o := Origins(f, ev);
    assert forall q :: 0 <= q < |idx| ==> keys[q] == ev[idx[q]].value;
    forall p, i | 0 <= p < |o| && 0 <= i < o[p] ensures ev[i] != ev[o[p]] {
      assert o[p] == idx[idx2[p]];
      EarlierHitDiffers(ev, idx, keys, idx2[p], i);
    }
  }

  /** The first hit of every window that holds one is kept. */
  lemma DropUnassignedComplete(f: Frame, ev: seq<Option<nat>>)
    requires Wf(f) && |ev| == |f.rows|
    ensures var o := Origins(f, ev);
      forall i :: 0 <= i < |ev| && ev[i].Some? && (forall j :: 0 <= j < i ==> ev[j] != ev[i]) ==> i in o
  {
    var e := EventColumn(f.columns);
    var idx := Indices(AssignedMask(ev));
    var l := Labelled(f, ev);
    var keys := Keys(l.rows, e);
    var idx2 := Indices(FirstMask(keys));
    var o := Origins(f, ev);
    assert forall q :: 0 <= q < |idx| ==> keys[q] == ev[idx[q]].value;
    forall i | 0 <= i < |ev| && ev[i].Some? && (forall j :: 0 <= j < i ==> ev[j] != ev[i])
      ensures i in o
    {
      assert i in idx;
      var q :| 0 <= q < |idx| && idx[q] == i;
      FirstLabel(ev, idx, keys, q);
      assert q in idx2;
      var p :| 0 <= p < |idx2| && idx2[p] == q;
      assert o[p] == i;
    }
  }

  /** A hit before the one behind label q that lies in a window lies in a
      different window, when label q is the first with its value. */
  lemma EarlierHitDiffers(ev: seq<Option<nat>>, idx: seq<nat>, keys: seq<int>, q: nat, i: nat)
    requires idx == Indices(AssignedMask(ev)) && |keys| == |idx| && q < |idx|
    requires forall r :: 0 <= r < |idx| ==> keys[r] == ev[idx[r]].value
    requires keys[q] !in keys[..q] && i < idx[q]
    ensures ev[i] != ev[idx[q]]
  {
    if ev[i].Some? {
      assert i in idx;
      var r :| 0 <= r < |idx| && idx[r] == i;
      assert r < q;
      assert keys[..q][r] == keys[r];
    }
  }

  /** The label of the first hit of a window is the first label with that
      value. */
  lemma FirstLabel(ev: seq<Option<nat>>, idx: seq<nat>, keys: seq<int>, q: nat)
    requires idx == Indices(AssignedMask(ev)) && |keys| == |idx| && q < |idx|
    requires forall r :: 0 <= r < |idx| ==> keys[r] == ev[idx[r]].value
    requires forall j :: 0 <= j < idx[q] ==> ev[j] != ev[idx[q]]
    ensures keys[q] !in keys[..q]
  {
    forall r | 0 <= r < q ensures keys[..q][r] != keys[q] {
      assert idx[r] < idx[q];
    }
  }

  // ---------------------------------------------------------------------
  // Hits numbered by the windows that contain them
  // ---------------------------------------------------------------------

  /** The window of every hit, as `assign_event_index` computes it. */
  function WindowsOf(lower: seq<int>, upper: seq<int>, times: seq<int>): (ev: seq<Option<nat>>)
    requires |lower| == |upper|
    ensures |ev| == |times| && forall j :: 0 <= j < |times| ==> ev[j] == Containing(lower, upper, times[j])
  {
    seq(|times|, j requires 0 <= j < |times| => Containing(lower, upper, times[j]))
  }

  /** Later hits fall in the same or later windows. */
  lemma ContainingMonotone(lower: seq<int>, upper: seq<int>, t1: int, t2: int)
    requires SortedDisjoint(lower, upper) && t1 <= t2
    requires Containing(lower, upper, t1).Some? && Containing(lower, upper, t2).Some?
    ensures Containing(lower, upper, t1).value <= Containing(lower, upper, t2).value
  {
  }

  /** The position of the first occurrence of x. */
  function FirstOf<T(==)>(s: seq<T>, x: T): (i: nat)
    requires x in s
    ensures i < |s| && s[i] == x && forall j :: 0 <= j < i ==> s[j] != x
  {
    if s[0] == x then 0 else 1 + FirstOf(s[1..], x)
  }

  /** `rows` are the first hits of the windows in `ev`, in order: row p
      comes from hit o[p], carries its window in cell e, no earlier hit
      shares that window, and every first hit of a window is there. */
  ghost predicate FirstHits(ev: seq<Option<nat>>, rows: seq<seq<int>>, e: nat, o: seq<nat>) {
    && |o| == |rows| && StrictlyIncreasing(o)
    && (forall p :: 0 <= p < |o| ==> o[p] < |ev| && ev[o[p]].Some? && e < |rows[p]| && rows[p][e] == ev[o[p]].value)
    && (forall p, i :: 0 <= p < |o| && 0 <= i < o[p] ==> ev[i] != ev[o[p]])
    && (forall i :: 0 <= i < |ev| && ev[i].Some? && (forall j :: 0 <= j < i ==> ev[j] != ev[i]) ==> i in o)
  }

  lemma DropUnassignedFirstHits(f: Frame, k: nat, ev: seq<Option<nat>>)
    requires Wf(f) && |ev| == |f.rows| && k < |f.columns| && f.columns[k] != "event"
    ensures var g, o := DropUnassigned(f, ev), Origins(f, ev);
      && FirstHits(ev, g.rows, EventColumn(f.columns), o)
      && forall p :: 0 <= p < |o| ==> k < |g.rows[p]| && g.rows[p][k] == f.rows[o[p]][k]
  {
    DropUnassignedRows(f, ev);
    DropUnassignedKeepsFirst(f, ev);
    DropUnassignedComplete(f, ev);
  }

  /** Every kept hit lies in the window its `event` cell names. */
  lemma AssignedInWindow(f: Frame, k: nat, lower: seq<int>, upper: seq<int>)
    requires Wf(f) && k < |f.columns| && f.columns[k] != "event" && |lower| == |upper|
    ensures var g, e := DropUnassigned(f, WindowsOf(lower, upper, Keys(f.rows, k))), EventColumn(f.columns);
      forall p :: 0 <= p < |g.rows| ==>
        0 <= g.rows[p][e] < |lower| && lower[g.rows[p][e]] <= g.rows[p][k] <= upper[g.rows[p][e]]
  {
    var ev := WindowsOf(lower, upper, Keys(f.rows, k));
    DropUnassignedFirstHits(f, k, ev);
  }

  /** On time-sorted hits the kept event ids increase strictly: no event
      occurs twice and the original order is kept. */
  lemma AssignedIdsIncreasing(f: Frame, k: nat, lower: seq<int>, upper: seq<int>)
    requires Wf(f) && k < |f.columns| && f.columns[k] != "event"
    requires SortedDisjoint(lower, upper) && Sorted(Keys(f.rows, k))
    ensures var g, e := DropUnassigned(f, WindowsOf(lower, upper, Keys(f.rows, k))), EventColumn(f.columns);
      StrictlyIncreasing(Keys(g.rows, e))
  {
    var times := Keys(f.rows, k);
    var ev := WindowsOf(lower, upper, times);
    DropUnassignedFirstHits(f, k, ev);
    var g := DropUnassigned(f, ev);
    FirstHitsIncreasing(ev, times, lower, upper, g.rows, EventColumn(f.columns), Origins(f, ev));
  }

  lemma FirstHitsIncreasing(ev: seq<Option<nat>>, times: seq<int>, lower: seq<int>, upper: seq<int>,
                            rows: seq<seq<int>>, e: nat, o: seq<nat>)
    requires SortedDisjoint(lower, upper) && Sorted(times) && |ev| == |times|
    requires forall j :: 0 <= j < |times| ==> ev[j] == Containing(lower, upper, times[j])
    requires FirstHits(ev, rows, e, o)
    ensures HasCell(rows, e) && StrictlyIncreasing(Keys(rows, e))
  {
    forall p, q | 0 <= p < q < |rows| ensures rows[p][e] < rows[q][e] {
      ContainingMonotone(lower, upper, times[o[p]], times[o[q]]);
      assert ev[o[p]] != ev[o[q]];
    }
  }

  /** On time-sorted hits the hit kept for an event is its earliest one. */
  lemma AssignedEarliest(f: Frame, k: nat, lower: seq<int>, upper: seq<int>)
    requires Wf(f) && k < |f.columns| && f.columns[k] != "event" && |lower| == |upper|
    requires Sorted(Keys(f.rows, k))
    ensures var g, e := DropUnassigned(f, WindowsOf(lower, upper, Keys(f.rows, k))), EventColumn(f.columns);
      forall p, i ::
        (0 <= p < |g.rows| && 0 <= i < |f.rows| && Containing(lower, upper, f.rows[i][k]) == Some(g.rows[p][e] as nat))
        ==> g.rows[p][k] <= f.rows[i][k]
  {
    var times := Keys(f.rows, k);
    var ev := WindowsOf(lower, upper, times);
    DropUnassignedFirstHits(f, k, ev);
    var g := DropUnassigned(f, ev);
    FirstHitsEarliest(ev, times, g.rows, k, EventColumn(f.columns), Origins(f, ev));
  }

  lemma FirstHitsEarliest(ev: seq<Option<nat>>, times: seq<int>, rows: seq<seq<int>>, k: nat, e: nat, o: seq<nat>)
    requires Sorted(times) && |ev| == |times| && FirstHits(ev, rows, e, o)
    requires forall p :: 0 <= p < |o| ==> k < |rows[p]| && rows[p][k] == times[o[p]]
    ensures forall p, i :: 0 <= p < |rows| && 0 <= i < |times| && ev[i] == Some(rows[p][e] as nat) ==>
              rows[p][k] <= times[i]
  {
    forall p, i | 0 <= p < |rows| && 0 <= i < |times| && ev[i] == Some(rows[p][e] as nat)
      ensures rows[p][k] <= times[i]
    {
      assert ev[i] == ev[o[p]];
      assert o[p] <= i;
    }
  }

  /** The kept event ids are exactly the windows that hold a hit. */
  lemma AssignedIdsAreHitWindows(f: Frame, k: nat, lower: seq<int>, upper: seq<int>)
    requires Wf(f) && k < |f.columns| && f.columns[k] != "event" && SortedDisjoint(lower, upper)
    ensures var g, e := DropUnassigned(f, WindowsOf(lower, upper, Keys(f.rows, k))), EventColumn(f.columns);
      forall v :: v in Keys(g.rows, e) <==> 0 <= v < |lower| && HasHit(lower, upper, Keys(f.rows, k), v)
  {
    var times := Keys(f.rows, k);
    var ev := WindowsOf(lower, upper, times);
    DropUnassignedFirstHits(f, k, ev);
    var g := DropUnassigned(f, ev);
    FirstHitsAreHitWindows(ev, times, lower, upper, g.rows, EventColumn(f.columns), Origins(f, ev));
  }

  lemma FirstHitsAreHitWindows(ev: seq<Option<nat>>, times: seq<int>, lower: seq<int>, upper: seq<int>,
                               rows: seq<seq<int>>, e: nat, o: seq<nat>)
    requires SortedDisjoint(lower, upper) && |ev| == |times|
    requires forall j :: 0 <= j < |times| ==> ev[j] == Containing(lower, upper, times[j])
    requires FirstHits(ev, rows, e, o)
    ensures HasCell(rows, e)
    ensures forall v :: v in Keys(rows, e) <==> 0 <= v < |lower| && HasHit(lower, upper, times, v)
  {
    forall v | v in Keys(rows, e) ensures 0 <= v < |lower| && HasHit(lower, upper, times, v) {
      var p :| 0 <= p < |rows| && rows[p][e] == v;
      assert lower[v] <= times[o[p]] <= upper[v];
    }
    forall v | 0 <= v < |lower| && HasHit(lower, upper, times, v) ensures v in Keys(rows, e) {
      var j :| 0 <= j < |times| && lower[v] <= times[j] <= upper[v];
      ContainingUnique(lower, upper, times[j], v);
      var i := FirstOf(ev, Some(v));
      assert i in o;
      var p :| 0 <= p < |o| && o[p] == i;
      assert Keys(rows, e)[p] == v;
    }
  }

  // ---------------------------------------------------------------------
  // The whole table step
  // ---------------------------------------------------------------------

  /** Dropping unassigned and repeated hits never adds rows, and leaves
      every event id once. */
  lemma DropUnassignedSize(f: Frame, ev: seq<Option<nat>>)
    requires Wf(f) && |ev| == |f.rows|
    ensures var g := DropUnassigned(f, ev);
      && |g.rows| <= |f.rows| && EventColumn(f.columns) < |g.columns|
      && Distinct(Keys(g.rows, EventColumn(f.columns)))
  {
    var l := Labelled(f, ev);
    var e := EventColumn(f.columns);
    SelectExactly(l.rows, FirstMask(Keys(l.rows, e)));
    UniqueFirstDistinct(l, e);
  }

  /** The table `assign_events_to_detector_and_drop` leaves in a detector
      (built windows, a time column named `axis`), or what it raises: no
      windows yet, no such column, or a zero-row ratio for the livetime. */
  function AssignTable(lower: seq<int>, upper: seq<int>, f: Frame, axis: string): (r: Result<Frame>)
    requires SortedDisjoint(lower, upper) && Wf(f)
    ensures |lower| == 0 ==> r == Err(NoBuildWindows)
    ensures |lower| > 0 && axis !in f.columns ==> r == Err(ColumnNotFound(axis))
    ensures |lower| > 0 && axis in f.columns && |f.rows| == 0 ==> r == Err(ZeroDivision)
    ensures |lower| > 0 && axis in f.columns && |f.rows| > 0 ==> r.Ok?
    ensures r.Ok? ==> && Wf(r.value) && "event" in r.value.columns && |r.value.rows| <= |f.rows|
                      && var e := ColumnIndex(r.value.columns, "event").value;
                         Distinct(Keys(r.value.rows, e))
  {
    if |lower| == 0 then Err(NoBuildWindows)
    else match ColumnIndex(f.columns, axis)
      case None => Err(ColumnNotFound(axis))
      case Some(k) =>
        if |f.rows| == 0 then Err(ZeroDivision)
        else
          var g := DropUnassigned(f, WindowsOf(lower, upper, Keys(f.rows, k)));
          DropUnassignedSize(f, WindowsOf(lower, upper, Keys(f.rows, k)));
          ColumnIndexOf(g.columns, EventColumn(f.columns));
          Ok(g)
  }
}
