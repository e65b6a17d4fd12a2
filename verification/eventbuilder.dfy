/** The reference-timestamp event builder: it collects reference times,
    turns them into disjoint build windows, and maps each detector's hits
    to those windows. */
module EventBuilding {
  import opened Wrappers
  import opened Seqs
  import opened Frames
  import opened Intervals
  import opened Detectors
  import opened Assignment

  /** What `add_timestamps` accepts: a detector (its time column is read)
      or a bare series of times. */
  datatype Source = FromDetector(det: Detector) | FromSeries(values: seq<int>)

  /** The times a source contributes, or the missing column. */
  function StampsOf(src: Source, axis: string): (r: Result<seq<int>>)
    reads if src.FromDetector? then {src.det} else {}
    requires src.FromDetector? ==> Wf(src.det.data)
    ensures src.FromSeries? ==> r == Ok(src.values)
    ensures src.FromDetector? && axis !in src.det.data.columns ==> r == Err(ColumnNotFound(axis))
    ensures src.FromDetector? && axis in src.det.data.columns ==>
      var k := ColumnIndex(src.det.data.columns, axis).value;
      && r.Ok? && |r.value| == |src.det.data.rows|
      && forall i :: 0 <= i < |r.value| ==> r.value[i] == src.det.data.rows[i][k]
  {
    match src
    case FromSeries(values) => Ok(values)
    case FromDetector(det) =>
      match ColumnIndex(det.data.columns, axis)
      case None => Err(ColumnNotFound(axis))
      case Some(k) => Ok(Keys(det.data.rows, k))
  }

  /** Every time moved by d (`np.asarray(timestamps) + d`). */
  function Shifted(ts: seq<int>, d: int): (r: seq<int>)
    ensures |r| == |ts| && forall k :: 0 <= k < |ts| ==> r[k] == ts[k] + d
  {
    seq(|ts|, k requires 0 <= k < |ts| => ts[k] + d)
  }

  /** The windows built from reference times ts: the candidates
      [t + low, t + high] less those the greedy scan rejects. */
  ghost predicate BuiltFrom(ts: seq<int>, low: int, high: int, lower: seq<int>, upper: seq<int>) {
    exists reject: seq<nat> ::
      && IsGreedyReject(Shifted(ts, low), Shifted(ts, high), reject)
      && lower == Delete(Shifted(ts, low), reject)
      && upper == Delete(Shifted(ts, high), reject)
  }

  /** The windows of a non-empty reference set are disjoint and ordered,
      and there is at least one and at most one per reference time. */
  lemma BuiltWindows(ts: seq<int>, low: int, high: int, lower: seq<int>, upper: seq<int>)
    requires low < high && BuiltFrom(ts, low, high, lower, upper)
    ensures SortedDisjoint(lower, upper)
    ensures |lower| <= |ts| && (|ts| > 0 ==> 1 <= |lower|)
  {
    var reject :| IsGreedyReject(Shifted(ts, low), Shifted(ts, high), reject)
      && lower == Delete(Shifted(ts, low), reject) && upper == Delete(Shifted(ts, high), reject);
    ShiftedSurvivors(Shifted(ts, low), Shifted(ts, high), reject);
  }

  /** GreedySurvivors for candidates of equal width. */
  lemma ShiftedSurvivors(lo: seq<int>, hi: seq<int>, reject: seq<nat>)
    requires |lo| == |hi| && IsGreedyReject(lo, hi, reject)
    requires forall k :: 0 <= k < |lo| ==> lo[k] < hi[k]
    ensures SortedDisjoint(Delete(lo, reject), Delete(hi, reject))
    ensures |Delete(lo, reject)| <= |lo| && (|lo| > 0 ==> 1 <= |Delete(lo, reject)|)
  {
    GreedySurvivors(lo, hi, reject);
  }

  /** The windows are a function of the reference times and the bounds. */
  lemma BuiltWindowsUnique(ts: seq<int>, low: int, high: int, l1: seq<int>, u1: seq<int>, l2: seq<int>, u2: seq<int>)
    requires BuiltFrom(ts, low, high, l1, u1) && BuiltFrom(ts, low, high, l2, u2)
    ensures l1 == l2 && u1 == u2
  {
    var lo, hi := Shifted(ts, low), Shifted(ts, high);
    var r1 :| IsGreedyReject(lo, hi, r1) && l1 == Delete(lo, r1) && u1 == Delete(hi, r1);
    var r2 :| IsGreedyReject(lo, hi, r2) && l2 == Delete(lo, r2) && u2 == Delete(hi, r2);
    GreedyRejectUnique(lo, hi, r1, r2);
  }

  /** The window each time falls in, found as the source does: mark the
      windows holding a hit, then sweep the sorted times once. */
  method WindowLabels(lower: seq<int>, upper: seq<int>, times: seq<int>) returns (ev: seq<Option<nat>>)
    requires SortedDisjoint(lower, upper) && Sorted(times)
    ensures ev == WindowsOf(lower, upper, times)
  {
    var mask := FindCoincidentEvents(lower, upper, times);
    var hitIndex := Indices(mask);
    HitIndexFromMask(lower, upper, times);
    ev := AssignEventIndex(hitIndex, lower, upper, times);
  }

  /** What `assign_events_to_detector_and_drop` does to a detector's table
      `f` read on the time axis `a`: the table it leaves and the error it
      raises, if any. Without build windows or without the column nothing
      changes; otherwise the table is replaced by the first hit of every
      window, and a table that had no rows then fails the livetime
      division. */
  function AssignStep(lower: seq<int>, upper: seq<int>, f: Frame, a: string): (r: (Frame, Option<Error>))
    requires SortedDisjoint(lower, upper) && Wf(f)
    ensures Wf(r.0) && |r.0.rows| <= |f.rows|
    ensures lower == [] ==> r == (f, Some(NoBuildWindows))
    ensures lower != [] && a !in f.columns ==> r == (f, Some(ColumnNotFound(a)))
    ensures lower != [] && a in f.columns ==>
      var k := ColumnIndex(f.columns, a).value;
      && r.0 == DropUnassigned(f, WindowsOf(lower, upper, Keys(f.rows, k)))
      && r.1 == if f.rows == [] then Some(ZeroDivision) else None
  {
    if lower == [] then (f, Some(NoBuildWindows))
    else match ColumnIndex(f.columns, a)
      case None => (f, Some(ColumnNotFound(a)))
      case Some(k) =>
        var ev := WindowsOf(lower, upper, Keys(f.rows, k));
        DropUnassignedSize(f, ev);
        (DropUnassigned(f, ev), if f.rows == [] then Some(ZeroDivision) else None)
  }

  /** The windows `create_build_windows` keeps: every time shifted by the
      two bounds, less the candidates the greedy scan rejects. */
  method ReduceWindows(ts: seq<int>, low: int, high: int) returns (lower: seq<int>, upper: seq<int>)
    requires low < high
    ensures BuiltFrom(ts, low, high, lower, upper) && SortedDisjoint(lower, upper)
    ensures |lower| <= |ts| && (|ts| > 0 ==> 1 <= |lower|)
  {
    var lowStamps := Shifted(ts, low);
    var highStamps := Shifted(ts, high);
    var dropIndex := ReduceIntervals(lowStamps, highStamps);
    lower := Delete(lowStamps, dropIndex);
    upper := Delete(highStamps, dropIndex);
    BuiltWindows(ts, low, high, lower, upper);
  }

  /** `AssignStep` computed as the source does, with the window labels
      found by the sorted search and the cursor scan. */
  method AssignData(lower: seq<int>, upper: seq<int>, f: Frame, a: string) returns (g: Frame, err: Option<Error>)
    requires SortedDisjoint(lower, upper) && Wf(f)
    requires forall k :: ColumnIndex(f.columns, a) == Some(k) ==> Sorted(Keys(f.rows, k))
    ensures (g, err) == AssignStep(lower, upper, f, a)
  {
    if lower == [] || upper == [] {
      return f, Some(NoBuildWindows);
    }
    var col := ColumnIndex(f.columns, a);
    if col.None? {
      return f, Some(ColumnNotFound(a));
    }
    g := AssignRows(lower, upper, f, col.value);
    err := if |f.rows| == 0 then Some(ZeroDivision) else None;
  }

  /** The table step of `assign_events_to_detector_and_drop` on the time
      column k: label every hit with its window, drop the unassigned ones
      and keep the first hit of each window. */
  method AssignRows(lower: seq<int>, upper: seq<int>, f: Frame, k: nat) returns (g: Frame)
    requires SortedDisjoint(lower, upper) && Wf(f) && k < |f.columns| && Sorted(Keys(f.rows, k))
    ensures g == DropUnassigned(f, WindowsOf(lower, upper, Keys(f.rows, k)))
    ensures Wf(g) && |g.rows| <= |f.rows|
  {
    var eventNumber := WindowLabels(lower, upper, Keys(f.rows, k));
    g := DropUnassigned(f, eventNumber);
    DropUnassignedSize(f, eventNumber);
  }

  /** `part / whole` as a real, which lies in [0, 1] for a part of the
      whole and is positive for a non-empty part. */
  function Ratio(part: nat, whole: nat): (r: real)
    requires whole > 0
    ensures part <= whole ==> 0.0 <= r <= 1.0
    ensures part > 0 ==> r > 0.0
  {
    part as real / whole as real
  }

  class EventBuilder {
    var lower: seq<int>
    var upper: seq<int>
    var preReducedLen: nat
    var reducedLen: nat
    var timestamps: seq<int>
    var eventNumbers: seq<nat>
    var livetime: Option<real>
    /** The "dead time is greater than 10%" warning was given. */
    var deadTimeWarning: bool

    ghost predicate Valid()
      reads this
    {
      && Sorted(timestamps)
      && SortedDisjoint(lower, upper)
      && reducedLen == |lower| && eventNumbers == Range(reducedLen)
      && reducedLen <= preReducedLen && (reducedLen == 0 <==> preReducedLen == 0)
      && (livetime.Some? ==> 0.0 < livetime.value <= 1.0)
    }

    constructor ()
      ensures Valid()
      ensures lower == [] && upper == [] && preReducedLen == 0 && reducedLen == 0
      ensures timestamps == [] && eventNumbers == [] && livetime == None && !deadTimeWarning
    {
      lower, upper := [], [];
      preReducedLen, reducedLen := 0, 0;
      timestamps, eventNumbers := [], [];
      livetime := None;
      deadTimeWarning := false;
    }

    /** Merges the source's times into the reference times, which stay in
        ascending order. */
    method AddTimestamps(src: Source, axis: Option<string>) returns (outcome: Outcome)
      requires Valid() && (src.FromDetector? ==> Wf(src.det.data))
      modifies this
      ensures Valid()
      ensures lower == old(lower) && upper == old(upper) && eventNumbers == old(eventNumbers)
      ensures preReducedLen == old(preReducedLen) && reducedLen == old(reducedLen)
      ensures livetime == old(livetime) && deadTimeWarning == old(deadTimeWarning)
      ensures match old(StampsOf(src, OrDefault(axis, DefaultTimeAxis)))
        case Err(e) => outcome == Fail(e) && timestamps == old(timestamps)
        case Ok(stamps) =>
          && outcome == Pass && Sorted(timestamps)
          && multiset(timestamps) == multiset(old(timestamps)) + multiset(stamps)
          && |timestamps| == |old(timestamps)| + |stamps|
    {
      var stamps := StampsOf(src, OrDefault(axis, DefaultTimeAxis));
      if stamps.Err? {
        return Fail(stamps.error);
      }
      timestamps := Sort(timestamps + stamps.value);
      assert |timestamps| == |multiset(timestamps)|;
      outcome := Pass;
    }

    /** `self.livetime = reduced_len / pre_reduced_len`. */
    method CalcLivetime() returns (r: Result<real>)
      requires Valid()
      modifies this
      ensures Valid()
      ensures lower == old(lower) && upper == old(upper) && eventNumbers == old(eventNumbers)
      ensures preReducedLen == old(preReducedLen) && reducedLen == old(reducedLen)
      ensures timestamps == old(timestamps) && deadTimeWarning == old(deadTimeWarning)
      ensures preReducedLen == 0 ==> r == Err(ZeroDivision) && livetime == old(livetime)
      ensures preReducedLen > 0 ==>
        && r == Ok(Ratio(reducedLen, preReducedLen)) && livetime == Some(r.value)
        && 0.0 < r.value <= 1.0
    {
      if preReducedLen == 0 {
        return Err(ZeroDivision);
      }
      var lt := Ratio(reducedLen, preReducedLen);
      livetime := Some(lt);
      r := Ok(lt);
    }

    /** Builds the disjoint windows from the reference times, numbers them
        0 .. n-1 and computes the livetime, warning when it is below 0.9. */
    method CreateBuildWindows(low: int, high: int) returns (outcome: Outcome)
      requires Valid()
      modifies this
      ensures Valid() && timestamps == old(timestamps)
      ensures high <= low ==> outcome == Fail(InvalidWindow) && unchanged(this)
      ensures low < high && timestamps == [] ==> outcome == Fail(NoReferenceData) && unchanged(this)
      ensures low < high && timestamps != [] ==>
        && outcome == Pass
        && preReducedLen == |timestamps|
        && BuiltFrom(timestamps, low, high, lower, upper)
        && 1 <= reducedLen <= preReducedLen && eventNumbers == Range(reducedLen)
        && livetime == Some(Ratio(reducedLen, preReducedLen))
        && (deadTimeWarning <==> livetime.value < 0.9)
    {
      if high <= low {
        return Fail(InvalidWindow);
      }
      if timestamps == [] {
        return Fail(NoReferenceData);
      }
      preReducedLen := |timestamps|;
      lower, upper := ReduceWindows(timestamps, low, high);
      reducedLen := |lower|;
      eventNumbers := Range(reducedLen);
      var lt := CalcLivetime();
      deadTimeWarning := lt.value < 0.9;
      outcome := Pass;
    }

    /** Labels each hit of `det` with the window holding it, keeps the
        first hit of each window and records the kept fraction as the
        detector's livetime. The table is replaced before the livetime is
        computed, so a detector with no rows ends with the new (empty)
        table and a division error. */
    method AssignEventsToDetectorAndDrop(det: Detector, axis: Option<string>) returns (r: Result<Detector>)
      requires Valid() && Wf(det.data)
      requires forall k :: ColumnIndex(det.data.columns, OrDefault(axis, DefaultTimeAxis)) == Some(k) ==>
                 Sorted(Keys(det.data.rows, k))
      modifies det
      ensures Wf(det.data)
      ensures det.name == old(det.name) && det.coin == old(det.coin)
      ensures det.primaryEnergyAxis == old(det.primaryEnergyAxis) && det.primaryTimeAxis == old(det.primaryTimeAxis)
      ensures var step := old(AssignStep(lower, upper, det.data, OrDefault(axis, DefaultTimeAxis)));
        && det.data == step.0
        && (step.1.Some? ==> r == Err(step.1.value) && det.livetime == old(det.livetime))
        && (step.1.None? ==>
              && r == Ok(det)
              && det.livetime == Some(Ratio(|det.data.rows|, |old(det.data).rows|))
              && 0.0 <= det.livetime.value <= 1.0)
    {
      var f := det.data;
      var g, err := AssignData(lower, upper, f, OrDefault(axis, DefaultTimeAxis));
      det.data := g;
      if err.Some? {
        return Err(err.value);
      }
      det.livetime := Some(Ratio(|g.rows|, |f.rows|));
      r := Ok(det);
    }
  }

  // ---------------------------------------------------------------------
  // Coincidences
  // ---------------------------------------------------------------------

  /** A detector's table as it is joined: assigned to the windows, then
      every column but "event" suffixed with the detector's name. */
  function Part(lower: seq<int>, upper: seq<int>, table: Frame, name: string): (r: Result<Frame>)
    requires SortedDisjoint(lower, upper) && Wf(table)
    ensures r.Ok? <==> AssignTable(lower, upper, table, DefaultTimeAxis).Ok?
    ensures r.Err? ==> r == AssignTable(lower, upper, table, DefaultTimeAxis)
    ensures r.Ok? ==> Wf(r.value) && "event" in r.value.columns
  {
    var labelled := AssignTable(lower, upper, table, DefaultTimeAxis);
    if labelled.Err? then labelled
    else
      var e := ColumnIndex(labelled.value.columns, "event").value;
      var part := RenameColumns(labelled.value, name);
      assert part.columns[e] == "event";
      Ok(part)
  }

  /** A part holds the assigned rows unchanged, under the assigned header
      with every column but "event" suffixed by `_<name>`. */
  lemma PartLayout(lower: seq<int>, upper: seq<int>, table: Frame, name: string)
    requires SortedDisjoint(lower, upper) && Wf(table) && Part(lower, upper, table, name).Ok?
    ensures var r, t := Part(lower, upper, table, name).value, AssignTable(lower, upper, table, DefaultTimeAxis).value;
      && r.rows == t.rows && |r.columns| == |t.columns|
      && forall c :: 0 <= c < |t.columns| ==>
           r.columns[c] == if t.columns[c] == "event" then "event" else t.columns[c] + "_" + name
  {
  }

  /** The table has an "event" column and its rows are in event order. */
  ghost predicate EventSorted(f: Frame) {
    "event" in f.columns && SortedOn(f.rows, ColumnIndex(f.columns, "event").value)
  }

  /** One pass of the `create_coincidence` loop on values: assign the
      detector's table to the windows, suffix its columns with the
      detector's name, join it onto the running table on "event" (inner
      for a coincidence, anti for an anti-coincidence) and sort by event. */
  function JoinStep(acc: Frame, lower: seq<int>, upper: seq<int>, table: Frame, name: string, coin: bool): (r: Result<Frame>)
    requires SortedDisjoint(lower, upper) && Wf(acc) && Wf(table)
    ensures r.Ok? ==> && Wf(r.value) && |acc.columns| <= |r.value.columns|
                      && r.value.columns[..|acc.columns|] == acc.columns
                      && EventSorted(r.value)
    ensures "event" !in acc.columns ==> r.Err?
  {
    var part := Part(lower, upper, table, name);
    if part.Err? then Err(part.error)
    else
      var joined := Join(acc, part.value, "event", if coin then Inner else Anti);
      if joined.Err? then Err(joined.error)
      else match ColumnIndex(joined.value.columns, "event")
        case None => Err(ColumnNotFound("event"))
        case Some(k) => Ok(SortBy(joined.value, k))
  }

  /** The whole loop: the detectors' tables joined in order onto `acc`;
      the first failure ends it. */
  function Coincidence(acc: Frame, lower: seq<int>, upper: seq<int>,
                       tables: seq<Frame>, names: seq<string>, flags: seq<bool>): (r: Result<Frame>)
    requires SortedDisjoint(lower, upper) && Wf(acc)
    requires |tables| == |names| == |flags| && forall i :: 0 <= i < |tables| ==> Wf(tables[i])
    ensures r.Ok? ==> Wf(r.value)
    decreases |tables|
  {
    if tables == [] then Ok(acc)
    else
      var step := JoinStep(acc, lower, upper, tables[0], names[0], flags[0]);
      if step.Err? then Err(step.error)
      else
        assert forall i :: 0 <= i < |tables[1..]| ==> tables[1..][i] == tables[i + 1];
        Coincidence(step.value, lower, upper, tables[1..], names[1..], flags[1..])
  }

  /** The fold keeps the starting columns in front. */
  lemma {:induction false} CoincidenceColumns(acc: Frame, lower: seq<int>, upper: seq<int>,
                                              tables: seq<Frame>, names: seq<string>, flags: seq<bool>)
    requires SortedDisjoint(lower, upper) && Wf(acc)
    requires |tables| == |names| == |flags| && forall i :: 0 <= i < |tables| ==> Wf(tables[i])
    ensures var r := Coincidence(acc, lower, upper, tables, names, flags);
      r.Ok? ==> |acc.columns| <= |r.value.columns| && r.value.columns[..|acc.columns|] == acc.columns
    decreases |tables|
  {
    var r := Coincidence(acc, lower, upper, tables, names, flags);
    if tables != [] && r.Ok? {
      var next := JoinStep(acc, lower, upper, tables[0], names[0], flags[0]).value;
      assert forall i :: 0 <= i < |tables[1..]| ==> tables[1..][i] == tables[i + 1];
      CoincidenceColumns(next, lower, upper, tables[1..], names[1..], flags[1..]);
      PrefixOfPrefix(acc.columns, next.columns, r.value.columns);
    }
  }

  /** Once a detector has been joined, the fold leaves the rows in event
      order. */
  lemma {:induction false} CoincidenceSorted(acc: Frame, lower: seq<int>, upper: seq<int>,
                                             tables: seq<Frame>, names: seq<string>, flags: seq<bool>)
    requires SortedDisjoint(lower, upper) && Wf(acc)
    requires |tables| == |names| == |flags| && forall i :: 0 <= i < |tables| ==> Wf(tables[i])
    ensures var r := Coincidence(acc, lower, upper, tables, names, flags);
      r.Ok? && tables != [] ==> EventSorted(r.value)
    decreases |tables|
  {
    var r := Coincidence(acc, lower, upper, tables, names, flags);
    if tables != [] && r.Ok? {
      var next := JoinStep(acc, lower, upper, tables[0], names[0], flags[0]).value;
      assert forall i :: 0 <= i < |tables[1..]| ==> tables[1..][i] == tables[i + 1];
      if |tables| > 1 {
        CoincidenceSorted(next, lower, upper, tables[1..], names[1..], flags[1..]);
      }
    }
  }

  /** The fold from position i on is one step followed by the fold from
      i + 1 on. */
  lemma CoincidenceNext(acc: Frame, lower: seq<int>, upper: seq<int>,
                        tables: seq<Frame>, names: seq<string>, flags: seq<bool>, i: nat)
    requires SortedDisjoint(lower, upper) && Wf(acc)
    requires |tables| == |names| == |flags| && forall i :: 0 <= i < |tables| ==> Wf(tables[i])
    requires i < |tables|
    ensures var step := JoinStep(acc, lower, upper, tables[i], names[i], flags[i]);
      Coincidence(acc, lower, upper, tables[i..], names[i..], flags[i..])
        == if step.Err? then Err(step.error)
           else Coincidence(step.value, lower, upper, tables[i + 1..], names[i + 1..], flags[i + 1..])
  {
    assert tables[i..][1..] == tables[i + 1..] && names[i..][1..] == names[i + 1..] && flags[i..][1..] == flags[i + 1..];
  }

  /** The event ids held by a table with an "event" column. */
  ghost function Ids(f: Frame): set<int>
    requires Wf(f) && "event" in f.columns
  {
    set v | v in Keys(f.rows, ColumnIndex(f.columns, "event").value)
  }

  /** The windows that hold at least one hit of the table's default time
      column. */
  ghost function HitWindows(lower: seq<int>, upper: seq<int>, table: Frame): set<int>
    requires |lower| == |upper| && Wf(table) && DefaultTimeAxis in table.columns
  {
    var times := Keys(table.rows, ColumnIndex(table.columns, DefaultTimeAxis).value);
    set v: int | 0 <= v < |lower| && HasHit(lower, upper, times, v)
  }

  /** The ids of a detector's part are the windows it has a hit in, each
      once. */
  lemma PartIds(lower: seq<int>, upper: seq<int>, table: Frame, name: string)
    requires SortedDisjoint(lower, upper) && Wf(table) && Part(lower, upper, table, name).Ok?
    ensures DefaultTimeAxis in table.columns
    ensures var part := Part(lower, upper, table, name).value;
      && Ids(part) == HitWindows(lower, upper, table)
      && Distinct(Keys(part.rows, ColumnIndex(part.columns, "event").value))
  {
    var k := ColumnIndex(table.columns, DefaultTimeAxis).value;
    var labelled := AssignTable(lower, upper, table, DefaultTimeAxis).value;
    var e := EventColumn(table.columns);
    AssignedIdsAreHitWindows(table, k, lower, upper);
    var part := RenameColumns(labelled, name);
    ColumnIndexOf(part.columns, e);
    ColumnIndexOf(labelled.columns, e);
  }

  /** Joining on "event" and sorting by it keeps the running ids that are
      (inner) or are not (anti) among the part's ids. */
  lemma JoinIds(acc: Frame, part: Frame, how: How)
    requires Wf(acc) && Wf(part) && Join(acc, part, "event", how).Ok?
    ensures "event" in acc.columns && "event" in part.columns
    ensures var joined := Join(acc, part, "event", how).value;
      var sorted := SortBy(joined, ColumnIndex(acc.columns, "event").value);
      && ColumnIndex(sorted.columns, "event") == ColumnIndex(acc.columns, "event")
      && Ids(sorted) == if how == Inner then Ids(acc) * Ids(part) else Ids(acc) - Ids(part)
  {
    JoinKeys(acc, part, "event", how);
    var joined := Join(acc, part, "event", how).value;
    SortedIds(acc, part, joined, how);
  }

  /** The same on the joined table as a value. */
  lemma SortedIds(acc: Frame, part: Frame, joined: Frame, how: How)
    requires Wf(acc) && Wf(part) && Wf(joined) && "event" in acc.columns && "event" in part.columns
    requires ColumnIndex(joined.columns, "event") == ColumnIndex(acc.columns, "event")
    requires forall v :: v in Keys(joined.rows, ColumnIndex(acc.columns, "event").value) <==>
      v in Keys(acc.rows, ColumnIndex(acc.columns, "event").value)
      && (v in Keys(part.rows, ColumnIndex(part.columns, "event").value) <==> how == Inner)
    ensures var sorted := SortBy(joined, ColumnIndex(acc.columns, "event").value);
      && ColumnIndex(sorted.columns, "event") == ColumnIndex(acc.columns, "event")
      && Ids(sorted) == if how == Inner then Ids(acc) * Ids(part) else Ids(acc) - Ids(part)
  {
    var lk := ColumnIndex(acc.columns, "event").value;
    SameKeys(joined.rows, SortBy(joined, lk).rows, lk);
  }

  /** A coincidence step keeps the running ids that have a hit of the
      detector; an anti-coincidence step keeps those that have none. */
  lemma JoinStepIds(acc: Frame, lower: seq<int>, upper: seq<int>, table: Frame, name: string, coin: bool)
    requires SortedDisjoint(lower, upper) && Wf(acc) && Wf(table)
    requires JoinStep(acc, lower, upper, table, name, coin).Ok?
    ensures "event" in acc.columns && DefaultTimeAxis in table.columns
    ensures var next := JoinStep(acc, lower, upper, table, name, coin).value;
      && ColumnIndex(next.columns, "event") == ColumnIndex(acc.columns, "event")
      && Ids(next) == if coin then Ids(acc) * HitWindows(lower, upper, table)
                      else Ids(acc) - HitWindows(lower, upper, table)
  {
    var part := Part(lower, upper, table, name).value;
    PartIds(lower, upper, table, name);
    JoinIds(acc, part, if coin then Inner else Anti);
  }

  /** Every detector's table must have its time column. */
  ghost predicate AllTimed(tables: seq<Frame>) {
    forall i :: 0 <= i < |tables| ==> Wf(tables[i]) && DefaultTimeAxis in tables[i].columns
  }

  /** v survives every step: it is hit by exactly the detectors flagged
      coincident. */
  ghost predicate Selected(v: int, lower: seq<int>, upper: seq<int>, tables: seq<Frame>, flags: seq<bool>)
    requires |lower| == |upper| && AllTimed(tables) && |flags| == |tables|
  {
    forall i :: 0 <= i < |tables| ==> (v in HitWindows(lower, upper, tables[i]) <==> flags[i])
  }

  /** The coincident table holds exactly the starting ids hit by every
      coincident detector and by no anti-coincident one. */
  lemma {:induction false} CoincidenceIds(acc: Frame, lower: seq<int>, upper: seq<int>,
                                          tables: seq<Frame>, names: seq<string>, flags: seq<bool>)
    requires SortedDisjoint(lower, upper) && Wf(acc) && "event" in acc.columns
    requires |tables| == |names| == |flags| && forall i :: 0 <= i < |tables| ==> Wf(tables[i])
    requires Coincidence(acc, lower, upper, tables, names, flags).Ok?
    ensures AllTimed(tables)
    ensures var r := Coincidence(acc, lower, upper, tables, names, flags).value;
      && ColumnIndex(r.columns, "event") == ColumnIndex(acc.columns, "event")
      && forall v :: v in Ids(r) <==> v in Ids(acc) && Selected(v, lower, upper, tables, flags)
    decreases |tables|
  {
    if tables != [] {
      var next := JoinStep(acc, lower, upper, tables[0], names[0], flags[0]).value;
      JoinStepIds(acc, lower, upper, tables[0], names[0], flags[0]);
      CoincidenceIds(next, lower, upper, tables[1..], names[1..], flags[1..]);
      SelectedCons(lower, upper, tables, flags);
    }
  }

  /** Selection over a list is the first detector's test and selection
      over the rest. */
  lemma SelectedCons(lower: seq<int>, upper: seq<int>, tables: seq<Frame>, flags: seq<bool>)
    requires |lower| == |upper| && |tables| == |flags| > 0
    requires Wf(tables[0]) && DefaultTimeAxis in tables[0].columns && AllTimed(tables[1..])
    ensures AllTimed(tables)
    ensures forall v :: Selected(v, lower, upper, tables, flags) <==>
      (v in HitWindows(lower, upper, tables[0]) <==> flags[0]) && Selected(v, lower, upper, tables[1..], flags[1..])
  {
    assert forall i :: 1 <= i < |tables| ==> tables[i] == tables[1..][i - 1] && flags[i] == flags[1..][i - 1];
  }

  /** For one detector, the coincident and the anti-coincident tables split
      the starting events between them. */
  lemma InnerAntiPartition(base: Frame, lower: seq<int>, upper: seq<int>, table: Frame, name: string)
    requires SortedDisjoint(lower, upper) && Wf(base) && base.columns == ["event"] && Wf(table)
    requires AssignTable(lower, upper, table, DefaultTimeAxis).Ok?
    ensures JoinStep(base, lower, upper, table, name, true).Ok?
    ensures JoinStep(base, lower, upper, table, name, false).Ok?
    ensures |JoinStep(base, lower, upper, table, name, true).value.rows|
          + |JoinStep(base, lower, upper, table, name, false).value.rows| == |base.rows|
  {
    var part := Part(lower, upper, table, name).value;
    PartIds(lower, upper, table, name);
    KeyOnlyInnerJoin(base, part, "event");
    JoinKeys(base, part, "event", Inner);
    JoinKeys(base, part, "event", Anti);
    JoinPartition(base, part, "event");
    var inner, anti := Join(base, part, "event", Inner).value, Join(base, part, "event", Anti).value;
    assert |SortBy(inner, 0).rows| == |inner.rows| by {
      assert |multiset(SortBy(inner, 0).rows)| == |multiset(inner.rows)|;
    }
    assert |SortBy(anti, 0).rows| == |anti.rows| by {
      assert |multiset(SortBy(anti, 0).rows)| == |multiset(anti.rows)|;
    }
  }

  /** `"_".join(names)`. */
  function JoinNames(names: seq<string>): (r: string)
    ensures names == [] ==> r == ""
    decreases |names|
  {
    if names == [] then ""
    else if |names| == 1 then names[0]
    else names[0] + "_" + JoinNames(names[1..])
  }

  /** `s.split(sep)`: the pieces between separators, at least one. */
  function SplitOn(s: string, sep: char): (r: seq<string>)
    ensures |r| >= 1
    decreases |s|
  {
    if sep !in s then [s]
    else
      var i := FirstOf(s, sep);
      [s[..i]] + SplitOn(s[i + 1..], sep)
  }

  /** The first separator of `a + [sep] + rest` is the one after `a` when
      `a` has none. */
  lemma FirstSeparator(a: string, sep: char, rest: string)
    requires sep !in a
    ensures var s := a + [sep] + rest;
      sep in s && FirstOf(s, sep) == |a| && s[..|a|] == a && s[|a| + 1..] == rest
  {
    var s := a + [sep] + rest;
    assert s[|a|] == sep;
    assert forall j :: 0 <= j < |a| ==> s[j] == a[j];
    assert s[..|a|] == a && s[|a| + 1..] == rest;
  }

  /** Names free of '_' can be read back from the joined name. */
  lemma {:induction false} JoinNamesSplit(names: seq<string>)
    requires names != [] && forall i :: 0 <= i < |names| ==> '_' !in names[i]
    ensures SplitOn(JoinNames(names), '_') == names
    decreases |names|
  {
    if |names| > 1 {
      FirstSeparator(names[0], '_', JoinNames(names[1..]));
      JoinNamesSplit(names[1..]);
    }
  }

  /** The name the coincident detector gets: the one asked for, or the
      detectors' names joined with '_' when none (or an empty one) is given. */
  function CoincidenceName(names: seq<string>, name: Option<string>): (r: string)
    ensures name.Some? && name.value != "" ==> r == name.value
    ensures name.None? || name.value == "" ==> r == JoinNames(names)
  {
    if name.Some? && name.value != "" then name.value else JoinNames(names)
  }

  function NamesOf(dets: seq<Detector>): (names: seq<string>)
    reads dets
    ensures |names| == |dets| && forall i :: 0 <= i < |dets| ==> names[i] == dets[i].name
  {
    seq(|dets|, i reads dets requires 0 <= i < |dets| => dets[i].name)
  }

  ghost function CoinsOf(dets: seq<Detector>): (coins: seq<bool>)
    reads dets
    ensures |coins| == |dets| && forall i :: 0 <= i < |dets| ==> coins[i] == dets[i].coin
  {
    seq(|dets|, i reads dets requires 0 <= i < |dets| => dets[i].coin)
  }

  /** What `get_coin` returns for each detector in turn: its flag, unless
      the same object came earlier in the list, whose `get_coin` already
      reset it to true. */
  ghost function Flags(dets: seq<Detector>): (flags: seq<bool>)
    reads dets
    ensures |flags| == |dets| && forall i :: 0 <= i < |dets| ==>
      flags[i] == (dets[i].coin || exists m :: 0 <= m < i && dets[m] == dets[i])
  {
    seq(|dets|, i reads dets requires 0 <= i < |dets| =>
      dets[i].coin || exists m :: 0 <= m < i && dets[m] == dets[i])
  }

  /** The time column every detector is assigned on is in ascending order. */
  ghost predicate TimeSorted(f: Frame) {
    forall k :: ColumnIndex(f.columns, DefaultTimeAxis) == Some(k) && HasCell(f.rows, k) ==> Sorted(Keys(f.rows, k))
  }

  /** `Detector(name)` followed by setting its table. */
  method NewDetector(name: string, f: Frame) returns (d: Detector)
    requires Wf(f)
    ensures fresh(d) && d.Valid() && d.data == f && d.name == name && d.coin && d.livetime == None
    ensures d.primaryEnergyAxis == DefaultEnergyAxis && d.primaryTimeAxis == DefaultTimeAxis
  {
    d := new Detector(name, None, None);
    d.data := f;
  }

  /** What `Coincident[...]` is indexed with: one detector or a tuple. */
  datatype Key = One(det: Detector) | Many(dets: seq<Detector>)

  class Coincident {
    /** One row per built window: the "event" column 0 .. n-1. */
    const data: Frame
    const eb: EventBuilder

    ghost predicate Valid()
      reads this, eb
    {
      && eb.Valid() && Wf(data) && data.columns == ["event"]
    }

    constructor (eb: EventBuilder)
      requires eb.Valid()
      ensures Valid() && this.eb == eb
      ensures data.columns == ["event"] && |data.rows| == |eb.eventNumbers|
      ensures forall i :: 0 <= i < |data.rows| ==> data.rows[i] == [eb.eventNumbers[i] as int]
      ensures forall v :: v in Ids(data) <==> 0 <= v < eb.reducedLen
    {
      this.eb := eb;
      var numbers := eb.eventNumbers;
      var rows := seq(|numbers|, i requires 0 <= i < |numbers| => [numbers[i] as int]);
      data := Frame(["event"], rows);
      new;
      ghost var keys := Keys(rows, 0);
      forall v | 0 <= v < eb.reducedLen ensures v in keys {
        assert keys[v] == v;
      }
    }

    /** A detector's part, computed on a copy so that the detector itself
        is left alone. */
    method PartOf(det: Detector) returns (r: Result<Frame>)
      requires Valid() && det.Valid() && TimeSorted(det.data)
      ensures r == Part(eb.lower, eb.upper, det.data, det.name)
    {
      var temp := det.Copy();
      var labelled := eb.AssignEventsToDetectorAndDrop(temp, None);
      if labelled.Err? {
        return Err(labelled.error);
      }
      r := Ok(RenameColumns(temp.data, temp.name));
    }

    /** One detector's pass of the loop: its copy is assigned to the
        windows and suffixed, then `get_coin` picks the join. A failed
        assignment ends the pass before `get_coin` is reached. */
    method JoinDetector(acc: Frame, det: Detector) returns (r: Result<Frame>)
      requires Valid() && Wf(acc) && det.Valid() && TimeSorted(det.data)
      modifies det
      ensures r == old(JoinStep(acc, eb.lower, eb.upper, det.data, det.name, det.coin))
      ensures det.data == old(det.data) && det.name == old(det.name) && det.livetime == old(det.livetime)
      ensures det.primaryEnergyAxis == old(det.primaryEnergyAxis) && det.primaryTimeAxis == old(det.primaryTimeAxis)
      ensures det.coin == (old(det.coin) || Part(eb.lower, eb.upper, det.data, det.name).Ok?)
      ensures r.Ok? ==> det.coin
    {
      var part := PartOf(det);
      if part.Err? {
        return Err(part.error);
      }
      var flag := det.GetCoin();
      var joined := Join(acc, part.value, "event", if flag then Inner else Anti);
      if joined.Err? {
        return Err(joined.error);
      }
      var k := ColumnIndex(joined.value.columns, "event");
      if k.None? {
        return Err(ColumnNotFound("event"));
      }
      r := Ok(SortBy(joined.value, k.value));
    }

    /** Detector i's pass within the loop, seen from the whole list: only
        its flag changes, and once its `get_coin` has run it (and every
        alias of it) reads true. */
    method JoinNext(acc: Frame, dets: seq<Detector>, i: nat, ghost coins: seq<bool>)
      returns (r: Result<Frame>)
      requires Valid() && Wf(acc) && i < |dets| == |coins|
      requires Wf(dets[i].data) && TimeSorted(dets[i].data)
      requires forall j :: 0 <= j < |dets| ==> dets[j].coin == (coins[j] || exists m :: 0 <= m < i && dets[m] == dets[j])
      modifies dets[i]
      ensures r == old(JoinStep(acc, eb.lower, eb.upper, dets[i].data, dets[i].name, dets[i].coin))
      ensures forall j :: 0 <= j < |dets| ==>
        && dets[j].data == old(dets[j].data) && dets[j].name == old(dets[j].name)
        && dets[j].livetime == old(dets[j].livetime)
        && dets[j].primaryEnergyAxis == old(dets[j].primaryEnergyAxis)
        && dets[j].primaryTimeAxis == old(dets[j].primaryTimeAxis)
      ensures r.Ok? ==> forall j :: 0 <= j < |dets| ==>
        dets[j].coin == (coins[j] || exists m :: 0 <= m < i + 1 && dets[m] == dets[j])
    {
      r := JoinDetector(acc, dets[i]);
      forall j | 0 <= j < |dets|
        ensures && dets[j].data == old(dets[j].data) && dets[j].name == old(dets[j].name)
                && dets[j].livetime == old(dets[j].livetime)
                && dets[j].primaryEnergyAxis == old(dets[j].primaryEnergyAxis)
                && dets[j].primaryTimeAxis == old(dets[j].primaryTimeAxis)
      {
        if dets[j] == dets[i] {
          assert dets[i] == dets[j];
        }
      }
      if r.Ok? {
        forall j | 0 <= j < |dets| && dets[j] == dets[i]
          ensures exists m :: 0 <= m < i + 1 && dets[m] == dets[j]
        {
          assert dets[i] == dets[j];
        }
      }
    }

    /** The loop of `create_coincidence`: every detector joined in turn
        onto the starting table. On success every detector's flag has been
        read, and so reset, by `get_coin`. */
    method JoinAll(dets: seq<Detector>) returns (r: Result<Frame>)
      requires Valid()
      requires forall i :: 0 <= i < |dets| ==> Wf(dets[i].data) && TimeSorted(dets[i].data)
      modifies dets
      ensures forall i :: 0 <= i < |dets| ==>
        && dets[i].data == old(dets[i].data) && dets[i].name == old(dets[i].name)
        && dets[i].livetime == old(dets[i].livetime)
        && dets[i].primaryEnergyAxis == old(dets[i].primaryEnergyAxis)
        && dets[i].primaryTimeAxis == old(dets[i].primaryTimeAxis)
      ensures r == old(Coincidence(data, eb.lower, eb.upper, DataOf(dets), NamesOf(dets), Flags(dets)))
      ensures r.Ok? ==> forall i :: 0 <= i < |dets| ==> dets[i].coin
    {
      ghost var tables, names, flags := DataOf(dets), NamesOf(dets), Flags(dets);
      assert forall j :: 0 <= j < |dets| ==> Wf(tables[j]) && TimeSorted(tables[j]);
      ghost var coins := CoinsOf(dets);
      ghost var times := seq(|dets|, j reads dets requires 0 <= j < |dets| => dets[j].livetime);
      ghost var energyAxes := seq(|dets|, j reads dets requires 0 <= j < |dets| => dets[j].primaryEnergyAxis);
      ghost var timeAxes := seq(|dets|, j reads dets requires 0 <= j < |dets| => dets[j].primaryTimeAxis);
      ghost var whole := Coincidence(data, eb.lower, eb.upper, tables, names, flags);
      var acc := data;
      for i := 0 to |dets|
        invariant Wf(acc)
        invariant whole == Coincidence(acc, eb.lower, eb.upper, tables[i..], names[i..], flags[i..])
        invariant forall j :: 0 <= j < |dets| ==>
          && dets[j].data == tables[j] && dets[j].name == names[j] && dets[j].livetime == times[j]
          && dets[j].primaryEnergyAxis == energyAxes[j] && dets[j].primaryTimeAxis == timeAxes[j]
        invariant forall j :: 0 <= j < |dets| ==> dets[j].coin == (coins[j] || exists m :: 0 <= m < i && dets[m] == dets[j])
      {
        assert dets[i].coin == flags[i];
        CoincidenceNext(acc, eb.lower, eb.upper, tables, names, flags, i);
        var step := JoinNext(acc, dets, i, coins);
        if step.Err? {
          return step;
        }
        acc := step.value;
      }
      r := Ok(acc);
      forall j | 0 <= j < |dets| ensures dets[j].coin {
        assert dets[j] == dets[j];
      }
    }

    /** `create_coincidence`: starting from every event id, joins each
        detector in turn (anti-joins those inverted with `~`) and names the
        result after the detectors unless a name is given. */
    method CreateCoincidence(dets: seq<Detector>, name: Option<string>) returns (r: Result<Detector>)
      requires Valid()
      requires forall i :: 0 <= i < |dets| ==> Wf(dets[i].data) && TimeSorted(dets[i].data)
      modifies dets
      ensures forall i :: 0 <= i < |dets| ==>
        && dets[i].data == old(dets[i].data) && dets[i].name == old(dets[i].name)
        && dets[i].livetime == old(dets[i].livetime)
        && dets[i].primaryEnergyAxis == old(dets[i].primaryEnergyAxis)
        && dets[i].primaryTimeAxis == old(dets[i].primaryTimeAxis)
      ensures match old(Coincidence(data, eb.lower, eb.upper, DataOf(dets), NamesOf(dets), Flags(dets)))
        case Err(e) => r == Err(e)
        case Ok(f) =>
          && r.Ok? && fresh(r.value) && r.value.Valid() && r.value.data == f
          && r.value.name == CoincidenceName(old(NamesOf(dets)), name)
          && r.value.coin && r.value.livetime == None
          && r.value.primaryEnergyAxis == DefaultEnergyAxis && r.value.primaryTimeAxis == DefaultTimeAxis
          && forall i :: 0 <= i < |dets| ==> dets[i].coin
    {
      ghost var expected := Coincidence(data, eb.lower, eb.upper, DataOf(dets), NamesOf(dets), Flags(dets));
      var newName := CoincidenceName(NamesOf(dets), name);
      var joined := JoinAll(dets);
      assert joined == expected;
      if joined.Err? {
        return Err(joined.error);
      }
      var d := NewDetector(newName, joined.value);
      r := Ok(d);
    }

    /** `coincident[det]` and `coincident[det1, det2, ...]`. */
    method Get(key: Key) returns (r: Result<Detector>)
      requires Valid()
      requires key.One? ==> Wf(key.det.data) && TimeSorted(key.det.data)
      requires key.Many? ==> forall i :: 0 <= i < |key.dets| ==> Wf(key.dets[i].data) && TimeSorted(key.dets[i].data)
      modifies if key.One? then [key.det] else key.dets
      ensures var dets := if key.One? then [key.det] else key.dets;
        forall i :: 0 <= i < |dets| ==>
          && dets[i].data == old(dets[i].data) && dets[i].name == old(dets[i].name)
          && dets[i].livetime == old(dets[i].livetime)
          && dets[i].primaryEnergyAxis == old(dets[i].primaryEnergyAxis)
          && dets[i].primaryTimeAxis == old(dets[i].primaryTimeAxis)
      ensures var dets := if key.One? then [key.det] else key.dets;
        match old(Coincidence(data, eb.lower, eb.upper, DataOf(dets), NamesOf(dets), Flags(dets)))
        case Err(e) => r == Err(e)
        case Ok(f) =>
          && r.Ok? && fresh(r.value) && r.value.Valid() && r.value.data == f
          && r.value.name == old(JoinNames(NamesOf(dets)))
          && r.value.coin && r.value.livetime == None
          && r.value.primaryEnergyAxis == DefaultEnergyAxis && r.value.primaryTimeAxis == DefaultTimeAxis
          && forall i :: 0 <= i < |dets| ==> dets[i].coin
    {
      var dets := if key.One? then [key.det] else key.dets;
      r := CreateCoincidence(dets, None);
    }
  }
}
