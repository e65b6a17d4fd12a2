/** Per-detector operations: the reference-free event numbering, the
    detector object (its table, its default axes and its one-shot
    coincidence flag), threshold and range filters, local-event
    multiplicity, and the union of several detectors into one. */
module Detectors {
  import opened Wrappers
  import opened Seqs
  import opened Frames

  /** The configured default axes (`config.default_time_axis` and
      `config.default_energy_axis`). */
  const DefaultTimeAxis: string := "evt_ts"
  const DefaultEnergyAxis: string := "adc"

  /** `x if x else default`: an absent or empty name picks the default. */
  function OrDefault(axis: Option<string>, default: string): (r: string)
    ensures axis.Some? && axis.value != "" ==> r == axis.value
    ensures axis.None? || axis.value == "" ==> r == default
  {
    match axis
    case Some(a) => if a != "" then a else default
    case None => default
  }

  // ---------------------------------------------------------------------
  // Reference-free event numbering (`referenceless_event_sort`)
  // ---------------------------------------------------------------------

  /** Hit j opens an event: it is the first hit or its number differs from
      the number of the hit before it. */
  predicate Opens(ev: seq<nat>, j: nat)
    requires j < |ev|
  {
    j == 0 || ev[j - 1] != ev[j]
  }

  /** The first m hits are numbered as a build window that starts at the
      hit opening each event: numbering starts at 0 (at 1 when the window
      is empty, since the first hit then already falls outside it), each
      number is its predecessor's or one more, every hit of an event lies
      in [t, t + window) for the time t of the hit that opened it, and a
      hit opens the next event exactly when it lies outside that window. */
  ghost predicate NumberedUpTo(times: seq<int>, window: int, ev: seq<nat>, m: nat)
    requires m <= |times| && m <= |ev|
  {
    && (m > 0 ==> ev[0] == if window > 0 then 0 else 1)
    && (forall i :: 0 < i < m ==> ev[i] == ev[i - 1] || ev[i] == ev[i - 1] + 1)
    && (forall j, i :: 0 <= j < i < m && Opens(ev, j) && ev[i] == ev[j] ==>
          times[j] <= times[i] < times[j] + window)
    && (forall j, i :: 0 <= j < i < m && Opens(ev, j) && Opens(ev, i) && ev[i] == ev[j] + 1 ==>
          !(times[j] <= times[i] < times[j] + window))
  }

  ghost predicate IsEventNumbering(times: seq<int>, window: int, ev: seq<nat>) {
    |ev| == |times| && NumberedUpTo(times, window, ev, |times|)
  }

  /** The hit that opened the event of hit i. */
  function OpenerOf(ev: seq<nat>, i: nat): (o: nat)
    requires i < |ev|
    ensures o <= i && Opens(ev, o) && ev[o] == ev[i]
    ensures forall k :: o < k <= i ==> !Opens(ev, k)
  {
    if Opens(ev, i) then i else OpenerOf(ev, i - 1)
  }

  /** The state of the numbering scan after hit i - 1: `opener` opened the
      current event, every earlier hit has a smaller number and every hit
      since has the same one. */
  ghost predicate Scanned(times: seq<int>, window: int, ev: seq<nat>, i: nat, opener: nat)
    requires i <= |times| == |ev|
  {
    && opener < i
    && Opens(ev, opener)
    && (forall k :: 0 <= k < opener ==> ev[k] < ev[opener])
    && (forall k :: opener <= k < i ==> ev[k] == ev[opener])
    && NumberedUpTo(times, window, ev, i)
  }

  /** Hits are numbered in one pass: a hit inside the current window
      [t_i, t_f) joins the current event, any other hit opens a new event
      whose window starts at its own time. */
  method ReferencelessEventSort(times: seq<int>, window: int) returns (ev: seq<nat>)
    ensures IsEventNumbering(times, window, ev)
  {
    var n := |times|;
    if n == 0 {
      // The kernel reads times[0] unchecked, but no slot is ever written.
      return [];
    }
    var tI := times[0];
    var tF := tI + window;
    var event: nat := 0;
    // np.empty + NaN fill: every slot is overwritten below.
    var en := new nat[n](_ => 0);
    ghost var opener: nat := 0;
    ghost var numbered := en[..];
    for i := 0 to n
      invariant en[..] == numbered
      invariant ScanAt(times, window, numbered, i, opener, event, tI, tF)
    {
      tI, tF, event, opener := NumberHit(times, window, i, tI, tF, event, numbered, opener);
      en[i] := event;
      numbered := numbered[i := event];
    }
    ev := en[..];
  }

  /** One step of the scan: hit i joins the current window or opens a new
      one at its own time; the new number of the current event is the
      hit's number. */
  method NumberHit(times: seq<int>, window: int, i: nat, tI: int, tF: int, event: nat,
                   ghost numbered: seq<nat>, ghost opener: nat)
    returns (tI': int, tF': int, event': nat, ghost opener': nat)
    requires i < |times| && ScanAt(times, window, numbered, i, opener, event, tI, tF)
    ensures ScanAt(times, window, numbered[i := event'], i + 1, opener', event', tI', tF')
  {
    var tc := times[i];
    if tc >= tI && tc < tF {
      tI', tF', event', opener' := tI, tF, event, opener;
      SameEventAt(times, window, numbered, numbered[i := event], i, opener, event, tI, tF);
    } else {
      tI' := tc;
      tF' := tc + window;
      event' := event + 1;
      opener' := i;
      NewEventAt(times, window, numbered, numbered[i := event'], i, opener, event, tI);
    }
  }

  /** The scan state before hit i: the window [tI, tF) and the number
      `event` belong to the hit `opener`, or to hit 0 before the scan. */
  ghost predicate ScanAt(times: seq<int>, window: int, ev: seq<nat>, i: nat, opener: nat, event: nat, tI: int, tF: int)
  {
    && 0 < |times| == |ev| && i <= |times| && tF == tI + window
    && if i == 0 then opener == 0 && event == 0 && tI == times[0]
       else Scanned(times, window, ev, i, opener) && event == ev[opener] && tI == times[opener]
  }

  lemma SameEventAt(times: seq<int>, window: int, before: seq<nat>, after: seq<nat>,
                    i: nat, opener: nat, event: nat, tI: int, tF: int)
    requires i < |times| && ScanAt(times, window, before, i, opener, event, tI, tF)
    requires after == before[i := event] && tI <= times[i] < tF
    ensures ScanAt(times, window, after, i + 1, opener, event, tI, tF)
  {
    if i == 0 {
      FirstStep(times, window, after);
    } else {
      SameEventStep(times, window, before, after, i, opener);
    }
  }

  lemma NewEventAt(times: seq<int>, window: int, before: seq<nat>, after: seq<nat>,
                   i: nat, opener: nat, event: nat, tI: int)
    requires i < |times| && ScanAt(times, window, before, i, opener, event, tI, tI + window)
    requires !(tI <= times[i] < tI + window)
    requires after == before[i := event + 1]
    ensures ScanAt(times, window, after, i + 1, i, event + 1, times[i], times[i] + window)
  {
    if i == 0 {
      FirstStep(times, window, after);
    } else {
      NewEventStep(times, window, before, after, i, opener);
    }
  }

  lemma FirstStep(times: seq<int>, window: int, ev: seq<nat>)
    requires 0 < |times| == |ev| && ev[0] == if window > 0 then 0 else 1
    ensures Scanned(times, window, ev, 1, 0)
  {
  }

  /** Numbering hit i with the current event keeps the scan state. */
  lemma SameEventStep(times: seq<int>, window: int, before: seq<nat>, after: seq<nat>, i: nat, opener: nat)
    requires i < |times| == |before| && Scanned(times, window, before, i, opener)
    requires after == before[i := before[opener]]
    requires times[opener] <= times[i] < times[opener] + window
    ensures Scanned(times, window, after, i + 1, opener)
  {
    assert forall k :: 0 <= k < i ==> after[k] == before[k];
    forall j | 0 <= j < i && Opens(after, j) && after[i] == after[j]
      ensures times[j] <= times[i] < times[j] + window
    {
      OnlyOpener(after, i, opener, j);
    }
  }

  /** Opening a new event at hit i moves the scan state to it. */
  lemma NewEventStep(times: seq<int>, window: int, before: seq<nat>, after: seq<nat>, i: nat, opener: nat)
    requires i < |times| == |before| && Scanned(times, window, before, i, opener)
    requires after == before[i := before[opener] + 1]
    requires !(times[opener] <= times[i] < times[opener] + window)
    ensures Scanned(times, window, after, i + 1, i)
  {
    assert forall k :: 0 <= k < i ==> after[k] == before[k] && after[k] <= before[opener];
    forall j | 0 <= j < i && Opens(after, j) && Opens(after, i) && after[i] == after[j] + 1
      ensures !(times[j] <= times[i] < times[j] + window)
    {
      OnlyOpener(after, i, opener, j);
    }
  }

  /** Before i, the only hit opening the event of `opener` is `opener`. */
  lemma OnlyOpener(ev: seq<nat>, i: nat, opener: nat, j: nat)
    requires opener < i < |ev| && j < i
    requires forall k :: 0 <= k < opener ==> ev[k] < ev[opener]
    requires forall k :: opener <= k < i ==> ev[k] == ev[opener]
    requires Opens(ev, j) && ev[j] == ev[opener]
    ensures j == opener
  {
  }

  /** The number of each next hit is fixed by the window of the hit that
      opened the event before it. */
  lemma NextNumber(times: seq<int>, window: int, ev: seq<nat>, m: nat)
    requires IsEventNumbering(times, window, ev) && 0 < m < |ev|
    ensures var o := OpenerOf(ev, m - 1);
      ev[m] == if times[o] <= times[m] < times[o] + window then ev[m - 1] else ev[m - 1] + 1
  {
    var o := OpenerOf(ev, m - 1);
    if ev[m] != ev[m - 1] {
      assert Opens(ev, m);
    }
  }

  /** The numbering is determined by the hit times and the window: two
      numberings that meet the description agree everywhere. */
  lemma {:induction false} EventNumberingUnique(times: seq<int>, window: int, e1: seq<nat>, e2: seq<nat>)
    requires IsEventNumbering(times, window, e1) && IsEventNumbering(times, window, e2)
    ensures e1 == e2
  {
    var m := 0;
    while m < |times|
      invariant m <= |times| && forall k :: 0 <= k < m ==> e1[k] == e2[k]
    {
      if m > 0 {
        SamePrefixSameOpener(e1, e2, m - 1);
        NextNumber(times, window, e1, m);
        NextNumber(times, window, e2, m);
      }
      m := m + 1;
    }
  }

  /** Sequences agreeing up to i agree on who opened the event of hit i. */
  lemma {:induction false} SamePrefixSameOpener(e1: seq<nat>, e2: seq<nat>, i: nat)
    requires i < |e1| && i < |e2| && forall k :: 0 <= k <= i ==> e1[k] == e2[k]
    ensures OpenerOf(e1, i) == OpenerOf(e2, i)
  {
    if i > 0 && !Opens(e1, i) {
      SamePrefixSameOpener(e1, e2, i - 1);
    }
  }

  /** With an empty or negative window no hit shares an event: hit i is
      event i + 1. */
  lemma {:induction false} EmptyWindowSingletons(times: seq<int>, window: int, ev: seq<nat>)
    requires window <= 0 && IsEventNumbering(times, window, ev)
    ensures forall i :: 0 <= i < |ev| ==> ev[i] == i + 1
  {
    var m := 0;
    while m < |ev|
      invariant m <= |ev| && forall i :: 0 <= i < m ==> ev[i] == i + 1
    {
      if m > 0 {
        NextNumber(times, window, ev, m);
      }
      m := m + 1;
    }
  }

  // ---------------------------------------------------------------------
  // Multiplicity (`count().over(event_<name>)`)
  // ---------------------------------------------------------------------

  /** The rows sharing event id v. */
  ghost function Group(ev: seq<nat>, v: nat): set<nat> {
    set j | 0 <= j < |ev| && ev[j] == v
  }

  /** A column of ones counted over the event column: each row gets the
      size of its event group. */
  function Multiplicity(ev: seq<nat>): (m: seq<nat>)
    ensures |m| == |ev|
    ensures forall i :: 0 <= i < |ev| ==> 1 <= m[i] == |Group(ev, ev[i])|
  {
    GroupSizes(ev);
    seq(|ev|, i requires 0 <= i < |ev| => multiset(ev)[ev[i]])
  }

  /** The occurrence count of v is the size of its group. */
  lemma {:induction false} GroupSizes(ev: seq<nat>)
    ensures forall v :: multiset(ev)[v] == |Group(ev, v)|
  {
    if ev != [] {
      var init := ev[..|ev| - 1];
      var last := ev[|ev| - 1];
      GroupSizes(init);
      assert ev == init + [last];
      forall v ensures multiset(ev)[v] == |Group(ev, v)| {
        if v == last {
          assert Group(ev, v) == Group(init, v) + {|ev| - 1};
        } else {
          assert Group(ev, v) == Group(init, v);
        }
      }
    }
  }

  // ---------------------------------------------------------------------
  // Row filters
  // ---------------------------------------------------------------------

  /** `df.filter(df[col] > threshold)`. */
  function AboveMask(f: Frame, k: nat, threshold: int): (mask: seq<bool>)
    requires HasCell(f.rows, k)
    ensures |mask| == |f.rows|
    ensures forall i :: 0 <= i < |f.rows| ==> (mask[i] <==> f.rows[i][k] > threshold)
  {
    seq(|f.rows|, i requires 0 <= i < |f.rows| => f.rows[i][k] > threshold)
  }

  /** `df.filter((df[col] > lo) & (df[col] < hi))`. */
  function BetweenMask(f: Frame, k: nat, lo: int, hi: int): (mask: seq<bool>)
    requires HasCell(f.rows, k)
    ensures |mask| == |f.rows|
    ensures forall i :: 0 <= i < |f.rows| ==> (mask[i] <==> lo < f.rows[i][k] < hi)
  {
    seq(|f.rows|, i requires 0 <= i < |f.rows| => lo < f.rows[i][k] && f.rows[i][k] < hi)
  }

  /** `g` holds, in order, the rows of `f` at the increasing positions
      `idx`, under the same columns. */
  ghost predicate RowsAt(f: Frame, g: Frame, idx: seq<nat>) {
    && g.columns == f.columns && StrictlyIncreasing(idx) && |g.rows| == |idx|
    && forall p :: 0 <= p < |idx| ==> idx[p] < |f.rows| && g.rows[p] == f.rows[idx[p]]
  }

  /** A filter keeps exactly the rows its mask selects, each once and in
      their original order, and the columns unchanged. */
  lemma FilterKeepsExactly(f: Frame, mask: seq<bool>)
    requires Wf(f) && |mask| == |f.rows|
    ensures var idx := Indices(mask);
      && RowsAt(f, Filter(f, mask), idx)
      && forall i :: 0 <= i < |f.rows| ==> (i in idx <==> mask[i])
  {
    var idx := Indices(mask);
    forall i | 0 <= i < |f.rows| ensures i in idx <==> mask[i] {
      if i in idx {
        var p :| 0 <= p < |idx| && idx[p] == i;
      }
    }
  }

  // ---------------------------------------------------------------------
  // The detector object
  // ---------------------------------------------------------------------

  class Detector {
    var name: string
    var primaryEnergyAxis: string
    var primaryTimeAxis: string
    var data: Frame
    /** The one-shot coincidence flag: false only between `~det` and the
        next `GetCoin`. */
    var coin: bool
    /** Set by the event builder once hits are assigned to windows. */
    var livetime: Option<real>

    ghost predicate Valid()
      reads this
    {
      Wf(data)
    }

    /** A new detector with no data; absent or empty axis names take the
        configured defaults, and the coincidence flag is up. */
    constructor (name: string, energyAxis: Option<string>, timeAxis: Option<string>)
      ensures Valid()
      ensures this.name == name && data == Frame([], []) && coin && livetime == None
      ensures primaryEnergyAxis == OrDefault(energyAxis, DefaultEnergyAxis)
      ensures primaryTimeAxis == OrDefault(timeAxis, DefaultTimeAxis)
    {
      this.name := name;
      primaryEnergyAxis := OrDefault(energyAxis, DefaultEnergyAxis);
      primaryTimeAxis := OrDefault(timeAxis, DefaultTimeAxis);
      data := Frame([], []);
      coin := true;
      livetime := None;
    }

    /** `_axis_cond`: only an absent axis means the primary energy axis. */
    function EnergyAxis(axis: Option<string>): (a: string)
      reads this
      ensures axis.None? ==> a == primaryEnergyAxis
      ensures axis.Some? ==> a == axis.value
    {
      if axis.None? then primaryEnergyAxis else axis.value
    }

    /** `_time_axis_cond`. */
    function TimeAxis(axis: Option<string>): (a: string)
      reads this
      ensures axis.None? ==> a == primaryTimeAxis
      ensures axis.Some? ==> a == axis.value
    {
      if axis.None? then primaryTimeAxis else axis.value
    }

    /** `~det`: lowers the flag and returns the detector itself. */
    method Invert() returns (d: Detector)
      modifies this
      ensures d == this && !coin
      ensures name == old(name) && data == old(data) && livetime == old(livetime)
      ensures primaryEnergyAxis == old(primaryEnergyAxis) && primaryTimeAxis == old(primaryTimeAxis)
    {
      coin := false;
      d := this;
    }

    /** Returns the flag and raises it again, so one `~` affects exactly one
        following read. */
    method GetCoin() returns (val: bool)
      modifies this
      ensures val == old(coin) && coin
      ensures name == old(name) && data == old(data) && livetime == old(livetime)
      ensures primaryEnergyAxis == old(primaryEnergyAxis) && primaryTimeAxis == old(primaryTimeAxis)
    {
      val := coin;
      coin := true;
    }

    /** `Detector(self.name)` with a clone of the data: the axes go back to
        the defaults, the flag is up and no livetime is carried over. */
    method Copy() returns (d: Detector)
      requires Valid()
      ensures fresh(d) && d.Valid()
      ensures d.name == name && d.data == data && d.coin && d.livetime == None
      ensures d.primaryEnergyAxis == DefaultEnergyAxis && d.primaryTimeAxis == DefaultTimeAxis
    {
      d := new Detector(name, None, None);
      d.data := data;
    }

    /** Keeps the rows whose value on the axis is above the threshold. */
    method ApplyThreshold(threshold: int, axis: Option<string>) returns (outcome: Outcome)
      requires Valid()
      modifies this
      ensures Valid()
      ensures name == old(name) && coin == old(coin) && livetime == old(livetime)
      ensures primaryEnergyAxis == old(primaryEnergyAxis) && primaryTimeAxis == old(primaryTimeAxis)
      ensures var a := old(EnergyAxis(axis));
        match ColumnIndex(old(data).columns, a)
        case None => outcome == Fail(ColumnNotFound(a)) && data == old(data)
        case Some(k) =>
          && outcome == Pass && data == Filter(old(data), AboveMask(old(data), k, threshold))
          && var idx := Indices(AboveMask(old(data), k, threshold));
             && RowsAt(old(data), data, idx)
             && forall i :: 0 <= i < |old(data).rows| ==> (i in idx <==> old(data).rows[i][k] > threshold)
    {
      var a := EnergyAxis(axis);
      match ColumnIndex(data.columns, a)
      case None =>
        outcome := Fail(ColumnNotFound(a));
      case Some(k) =>
        FilterKeepsExactly(data, AboveMask(data, k, threshold));
        data := Filter(data, AboveMask(data, k, threshold));
        outcome := Pass;
    }

    /** Keeps the rows whose value on the axis lies strictly inside the cut. */
    method ApplyCut(lo: int, hi: int, axis: Option<string>) returns (outcome: Outcome)
      requires Valid()
      modifies this
      ensures Valid()
      ensures name == old(name) && coin == old(coin) && livetime == old(livetime)
      ensures primaryEnergyAxis == old(primaryEnergyAxis) && primaryTimeAxis == old(primaryTimeAxis)
      ensures var a := old(EnergyAxis(axis));
        match ColumnIndex(old(data).columns, a)
        case None => outcome == Fail(ColumnNotFound(a)) && data == old(data)
        case Some(k) =>
          && outcome == Pass && data == Filter(old(data), BetweenMask(old(data), k, lo, hi))
          && var idx := Indices(BetweenMask(old(data), k, lo, hi));
             && RowsAt(old(data), data, idx)
             && forall i :: 0 <= i < |old(data).rows| ==> (i in idx <==> lo < old(data).rows[i][k] < hi)
    {
      var a := EnergyAxis(axis);
      match ColumnIndex(data.columns, a)
      case None =>
        outcome := Fail(ColumnNotFound(a));
      case Some(k) =>
        FilterKeepsExactly(data, BetweenMask(data, k, lo, hi));
        data := Filter(data, BetweenMask(data, k, lo, hi));
        outcome := Pass;
    }

    /** Numbers the hits into local events with `ReferencelessEventSort` on
        the time axis, stores the numbers as `event_<name>` and adds each
        row's event multiplicity as `multiplicity`. */
    method BuildReferencelessEvents(window: int, axis: Option<string>) returns (outcome: Outcome)
      requires Valid()
      modifies this
      ensures Valid()
      ensures name == old(name) && coin == old(coin) && livetime == old(livetime)
      ensures primaryEnergyAxis == old(primaryEnergyAxis) && primaryTimeAxis == old(primaryTimeAxis)
      ensures var a := old(TimeAxis(axis));
        match ColumnIndex(old(data).columns, a)
        case None => outcome == Fail(ColumnNotFound(a)) && data == old(data)
        case Some(k) =>
          && outcome == Pass
          && exists ev: seq<nat> :: IsEventNumbering(Keys(old(data).rows, k), window, ev) &&
               data == WithColumn(WithColumn(old(data), "event_" + name, ev), "multiplicity", Multiplicity(ev))
    {
      var a := TimeAxis(axis);
      match ColumnIndex(data.columns, a)
      case None =>
        outcome := Fail(ColumnNotFound(a));
      case Some(k) =>
        var ev := ReferencelessEventSort(Keys(data.rows, k), window);
        data := WithColumn(WithColumn(data, "event_" + name, ev), "multiplicity", Multiplicity(ev));
        outcome := Pass;
    }
  }

  // ---------------------------------------------------------------------
  // Union of detectors (`detector_union`)
  // ---------------------------------------------------------------------

  /** Total number of rows over a list of tables. */
  function TotalRows(frames: seq<Frame>): nat {
    if frames == [] then 0 else TotalRows(frames[..|frames| - 1]) + |frames[|frames| - 1].rows|
  }

  /** All rows of a list of tables, counted with repetition. */
  ghost function AllRows(frames: seq<Frame>): multiset<seq<int>> {
    if frames == [] then multiset{} else AllRows(frames[..|frames| - 1]) + multiset(frames[|frames| - 1].rows)
  }

  /** Vertical concatenation of the rows of tables with the given columns. */
  function ConcatRows(frames: seq<Frame>, columns: seq<string>): (rows: seq<seq<int>>)
    requires forall i :: 0 <= i < |frames| ==> Wf(frames[i]) && frames[i].columns == columns
    ensures |rows| == TotalRows(frames)
    ensures forall i :: 0 <= i < |rows| ==> |rows[i]| == |columns|
    ensures multiset(rows) == AllRows(frames)
  {
    if frames == [] then []
    else
      var last := frames[|frames| - 1];
      var init := ConcatRows(frames[..|frames| - 1], columns);
      assert Wf(last) && last.columns == columns;
      assert forall i :: 0 <= i < |frames| - 1 ==> frames[..|frames| - 1][i] == frames[i];
      assert multiset(init + last.rows) == multiset(init) + multiset(last.rows);
      init + last.rows
  }

  /** `pl.concat(frames).sort(on)`: all rows of all tables, sorted on `on`.
      Fails on an empty list, on tables whose columns differ, and when the
      sort column is missing. */
  function UnionFrames(frames: seq<Frame>, on: string): (r: Result<Frame>)
    requires forall i :: 0 <= i < |frames| ==> Wf(frames[i])
    ensures frames == [] ==> r == Err(EmptyConcat)
    ensures frames != [] && (exists i :: 0 <= i < |frames| && frames[i].columns != frames[0].columns) ==>
              r == Err(SchemaMismatch)
    ensures frames != [] && (forall i :: 0 <= i < |frames| ==> frames[i].columns == frames[0].columns) ==>
              (on !in frames[0].columns <==> r == Err(ColumnNotFound(on)))
    ensures (frames != [] && on in frames[0].columns &&
             forall i :: 0 <= i < |frames| ==> frames[i].columns == frames[0].columns) ==> r.Ok?
    ensures r.Ok? ==> && frames != [] && Wf(r.value) && r.value.columns == frames[0].columns
                      && |r.value.rows| == TotalRows(frames)
                      && SortedOn(r.value.rows, ColumnIndex(frames[0].columns, on).value)
                      && multiset(r.value.rows) == AllRows(frames)
  {
    if frames == [] then Err(EmptyConcat)
    else if exists i :: 0 <= i < |frames| && frames[i].columns != frames[0].columns then Err(SchemaMismatch)
    else match ColumnIndex(frames[0].columns, on)
      case None => Err(ColumnNotFound(on))
      case Some(k) =>
        var rows := ConcatRows(frames, frames[0].columns);
        Ok(SortBy(Frame(frames[0].columns, rows), k))
  }

  /** The tables of a list of detectors. */
  function DataOf(dets: seq<Detector>): (frames: seq<Frame>)
    reads dets
    ensures |frames| == |dets| && forall i :: 0 <= i < |dets| ==> frames[i] == dets[i].data
  {
    seq(|dets|, i requires 0 <= i < |dets| reads dets => dets[i].data)
  }

  /** A new detector called `name` holding the union of the detectors'
      data, sorted on `on` (by default "evt_ts"). */
  method DetectorUnion(name: string, dets: seq<Detector>, on: string := DefaultTimeAxis) returns (r: Result<Detector>)
    requires forall i :: 0 <= i < |dets| ==> Wf(dets[i].data)
    ensures match UnionFrames(DataOf(dets), on)
      case Err(e) => r == Err(e)
      case Ok(f) =>
        && r.Ok? && fresh(r.value) && r.value.Valid() && r.value.data == f && r.value.name == name
        && r.value.coin && r.value.livetime == None
        && r.value.primaryEnergyAxis == DefaultEnergyAxis && r.value.primaryTimeAxis == DefaultTimeAxis
  {
    var frames: seq<Frame> := [];
    for i := 0 to |dets|
      invariant |frames| == i && forall j :: 0 <= j < i ==> frames[j] == dets[j].data
    {
      frames := frames + [dets[i].data];
    }
    assert frames == DataOf(dets);
    var union := UnionFrames(frames, on);
    if union.Err? {
      r := Err(union.error);
    } else {
      var d := new Detector(name, None, None);
      d.data := union.value;
      r := Ok(d);
      assert forall i :: 0 <= i < |dets| ==> dets[i].data == frames[i];
      assert frames == DataOf(dets);
    }
  }
}
