# sauce event builder — a Dafny model

sauce correlates time-stamped hits from independent detector channels into
physics events. A reference channel's timestamps are collected into an
`EventBuilder`. Each timestamp t proposes a build window `[t + low, t + high]`,
and a greedy scan (`reduce_intervals`) drops the candidates that overlap the
last accepted window. The surviving windows are numbered `0 .. n-1`.

Every other detector's hits are then assigned to those windows:
- `find_coincident_events` is a sorted-search mask of the windows that hold a hit;
- `assign_event_index` is a forward cursor scan that gives each hit its window;
- hits in no window are dropped and only the first hit of each window is kept;
- the kept fraction is recorded as the detector's livetime.

A `Coincident` starts from the table of all window ids and joins each
detector's assigned table onto it in turn. The join is an inner join for a
detector that must fire and an anti join for one inverted with `~`. The flag
behind `~` is one-shot: `get_coin` reads it and raises it again.

The detector side covers:
- threshold and range filters;
- a reference-free event numbering (`referenceless_event_sort`) with per-event
  multiplicity;
- the union of several detectors.

The model is split into modules that follow the program:

| file | module | models |
|---|---|---|
| `wrappers.dfy` | `Wrappers` | `Option`, `Result`, `Outcome` and the errors the code raises |
| `seqs.dfy` | `Seqs` | orderings, `np.arange`, boolean-mask selection, `np.sort` |
| `frames.dfy` | `Frames` | the polars table operations the core uses: column lookup, `with_columns`, `filter`, `unique(keep="first")`, `rename`, inner and anti `join`, `sort` |
| `intervals.dfy` | `Intervals` | the numba kernels `reduce_intervals`, `find_coincident_events` and `assign_event_index` |
| `assignment.dfy` | `Assignment` | the table step of `assign_events_to_detector_and_drop` |
| `detectors.dfy` | `Detectors` | `referenceless_event_sort`, the `Detector` class, `detector_union` |
| `eventbuilder.dfy` | `EventBuilding` | the `EventBuilder` and `Coincident` classes |

How the code maps to Dafny:
- The numba loops are methods with loop invariants, proved against specification predicates.
- `EventBuilder`, `Detector` and `Coincident` are classes whose methods update their fields, as the Python objects do.
- Polars expressions are pure functions on a `Frame` value.
- `create_coincidence` is a method whose loop is proved equal to the fold `Coincidence`. The fold's meaning is stated by lemmas: which event ids survive, the sort order, and the column layout.

Timestamps are integers (nanoseconds). A NaN event number is `None`. Livetimes are `real`.

## Model

| member | source | states |
|---|---|---|
| Seqs.Indices | sauce/eventbuilder.py:209 | `np.arange(len(mask))[mask]`: strictly increasing, every entry a true position, every true position present |
| Seqs.SelectExactly | sauce/detectors.py:132 | boolean selection keeps exactly the masked elements, in order: its p-th element is the element at the p-th true position, and it never grows |
| Seqs.Sort | sauce/eventbuilder.py:131 | `np.sort` returns an ascending permutation of its input |
| Frames.ColumnIndex | sauce/eventbuilder.py:203 | `df[axis]` finds a column iff the name is present, at its first position |
| Frames.WithColumn | sauce/detectors.py:235-237 | `with_columns(lit(vals).alias(name))` replaces the named column in place or appends it; every other cell and the row count are unchanged |
| Frames.UniqueFirstDistinct | sauce/eventbuilder.py:220 | after `unique(subset=[col], keep="first")` every key occurs once |
| Frames.UniqueFirstComplete | sauce/eventbuilder.py:220 | `unique` loses no key: the key sets before and after are equal |
| Frames.UniqueFirstKeepsFirst | sauce/eventbuilder.py:220 | the row kept for a key is the first row carrying it |
| Frames.SuffixedInjective | sauce/eventbuilder.py:375-381 | suffixing with `_<name>` maps distinct column names to distinct names |
| Frames.RenameColumns | sauce/eventbuilder.py:375-381 | every column but `event` becomes `col + "_" + name`; `event` and the rows are unchanged; names stay unique |
| Frames.MatchRows | sauce/eventbuilder.py:383-387 | the inner-join rows for one left row: each is the left row plus the other cells of a right row carrying the same key; there are some iff the right table has the key |
| Frames.MatchRowsCount | sauce/eventbuilder.py:383-387 | with unique right keys a left row matches exactly once or not at all |
| Frames.InnerRows | sauce/eventbuilder.py:383-387 | the keys of an inner join are those in both tables |
| Frames.InnerRowsOrigin | sauce/eventbuilder.py:383-387 | every inner-join row is some left row followed by the other cells of a right row with the same key |
| Frames.InnerRowsCover | sauce/eventbuilder.py:383-387 | every left row whose key the right table has appears, so joined, among the inner-join rows |
| Frames.AntiRows | sauce/eventbuilder.py:383-387 | an anti join keeps left rows only, and exactly the keys the right table lacks |
| Frames.JoinComplement | sauce/eventbuilder.py:383-387 | with unique right keys, inner plus anti row counts equal the left row count |
| Frames.JoinColumns | sauce/eventbuilder.py:383-386 | the joined header keeps the left columns in front, one per right non-key column |
| Frames.Join | sauce/eventbuilder.py:383-387 | a missing key fails; on success the table is well formed, the left columns lead, and an anti join keeps exactly the left columns |
| Frames.JoinResult | sauce/eventbuilder.py:383-387 | with the key in both tables an anti join always succeeds with the anti-join rows; an inner join succeeds iff the joined header has no duplicate name, then with the inner-join rows, and otherwise fails with a duplicate-column error |
| Frames.InnerRowsWidth | sauce/eventbuilder.py:383-387 | every inner-join row has one cell per left column plus one per right non-key column |
| Frames.SortRows | sauce/eventbuilder.py:387 | `sort(by=col)`: rows ascending on the column and a permutation of the input |
| Frames.SortBy | sauce/eventbuilder.py:387 | sorting a table keeps its columns and its rows as a multiset, and orders them on the column |
| Frames.SameKeys | sauce/eventbuilder.py:387 | reordering rows keeps the set of keys |
| Frames.JoinKeys | sauce/eventbuilder.py:383-387 | after a join the key stays at its left position; its values are the left keys the right table has (inner) or lacks (anti) |
| Frames.JoinPartition | sauce/eventbuilder.py:383-387 | with unique right keys the inner and the anti join split the left rows |
| Frames.KeyOnlyInnerJoin | sauce/eventbuilder.py:383-386 | an inner join onto a table holding only `event` never clashes; the header is `event` then the right table's other columns |
| Intervals.LastKept | sauce/eventbuilder.py:33 | the last accepted candidate before j is the largest index below j not rejected |
| Intervals.ReduceIntervals | sauce/eventbuilder.py:12-36 | the returned list is the greedy rejection: strictly increasing, within `[1, len)`, and j is rejected iff `low[j] <= high[i]` for the last kept i |
| Intervals.KeptDisjoint | sauce/eventbuilder.py:26-34 | two kept candidates a < b satisfy `high[a] < low[b]` |
| Intervals.GreedyRejectUnique | sauce/eventbuilder.py:12-36 | the rejection list is determined by the candidates |
| Intervals.SurvivorsDisjoint | sauce/eventbuilder.py:160-163 | after `np.delete` the windows are closed, disjoint and ordered |
| Intervals.SurvivorsCount | sauce/eventbuilder.py:160-163 | the first candidate always survives: at least one and at most n windows remain |
| Intervals.GreedySurvivors | sauce/eventbuilder.py:155-163 | survivors of closed candidates are disjoint, ordered and between 1 and n in number |
| Intervals.SearchLeft | sauce/eventbuilder.py:49 | `searchsorted(c, v, "left")` counts the elements below v |
| Intervals.SearchRight | sauce/eventbuilder.py:49-50 | `searchsorted(c, v, "right")` counts the elements at or below v |
| Intervals.SearchWindow | sauce/eventbuilder.py:49-52 | on ascending times the two search positions of a closed window differ iff the window holds a time |
| Intervals.FindCoincidentEvents | sauce/eventbuilder.py:40-52 | one entry per window; on sorted hit times and closed windows, entry q holds iff window q contains a hit |
| Intervals.HitIndexFromMask | sauce/eventbuilder.py:208-209 | `hit_index` lists, in increasing order, exactly the windows holding a hit |
| Intervals.Containing | sauce/eventbuilder.py:78 | the window containing t, or none when no window does |
| Intervals.ContainingUnique | sauce/eventbuilder.py:78-79 | with disjoint windows, the window holding t is unique |
| Intervals.ScanWindow | sauce/eventbuilder.py:77-84 | the inner scan labels hits inside the window, clears those before it, stops at the first after it, and moves the cursor forward only |
| Intervals.AssignEventIndex | sauce/eventbuilder.py:56-85 | every hit gets exactly the window that contains it, and `None` when no window does |
| Detectors.OrDefault | sauce/eventbuilder.py:120 | `axis if axis else default`: an absent or empty name selects the default |
| Detectors.OpenerOf | sauce/detectors.py:40-41 | the hit that opened an event is the last event start at or before the hit |
| Detectors.ReferencelessEventSort | sauce/detectors.py:18-44 | the numbering starts at 0 (at 1 for a window ≤ 0) and steps by 0 or 1; every hit lies in `[t, t + window)` of its event's first hit t; a new event starts exactly when a hit falls outside that window |
| Detectors.SameEventAt | sauce/detectors.py:34-38 | a hit inside the current window takes the current number and keeps the scan state |
| Detectors.NewEventAt | sauce/detectors.py:39-43 | a hit outside the current window opens the next number with its own window |
| Detectors.NumberHit | sauce/detectors.py:33-43 | one pass of the loop moves the scan state from hit i to hit i + 1 |
| Detectors.NextNumber | sauce/detectors.py:34-43 | each next number is fixed by the window of the current event's first hit |
| Detectors.EventNumberingUnique | sauce/detectors.py:18-44 | two numberings that meet the description agree everywhere |
| Detectors.EmptyWindowSingletons | sauce/detectors.py:37-43 | with a window ≤ 0 hit i is event i + 1 |
| Detectors.Multiplicity | sauce/detectors.py:240-253 | each row's multiplicity is the number of rows sharing its event id, so at least 1 |
| Detectors.GroupSizes | sauce/detectors.py:244-253 | the occurrence count of an id equals the size of its row group |
| Detectors.FilterKeepsExactly | sauce/detectors.py:130-140 | a filter keeps the columns; its p-th row is the row at the p-th selected position, positions strictly increasing, and a position is selected iff its mask entry holds |
| Detectors.Detector.constructor | sauce/detectors.py:50-70 | a new detector has the given name, empty data, the coincidence flag up, and default axes for absent or empty names |
| Detectors.Detector.EnergyAxis | sauce/detectors.py:118-122 | only an absent axis selects the primary energy axis |
| Detectors.Detector.TimeAxis | sauce/detectors.py:124-128 | only an absent axis selects the primary time axis |
| Detectors.Detector.Invert | sauce/detectors.py:179-181 | `~det` lowers the flag, changes nothing else and returns the same object |
| Detectors.Detector.GetCoin | sauce/detectors.py:183-197 | returns the flag and leaves it up; nothing else changes |
| Detectors.Detector.Copy | sauce/detectors.py:199-207 | a fresh detector with the same name and equal data, flag up, default axes, no livetime |
| Detectors.Detector.ApplyThreshold | sauce/detectors.py:130-133 | the new rows are the old rows at increasing positions, each once, and a position is kept iff its cell on the axis is above the threshold; a missing column fails and leaves the data |
| Detectors.Detector.ApplyCut | sauce/detectors.py:135-140 | the new rows are the old rows at increasing positions, each once, and a position is kept iff its cell on the axis lies strictly between the bounds; a missing column fails and leaves the data |
| Detectors.Detector.BuildReferencelessEvents | sauce/detectors.py:222-254 | adds `event_<name>` holding the numbering of the time column and `multiplicity`; a missing column fails and leaves the data |
| Detectors.ConcatRows | sauce/detectors.py:305 | `pl.concat` holds all rows of all tables, counted with repetition |
| Detectors.UnionFrames | sauce/detectors.py:305 | `concat(...).sort(on)` succeeds exactly when there is a table, all tables share the first one's columns and `on` is among them; it then holds every input row, counted with repetition, sorted on `on` |
| Detectors.DetectorUnion | sauce/detectors.py:296-306 | a fresh detector called `name` holding that union (sorted on `evt_ts` unless `on` is given), or the union's error |
| Assignment.EventColumn | sauce/eventbuilder.py:218 | the `event` column keeps its position, or is appended as the last column |
| Assignment.Label | sauce/eventbuilder.py:218 | a row with its `event` cell set and every other cell unchanged |
| Assignment.Labelled | sauce/eventbuilder.py:216-219 | the assigned hits in order, each carrying its window in `event` |
| Assignment.DropUnassigned | sauce/eventbuilder.py:216-223 | the resulting table is well formed with the labelled header |
| Assignment.DropUnassignedRows | sauce/eventbuilder.py:216-223 | every kept row is an assigned hit in original order, labelled with its window |
| Assignment.DropUnassignedKeepsFirst | sauce/eventbuilder.py:220 | no earlier hit shares a kept hit's window |
| Assignment.DropUnassignedComplete | sauce/eventbuilder.py:220 | the first hit of every window that holds one is kept |
| Assignment.DropUnassignedFirstHits | sauce/eventbuilder.py:216-223 | the kept rows are exactly the first hits of the windows, with their other cells intact |
| Assignment.AssignedInWindow | sauce/eventbuilder.py:208-223 | every kept hit lies in the window named by its `event` cell |
| Assignment.AssignedIdsIncreasing | sauce/eventbuilder.py:216-223 | on time-sorted hits the kept event ids strictly increase, so none repeats |
| Assignment.AssignedEarliest | sauce/eventbuilder.py:190-191 | on time-sorted hits the hit kept for an event is its earliest |
| Assignment.AssignedIdsAreHitWindows | sauce/eventbuilder.py:208-223 | the kept ids are exactly the windows holding a hit |
| Assignment.DropUnassignedSize | sauce/eventbuilder.py:216-226 | the drop never adds rows and leaves each event id once |
| Assignment.AssignTable | sauce/eventbuilder.py:186-229 | no windows, a missing time column and zero rows each fail with their error; otherwise the table has unique event ids and no more rows |
| EventBuilding.StampsOf | sauce/eventbuilder.py:120-128 | a detector with the time column succeeds, and entry i is row i's cell in that column; without it the result is a missing-column error; a series gives itself |
| EventBuilding.BuiltWindows | sauce/eventbuilder.py:155-169 | the built windows are disjoint and ordered, with between 1 and `len(timestamps)` of them |
| EventBuilding.BuiltWindowsUnique | sauce/eventbuilder.py:155-163 | the windows are a function of the timestamps and the bounds |
| EventBuilding.ReduceWindows | sauce/eventbuilder.py:155-163 | shifting, reducing and deleting yield the built windows: disjoint, ordered, between 1 and `len(timestamps)` of them |
| EventBuilding.WindowLabels | sauce/eventbuilder.py:208-214 | mask, hit index and cursor scan together give every hit the window containing it |
| EventBuilding.EventBuilder.constructor | sauce/eventbuilder.py:106-112 | a builder with no timestamps, no windows, zero lengths and no livetime |
| EventBuilding.EventBuilder.AddTimestamps | sauce/eventbuilder.py:114-132 | the timestamps stay sorted and become the old ones plus the new ones as a multiset; a missing column fails and changes nothing |
| EventBuilding.EventBuilder.CalcLivetime | sauce/eventbuilder.py:178-184 | livetime = `reduced_len / pre_reduced_len`, in (0, 1]; division by zero fails |
| EventBuilding.EventBuilder.CreateBuildWindows | sauce/eventbuilder.py:137-176 | `high <= low` and no timestamps each fail with nothing changed. Otherwise: `pre_reduced_len = len(timestamps)`, the windows are the greedy survivors, `1 <= reduced_len <= pre_reduced_len`, `event_numbers = arange(reduced_len)`, livetime = their ratio, and the warning is raised iff livetime < 0.9 |
| EventBuilding.AssignStep | sauce/eventbuilder.py:186-229 | the table step: no windows and a missing time column each fail with the data unchanged; otherwise the data becomes the first hit of every window, never more rows, and zero rows gives a division error |
| EventBuilding.AssignData | sauce/eventbuilder.py:197-223 | computes exactly `AssignStep` |
| EventBuilding.AssignRows | sauce/eventbuilder.py:203-223 | the mask, hit index and cursor scan give the table of first hits, well formed and no larger |
| EventBuilding.EventBuilder.AssignEventsToDetectorAndDrop | sauce/eventbuilder.py:186-229 | the detector's data becomes `AssignStep`'s table and its error is returned. Otherwise the livetime is after/before, in [0, 1], and the detector itself is returned. Name, flag and axes never change |
| EventBuilding.Ratio | sauce/eventbuilder.py:183 | the quotient of two counts lies in [0, 1] when the first is at most the second, and is positive when the first is |
| EventBuilding.Part | sauce/eventbuilder.py:372-381 | a detector's part fails exactly when the assignment does, with the same error; on success it is well formed and has an `event` column |
| EventBuilding.PartLayout | sauce/eventbuilder.py:374-381 | a part has the assigned table's rows and as many columns; each column is `event` or the assigned column's name followed by `_` and the detector name |
| EventBuilding.JoinStep | sauce/eventbuilder.py:372-387 | one loop pass keeps the running columns in front and leaves the rows in event order; it fails when the running table lacks `event` |
| EventBuilding.Coincidence | sauce/eventbuilder.py:370-387 | the whole loop over the detectors yields a well-formed table or the first failure |
| EventBuilding.CoincidenceColumns | sauce/eventbuilder.py:370-387 | the starting columns stay in front |
| EventBuilding.CoincidenceSorted | sauce/eventbuilder.py:383-387 | after at least one detector the result is sorted by event id |
| EventBuilding.PartIds | sauce/eventbuilder.py:372-381 | a detector's part holds each window it has a hit in, once |
| EventBuilding.JoinIds | sauce/eventbuilder.py:383-387 | an inner join keeps the running ids among the part's ids; an anti join keeps the rest |
| EventBuilding.JoinStepIds | sauce/eventbuilder.py:372-387 | a coincidence step keeps the ids the detector hit; an anti-coincidence step keeps those it did not |
| EventBuilding.CoincidenceIds | sauce/eventbuilder.py:370-387 | the result holds exactly the starting ids hit by every coincident detector and by no anti-coincident one, so its ids are a subset of the base ids |
| EventBuilding.InnerAntiPartition | sauce/eventbuilder.py:383-387 | for one detector, the coincident and the anti-coincident tables split the base events between them |
| EventBuilding.JoinNamesSplit | sauce/eventbuilder.py:368 | names without `_` are recovered by splitting the joined name on `_` |
| EventBuilding.CoincidenceName | sauce/eventbuilder.py:367-368 | the given name if non-empty, otherwise the detector names joined by `_` |
| EventBuilding.NewDetector | sauce/eventbuilder.py:369-371 | `Detector(name)` with its data set: fresh, flag up, default axes, no livetime |
| EventBuilding.Coincident.constructor | sauce/eventbuilder.py:357-361 | the table has the single column `event` with one row per window id; its ids are exactly `0 .. reduced_len-1` |
| EventBuilding.Coincident.PartOf | sauce/eventbuilder.py:373-381 | assigning a copy and renaming gives the detector's part; the detector is untouched |
| EventBuilding.Coincident.JoinDetector | sauce/eventbuilder.py:372-387 | one detector's pass returns the step on the flag read before the pass. Only the flag changes: it is up after any pass that reached `get_coin` |
| EventBuilding.Coincident.JoinNext | sauce/eventbuilder.py:371-387 | the same pass seen from the whole list: every detector keeps its data, and aliases of the current detector read their flag as up |
| EventBuilding.Coincident.JoinAll | sauce/eventbuilder.py:371-387 | the loop equals the fold over the detectors' data, names and the flags `get_coin` returns in turn; after success every flag is up |
| EventBuilding.Coincident.CreateCoincidence | sauce/eventbuilder.py:364-387 | the fold's failure, or a fresh detector holding its table under the coincidence name; detectors keep their data |
| EventBuilding.Coincident.Get | sauce/eventbuilder.py:438-449 | `coincident[det]` and `coincident[d1, d2, ...]` are `create_coincidence` over one or several detectors with the default name: the fold's error, or a fresh valid detector holding the fold's table under the joined names, flag up, no livetime, default axes; the detectors keep data, name, livetime and axes, and their flags are up after success |

## Left out

- Reading hits from files (`find_hits`, `_hits_from_run`, `_hits_from_str`), `save` and `load`: file I/O. Detector data is a parameter. The time-ordered data the reader delivers becomes the requirement that the time column is sorted (`TimeSorted` and the requires of `AssignEventsToDetectorAndDrop`). `searchsorted` and the cursor scan rely on that order.
- `apply_poly_cut` and `hist`: matplotlib path containment and floating-point histograms.
- `tag`, `Detector.__getitem__`, `__setitem__`, `counts` and `__len__`: thin table accessors with no logic of their own.
- The pandas-era code between the merge-conflict markers of `sauce/eventbuilder.py` (`same_event`, the older `Coincident`, `_get_detector_columns`, `_column_mask`, `create_intersection`): it refers to names that do not exist in that file. The polars `create_coincidence` ends at its shared `return new_det` (line 436).
- Floats and NaN: timestamps and cell values are integers; a NaN event number is `None`. Integer widths (`Int64`, `UInt64`, `UInt16` casts) are unbounded.
- `add_timestamps` with an argument that is neither a detector nor a series raises `TypeError`: the `Source` datatype admits only the two accepted kinds.
- The dead-time `print`: modelled as the flag `deadTimeWarning`.
- Polars and numba lazy evaluation: each operation is modelled by its resulting table.
- The `self.lower == []` and `self.timestamps == []` guards are modelled as emptiness tests. Literally, `None == []` and a comparison of a numpy array with `[]` do not behave as emptiness checks. Without windows the real code fails later, inside the kernels.
- `referenceless_event_sort` on no times: the kernel reads `times[0]` unchecked. The model returns the empty numbering, as no slot is ever written.
- Polars `sort` is called without `maintain_order`, so the order of rows with equal keys is unspecified. `SortBy` is specified as an ordered permutation and states nothing about that order.
- Frames.InnerRows: the order of the inner-join rows is not stated, because every join in the core is followed at once by a sort on `event`.
- EventBuilding.Coincident.JoinAll: on a failed pass the flags of the detectors already visited are not specified. Only data, name, livetime and axes are guaranteed unchanged.
- Detectors.Detector.Valid asks only that the table is well formed (unique column names, one cell per column in every row). Callers of `DetectorUnion`, `CreateCoincidence` and `Get` must supply well-formed tables.
- The configured default axes are the constants `"evt_ts"` and `"adc"`. `set_default_time_axis` and `set_default_energy_axis` are not part of this model.
- Composition reads each detector's one-shot `~` flag through `get_coin`, which raises it again. A detector listed twice is therefore anti-joined at most once; see `Flags` and `JoinAll`.
