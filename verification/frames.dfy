/** The table layer the detectors work on: a polars DataFrame reduced to
    named columns of integer cells, with the handful of operations the
    event builder and the detectors use (column lookup, `with_columns`,
    boolean filtering, `unique(keep="first")`, `rename`, inner and anti
    joins on a key, and sorting on a column). */
module Frames {
  import opened Wrappers
  import opened Seqs

  datatype Frame = Frame(columns: seq<string>, rows: seq<seq<int>>)

  /** Column names are unique and every row has one cell per column. */
  predicate Wf(f: Frame) {
    Distinct(f.columns) && forall i :: 0 <= i < |f.rows| ==> |f.rows[i]| == |f.columns|
  }

  /** Every row has a cell at position k. */
  predicate HasCell(rows: seq<seq<int>>, k: nat) {
    forall i :: 0 <= i < |rows| ==> k < |rows[i]|
  }

  /** The position of the column called `name`, if there is one. */
  function ColumnIndex(columns: seq<string>, name: string): (r: Option<nat>)
    ensures r.None? <==> name !in columns
    ensures r.Some? ==> r.value < |columns| && columns[r.value] == name
    ensures r.Some? ==> name !in columns[..r.value]
  {
    if columns == [] then None
    else if columns[0] == name then Some(0)
    else match ColumnIndex(columns[1..], name)
      case None => None
      case Some(k) =>
        assert columns[..k + 1] == [columns[0]] + columns[1..][..k];
        Some(k + 1)
  }

  /** In a table with unique column names a column's position is unique. */
  lemma ColumnIndexOf(columns: seq<string>, k: nat)
    requires Distinct(columns) && k < |columns|
    ensures ColumnIndex(columns, columns[k]) == Some(k)
  {
    var r := ColumnIndex(columns, columns[k]);
  }

  /** The cells of column k, top to bottom (`df[name]`). */
  function Keys(rows: seq<seq<int>>, k: nat): (r: seq<int>)
    requires HasCell(rows, k)
    ensures |r| == |rows| && forall i :: 0 <= i < |rows| ==> r[i] == rows[i][k]
  {
    seq(|rows|, i requires 0 <= i < |rows| => rows[i][k])
  }

  /** `df.with_columns(pl.lit(vals).alias(name))`: replaces the column called
      `name` in place, or appends it when there is none. */
  function WithColumn(f: Frame, name: string, vals: seq<int>): (g: Frame)
    requires Wf(f) && |vals| == |f.rows|
    ensures Wf(g) && |g.rows| == |f.rows|
    ensures g.columns == if name in f.columns then f.columns else f.columns + [name]
    ensures forall i, c :: 0 <= i < |g.rows| && 0 <= c < |g.columns| ==>
              g.rows[i][c] == if g.columns[c] == name then vals[i] else f.rows[i][c]
  {
    match ColumnIndex(f.columns, name)
    case Some(k) =>
      Frame(f.columns, seq(|f.rows|, i requires 0 <= i < |f.rows| => f.rows[i][k := vals[i]]))
    case None =>
      Frame(f.columns + [name], seq(|f.rows|, i requires 0 <= i < |f.rows| => f.rows[i] + [vals[i]]))
  }

  /** `df.filter(mask)`: the rows whose mask entry is true, in order. */
  function Filter(f: Frame, mask: seq<bool>): (g: Frame)
    requires Wf(f) && |mask| == |f.rows|
    ensures Wf(g) && g.columns == f.columns && g.rows == Select(f.rows, mask)
  {
    Frame(f.columns, Select(f.rows, mask))
  }

  /** Entry i is true when cell k of row i occurs in no earlier row. */
  function FirstMask(keys: seq<int>): (m: seq<bool>)
    ensures |m| == |keys| && forall i :: 0 <= i < |keys| ==> (m[i] <==> keys[i] !in keys[..i])
  {
    seq(|keys|, i requires 0 <= i < |keys| => keys[i] !in keys[..i])
  }

  /** `df.unique(subset=[col], keep="first", maintain_order=True)`. */
  function UniqueFirst(f: Frame, k: nat): (g: Frame)
    requires Wf(f) && k < |f.columns|
    ensures Wf(g) && g.columns == f.columns
  {
    Filter(f, FirstMask(Keys(f.rows, k)))
  }

  /** The position of the first occurrence of v. */
  function FirstIndex(s: seq<int>, v: int): (r: nat)
    requires v in s
    ensures r < |s| && s[r] == v && v !in s[..r]
  {
    if s[0] == v then 0
    else
      var r := FirstIndex(s[1..], v) + 1;
      assert s[..r] == [s[0]] + s[1..][..r - 1];
      r
  }

  /** After `unique`, every key occurs once. */
  lemma UniqueFirstDistinct(f: Frame, k: nat)
    requires Wf(f) && k < |f.columns|
    ensures Distinct(Keys(UniqueFirst(f, k).rows, k))
  {
    var keys := Keys(f.rows, k);
    var idx := Indices(FirstMask(keys));
    var g := UniqueFirst(f, k);
    forall p, q | 0 <= p < q < |g.rows| ensures g.rows[p][k] != g.rows[q][k] {
      assert g.rows[p] == f.rows[idx[p]] && g.rows[q] == f.rows[idx[q]];
      assert keys[idx[q]] !in keys[..idx[q]];
      assert keys[..idx[q]][idx[p]] == keys[idx[p]];
    }
  }

  /** `unique` loses no key. */
  lemma UniqueFirstComplete(f: Frame, k: nat)
    requires Wf(f) && k < |f.columns|
    ensures forall v :: v in Keys(f.rows, k) <==> v in Keys(UniqueFirst(f, k).rows, k)
  {
    var keys := Keys(f.rows, k);
    var mask := FirstMask(keys);
    var idx := Indices(mask);
    var g := UniqueFirst(f, k);
    forall v | v in keys ensures v in Keys(g.rows, k) {
      var j := FirstIndex(keys, v);
      assert mask[j];
      var p :| 0 <= p < |idx| && idx[p] == j;
      assert Keys(g.rows, k)[p] == v;
    }
    forall v | v in Keys(g.rows, k) ensures v in keys {
      var p :| 0 <= p < |g.rows| && g.rows[p][k] == v;
      assert keys[idx[p]] == v;
    }
  }

  /** The row `unique` keeps for a key is the first row carrying it. */
  lemma UniqueFirstKeepsFirst(f: Frame, k: nat)
    requires Wf(f) && k < |f.columns|
    ensures var g := UniqueFirst(f, k);
      forall p :: 0 <= p < |g.rows| ==> g.rows[p] == f.rows[FirstIndex(Keys(f.rows, k), g.rows[p][k])]
  {
    var keys := Keys(f.rows, k);
    var idx := Indices(FirstMask(keys));
    var g := UniqueFirst(f, k);
    forall p | 0 <= p < |g.rows| ensures g.rows[p] == f.rows[FirstIndex(keys, g.rows[p][k])] {
      var j := FirstIndex(keys, g.rows[p][k]);
      assert g.rows[p] == f.rows[idx[p]] && keys[idx[p]] == g.rows[p][k];
      assert keys[idx[p]] !in keys[..idx[p]];
    }
  }

  /** The column name `rename` gives a detector's column: every column but
      the event key gets the suffix `_<name>`. */
  function Suffixed(c: string, name: string): string {
    if c == "event" then c else c + "_" + name
  }

  /** A suffixed name contains `_`, so it is never the key column "event". */
  lemma SuffixedIsNotKey(c: string, name: string)
    ensures c + "_" + name != "event"
  {
    var s := c + "_" + name;
    assert s[|c|] == '_';
  }

  lemma SuffixedInjective(a: string, b: string, name: string)
    requires Suffixed(a, name) == Suffixed(b, name)
    ensures a == b
  {
    SuffixedIsNotKey(a, name);
    SuffixedIsNotKey(b, name);
    var sa, sb := Suffixed(a, name), Suffixed(b, name);
    if a != "event" && b != "event" {
      assert a == sa[..|a|] && b == sb[..|b|];
    }
  }

  /** `df.rename({c: c + "_" + name for c in df.columns if c != "event"})`. */
  function RenameColumns(f: Frame, name: string): (g: Frame)
    requires Wf(f)
    ensures Wf(g) && g.rows == f.rows && |g.columns| == |f.columns|
    ensures forall c :: 0 <= c < |f.columns| ==>
              if f.columns[c] == "event" then g.columns[c] == "event"
              else g.columns[c] == f.columns[c] + "_" + name
  {
    var cols := seq(|f.columns|, c requires 0 <= c < |f.columns| => Suffixed(f.columns[c], name));
    forall p, q | 0 <= p < q < |cols| ensures cols[p] != cols[q] {
      if cols[p] == cols[q] { SuffixedInjective(f.columns[p], f.columns[q], name); }
    }
    Frame(cols, f.rows)
  }

  function DropAt<T>(s: seq<T>, k: nat): (r: seq<T>)
    requires k < |s|
    ensures |r| == |s| - 1
  {
    s[..k] + s[k + 1..]
  }

  datatype How = Inner | Anti

  /** The keys of a concatenation are the concatenated keys. */
  lemma KeysConcat(a: seq<seq<int>>, b: seq<seq<int>>, k: nat)
    requires HasCell(a, k) && HasCell(b, k)
    ensures HasCell(a + b, k) && Keys(a + b, k) == Keys(a, k) + Keys(b, k)
  {
  }

  lemma KeysCons(s: seq<seq<int>>, k: nat)
    requires HasCell(s, k) && s != []
    ensures HasCell(s[1..], k) && Keys(s, k) == [s[0][k]] + Keys(s[1..], k)
  {
  }

  /** `row` is the left row `l` followed by the non-key cells of a right row
      that carries the same key. */
  ghost predicate JoinedWith(row: seq<int>, l: seq<int>, lk: nat, right: seq<seq<int>>, rk: nat)
    requires lk < |l| && HasCell(right, rk)
  {
    exists q :: 0 <= q < |right| && right[q][rk] == l[lk] && row == l + DropAt(right[q], rk)
  }

  /** The rows an inner join produces for one left row: the left row
      followed by the non-key cells of each right row with the same key. */
  function MatchRows(l: seq<int>, lk: nat, right: seq<seq<int>>, rk: nat): (r: seq<seq<int>>)
    requires lk < |l| && HasCell(right, rk)
    ensures forall p :: 0 <= p < |r| ==> |l| <= |r[p]| && r[p][..|l|] == l && r[p][lk] == l[lk]
    ensures forall p :: 0 <= p < |r| ==> JoinedWith(r[p], l, lk, right, rk)
    ensures |r| > 0 ==> l[lk] in Keys(right, rk)
    ensures l[lk] in Keys(right, rk) ==> |r| > 0
  {
    if right == [] then []
    else
      var here := if right[0][rk] == l[lk] then [l + DropAt(right[0], rk)] else [];
      var rest := MatchRows(l, lk, right[1..], rk);
      KeysCons(right, rk);
      MatchRowsOrigin(l, lk, right, rk, rest);
      assert forall p :: 0 <= p < |here| ==> JoinedWith(here[p], l, lk, right, rk) by {
        if here != [] { assert right[0][rk] == l[lk] && here[0] == l + DropAt(right[0], rk); }
      }
      here + rest
  }

  /** Rows joined with the tail of `right` are joined with `right`. */
  lemma MatchRowsOrigin(l: seq<int>, lk: nat, right: seq<seq<int>>, rk: nat, rest: seq<seq<int>>)
    requires lk < |l| && right != [] && HasCell(right, rk)
    requires forall p :: 0 <= p < |rest| ==> JoinedWith(rest[p], l, lk, right[1..], rk)
    ensures forall p :: 0 <= p < |rest| ==> JoinedWith(rest[p], l, lk, right, rk)
  {
    forall p | 0 <= p < |rest| ensures JoinedWith(rest[p], l, lk, right, rk) {
      var q :| 0 <= q < |right[1..]| && right[1..][q][rk] == l[lk] && rest[p] == l + DropAt(right[1..][q], rk);
      assert right[1..][q] == right[q + 1];
      assert 0 <= q + 1 < |right| && right[q + 1][rk] == l[lk] && rest[p] == l + DropAt(right[q + 1], rk);
    }
  }

  /** With unique right keys a left row matches at most once. */
  lemma {:induction false} MatchRowsCount(l: seq<int>, lk: nat, right: seq<seq<int>>, rk: nat)
    requires lk < |l| && HasCell(right, rk) && Distinct(Keys(right, rk))
    ensures |MatchRows(l, lk, right, rk)| == if l[lk] in Keys(right, rk) then 1 else 0
  {
    if right != [] {
      assert Keys(right, rk) == [right[0][rk]] + Keys(right[1..], rk);
      assert Keys(right[1..], rk) == Keys(right, rk)[1..];
      MatchRowsCount(l, lk, right[1..], rk);
    }
  }

  /** `row` is some left row joined with a right row carrying its key. */
  ghost predicate InnerRow(row: seq<int>, left: seq<seq<int>>, lk: nat, right: seq<seq<int>>, rk: nat)
    requires HasCell(left, lk) && HasCell(right, rk)
  {
    exists i :: 0 <= i < |left| && JoinedWith(row, left[i], lk, right, rk)
  }

  /** Some row of `rows` is the left row `l` joined with a right row. */
  ghost predicate JoinsRow(rows: seq<seq<int>>, l: seq<int>, lk: nat, right: seq<seq<int>>, rk: nat)
    requires lk < |l| && HasCell(right, rk)
  {
    exists p :: 0 <= p < |rows| && JoinedWith(rows[p], l, lk, right, rk)
  }

  /** `left.join(right, on=key, how="inner")`, rows in left order. */
  function InnerRows(left: seq<seq<int>>, lk: nat, right: seq<seq<int>>, rk: nat): (r: seq<seq<int>>)
    requires HasCell(left, lk) && HasCell(right, rk)
    ensures HasCell(r, lk)
    ensures forall v :: v in Keys(r, lk) <==> v in Keys(left, lk) && v in Keys(right, rk)
  {
    if left == [] then []
    else
      var m := MatchRows(left[0], lk, right, rk);
      var rest := InnerRows(left[1..], lk, right, rk);
      KeysCons(left, lk);
      KeysConcat(m, rest, lk);
      assert forall v :: v in Keys(m, lk) ==> v == left[0][lk];
      assert |m| > 0 ==> Keys(m, lk)[0] == left[0][lk];
      m + rest
  }

  /** Every inner-join row is a left row followed by the non-key cells of a
      right row with the same key. */
  lemma {:induction false} InnerRowsOrigin(left: seq<seq<int>>, lk: nat, right: seq<seq<int>>, rk: nat)
    requires HasCell(left, lk) && HasCell(right, rk)
    ensures forall p :: 0 <= p < |InnerRows(left, lk, right, rk)| ==>
              InnerRow(InnerRows(left, lk, right, rk)[p], left, lk, right, rk)
  {
    if left != [] {
      InnerRowsOrigin(left[1..], lk, right, rk);
      InnerRowsStep(left, lk, right, rk, MatchRows(left[0], lk, right, rk), InnerRows(left[1..], lk, right, rk));
    }
  }

  lemma InnerRowsStep(left: seq<seq<int>>, lk: nat, right: seq<seq<int>>, rk: nat, m: seq<seq<int>>, rest: seq<seq<int>>)
    requires HasCell(left, lk) && HasCell(right, rk) && left != []
    requires forall p :: 0 <= p < |m| ==> JoinedWith(m[p], left[0], lk, right, rk)
    requires forall k :: 0 <= k < |rest| ==> InnerRow(rest[k], left[1..], lk, right, rk)
    ensures forall p :: 0 <= p < |m + rest| ==> InnerRow((m + rest)[p], left, lk, right, rk)
  {
    forall p | 0 <= p < |m + rest| ensures InnerRow((m + rest)[p], left, lk, right, rk) {
      if p < |m| {
        assert (m + rest)[p] == m[p];
        assert JoinedWith((m + rest)[p], left[0], lk, right, rk);
      } else {
        assert (m + rest)[p] == rest[p - |m|];
        var i :| 0 <= i < |left[1..]| && JoinedWith(rest[p - |m|], left[1..][i], lk, right, rk);
        assert left[1..][i] == left[i + 1];
        assert JoinedWith((m + rest)[p], left[i + 1], lk, right, rk);
      }
    }
  }

  /** Every left row whose key the right table has is joined in some row. */
  lemma {:induction false} InnerRowsCover(left: seq<seq<int>>, lk: nat, right: seq<seq<int>>, rk: nat)
    requires HasCell(left, lk) && HasCell(right, rk)
    ensures forall i :: 0 <= i < |left| && left[i][lk] in Keys(right, rk) ==>
              JoinsRow(InnerRows(left, lk, right, rk), left[i], lk, right, rk)
  {
    if left != [] {
      InnerRowsCover(left[1..], lk, right, rk);
      CoverStep(left, lk, right, rk, MatchRows(left[0], lk, right, rk), InnerRows(left[1..], lk, right, rk));
    }
  }

  lemma CoverStep(left: seq<seq<int>>, lk: nat, right: seq<seq<int>>, rk: nat, m: seq<seq<int>>, rest: seq<seq<int>>)
    requires HasCell(left, lk) && HasCell(right, rk) && left != []
    requires left[0][lk] in Keys(right, rk) ==> |m| > 0
    requires forall p :: 0 <= p < |m| ==> JoinedWith(m[p], left[0], lk, right, rk)
    requires forall k :: 0 <= k < |left| - 1 && left[1..][k][lk] in Keys(right, rk) ==>
               JoinsRow(rest, left[1..][k], lk, right, rk)
    ensures forall i :: 0 <= i < |left| && left[i][lk] in Keys(right, rk) ==> JoinsRow(m + rest, left[i], lk, right, rk)
  {
    forall i | 0 <= i < |left| && left[i][lk] in Keys(right, rk) ensures JoinsRow(m + rest, left[i], lk, right, rk) {
      if i == 0 {
        assert (m + rest)[0] == m[0];
      } else {
        assert left[1..][i - 1] == left[i];
        var p :| 0 <= p < |rest| && JoinedWith(rest[p], left[i], lk, right, rk);
        assert (m + rest)[|m| + p] == rest[p];
      }
    }
  }

  /** `left.join(right, on=key, how="anti")`: the left rows whose key the
      right table lacks. */
  function AntiRows(left: seq<seq<int>>, lk: nat, right: seq<seq<int>>, rk: nat): (r: seq<seq<int>>)
    requires HasCell(left, lk) && HasCell(right, rk)
    ensures HasCell(r, lk) && forall p :: 0 <= p < |r| ==> r[p] in left
    ensures forall v :: v in Keys(r, lk) <==> v in Keys(left, lk) && v !in Keys(right, rk)
  {
    if left == [] then []
    else
      var rest := AntiRows(left[1..], lk, right, rk);
      var here := if left[0][lk] in Keys(right, rk) then [] else [left[0]];
      assert Keys(here, lk) == if left[0][lk] in Keys(right, rk) then [] else [left[0][lk]];
      KeysCons(left, lk);
      KeysConcat(here, rest, lk);
      here + rest
  }

  /** With unique right keys, every left row lands in exactly one of the
      inner and the anti join. */
  lemma {:induction false} JoinComplement(left: seq<seq<int>>, lk: nat, right: seq<seq<int>>, rk: nat)
    requires HasCell(left, lk) && HasCell(right, rk) && Distinct(Keys(right, rk))
    ensures |InnerRows(left, lk, right, rk)| + |AntiRows(left, lk, right, rk)| == |left|
  {
    if left != [] {
      MatchRowsCount(left[0], lk, right, rk);
      JoinComplement(left[1..], lk, right, rk);
    }
  }

  /** The name polars gives a right column in an inner join: `_right` is
      appended when the left table already has that name. */
  function RightName(c: string, leftColumns: seq<string>): string {
    if c in leftColumns then c + "_right" else c
  }

  function JoinColumns(left: seq<string>, rightRest: seq<string>): (r: seq<string>)
    ensures |r| == |left| + |rightRest| && r[..|left|] == left
  {
    left + seq(|rightRest|, c requires 0 <= c < |rightRest| => RightName(rightRest[c], left))
  }

  /** `left.join(right, on=key, how=how)`. Fails when either table lacks the
      key or when the joined names clash even after the `_right` suffix. */
  function Join(left: Frame, right: Frame, key: string, how: How): (r: Result<Frame>)
    requires Wf(left) && Wf(right)
    ensures key !in left.columns || key !in right.columns ==> r == Err(ColumnNotFound(key))
    ensures r.Ok? ==> Wf(r.value) && |left.columns| <= |r.value.columns|
    ensures r.Ok? ==> r.value.columns[..|left.columns|] == left.columns
    ensures r.Ok? && how == Anti ==> r.value.columns == left.columns
  {
    match (ColumnIndex(left.columns, key), ColumnIndex(right.columns, key))
    case (None, _) => Err(ColumnNotFound(key))
    case (_, None) => Err(ColumnNotFound(key))
    case (Some(lk), Some(rk)) =>
      if how == Anti then
        var rows := AntiRows(left.rows, lk, right.rows, rk);
        assert forall i :: 0 <= i < |rows| ==> |rows[i]| == |left.columns|;
        Ok(Frame(left.columns, rows))
      else
        var cols := JoinColumns(left.columns, DropAt(right.columns, rk));
        if !Distinct(cols) then Err(DuplicateColumn)
        else
          var rows := InnerRows(left.rows, lk, right.rows, rk);
          assert forall i :: 0 <= i < |rows| ==> |rows[i]| == |cols| by {
            InnerRowsWidth(left.rows, lk, right.rows, rk, |left.columns|, |right.columns|);
          }
          Ok(Frame(cols, rows))
  }

  /** When a join on a key both tables have succeeds, and which rows it
      returns: an anti join always succeeds with the `AntiRows`; an inner
      join succeeds exactly when the joined header repeats no name, with the
      `InnerRows` under that header, and fails with `DuplicateColumn`
      otherwise. */
  lemma JoinResult(left: Frame, right: Frame, key: string, how: How)
    requires Wf(left) && Wf(right) && key in left.columns && key in right.columns
    ensures var r, lk, rk := Join(left, right, key, how), ColumnIndex(left.columns, key).value, ColumnIndex(right.columns, key).value;
      && (how == Anti ==> r.Ok? && r.value.rows == AntiRows(left.rows, lk, right.rows, rk))
      && (how == Inner ==>
            var cols := JoinColumns(left.columns, DropAt(right.columns, rk));
            && (r.Ok? <==> Distinct(cols))
            && (r.Err? ==> r == Err(DuplicateColumn))
            && (r.Ok? ==> r.value.columns == cols && r.value.rows == InnerRows(left.rows, lk, right.rows, rk)))
  {
  }

  lemma {:induction false} InnerRowsWidth(left: seq<seq<int>>, lk: nat, right: seq<seq<int>>, rk: nat, wl: nat, wr: nat)
    requires HasCell(left, lk) && HasCell(right, rk)
    requires forall i :: 0 <= i < |left| ==> |left[i]| == wl
    requires forall i :: 0 <= i < |right| ==> |right[i]| == wr
    ensures forall i :: 0 <= i < |InnerRows(left, lk, right, rk)| ==> |InnerRows(left, lk, right, rk)[i]| == wl + wr - 1
  {
    if left != [] {
      InnerRowsWidth(left[1..], lk, right, rk, wl, wr);
      var m := MatchRows(left[0], lk, right, rk);
      forall p | 0 <= p < |m| ensures |m[p]| == wl + wr - 1 {
        var q :| 0 <= q < |right| && m[p] == left[0] + DropAt(right[q], rk);
      }
    }
  }

  predicate SortedOn(rows: seq<seq<int>>, k: nat) {
    HasCell(rows, k) && forall p, q :: 0 <= p < q < |rows| ==> rows[p][k] <= rows[q][k]
  }

  /** A row no greater than the head of a sorted list can go in front. */
  lemma SortedCons(x: seq<int>, s: seq<seq<int>>, k: nat)
    requires k < |x| && SortedOn(s, k) && (s != [] ==> x[k] <= s[0][k])
    ensures SortedOn([x] + s, k)
  {
    var r := [x] + s;
    forall p, q | 0 <= p < q < |r| ensures r[p][k] <= r[q][k] {
      if p > 0 { assert r[p] == s[p - 1]; }
      assert r[q] == s[q - 1];
    }
  }

  function InsertRow(x: seq<int>, s: seq<seq<int>>, k: nat): (r: seq<seq<int>>)
    requires k < |x| && SortedOn(s, k)
    ensures SortedOn(r, k) && multiset(r) == multiset(s) + multiset{x}
    ensures |r| == |s| + 1 && (r[0] == x || (s != [] && r[0] == s[0]))
  {
    if s == [] || x[k] <= s[0][k] then
      SortedCons(x, s, k);
      [x] + s
    else
      assert s == [s[0]] + s[1..];
      var t := InsertRow(x, s[1..], k);
      SortedCons(s[0], t, k);
      [s[0]] + t
  }

  /** `df.sort(by=col)`: the rows in ascending order of column k. */
  function SortRows(s: seq<seq<int>>, k: nat): (r: seq<seq<int>>)
    requires HasCell(s, k)
    ensures SortedOn(r, k) && multiset(r) == multiset(s)
  {
    if s == [] then []
    else
      assert s == [s[0]] + s[1..];
      InsertRow(s[0], SortRows(s[1..], k), k)
  }

  /** Reordering rows keeps the set of keys. */
  lemma SameKeys(a: seq<seq<int>>, b: seq<seq<int>>, k: nat)
    requires HasCell(a, k) && multiset(a) == multiset(b)
    ensures HasCell(b, k)
    ensures forall v :: v in Keys(a, k) <==> v in Keys(b, k)
  {
    forall i | 0 <= i < |b| ensures k < |b[i]| {
      assert b[i] in multiset(a);
    }
    forall v | v in Keys(a, k) ensures v in Keys(b, k) {
      var i :| 0 <= i < |a| && a[i][k] == v;
      assert a[i] in multiset(b);
      var j :| 0 <= j < |b| && b[j] == a[i];
      assert Keys(b, k)[j] == v;
    }
    forall v | v in Keys(b, k) ensures v in Keys(a, k) {
      var j :| 0 <= j < |b| && b[j][k] == v;
      assert b[j] in multiset(a);
      var i :| 0 <= i < |a| && a[i] == b[j];
      assert Keys(a, k)[i] == v;
    }
  }

  function SortBy(f: Frame, k: nat): (g: Frame)
    requires Wf(f) && k < |f.columns|
    ensures Wf(g) && g.columns == f.columns && SortedOn(g.rows, k)
    ensures multiset(g.rows) == multiset(f.rows)
  {
    var rows := SortRows(f.rows, k);
    assert forall i :: 0 <= i < |rows| ==> rows[i] in multiset(f.rows);
    Frame(f.columns, rows)
  }

  /** The keys a join leaves: those of the left table that the right table
      has (inner) or lacks (anti). The key stays at its left position. */
  lemma JoinKeys(left: Frame, right: Frame, key: string, how: How)
    requires Wf(left) && Wf(right) && Join(left, right, key, how).Ok?
    ensures key in left.columns && key in right.columns
    ensures var j, lk, rk := Join(left, right, key, how).value,
                             ColumnIndex(left.columns, key).value, ColumnIndex(right.columns, key).value;
      && ColumnIndex(j.columns, key) == Some(lk) && HasCell(j.rows, lk)
      && forall v :: v in Keys(j.rows, lk) <==> v in Keys(left.rows, lk) && (v in Keys(right.rows, rk) <==> how == Inner)
  {
    var j, lk := Join(left, right, key, how).value, ColumnIndex(left.columns, key).value;
    assert j.columns[lk] == j.columns[..|left.columns|][lk];
    ColumnIndexOf(j.columns, lk);
  }

  /** With unique right keys, the inner and the anti join split the left
      table's rows between them. */
  lemma JoinPartition(left: Frame, right: Frame, key: string)
    requires Wf(left) && Wf(right) && key in right.columns
    requires Join(left, right, key, Inner).Ok? && Join(left, right, key, Anti).Ok?
    requires Distinct(Keys(right.rows, ColumnIndex(right.columns, key).value))
    ensures |Join(left, right, key, Inner).value.rows| + |Join(left, right, key, Anti).value.rows| == |left.rows|
  {
    JoinComplement(left.rows, ColumnIndex(left.columns, key).value, right.rows, ColumnIndex(right.columns, key).value);
  }

  /** Removing one entry of a list without repeats leaves a list without
      repeats that no longer holds the entry. */
  lemma DropAtDistinct<T>(s: seq<T>, k: nat)
    requires Distinct(s) && k < |s|
    ensures Distinct(DropAt(s, k)) && s[k] !in DropAt(s, k)
  {
    var r := DropAt(s, k);
    assert forall c :: 0 <= c < |r| ==> r[c] == s[if c < k then c else c + 1];
  }

  /** Joining onto a table that holds only the key never clashes: the right
      table's other columns are kept under their own names. */
  lemma KeyOnlyInnerJoin(left: Frame, right: Frame, key: string)
    requires Wf(left) && Wf(right) && left.columns == [key] && key in right.columns
    ensures Join(left, right, key, Inner).Ok?
    ensures var rk := ColumnIndex(right.columns, key).value;
      Join(left, right, key, Inner).value.columns == [key] + DropAt(right.columns, rk)
  {
    var rk := ColumnIndex(right.columns, key).value;
    var rest := DropAt(right.columns, rk);
    DropAtDistinct(right.columns, rk);
    var cols := JoinColumns([key], rest);
    assert cols == [key] + rest by {
      forall c | 0 <= c < |rest| ensures RightName(rest[c], [key]) == rest[c] {
        assert rest[c] != key;
      }
    }
    assert Distinct(cols) by {
      forall p, q | 0 <= p < q < |cols| ensures cols[p] != cols[q] {
        assert cols[q] == rest[q - 1];
        if p > 0 { assert cols[p] == rest[p - 1]; }
      }
    }
  }
}
