/** The profiler: read-only questions about a table (which columns have
    missing values and how many, how many distinct values a column holds,
    and a per-column summary whose keys depend on the column's dtype). */
module Profiler {
  import opened Frames

  // ---------------------------------------------------------------------
  // Counting missing and distinct values.

  /** `isnull().sum()`: one for every missing cell, added up row by row. */
  function CountMissing(s: seq<Cell>): (k: nat)
    ensures k <= |s|
  {
    if s == [] then 0
    else CountMissing(s[..|s| - 1]) + (if s[|s| - 1] == Missing then 1 else 0)
  }

  /** The row-by-row sum is the number of times `Missing` occurs. */
  lemma {:induction false} CountMissingOccurrences(s: seq<Cell>)
    ensures CountMissing(s) == multiset(s)[Missing]
    ensures CountMissing(s) == 0 <==> Missing !in s
  {
    if s != [] {
      var m := |s| - 1;
      assert s == s[..m] + [s[m]];
      CountMissingOccurrences(s[..m]);
    }
  }

  /** The distinct values of a column, missing values excluded. */
  function NonMissing(s: seq<Cell>): set<Cell> {
    set x | x in s && x != Missing
  }

  /** `nunique()` with its default `dropna=True`: zero exactly when every
      cell is missing. */
  function NUnique(s: seq<Cell>): (k: nat)
    ensures k == 0 <==> forall i :: 0 <= i < |s| ==> s[i] == Missing
  {
    assert (exists i :: 0 <= i < |s| && s[i] != Missing) ==> NonMissing(s) != {} by {
      if i :| 0 <= i < |s| && s[i] != Missing {
        assert s[i] in NonMissing(s);
      }
    }
    |NonMissing(s)|
  }

  /** A column never holds more distinct values than non-missing cells. */
  lemma {:induction false} NUniqueBound(s: seq<Cell>)
    ensures NUnique(s) + CountMissing(s) <= |s|
  {
    if s != [] {
      var m := |s| - 1;
      NUniqueBound(s[..m]);
      assert s == s[..m] + [s[m]];
      if s[m] == Missing {
        assert NonMissing(s) == NonMissing(s[..m]);
      } else {
        assert NonMissing(s) == NonMissing(s[..m]) + {s[m]};
      }
    }
  }

  /** The distinct non-missing values in order of first appearance. */
  function Uniques(s: seq<Cell>): (u: seq<Cell>)
    ensures Distinct(u)
    ensures forall x :: x in u <==> x in s && x != Missing
  {
    if s == [] then []
    else
      var m := |s| - 1;
      var u := Uniques(s[..m]);
      assert forall x :: x in s <==> x in s[..m] || x == s[m] by {
        assert s == s[..m] + [s[m]];
      }
      if s[m] == Missing || s[m] in u then u else u + [s[m]]
  }

  /** A sequence without repeats has as many elements as its set. */
  lemma {:induction false} DistinctCard(u: seq<Cell>)
    requires Distinct(u)
    ensures |set x | x in u| == |u|
  {
    if u != [] {
      var m := |u| - 1;
      DistinctCard(u[..m]);
      assert (set x | x in u) == (set x | x in u[..m]) + {u[m]} by {
        assert u == u[..m] + [u[m]];
      }
      assert u[m] !in u[..m];
    }
  }

  /** `Uniques` lists exactly what `nunique` counts. */
  lemma UniquesCount(s: seq<Cell>)
    ensures |Uniques(s)| == NUnique(s)
  {
    var u := Uniques(s);
    DistinctCard(u);
    assert (set x | x in u) == NonMissing(s);
  }

  // ---------------------------------------------------------------------
  // value_counts().head()

  datatype ValueCount = ValueCount(value: Cell, count: nat)

  /** Every distinct non-missing value with the number of cells holding it. */
  function Counts(s: seq<Cell>): (p: seq<ValueCount>)
    ensures |p| == |Uniques(s)|
    ensures forall i :: 0 <= i < |p| ==> p[i].value == Uniques(s)[i] && p[i].count == multiset(s)[p[i].value]
  {
    var u := Uniques(s);
    seq(|u|, i requires 0 <= i < |u| => ValueCount(u[i], multiset(s)[u[i]]))
  }

  /** The position of a largest count; the first one on a tie. */
  function MaxIndex(p: seq<ValueCount>): (k: nat)
    requires |p| > 0
    ensures k < |p|
    ensures forall j :: 0 <= j < |p| ==> p[j].count <= p[k].count
    ensures forall j :: 0 <= j < k ==> p[j].count < p[k].count
  {
    if |p| == 1 then 0
    else
      var m := MaxIndex(p[..|p| - 1]);
      if p[|p| - 1].count > p[m].count then |p| - 1 else m
  }

  predicate DistinctValues(p: seq<ValueCount>) {
    forall i, j :: 0 <= i < j < |p| ==> p[i].value != p[j].value
  }

  /** `p` without its entry at `i`. */
  function RemoveAt(p: seq<ValueCount>, i: nat): (q: seq<ValueCount>)
    requires i < |p|
    ensures |q| == |p| - 1
    ensures forall x :: x in q ==> x in p
    ensures forall x :: x in p && x != p[i] ==> x in q
  {
    assert p == p[..i] + [p[i]] + p[i + 1..];
    p[..i] + p[i + 1..]
  }

  /** Removing an entry from a list with distinct values leaves distinct
      values, none of them the removed one. */
  lemma RemoveAtDistinct(p: seq<ValueCount>, i: nat)
    requires i < |p| && DistinctValues(p)
    ensures DistinctValues(RemoveAt(p, i))
    ensures forall x :: x in RemoveAt(p, i) ==> x.value != p[i].value
  {
    var q := RemoveAt(p, i);
    forall a, b | 0 <= a < b < |q| ensures q[a].value != q[b].value {
      var a', b' := if a < i then a else a + 1, if b < i then b else b + 1;
      assert q[a] == p[a'] && q[b] == p[b'];
    }
    forall x | x in q ensures x.value != p[i].value {
      var a :| 0 <= a < |q| && q[a] == x;
      var a' := if a < i then a else a + 1;
      assert q[a] == p[a'];
    }
  }

  lemma ConsDistinct(h: ValueCount, rest: seq<ValueCount>)
    requires DistinctValues(rest) && forall x :: x in rest ==> x.value != h.value
    ensures DistinctValues([h] + rest)
  {
    var r := [h] + rest;
    forall a, b | 0 <= a < b < |r| ensures r[a].value != r[b].value {
      assert r[b] == rest[b - 1];
      if a > 0 {
        assert r[a] == rest[a - 1];
      }
    }
  }

  /** The `k` largest counts, largest first: the head of a sorted
      `value_counts`. */
  function Top(p: seq<ValueCount>, k: nat): (r: seq<ValueCount>)
    ensures |r| == if k < |p| then k else |p|
    ensures forall x :: x in r ==> x in p
    decreases k
  {
    if k == 0 || p == [] then []
    else
      var i := MaxIndex(p);
      [p[i]] + Top(RemoveAt(p, i), k - 1)
  }

  /** The counts kept never increase from one entry to the next. */
  lemma {:induction false} TopSorted(p: seq<ValueCount>, k: nat)
    ensures forall a, b :: 0 <= a < b < |Top(p, k)| ==> Top(p, k)[b].count <= Top(p, k)[a].count
    decreases k
  {
    if k > 0 && p != [] {
      var i := MaxIndex(p);
      var rest := Top(RemoveAt(p, i), k - 1);
      TopSorted(RemoveAt(p, i), k - 1);
      var r := Top(p, k);
      assert r == [p[i]] + rest;
      forall a, b | 0 <= a < b < |r| ensures r[b].count <= r[a].count {
        assert r[b] == rest[b - 1] && r[b] in p;
        var j :| 0 <= j < |p| && p[j] == r[b];
        if a > 0 {
          assert r[a] == rest[a - 1];
          assert rest[b - 1].count <= rest[a - 1].count;
        } else {
          assert r[a] == p[i];
        }
      }
    }
  }

  /** Nothing left out has a larger count than the last entry kept. */
  lemma {:induction false} TopComplete(p: seq<ValueCount>, k: nat, x: ValueCount)
    requires x in p && x !in Top(p, k) && Top(p, k) != []
    ensures var r := Top(p, k); x.count <= r[|r| - 1].count
    decreases k
  {
    var i := MaxIndex(p);
    var q := RemoveAt(p, i);
    var rest := Top(q, k - 1);
    assert Top(p, k) == [p[i]] + rest;
    assert x != p[i];
    if rest != [] {
      TopComplete(q, k - 1, x);
    }
  }

  /** Over distinct values, the entries kept have distinct values. */
  lemma {:induction false} TopDistinct(p: seq<ValueCount>, k: nat)
    requires DistinctValues(p)
    ensures DistinctValues(Top(p, k))
    decreases k
  {
    if k > 0 && p != [] {
      var i := MaxIndex(p);
      RemoveAtDistinct(p, i);
      TopDistinct(RemoveAt(p, i), k - 1);
      ConsDistinct(p[i], Top(RemoveAt(p, i), k - 1));
    }
  }

  /** `value_counts().head()`: the five most frequent non-missing values,
      each with the number of cells holding it. */
  function ValueCountsHead(s: seq<Cell>): (h: seq<ValueCount>)
    ensures |h| <= 5
    ensures forall x :: x in h ==> x.value in s && x.value != Missing && x.count == multiset(s)[x.value]
  {
    var p := Counts(s);
    assert forall x :: x in p ==> x.value in Uniques(s) && x.count == multiset(s)[x.value];
    Top(p, 5)
  }

  /** The head lists min(5, nunique) distinct values, each with its true
      number of occurrences, none of them missing. */
  lemma ValueCountsHeadSpec(s: seq<Cell>)
    ensures var h := ValueCountsHead(s);
            && |h| == (if NUnique(s) < 5 then NUnique(s) else 5)
            && DistinctValues(h)
            && (forall a, b :: 0 <= a < b < |h| ==> h[b].count <= h[a].count)
            && forall x :: x in h ==> x.value in s && x.value != Missing && x.count == multiset(s)[x.value] > 0
  {
    UniquesCount(s);
    var p := Counts(s);
    assert DistinctValues(p);
    TopDistinct(p, 5);
    TopSorted(p, 5);
    forall x | x in p ensures x.value in s && x.value != Missing && x.count == multiset(s)[x.value] > 0 {
      var i :| 0 <= i < |p| && p[i] == x;
      assert x.value in Uniques(s);
    }
  }

  /** Every value with more occurrences than the last one shown is shown. */
  lemma ValueCountsHeadComplete(s: seq<Cell>, v: Cell)
    requires v in s && v != Missing
    requires var h := ValueCountsHead(s); h != [] && multiset(s)[v] > h[|h| - 1].count
    ensures exists x :: x in ValueCountsHead(s) && x.value == v
  {
    var p := Counts(s);
    assert v in Uniques(s);
    var i :| 0 <= i < |Uniques(s)| && Uniques(s)[i] == v;
    var x := ValueCount(v, multiset(s)[v]);
    assert p[i] == x;
    if x !in ValueCountsHead(s) {
      TopComplete(p, 5, x);
    }
  }

  // ---------------------------------------------------------------------
  // Rounding, as `Series.round(2)` does it (half to even), on exact values.

  /** The nearest integer; on a tie, the even one. */
  function RoundHalfEven(x: real): (r: int)
    ensures x - 0.5 <= r as real <= x + 0.5
    ensures (r as real == x - 0.5 || r as real == x + 0.5) ==> r % 2 == 0
  {
    var f := x.Floor;
    var d := x - f as real;
    if d < 0.5 then f
    else if d > 0.5 then f + 1
    else if f % 2 == 0 then f
    else f + 1
  }

  /** Rounding to two decimals: the result is a whole number of
      hundredths, at most half a hundredth away; on a tie, the even
      hundredth. */
  function Round2(x: real): (r: real)
    ensures x - 0.005 <= r <= x + 0.005
    ensures (r * 100.0).Floor as real == r * 100.0
    ensures (r * 100.0 == x * 100.0 - 0.5 || r * 100.0 == x * 100.0 + 0.5) ==> (r * 100.0).Floor % 2 == 0
  {
    var n := RoundHalfEven(x * 100.0);
    assert (n as real / 100.0) * 100.0 == n as real;
    n as real / 100.0
  }

  /** `(count / rows) * 100`, rounded to two decimals: within half a
      hundredth of the exact share, and the even hundredth on a tie. */
  function Percentage(count: nat, rows: nat): (p: real)
    requires rows > 0
    ensures var exact := count as real / rows as real * 100.0;
            exact - 0.005 <= p <= exact + 0.005
    ensures (p * 100.0).Floor as real == p * 100.0
    ensures var exact := count as real / rows as real * 100.0;
            (p * 100.0 == exact * 100.0 - 0.5 || p * 100.0 == exact * 100.0 + 0.5) ==> (p * 100.0).Floor % 2 == 0
  {
    Round2(count as real / rows as real * 100.0)
  }

  /** A part of a positive whole, divided by the whole, is between 0 and 1. */
  lemma Share(part: real, whole: real)
    requires 0.0 < whole && 0.0 <= part <= whole
    ensures 0.0 <= part / whole <= 1.0
  {
    var q := part / whole;
    assert q * whole == part;
    assert q > 1.0 ==> (q - 1.0) * whole > 0.0;
  }

  /** A share of the rows is a percentage between 0 and 100. */
  lemma PercentageBounds(count: nat, rows: nat)
    requires 0 < rows && count <= rows
    ensures 0.0 <= Percentage(count, rows) <= 100.0
  {
    var q := count as real / rows as real;
    Share(count as real, rows as real);
    var r := RoundHalfEven(q * 100.0 * 100.0);
    assert 0 <= r <= 10000;
  }

  /** Worked values: 3 of 10 rows is 30.0; 1 of 3 is 33.33; 1 of 800 is
      0.125 exactly, which rounds to the even 0.12. */
  lemma PercentageExamples()
    ensures Percentage(3, 10) == 30.0
    ensures Percentage(1, 3) == 33.33
    ensures Percentage(1, 800) == 0.12
  {
    assert (1.0 / 3.0 * 100.0 * 100.0).Floor == 3333;
    assert (1.0 / 800.0 * 100.0 * 100.0).Floor == 12;
  }

  // ---------------------------------------------------------------------
  // Reports over the columns of a table.

  /** The first position of a name in a list. */
  function Position(ns: seq<string>, n: string): (k: nat)
    requires n in ns
    ensures k < |ns| && ns[k] == n
  {
    if ns[0] == n then 0 else 1 + Position(ns[1..], n)
  }

  /** The names of `ns` that are in `keep`, in the order of `ns`: a
      boolean mask over a frame's columns. */
  function Select(ns: seq<string>, keep: set<string>): (r: seq<string>)
    ensures forall n :: n in r <==> n in ns && n in keep
    ensures |r| <= |ns|
  {
    if ns == [] then []
    else
      assert forall n :: n in ns <==> n == ns[0] || n in ns[1..];
      (if ns[0] in keep then [ns[0]] else []) + Select(ns[1..], keep)
  }

  /** A mask that keeps everything keeps the list as it is. */
  lemma {:induction false} SelectAll(ns: seq<string>, keep: set<string>)
    requires forall n :: n in ns ==> n in keep
    ensures Select(ns, keep) == ns
  {
    if ns != [] {
      assert forall n :: n in ns[1..] ==> n in ns;
      SelectAll(ns[1..], keep);
    }
  }

  /** In a list without repeats, every later name sits one place further
      than in the tail. */
  lemma PositionsAfterHead(ns: seq<string>)
    requires Distinct(ns) && ns != []
    ensures forall n :: n in ns[1..] ==> n != ns[0] && Position(ns, n) == 1 + Position(ns[1..], n)
  {
    forall n | n in ns[1..] ensures n != ns[0] {
      var j :| 0 <= j < |ns[1..]| && ns[1..][j] == n;
      assert ns[j + 1] == n;
    }
  }

  /** The kept names follow the order of the list, so they do not repeat. */
  lemma {:induction false} SelectOrdered(ns: seq<string>, keep: set<string>)
    requires Distinct(ns)
    ensures forall i, j :: 0 <= i < j < |Select(ns, keep)| ==>
              Position(ns, Select(ns, keep)[i]) < Position(ns, Select(ns, keep)[j])
    ensures Distinct(Select(ns, keep))
  {
    if ns != [] {
      var r := Select(ns, keep);
      var rest := Select(ns[1..], keep);
      assert Distinct(ns[1..]);
      SelectOrdered(ns[1..], keep);
      PositionsAfterHead(ns);
      var off := |r| - |rest|;
      forall i, j | 0 <= i < j < |r| ensures Position(ns, r[i]) < Position(ns, r[j]) {
        assert r[j] == rest[j - off] && r[j] in ns[1..];
        if i >= off {
          assert r[i] == rest[i - off] && r[i] in ns[1..];
        } else {
          assert r[i] == ns[0];
        }
      }
    }
  }

  /** One row of `get_null_info`: a column, its null count and its null
      percentage. */
  datatype NullRow = NullRow(column: string, count: nat, percentage: real)

  /** The null counts and percentages of the columns `cs`, in that order. */
  function NullReport(t: Table, cs: seq<string>): (r: seq<NullRow>)
    requires t.rows > 0 && forall n :: n in cs ==> n in t.cols
    ensures |r| == |cs|
    ensures forall i :: 0 <= i < |r| ==>
              && r[i].column == cs[i]
              && r[i].count == CountMissing(t.cols[cs[i]].cells)
              && r[i].percentage == Percentage(r[i].count, t.rows)
    ensures forall n :: n in cs <==> exists i :: 0 <= i < |r| && r[i].column == n
  {
    var r := seq(|cs|, i requires 0 <= i < |cs| =>
      NullRow(cs[i], CountMissing(t.cols[cs[i]].cells), Percentage(CountMissing(t.cols[cs[i]].cells), t.rows)));
    assert forall i :: 0 <= i < |r| ==> r[i].column == cs[i];
    r
  }

  /** The columns with at least one missing cell. */
  function NullColumns(t: Table): set<string> {
    set n | n in t.cols && CountMissing(t.cols[n].cells) > 0
  }

  /** One row of `get_unique_counts`: a column and its `nunique`. */
  datatype UniqueRow = UniqueRow(column: string, count: nat)

  /** The unique counts of the columns `cs`, in that order. */
  function UniqueReport(t: Table, cs: seq<string>): (r: seq<UniqueRow>)
    requires forall n :: n in cs ==> n in t.cols
    ensures |r| == |cs|
    ensures forall i :: 0 <= i < |r| ==> r[i].column == cs[i] && r[i].count == NUnique(t.cols[cs[i]].cells)
    ensures forall n :: n in cs <==> exists i :: 0 <= i < |r| && r[i].column == n
  {
    var r := seq(|cs|, i requires 0 <= i < |cs| => UniqueRow(cs[i], NUnique(t.cols[cs[i]].cells)));
    assert forall i :: 0 <= i < |r| ==> r[i].column == cs[i];
    r
  }

  /** The columns `select_dtypes(include=['object', 'category'])` keeps. */
  function TextColumns(t: Table): (r: set<string>)
    ensures r <= t.cols.Keys
    ensures forall n :: n in t.cols ==> (n in r <==> t.cols[n].dtype.Object? || t.cols[n].dtype.Category?)
  {
    set n | n in t.cols && HoldsText(t.cols[n].dtype)
  }

  // ---------------------------------------------------------------------
  // get_column_summary

  /** What a summary entry holds. The statistics' values are not modelled,
      only that the entry is there. */
  datatype Entry =
    | DtypeEntry(dtype: Dtype)
    | CountEntry(count: nat)
    | StatisticEntry
    | ValueCountsEntry(top: seq<ValueCount>)

  datatype Item = Item(key: string, entry: Entry)

  function Keys(s: seq<Item>): (ks: seq<string>)
    ensures |ks| == |s| && forall i :: 0 <= i < |s| ==> ks[i] == s[i].key
  {
    seq(|s|, i requires 0 <= i < |s| => s[i].key)
  }

  const StatisticKeys: seq<string> := ["mean", "median", "std", "min", "max"]

  /** The summary dictionary of a column that is present, in insertion
      order: dtype, null count and unique count always; the five statistics
      for a numeric column; the value counts for a text or categorical one. */
  function SummaryOf(c: Column): (s: seq<Item>)
    ensures |s| == 3 + (if IsNumeric(c.dtype) then 5 else 0) + (if HoldsText(c.dtype) then 1 else 0)
    ensures s[0].entry == DtypeEntry(c.dtype)
    ensures s[1].entry == CountEntry(CountMissing(c.cells)) && s[2].entry == CountEntry(NUnique(c.cells))
    ensures forall i :: 3 <= i < |s| ==> (s[i].entry.StatisticEntry? <==> IsNumeric(c.dtype))
    ensures HoldsText(c.dtype) ==> s[|s| - 1].entry.ValueCountsEntry? && |s[|s| - 1].entry.top| <= 5
  {
    [Item("dtype", DtypeEntry(c.dtype)),
     Item("null_count", CountEntry(CountMissing(c.cells))),
     Item("unique_count", CountEntry(NUnique(c.cells)))]
    + (if IsNumeric(c.dtype) then seq(5, i requires 0 <= i < 5 => Item(StatisticKeys[i], StatisticEntry)) else [])
    + (if HoldsText(c.dtype) then [Item("value_counts", ValueCountsEntry(ValueCountsHead(c.cells)))] else [])
  }

  /** Which keys a summary has, by dtype, and what the counts hold. */
  lemma SummaryKeys(c: Column)
    ensures var s := SummaryOf(c);
            && |s| >= 3
            && s[0] == Item("dtype", DtypeEntry(c.dtype))
            && s[1] == Item("null_count", CountEntry(CountMissing(c.cells)))
            && s[2] == Item("unique_count", CountEntry(NUnique(c.cells)))
            && (forall k :: k in StatisticKeys ==> (k in Keys(s) <==> IsNumeric(c.dtype)))
            && ("value_counts" in Keys(s) <==> HoldsText(c.dtype))
            && (HoldsText(c.dtype) ==> s[|s| - 1] == Item("value_counts", ValueCountsEntry(ValueCountsHead(c.cells))))
            && |s| == 3 + (if IsNumeric(c.dtype) then 5 else 0) + (if HoldsText(c.dtype) then 1 else 0)
  {
    var s := SummaryOf(c);
    var ks := Keys(s);
    assert forall i :: 0 <= i < |s| ==> ks[i] == s[i].key;
    if IsNumeric(c.dtype) {
      assert ks[3..8] == StatisticKeys;
      assert forall k :: k in StatisticKeys ==> k in ks[3..8];
    } else {
      assert forall k :: k in ks ==> k in ["dtype", "null_count", "unique_count", "value_counts"];
    }
    if HoldsText(c.dtype) {
      assert ks[|ks| - 1] == "value_counts";
    } else {
      assert forall k :: k in ks ==> k in ["dtype", "null_count", "unique_count"] + StatisticKeys;
    }
  }

  datatype ProfileError =
    | ValueError(message: string)
    | TypeError(column: string)

  /** The message raised for a column that is not in the table. */
  function NotFound(column: string): (m: string)
    ensures |m| > 8 + |column| && m[8..8 + |column|] == column
  {
    "Column '" + column + "' not found in DataFrame"
  }

  /** `get_column_summary` as it was meant to behave: the missing-column
      error, otherwise the summary whatever the dtype. */
  function IntendedColumnSummary(t: Table, column: string): (r: Result<seq<Item>, ProfileError>)
    ensures r.Failure? <==> column !in t.cols
    ensures r.Failure? ==> r.error == ValueError(NotFound(column))
    ensures r.Success? ==> r.value == SummaryOf(t.cols[column])
  {
    if column !in t.cols then Failure(ValueError(NotFound(column)))
    else Success(SummaryOf(t.cols[column]))
  }

  // ---------------------------------------------------------------------
  // The profiler object.

  /** `DataFrameInfo`: a profiler bound once, at construction, to a table;
      every query reads that table and none changes it. */
  class DataFrameInfo {
    const df: Table

    constructor (df: Table)
      ensures this.df == df
    {
      this.df := df;
    }

    /** `get_null_info`: exactly the columns with missing cells, in column
        order, each with its null count and its rounded percentage. A table
        without rows has no missing cells, so its report is empty (pandas
        computes 0 / 0 as NaN there, and the `> 0` filter drops every row). */
    function GetNullInfo(): (r: seq<NullRow>)
      ensures df.rows == 0 ==> r == []
      ensures forall i :: 0 <= i < |r| ==>
                && df.rows > 0
                && r[i].column in df.cols
                && r[i].count == CountMissing(df.cols[r[i].column].cells)
                && r[i].percentage == Percentage(r[i].count, df.rows)
      ensures forall n :: n in df.cols ==>
                (CountMissing(df.cols[n].cells) > 0 <==> exists i :: 0 <= i < |r| && r[i].column == n)
      ensures forall i, j :: 0 <= i < j < |r| ==>
                && r[i].column in df.cols && r[j].column in df.cols
                && Position(df.names, r[i].column) < Position(df.names, r[j].column)
    {
      if df.rows == 0 then
        assert NullColumns(df) == {};
        []
      else
        var cs := Select(df.names, NullColumns(df));
        SelectOrdered(df.names, NullColumns(df));
        NullReport(df, cs)
    }

    /** `get_unique_counts`: with `categoricalOnly`, exactly the object and
        category columns; otherwise every column; each with its `nunique`,
        in column order. */
    function GetUniqueCounts(categoricalOnly: bool): (r: seq<UniqueRow>)
      ensures forall i :: 0 <= i < |r| ==>
                && r[i].column in df.cols
                && r[i].count == NUnique(df.cols[r[i].column].cells)
      ensures forall n :: n in df.cols ==>
                ((!categoricalOnly || HoldsText(df.cols[n].dtype)) <==> exists i :: 0 <= i < |r| && r[i].column == n)
      ensures forall i, j :: 0 <= i < j < |r| ==>
                && r[i].column in df.cols && r[j].column in df.cols
                && Position(df.names, r[i].column) < Position(df.names, r[j].column)
      ensures !categoricalOnly ==> |r| == |df.names| && forall i :: 0 <= i < |r| ==> r[i].column == df.names[i]
    {
      var keep := if categoricalOnly then TextColumns(df) else df.cols.Keys;
      var cs := Select(df.names, keep);
      SelectOrdered(df.names, keep);
      assert !categoricalOnly ==> cs == df.names by {
        if !categoricalOnly { SelectAll(df.names, keep); }
      }
      UniqueReport(df, cs)
    }

    /** `get_column_summary` as written: a missing column raises a
        `ValueError` naming it; a category column makes the numeric-dtype
        test raise a `TypeError`; any other column gets its summary. */
    function GetColumnSummary(column: string): (r: Result<seq<Item>, ProfileError>)
      ensures column !in df.cols <==> r == Failure(ValueError(NotFound(column)))
      ensures (column in df.cols && df.cols[column].dtype.Category?) <==> r == Failure(TypeError(column))
      ensures r.Success? ==> column in df.cols && r.value == SummaryOf(df.cols[column])
    {
      if column !in df.cols then Failure(ValueError(NotFound(column)))
      else if df.cols[column].dtype.Category? then Failure(TypeError(column))
      else Success(SummaryOf(df.cols[column]))
    }
  }

  /** The two versions agree except on category columns, where the one as
      written fails and the intended one reports the value counts. */
  lemma SummaryVersionsDiffer(info: DataFrameInfo, column: string)
    ensures column in info.df.cols && info.df.cols[column].dtype.Category? ==>
              && info.GetColumnSummary(column).Failure?
              && IntendedColumnSummary(info.df, column).Success?
              && "value_counts" in Keys(IntendedColumnSummary(info.df, column).value)
    ensures !(column in info.df.cols && info.df.cols[column].dtype.Category?) ==>
              info.GetColumnSummary(column) == IntendedColumnSummary(info.df, column)
  {
    if column in info.df.cols {
      SummaryKeys(info.df.cols[column]);
    }
  }
}
