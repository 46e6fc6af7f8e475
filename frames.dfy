/** The in-memory table the pipeline works on: a pandas DataFrame reduced to
    what the rewrite rules and the profiler look at. Columns are named, carry
    a declared dtype, and share one row count. */
module Frames {

  datatype Option<+T> = None | Some(value: T)

  datatype Result<+T, +E> = Success(value: T) | Failure(error: E)

  /** A point in time as pandas stores it (nanoseconds since the epoch). */
  datatype Timestamp = Timestamp(nanos: int)

  /** One cell. `Missing` stands for NaN / None / NaT alike, which is what
      `isnull()` reports as true. */
  datatype Cell = Missing | Str(s: string) | Num(x: real) | Date(t: Timestamp)

  /** The declared type of a column. */
  datatype Dtype = Object | Int64 | Float64 | Datetime64 | Category

  /** The dtypes numpy counts as `np.number`; datetime64 is not one. */
  predicate IsNumeric(d: Dtype): (b: bool)
    ensures b ==> !d.Datetime64?
  {
    d.Int64? || d.Float64?
  }

  /** The dtypes `select_dtypes(include=['object', 'category'])` keeps; none
      of them is numeric. */
  predicate HoldsText(d: Dtype): (b: bool)
    ensures b ==> !IsNumeric(d) && !d.Datetime64?
  {
    d.Object? || d.Category?
  }

  datatype Column = Column(dtype: Dtype, cells: seq<Cell>)

  /** Column names in display order, the columns by name, and the row count
      (kept separately, since a frame with no columns still has rows). */
  datatype Frame = Frame(names: seq<string>, cols: map<string, Column>, rows: nat)

  /** No element occurs twice. */
  predicate Distinct<T(==)>(s: seq<T>) {
    forall i, j :: 0 <= i < j < |s| ==> s[i] != s[j]
  }

  /** Names are unique, name the columns exactly, and all columns have the
      same length. */
  predicate WellFormed(f: Frame) {
    && Distinct(f.names)
    && f.cols.Keys == (set n | n in f.names)
    && (forall n :: n in f.cols ==> |f.cols[n].cells| == f.rows)
  }

  type Table = f: Frame | WellFormed(f) witness Frame([], map[], 0)

  /** Replacing an existing column by one of the same length keeps a table
      well formed: this is `df[col] = ...` on a column that is present. */
  function Replace(t: Table, name: string, c: Column): (r: Table)
    requires name in t.cols && |c.cells| == t.rows
    ensures r.names == t.names && r.rows == t.rows && r.cols.Keys == t.cols.Keys
    ensures r.cols[name] == c
    ensures forall n :: n in t.cols && n != name ==> r.cols[n] == t.cols[n]
  {
    Frame(t.names, t.cols[name := c], t.rows)
  }

  /** A mutable DataFrame, for the code that changes one in place. */
  class DataFrame {
    var names: seq<string>
    var cols: map<string, Column>
    var rows: nat

    ghost predicate Valid()
      reads this
    {
      WellFormed(Frame(names, cols, rows))
    }

    /** The table this frame currently holds. */
    function Value(): Table
      reads this
      requires Valid()
    {
      Frame(names, cols, rows)
    }

    constructor (t: Table)
      ensures Valid() && Value() == t
    {
      names, cols, rows := t.names, t.cols, t.rows;
    }

    /** `df.copy()`: a new frame holding the same table; the receiver is
        left as it was. */
    method Copy() returns (r: DataFrame)
      requires Valid()
      ensures fresh(r) && r.Valid() && r.Value() == Value()
    {
      r := new DataFrame(Value());
    }

    /** `name in df.columns` */
    function Has(name: string): (b: bool)
      reads this
      requires Valid()
      ensures b <==> name in Value().cols
    {
      name in cols
    }

    /** `df[name]` */
    function Get(name: string): (c: Column)
      reads this
      requires Valid() && name in Value().cols
      ensures c == Value().cols[name] && |c.cells| == rows
    {
      cols[name]
    }

    /** `df[name] = c` for a column that is present. */
    method Set(name: string, c: Column)
      requires Valid() && name in Value().cols && |c.cells| == rows
      modifies this
      ensures Valid() && Value() == Replace(old(Value()), name, c)
    {
      cols := cols[name := c];
    }
  }
}
