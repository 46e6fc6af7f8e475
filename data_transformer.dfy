/** The column-rewrite pipeline: four rules, each driven by a fixed list of
    column names, that replace the listed columns present in a frame by
    converted ones, and `transform_data`, which runs the four rules in order
    on a copy of its input. */
module DataTransform {
  import opened Frames
  import opened Parsing

  // ---------------------------------------------------------------------
  // The four column lists, exactly as the source spells them.

  const DateColumns: seq<string> := [
    "issue_date",
    "earliest_credit_line",
    "last_payment_date",
    "next_payment_date",
    "last_credit_pull_date"
  ]

  const PercentageColumns: seq<string> := [
    "int_rate",
    "revol_util"
  ]

  /** The source has no comma after "funded_amount", and Python joins two
      adjacent string literals into one; the `+` below is that join. */
  const CurrencyColumns: seq<string> := [
    "loan_amount",
    "funded_amount" + "funded_amount_inv",
    "total_payment",
    "total_payment_inv",
    "total_rec_prncp",
    "total_rec_int",
    "total_rec_late_fee",
    "recoveries",
    "collection_recovery_fee",
    "last_payment_amount"
  ]

  const CategoricalColumns: seq<string> := [
    "term",
    "grade",
    "sub_grade",
    "home_ownership",
    "verification_status",
    "loan_status",
    "purpose",
    "payment_plan",
    "application_type",
    "emp_length"
  ]

  /** The currency list with the missing comma put back. */
  const IntendedCurrencyColumns: seq<string> := [
    "loan_amount",
    "funded_amount",
    "funded_amount_inv",
    "total_payment",
    "total_payment_inv",
    "total_rec_prncp",
    "total_rec_int",
    "total_rec_late_fee",
    "recoveries",
    "collection_recovery_fee",
    "last_payment_amount"
  ]

  predicate Disjoint(a: seq<string>, b: seq<string>) {
    forall i, j :: 0 <= i < |a| && 0 <= j < |b| ==> a[i] != b[j]
  }

  // ---------------------------------------------------------------------
  // Rules, errors and what each rule does to one value.

  /** `pd.to_datetime` applied to one value that it has to read (see
      `NeedsParse`). The library's format inference is not modelled; it is
      whatever this function says, None where the library raises. */
  type DateParser = Cell -> Option<Timestamp>

  /** The strings `pd.to_datetime` reads as a missing date without parsing
      them: the empty string and the spellings of NaT and NaN. */
  predicate NaTText(s: string): (b: bool)
    ensures b ==> |s| <= 3 && forall i :: 0 <= i < |s| ==> !IsDigit(s[i])
  {
    s == "" || s == "NaT" || s == "nat" || s == "NAT" || s == "nan" || s == "NaN" || s == "NAN"
  }

  /** A value `pd.to_datetime` has to parse: a number, or text that is not
      a spelling of a missing date. */
  predicate NeedsParse(c: Cell): (b: bool)
    ensures b ==> !c.Missing? && !c.Date?
    ensures c.Str? && ParseFloat(c.s).Some? ==> b
  {
    c.Num? || (c.Str? && !NaTText(c.s))
  }

  datatype Rule = Dates(parse: DateParser) | Percentages | Currencies | Categorical

  /** The list a rule walks. */
  function Columns(rule: Rule): seq<string> {
    match rule
    case Dates(_) => DateColumns
    case Percentages => PercentageColumns
    case Currencies => CurrencyColumns
    case Categorical => CategoricalColumns
  }

  /** The dtype a rule gives the columns it converts. */
  function TargetDtype(rule: Rule): Dtype {
    match rule
    case Dates(_) => Datetime64
    case Percentages => Float64
    case Currencies => Float64
    case Categorical => Category
  }

  /** Why a rule stopped. The exception kinds are pandas' own; the column
      and the row are the model's record of where the loop stopped, since
      the library's messages name neither. */
  datatype Error =
    | ParseError(column: string, row: nat)  // a value the conversion cannot read
    | AttributeError(column: string)        // `.str` on a column that does not hold text
    | TypeError(column: string)             // `astype(float)` of a datetime column or of a date

  /** The characters the currency regex `[\$,]` matches. */
  const CurrencySymbols: set<char> := {'$', ','}

  /** `.str.rstrip('%')` on one value: text loses its trailing '%'s, and any
      value that is not text comes back as NaN. */
  function StripPercent(c: Cell): (r: Cell)
    ensures r.Str? <==> c.Str?
    ensures !c.Str? ==> r == Missing
    ensures c.Str? ==> && r.s <= c.s
                       && (r.s == [] || r.s[|r.s| - 1] != '%')
                       && forall i :: |r.s| <= i < |c.s| ==> c.s[i] == '%'
  {
    if c.Str? then Str(RStrip(c.s, '%')) else Missing
  }

  /** `.replace('[\$,]', '', regex=True)` on one value: only text is
      touched, and no '$' or ',' is left in it. */
  function StripCurrency(c: Cell): (r: Cell)
    ensures r.Str? <==> c.Str?
    ensures !c.Str? ==> r == c
    ensures c.Str? ==> |r.s| <= |c.s| && forall i :: 0 <= i < |r.s| ==> r.s[i] != '$' && r.s[i] != ','
  {
    if c.Str? then Str(RemoveAll(c.s, CurrencySymbols)) else c
  }

  /** `.astype(float)` on one value: the result is a float or NaN; None
      where `float()` raises, on a date or on text that is not a number. */
  function AsFloat(c: Cell): (r: Option<Cell>)
    ensures r.Some? ==> r.value.Missing? || r.value.Num?
    ensures r.None? <==> c.Date? || (c.Str? && ParseFloat(c.s).None?)
    ensures c.Missing? || c.Num? ==> r == Some(c)
  {
    match c
    case Missing => Some(Missing)
    case Num(_) => Some(c)
    case Str(s) => (match ParseFloat(s) case None => None case Some(x) => Some(Num(x)))
    case Date(_) => None
  }

  /** One value through a rule; None where the conversion raises. A missing
      value stays missing under every rule, and a converted value is one the
      rule's dtype holds. */
  function ConvertCell(rule: Rule, c: Cell): (r: Option<Cell>)
    ensures c.Missing? ==> r == Some(Missing)
    ensures r.Some? && rule.Dates? ==> r.value.Missing? || r.value.Date?
    ensures r.Some? && (rule.Percentages? || rule.Currencies?) ==> r.value.Missing? || r.value.Num?
    ensures rule.Categorical? ==> r == Some(c)
  {
    match rule
    case Dates(parse) =>
      if c.Date? then Some(c)
      else if !NeedsParse(c) then Some(Missing)
      else (match parse(c) case None => None case Some(t) => Some(Date(t)))
    case Percentages =>
      (match AsFloat(StripPercent(c))
       case None => None
       case Some(v) => Some(if v.Num? then Num(v.x / 100.0) else v))
    case Currencies => AsFloat(StripCurrency(c))
    case Categorical => Some(c)
  }

  /** A rule over a whole column of values, failing at the first value it
      cannot convert (the error carries that row). */
  function ConvertCells(rule: Rule, cells: seq<Cell>): (r: Result<seq<Cell>, nat>)
    ensures r.Success? <==> forall i :: 0 <= i < |cells| ==> ConvertCell(rule, cells[i]).Some?
    ensures r.Success? ==> |r.value| == |cells|
    ensures r.Success? ==> forall i :: 0 <= i < |cells| ==> r.value[i] == ConvertCell(rule, cells[i]).value
    ensures r.Failure? ==> r.error < |cells| && ConvertCell(rule, cells[r.error]).None?
    ensures r.Failure? ==> forall i :: 0 <= i < r.error ==> ConvertCell(rule, cells[i]).Some?
    decreases |cells|
  {
    if cells == [] then
      Success([])
    else
      match ConvertCell(rule, cells[0])
      case None => Failure(0)
      case Some(c) =>
        match ConvertCells(rule, cells[1..])
        case Success(rest) => Success([c] + rest)
        case Failure(i) => Failure(i + 1)
  }

  /** Some cell of the column holds a value. */
  predicate HasValue(cells: seq<Cell>) {
    exists i :: 0 <= i < |cells| && !cells[i].Missing?
  }

  /** Every value of the column is a number (or missing). */
  predicate AllNumbers(cells: seq<Cell>) {
    forall i :: 0 <= i < |cells| ==> cells[i].Missing? || cells[i].Num?
  }

  /** Every value of the column is a date (or missing). */
  predicate AllDates(cells: seq<Cell>) {
    forall i :: 0 <= i < |cells| ==> cells[i].Missing? || cells[i].Date?
  }

  /** Whether `.str` is available on a column. pandas requires an object or
      category dtype, and then infers the kind of the values that are not
      missing (of the categories, for a category column; here those are the
      distinct values): values that are all numbers or all dates refuse
      the accessor. */
  predicate StrAccessor(c: Column): (b: bool)
    ensures b ==> HoldsText(c.dtype)
    ensures HoldsText(c.dtype) && !HasValue(c.cells) ==> b
    ensures HoldsText(c.dtype) && (exists i :: 0 <= i < |c.cells| && c.cells[i].Str?) ==> b
  {
    && HoldsText(c.dtype)
    && !(HasValue(c.cells) && (AllNumbers(c.cells) || AllDates(c.cells)))
  }

  /** The new column a rule computes for column `name`, or the error it
      raises. Percentages needs the `.str` accessor; `astype(float)` refuses
      a datetime column, and a date among the values of any other column.
      The converted column keeps every missing value missing. */
  function ConvertColumn(rule: Rule, name: string, c: Column): (r: Result<Column, Error>)
    ensures r.Success? ==> r.value.dtype == TargetDtype(rule) && |r.value.cells| == |c.cells|
    ensures r.Success? ==> forall i :: 0 <= i < |c.cells| && c.cells[i].Missing? ==> r.value.cells[i].Missing?
    ensures r.Failure? ==> r.error.column == name
  {
    if rule.Percentages? && !StrAccessor(c) then
      Failure(AttributeError(name))
    else if rule.Currencies? && c.dtype.Datetime64? then
      Failure(TypeError(name))
    else
      match ConvertCells(rule, c.cells)
      case Success(cells) => Success(Column(TargetDtype(rule), cells))
      case Failure(i) => Failure(if c.cells[i].Date? then TypeError(name) else ParseError(name, i))
  }

  // ---------------------------------------------------------------------
  // What each rule does to one column.

  /** `df[col].str.rstrip('%').astype('float') / 100.0`: succeeds exactly
      when `.str` is available and every text value, stripped of all its
      trailing '%', reads as a number; that number is divided by 100, and a
      value that is not text becomes NaN. */
  lemma PercentagesColumn(name: string, c: Column)
    ensures ConvertColumn(Percentages, name, c).Success?
        <==> StrAccessor(c)
             && forall i :: 0 <= i < |c.cells| && c.cells[i].Str? ==> ParseFloat(RStrip(c.cells[i].s, '%')).Some?
    ensures ConvertColumn(Percentages, name, c).Success? ==>
              forall i :: 0 <= i < |c.cells| ==>
                ConvertColumn(Percentages, name, c).value.cells[i]
                == if c.cells[i].Str? then Num(ParseFloat(RStrip(c.cells[i].s, '%')).value / 100.0) else Missing
  {
  }

  /** `df[col].replace('[\$,]', '', regex=True).astype(float)`: succeeds
      exactly when the column is not a datetime column, holds no date, and
      every text value, with every '$' and ',' removed, reads as a number.
      Numbers and NaN pass through. */
  lemma CurrenciesColumn(name: string, c: Column)
    ensures ConvertColumn(Currencies, name, c).Success?
        <==> !c.dtype.Datetime64?
             && forall i :: 0 <= i < |c.cells| ==>
                  !c.cells[i].Date? && (c.cells[i].Str? ==> ParseFloat(RemoveAll(c.cells[i].s, CurrencySymbols)).Some?)
    ensures ConvertColumn(Currencies, name, c).Success? ==>
              forall i :: 0 <= i < |c.cells| ==>
                ConvertColumn(Currencies, name, c).value.cells[i]
                == if c.cells[i].Str? then Num(ParseFloat(RemoveAll(c.cells[i].s, CurrencySymbols)).value) else c.cells[i]
  {
  }

  /** `pd.to_datetime(df[col])`: succeeds exactly when the parser accepts
      every value it has to read; dates pass through, and missing values,
      the empty string and the spellings of NaT become NaT. */
  lemma DatesColumn(parse: DateParser, name: string, c: Column)
    ensures ConvertColumn(Dates(parse), name, c).Success?
        <==> forall i :: 0 <= i < |c.cells| && NeedsParse(c.cells[i]) ==> parse(c.cells[i]).Some?
    ensures ConvertColumn(Dates(parse), name, c).Success? ==>
              forall i :: 0 <= i < |c.cells| ==>
                ConvertColumn(Dates(parse), name, c).value.cells[i]
                == if c.cells[i].Date? then c.cells[i]
                   else if NeedsParse(c.cells[i]) then Date(parse(c.cells[i]).value)
                   else Missing
  {
  }

  /** A percentage column whose values are all numbers has no `.str`: the
      rule raises rather than turning the numbers into NaN. */
  lemma PercentagesOnNumbers(name: string, x: real)
    ensures ConvertColumn(Percentages, name, Column(Object, [Missing, Num(x)])) == Failure(AttributeError(name))
  {
    assert HasValue([Missing, Num(x)]) by {
      assert ![Missing, Num(x)][1].Missing?;
    }
  }

  /** `astype('category')` keeps every value, so the set of distinct values
      is the same; only the dtype changes. */
  lemma {:induction false} CategoricalColumn(name: string, c: Column)
    ensures ConvertColumn(Categorical, name, c) == Success(Column(Category, c.cells))
    ensures var r := ConvertColumn(Categorical, name, c).value;
            (set v | v in r.cells && !v.Missing?) == (set v | v in c.cells && !v.Missing?)
  {
    var r := ConvertCells(Categorical, c.cells);
    assert r.value == c.cells;
  }

  /** The conversion the source documents for percentages: "12.34%"
      becomes 0.1234. */
  lemma PercentageExample()
    ensures ConvertCell(Percentages, Str("12.34%")) == Some(Num(0.1234))
  {
    StripPercentExample();
    ParsePercentExample();
    PercentageOfText("12.34%", "12.34", 12.34);
  }

  /** A percentage text value whose stripped form reads as x becomes x / 100. */
  lemma PercentageOfText(s: string, stripped: string, x: real)
    requires RStrip(s, '%') == stripped && ParseFloat(stripped) == Some(x)
    ensures ConvertCell(Percentages, Str(s)) == Some(Num(x / 100.0))
  {
  }

  lemma StripPercentExample()
    ensures RStrip("12.34%", '%') == "12.34"
  {
    RStripUnique("12.34%", '%', 5);
    assert "12.34%"[..5] == "12.34";
  }

  /** The conversion the source documents for currencies: "$1,234.56"
      becomes 1234.56. */
  lemma CurrencyExample()
    ensures ConvertCell(Currencies, Str("$1,234.56")) == Some(Num(1234.56))
  {
    StripCurrencyExample();
    ParseCurrencyExample();
    CurrencyOfText("$1,234.56", "1234.56", 1234.56);
  }

  /** A currency text value whose cleaned form reads as x becomes x. */
  lemma CurrencyOfText(s: string, cleaned: string, x: real)
    requires StripCurrency(Str(s)) == Str(cleaned) && ParseFloat(cleaned) == Some(x)
    ensures ConvertCell(Currencies, Str(s)) == Some(Num(x))
  {
  }

  lemma StripCurrencyExample()
    ensures StripCurrency(Str("$1,234.56")) == Str("1234.56")
  {
    StripDollarAndComma(CurrencySymbols);
  }

  /** Dropping '$' and ',' from "$1,234.56" leaves "1234.56". */
  lemma StripDollarAndComma(drop: set<char>)
    requires '$' in drop && ',' in drop
    requires '1' !in drop && '2' !in drop && '3' !in drop && '4' !in drop
    requires '.' !in drop && '5' !in drop && '6' !in drop
    ensures RemoveAll("$1,234.56", drop) == "1234.56"
  {
    var digits := "234.56";
    assert "$1,234.56" == "$1," + digits;
    RemoveAllConcat("$1,", digits, drop);
    StripPrefix(drop);
    KeepDigits(drop);
    assert ['1'] + digits == "1234.56";
  }

  lemma StripPrefix(drop: set<char>)
    requires '$' in drop && ',' in drop && '1' !in drop
    ensures RemoveAll("$1,", drop) == "1"
  {
    assert "$1,"[1..] == "1," && "1,"[1..] == "," && ","[1..] == [];
  }

  lemma KeepDigits(drop: set<char>)
    requires '2' !in drop && '3' !in drop && '4' !in drop
    requires '.' !in drop && '5' !in drop && '6' !in drop
    ensures RemoveAll("234.56", drop) == "234.56"
  {
    var digits := "234.56";
    assert digits[0] == '2' && digits[1] == '3' && digits[2] == '4' && digits[3] == '.' && digits[4] == '5' && digits[5] == '6';
    assert forall i :: 0 <= i < |digits| ==> digits[i] !in drop;
    RemoveAllClean(digits, drop);
  }

  /** `astype(float)` on an object column holding a date raises
      `TypeError`, as `float()` of a timestamp does. */
  lemma CurrenciesOnDate(name: string, t: Timestamp)
    ensures ConvertColumn(Currencies, name, Column(Object, [Missing, Date(t)])) == Failure(TypeError(name))
  {
    assert ConvertCells(Currencies, [Missing, Date(t)]) == Failure(1) by {
      assert [Missing, Date(t)][1..] == [Date(t)];
    }
  }

  /** `pd.to_datetime` reads the empty string and "NaT" as missing dates,
      whatever the parser would make of them. */
  lemma DatesOnNaTText(parse: DateParser, name: string)
    ensures ConvertColumn(Dates(parse), name, Column(Object, [Str(""), Str("NaT")]))
         == Success(Column(Datetime64, [Missing, Missing]))
  {
    var cells := [Str(""), Str("NaT")];
    assert NaTText(cells[0].s) && NaTText(cells[1].s);
    assert forall i :: 0 <= i < |cells| ==> ConvertCell(Dates(parse), cells[i]) == Some(Missing);
    var r := ConvertCells(Dates(parse), cells);
    assert r.value == [Missing, Missing];
  }

  /** A converted value converts to itself, for every rule but
      Percentages. */
  lemma ConvertCellTwice(rule: Rule, x: Cell)
    requires !rule.Percentages? && ConvertCell(rule, x).Some?
    ensures ConvertCell(rule, ConvertCell(rule, x).value) == ConvertCell(rule, x)
  {
  }

  /** Converting a converted column again changes nothing, for every rule
      but Percentages. */
  lemma ConvertColumnTwice(rule: Rule, name: string, c: Column)
    requires !rule.Percentages?
    requires ConvertColumn(rule, name, c).Success?
    ensures ConvertColumn(rule, name, ConvertColumn(rule, name, c).value) == ConvertColumn(rule, name, c)
  {
    var d := ConvertColumn(rule, name, c).value;
    var cells := ConvertCells(rule, c.cells).value;
    assert d == Column(TargetDtype(rule), cells);
    forall i | 0 <= i < |cells| ensures ConvertCell(rule, cells[i]) == Some(cells[i]) {
      ConvertCellTwice(rule, c.cells[i]);
    }
    var again := ConvertCells(rule, cells);
    assert again.Success?;
    assert again.value == cells;
  }

  /** A converted percentage column is a float column, and `.str` on it
      raises: running the rule twice fails rather than dividing again. */
  lemma PercentagesTwiceFails(name: string, c: Column)
    requires ConvertColumn(Percentages, name, c).Success?
    ensures ConvertColumn(Percentages, name, ConvertColumn(Percentages, name, c).value) == Failure(AttributeError(name))
  {
  }

  // ---------------------------------------------------------------------
  // A rule over a table: the loop over the list, as a specification.

  /** The table as far as a rule got, and the error that stopped it, if any.
      An error leaves the columns converted before it in place, as the
      source's in-place assignments do. */
  datatype Applied = Applied(table: Table, error: Option<Error>)

  /** One turn of the loop: `if col in df.columns: df[col] = ...`. An absent
      name changes nothing; an error leaves the table as it was and names
      the column; otherwise that column becomes its conversion and no other
      column changes. */
  function Step(rule: Rule, t: Table, name: string): (a: Applied)
    ensures a.table.names == t.names && a.table.rows == t.rows && a.table.cols.Keys == t.cols.Keys
    ensures name !in t.cols ==> a == Applied(t, None)
    ensures a.error.Some? ==> a.table == t && name in t.cols && a.error.value.column == name
    ensures a.error.None? && name in t.cols ==>
              ConvertColumn(rule, name, t.cols[name]).Success?
              && a.table.cols[name] == ConvertColumn(rule, name, t.cols[name]).value
    ensures forall n :: n in t.cols && n != name ==> a.table.cols[n] == t.cols[n]
  {
    if name !in t.cols then
      Applied(t, None)
    else
      match ConvertColumn(rule, name, t.cols[name])
      case Failure(e) => Applied(t, Some(e))
      case Success(c) => Applied(Replace(t, name, c), None)
  }

  /** The loop over `names`, stopping at the first error. The names, their
      order, the row count and every column not listed stay as they were. */
  function Apply(rule: Rule, t: Table, names: seq<string>): (a: Applied)
    ensures a.table.names == t.names && a.table.rows == t.rows && a.table.cols.Keys == t.cols.Keys
    ensures forall n :: n in t.cols && n !in names ==> a.table.cols[n] == t.cols[n]
    decreases |names|
  {
    if names == [] then
      Applied(t, None)
    else
      var before := Apply(rule, t, names[..|names| - 1]);
      assert forall n :: n in names[..|names| - 1] ==> n in names;
      if before.error.Some? then before else Step(rule, before.table, names[|names| - 1])
  }

  /** Once a prefix of the list has failed, the rest of the list is not
      looked at. */
  lemma {:induction false} ApplyStops(rule: Rule, t: Table, names: seq<string>, k: nat)
    requires k <= |names|
    requires Apply(rule, t, names[..k]).error.Some?
    ensures Apply(rule, t, names) == Apply(rule, t, names[..k])
    decreases |names| - k
  {
    if k < |names| {
      var m := |names| - 1;
      assert names[..m][..k] == names[..k];
      ApplyStops(rule, t, names[..m], k);
      assert Apply(rule, t, names) == Apply(rule, t, names[..m]);
    } else {
      assert names[..k] == names;
    }
  }

  /** Over a list without repeats, a rule succeeds exactly when every listed
      column that is present converts; then each of them holds its converted
      version. A failure names a listed, present column that fails to
      convert. Listed columns that are absent never cause an error. */
  lemma {:induction false} ApplyColumnwise(rule: Rule, t: Table, names: seq<string>)
    requires Distinct(names)
    ensures var a := Apply(rule, t, names);
            a.error.None? <==> forall n :: n in names && n in t.cols ==> ConvertColumn(rule, n, t.cols[n]).Success?
    ensures var a := Apply(rule, t, names);
            a.error.None? ==> forall n :: n in names && n in t.cols ==> a.table.cols[n] == ConvertColumn(rule, n, t.cols[n]).value
    ensures var a := Apply(rule, t, names);
            a.error.Some? ==> exists n :: n in names && n in t.cols && ConvertColumn(rule, n, t.cols[n]) == Failure(a.error.value)
    decreases |names|
  {
    if names != [] {
      var m := |names| - 1;
      var prefix, last := names[..m], names[m];
      assert names == prefix + [last];
      assert last !in prefix;
      ApplyColumnwise(rule, t, prefix);
      var before := Apply(rule, t, prefix);
      if before.error.None? && last in t.cols {
        assert before.table.cols[last] == t.cols[last];
      }
    }
  }

  /** One more name: the loop's step. */
  lemma ApplyNext(rule: Rule, t: Table, names: seq<string>, i: nat)
    requires i < |names|
    ensures var before := Apply(rule, t, names[..i]);
            Apply(rule, t, names[..i + 1]) == if before.error.Some? then before else Step(rule, before.table, names[i])
  {
    assert names[..i + 1][..i] == names[..i];
  }

  /** A listed column that is present holds its conversion after a run
      that did not fail. */
  lemma ApplyConverts(rule: Rule, t: Table, names: seq<string>, n: string)
    requires Distinct(names) && n in names && n in t.cols
    requires Apply(rule, t, names).error.None?
    ensures ConvertColumn(rule, n, t.cols[n]).Success?
    ensures Apply(rule, t, names).table.cols[n] == ConvertColumn(rule, n, t.cols[n]).value
  {
    ApplyColumnwise(rule, t, names);
  }

  /** Two tables with the same names, rows and columns are the same table. */
  lemma SameTable(a: Table, b: Table)
    requires a.names == b.names && a.rows == b.rows && a.cols.Keys == b.cols.Keys
    requires forall n :: n in a.cols ==> a.cols[n] == b.cols[n]
    ensures a == b
  {
    assert a.cols == b.cols;
  }

  // ---------------------------------------------------------------------
  // Facts about the four lists.

  lemma ListsDistinct()
    ensures Distinct(DateColumns) && Distinct(PercentageColumns)
    ensures Distinct(CurrencyColumns) && Distinct(CategoricalColumns)
  {
  }

  /** No column is claimed by two rules. */
  lemma ListsDisjoint()
    ensures Disjoint(DateColumns, PercentageColumns) && Disjoint(DateColumns, CurrencyColumns)
    ensures Disjoint(DateColumns, CategoricalColumns) && Disjoint(PercentageColumns, CurrencyColumns)
    ensures Disjoint(PercentageColumns, CategoricalColumns) && Disjoint(CurrencyColumns, CategoricalColumns)
  {
  }

  /** The currency list as written has ten entries, one of them the joined
      name, and neither funded-amount column is on it. */
  lemma CurrencyListAsWritten()
    ensures |CurrencyColumns| == 10
    ensures CurrencyColumns[1] == "funded_amountfunded_amount_inv"
    ensures "funded_amount" !in CurrencyColumns && "funded_amount_inv" !in CurrencyColumns
  {
  }

  /** So the currency rule never touches a table's funded-amount columns,
      whatever they hold. */
  lemma FundedAmountsUntouched(t: Table)
    ensures var a := Apply(Currencies, t, CurrencyColumns);
            && ("funded_amount" in t.cols ==> a.table.cols["funded_amount"] == t.cols["funded_amount"])
            && ("funded_amount_inv" in t.cols ==> a.table.cols["funded_amount_inv"] == t.cols["funded_amount_inv"])
  {
    CurrencyListAsWritten();
  }

  /** The corrected list names eleven distinct columns, both funded-amount
      columns among them. */
  lemma IntendedCurrencyList()
    ensures |IntendedCurrencyColumns| == 11 && Distinct(IntendedCurrencyColumns)
    ensures "funded_amount" in IntendedCurrencyColumns && "funded_amount_inv" in IntendedCurrencyColumns
  {
    assert IntendedCurrencyColumns[1] == "funded_amount";
    assert IntendedCurrencyColumns[2] == "funded_amount_inv";
  }

  /** The corrected list claims no column another rule claims. */
  lemma IntendedListDisjoint()
    ensures Disjoint(DateColumns, IntendedCurrencyColumns)
    ensures Disjoint(PercentageColumns, IntendedCurrencyColumns)
    ensures Disjoint(IntendedCurrencyColumns, CategoricalColumns)
  {
  }

  /** With the corrected list (`names`), a run without error converts both
      funded-amount columns when they are present. */
  lemma IntendedListConvertsFundedAmounts(t: Table, names: seq<string>)
    requires names == IntendedCurrencyColumns
    requires Apply(Currencies, t, names).error.None?
    ensures var a := Apply(Currencies, t, names);
            && ("funded_amount" in t.cols ==>
                  && ConvertColumn(Currencies, "funded_amount", t.cols["funded_amount"]).Success?
                  && a.table.cols["funded_amount"] == ConvertColumn(Currencies, "funded_amount", t.cols["funded_amount"]).value)
            && ("funded_amount_inv" in t.cols ==>
                  && ConvertColumn(Currencies, "funded_amount_inv", t.cols["funded_amount_inv"]).Success?
                  && a.table.cols["funded_amount_inv"] == ConvertColumn(Currencies, "funded_amount_inv", t.cols["funded_amount_inv"]).value)
  {
    IntendedCurrencyList();
    ConvertsBoth(Currencies, t, names, "funded_amount", "funded_amount_inv");
  }

  /** Two listed columns, over a list without repeats. */
  lemma ConvertsBoth(rule: Rule, t: Table, names: seq<string>, m: string, n: string)
    requires Distinct(names) && m in names && n in names
    requires Apply(rule, t, names).error.None?
    ensures var a := Apply(rule, t, names);
            && (m in t.cols ==> ConvertColumn(rule, m, t.cols[m]).Success?
                                && a.table.cols[m] == ConvertColumn(rule, m, t.cols[m]).value)
            && (n in t.cols ==> ConvertColumn(rule, n, t.cols[n]).Success?
                                && a.table.cols[n] == ConvertColumn(rule, n, t.cols[n]).value)
  {
    if m in t.cols {
      ApplyConverts(rule, t, names, m);
    }
    if n in t.cols {
      ApplyConverts(rule, t, names, n);
    }
  }

  // ---------------------------------------------------------------------
  // Repeating a rule.

  /** Dates, currencies and categories can be run again on their own output
      without effect, over any list without repeats. */
  lemma ApplyTwice(rule: Rule, t: Table, names: seq<string>)
    requires !rule.Percentages? && Distinct(names)
    requires Apply(rule, t, names).error.None?
    ensures var a := Apply(rule, t, names);
            Apply(rule, a.table, names) == a
  {
    var a := Apply(rule, t, names);
    ApplyColumnwise(rule, t, names);
    forall n | n in names && n in a.table.cols
      ensures ConvertColumn(rule, n, a.table.cols[n]) == Success(a.table.cols[n])
    {
      ConvertColumnTwice(rule, n, t.cols[n]);
    }
    ApplyColumnwise(rule, a.table, names);
    SameTable(Apply(rule, a.table, names).table, a.table);
  }

  /** The same for the three rules with their own lists. */
  lemma RulesIdempotent(t: Table, parse: DateParser)
    ensures Apply(Dates(parse), t, DateColumns).error.None? ==>
              var a := Apply(Dates(parse), t, DateColumns); Apply(Dates(parse), a.table, DateColumns) == a
    ensures Apply(Currencies, t, CurrencyColumns).error.None? ==>
              var a := Apply(Currencies, t, CurrencyColumns); Apply(Currencies, a.table, CurrencyColumns) == a
    ensures var a := Apply(Categorical, t, CategoricalColumns);
            a.error.None? && Apply(Categorical, a.table, CategoricalColumns) == a
  {
    ListsDistinct();
    if Apply(Dates(parse), t, DateColumns).error.None? {
      ApplyTwice(Dates(parse), t, DateColumns);
    }
    if Apply(Currencies, t, CurrencyColumns).error.None? {
      ApplyTwice(Currencies, t, CurrencyColumns);
    }
    forall n | n in t.cols
      ensures ConvertColumn(Categorical, n, t.cols[n]).Success?
    {
      CategoricalColumn(n, t.cols[n]);
    }
    ApplyColumnwise(Categorical, t, CategoricalColumns);
    ApplyTwice(Categorical, t, CategoricalColumns);
  }

  /** Running the percentage rule on its own output fails as soon as one of
      its columns is present. */
  lemma PercentagesTwice(t: Table, names: seq<string>, n: string)
    requires Distinct(names) && n in names && n in t.cols
    requires Apply(Percentages, t, names).error.None?
    ensures Apply(Percentages, Apply(Percentages, t, names).table, names).error.Some?
  {
    var a := Apply(Percentages, t, names);
    ApplyConverts(Percentages, t, names, n);
    PercentagesTwiceFails(n, t.cols[n]);
    ApplyColumnwise(Percentages, a.table, names);
  }

  // ---------------------------------------------------------------------
  // transform_data, as a specification.

  /** A rule with the list it walks. */
  datatype Stage = Stage(rule: Rule, names: seq<string>)

  /** The order transform_data runs the rules in: dates, percentages,
      currencies, categories, each over its own list. */
  function Pipeline(parse: DateParser): (p: seq<Stage>)
    ensures |p| == 4
    ensures p[0].rule == Dates(parse) && p[1].rule == Percentages
    ensures p[2].rule == Currencies && p[3].rule == Categorical
    ensures forall i :: 0 <= i < |p| ==> p[i].names == Columns(p[i].rule)
  {
    [ Stage(Dates(parse), DateColumns),
      Stage(Percentages, PercentageColumns),
      Stage(Currencies, CurrencyColumns),
      Stage(Categorical, CategoricalColumns) ]
  }

  /** Stages one after the other, stopping at the first error. */
  function RunStages(t: Table, stages: seq<Stage>): (a: Applied)
    ensures a.table.names == t.names && a.table.rows == t.rows && a.table.cols.Keys == t.cols.Keys
    decreases |stages|
  {
    if stages == [] then
      Applied(t, None)
    else
      var before := RunStages(t, stages[..|stages| - 1]);
      var last := stages[|stages| - 1];
      if before.error.Some? then before else Apply(last.rule, before.table, last.names)
  }

  /** The next rule, unless an earlier one has already failed. */
  function Then(a: Applied, rule: Rule, names: seq<string>): Applied {
    if a.error.Some? then a else Apply(rule, a.table, names)
  }

  /** Four stages spelled out: each runs on the previous one's table. */
  lemma RunFourStages(t: Table, s: seq<Stage>)
    requires |s| == 4
    ensures RunStages(t, s)
         == Then(Then(Then(Apply(s[0].rule, t, s[0].names), s[1].rule, s[1].names),
                      s[2].rule, s[2].names),
                 s[3].rule, s[3].names)
  {
    assert s[..1][..0] == [];
    assert RunStages(t, s[..1][..0]) == Applied(t, None);
    assert s[..1][0] == s[0];
    var a1 := RunStages(t, s[..1]);
    assert a1 == Apply(s[0].rule, t, s[0].names);
    assert s[..2][..1] == s[..1];
    var a2 := RunStages(t, s[..2]);
    assert a2 == Then(a1, s[1].rule, s[1].names);
    assert s[..3][..2] == s[..2];
    var a3 := RunStages(t, s[..3]);
    assert a3 == Then(a2, s[2].rule, s[2].names);
    assert s[..3] == s[..|s| - 1];
  }

  /** The pipeline spelled out: dates, percentages, currencies, categories. */
  lemma PipelineSteps(t: Table, parse: DateParser)
    ensures RunStages(t, Pipeline(parse))
         == Then(Then(Then(Apply(Dates(parse), t, DateColumns), Percentages, PercentageColumns),
                      Currencies, CurrencyColumns),
                 Categorical, CategoricalColumns)
  {
    RunFourStages(t, Pipeline(parse));
  }

  /** transform_data on a table: the four rules in order. */
  function TransformSpec(t: Table, parse: DateParser): (r: Result<Table, Error>)
    ensures r.Success? ==> r.value.names == t.names && r.value.rows == t.rows && r.value.cols.Keys == t.cols.Keys
  {
    var a := RunStages(t, Pipeline(parse));
    if a.error.Some? then Failure(a.error.value) else Success(a.table)
  }

  /** Each stage's list is without repeats, and no name is on two lists. */
  predicate Separate(stages: seq<Stage>) {
    && (forall i :: 0 <= i < |stages| ==> Distinct(stages[i].names))
    && (forall i, j :: 0 <= i < |stages| && 0 <= j < |stages| && i != j ==> Disjoint(stages[i].names, stages[j].names))
  }

  /** The rule of the stage that lists a name, if any. */
  function Owner(stages: seq<Stage>, name: string): Option<Rule>
    decreases |stages|
  {
    if stages == [] then None
    else if name in stages[|stages| - 1].names then Some(stages[|stages| - 1].rule)
    else Owner(stages[..|stages| - 1], name)
  }

  /** What a column becomes, judged on its own: converted by the rule that
      lists it, or as it was; None where that conversion raises. */
  function Expected(t: Table, stages: seq<Stage>, name: string): Option<Column>
    requires name in t.cols
  {
    match Owner(stages, name)
    case None => Some(t.cols[name])
    case Some(rule) =>
      match ConvertColumn(rule, name, t.cols[name])
      case Success(c) => Some(c)
      case Failure(_) => None
  }

  /** A name no stage of a prefix lists. */
  lemma OwnerOfLast(stages: seq<Stage>, name: string)
    requires Separate(stages) && |stages| > 0 && name in stages[|stages| - 1].names
    ensures Owner(stages[..|stages| - 1], name).None?
  {
    var k := |stages| - 1;
    var i :| 0 <= i < |stages[k].names| && stages[k].names[i] == name;
    OwnerNotListed(stages[..k], name, stages[k].names, i);
  }

  lemma {:induction false} OwnerNotListed(stages: seq<Stage>, name: string, other: seq<string>, i: nat)
    requires i < |other| && other[i] == name
    requires forall j :: 0 <= j < |stages| ==> Disjoint(stages[j].names, other)
    ensures Owner(stages, name).None?
    decreases |stages|
  {
    if stages != [] {
      var k := |stages| - 1;
      assert Disjoint(stages[k].names, other);
      OwnerNotListed(stages[..k], name, other, i);
    }
  }

  /** Separate stages work column by column: the run succeeds exactly when
      every column converts under the rule that lists it, and then each
      column is what it becomes on its own. So the order of the stages does
      not matter. */
  lemma {:induction false} StagesColumnwise(t: Table, stages: seq<Stage>)
    requires Separate(stages)
    ensures RunStages(t, stages).error.None? <==> forall n :: n in t.cols ==> Expected(t, stages, n).Some?
    ensures RunStages(t, stages).error.None? ==>
              forall n :: n in t.cols ==> RunStages(t, stages).table.cols[n] == Expected(t, stages, n).value
    decreases |stages|
  {
    if stages != [] {
      var k := |stages| - 1;
      var prefix, last := stages[..k], stages[k];
      assert Separate(prefix);
      StagesColumnwise(t, prefix);
      var before := RunStages(t, prefix);
      forall n | n in t.cols && n !in last.names
        ensures Expected(t, stages, n) == Expected(t, prefix, n)
      {
      }
      forall n | n in t.cols && n in last.names
        ensures Expected(t, stages, n) == match ConvertColumn(last.rule, n, t.cols[n])
                                          case Success(c) => Some(c) case Failure(_) => None
        ensures Expected(t, prefix, n) == Some(t.cols[n])
      {
        OwnerOfLast(stages, n);
      }
      if before.error.None? {
        assert Distinct(last.names);
        ApplyColumnwise(last.rule, before.table, last.names);
      }
    }
  }

  lemma PipelineSeparate(parse: DateParser)
    ensures Separate(Pipeline(parse))
  {
    ListsDistinct();
    ListsDisjoint();
    var p := Pipeline(parse);
    forall i, j | 0 <= i < |p| && 0 <= j < |p| && i != j
      ensures Disjoint(p[i].names, p[j].names)
    {
      DisjointSymmetric(p[i].names, p[j].names);
    }
  }

  lemma DisjointSymmetric(a: seq<string>, b: seq<string>)
    ensures Disjoint(a, b) <==> Disjoint(b, a)
  {
  }

  /** transform_data works column by column: it succeeds exactly when every
      present column converts under the one rule that lists it, and then
      each column is its own conversion and every unlisted column is as it
      was. */
  lemma TransformColumnwise(t: Table, parse: DateParser)
    ensures TransformSpec(t, parse).Success? <==> forall n :: n in t.cols ==> Expected(t, Pipeline(parse), n).Some?
    ensures TransformSpec(t, parse).Success? ==>
              forall n :: n in t.cols ==> TransformSpec(t, parse).value.cols[n] == Expected(t, Pipeline(parse), n).value
  {
    PipelineSeparate(parse);
    StagesColumnwise(t, Pipeline(parse));
  }

  // ---------------------------------------------------------------------
  // The operations on a mutable frame.

  /** The loop shared by the four rules: for each listed name present in
      the frame, replace that column by its conversion; stop at the first
      conversion that raises, leaving the columns already replaced. */
  method RunRule(df: DataFrame, rule: Rule, names: seq<string>) returns (err: Option<Error>)
    requires df.Valid()
    modifies df
    ensures df.Valid()
    ensures Applied(df.Value(), err) == Apply(rule, old(df.Value()), names)
  {
    ghost var t0 := df.Value();
    err := None;
    var i := 0;
    while i < |names| && err.None?
      invariant 0 <= i <= |names|
      invariant df.Valid()
      invariant Applied(df.Value(), err) == Apply(rule, t0, names[..i])
    {
      ApplyNext(rule, t0, names, i);
      err := RunStep(df, rule, names[i]);
      i := i + 1;
    }
    if i < |names| {
      ApplyStops(rule, t0, names, i);
    } else {
      assert names[..i] == names;
    }
  }

  /** One turn of the loop on the frame itself. */
  method RunStep(df: DataFrame, rule: Rule, name: string) returns (err: Option<Error>)
    requires df.Valid()
    modifies df
    ensures df.Valid()
    ensures Applied(df.Value(), err) == Step(rule, old(df.Value()), name)
  {
    err := None;
    if df.Has(name) {
      var converted := ConvertColumn(rule, name, df.Get(name));
      if converted.Failure? {
        err := Some(converted.error);
      } else {
        df.Set(name, converted.value);
      }
    }
  }

  method ConvertDates(df: DataFrame, parse: DateParser) returns (err: Option<Error>)
    requires df.Valid()
    modifies df
    ensures df.Valid()
    ensures Applied(df.Value(), err) == Apply(Dates(parse), old(df.Value()), DateColumns)
  {
    err := RunRule(df, Dates(parse), DateColumns);
  }

  method ConvertPercentages(df: DataFrame) returns (err: Option<Error>)
    requires df.Valid()
    modifies df
    ensures df.Valid()
    ensures Applied(df.Value(), err) == Apply(Percentages, old(df.Value()), PercentageColumns)
  {
    err := RunRule(df, Percentages, PercentageColumns);
  }

  method ConvertCurrencies(df: DataFrame) returns (err: Option<Error>)
    requires df.Valid()
    modifies df
    ensures df.Valid()
    ensures Applied(df.Value(), err) == Apply(Currencies, old(df.Value()), CurrencyColumns)
  {
    err := RunRule(df, Currencies, CurrencyColumns);
  }

  method ConvertCategorical(df: DataFrame) returns (err: Option<Error>)
    requires df.Valid()
    modifies df
    ensures df.Valid()
    ensures Applied(df.Value(), err) == Apply(Categorical, old(df.Value()), CategoricalColumns)
  {
    err := RunRule(df, Categorical, CategoricalColumns);
  }

  /** `transform_data`: the four rules in order on a fresh copy; the frame
      passed in is not changed, whether the rules succeed or not. */
  method TransformData(df: DataFrame, parse: DateParser) returns (r: Result<DataFrame, Error>)
    requires df.Valid()
    ensures df.Valid() && unchanged(df)
    ensures r.Success? ==> fresh(r.value) && r.value.Valid() && TransformSpec(df.Value(), parse) == Success(r.value.Value())
    ensures r.Failure? ==> TransformSpec(df.Value(), parse) == Failure(r.error)
  {
    PipelineSteps(df.Value(), parse);
    var copy := df.Copy();
    var err := ConvertDates(copy, parse);
    if err.Some? {
      return Failure(err.value);
    }
    err := ConvertPercentages(copy);
    if err.Some? {
      return Failure(err.value);
    }
    err := ConvertCurrencies(copy);
    if err.Some? {
      return Failure(err.value);
    }
    err := ConvertCategorical(copy);
    if err.Some? {
      return Failure(err.value);
    }
    return Success(copy);
  }
}
