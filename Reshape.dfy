/**
 * The wide-to-long reshape of `transform_data`: one record per input row and
 * date column, in row-major order, then sorted by the key.
 */
module Reshape {
  import opened Wrappers
  import opened Schema
  import Text
  import Numbers
  import Months
  import Validation
  import DateHeader
  import Ordering
  import Sequences

  /**
   * `Valor` before rounding: `pd.to_numeric(str(cell).replace(',', '.'),
   * errors='coerce')`, with a value that does not parse (or a missing cell,
   * whose text is `nan`) read as 0.
   */
  function CellValue(c: Cell): real {
    match c
    case Missing => 0.0
    case Present(s) =>
      match Numbers.ParseNumber(Text.ReplaceChar(s, ',', '.'))
      case None => 0.0
      case Some(v) => v
  }

  /** The row has the identifying columns and every one of `cols`. */
  predicate HasFields(row: Row, cols: seq<string>) {
    && "Tipo" in row && "Grupo" in row && "Categoria" in row
    && forall c :: c in cols ==> c in row
  }

  predicate AllHaveFields(rows: seq<Row>, cols: seq<string>) {
    forall i :: 0 <= i < |rows| ==> HasFields(rows[i], cols)
  }

  /**
   * The body of the inner loop for one row and one date column: parse the
   * header, format the date (which fails for an unknown month), read the value,
   * copy `Tipo` and `Grupo`, and strip `Categoria` (which fails when it is missing).
   */
  function RecordFor(row: Row, col: string): Result<Record, TransformError>
    requires HasFields(row, [col])
  {
    RecordOf(row, col, DateHeader.ParseDateColumn(col))
  }

  /** The loop body once the header has been read as `h`: month, then category. */
  function RecordOf(row: Row, col: string, h: Result<DateHeader.HeaderDate, TransformError>): Result<Record, TransformError>
    requires HasFields(row, [col])
    requires h.Success? && h.value.month.Some? ==> h.value.month.value in Months.MonthNames
  {
    match h
    case Failure(e) => Failure(e)
    case Success(hd) =>
      match hd.month
      case None => Failure(UnknownMonth)
      case Some(m) =>
        match row["Categoria"]
        case Missing => Failure(CategoryNotText)
        case Present(cat) => Success(MakeRecord(row, col, hd.year, m, cat))
  }

  /** The outcomes of the loop body for a given header reading. */
  lemma RecordOfCases(row: Row, col: string, h: Result<DateHeader.HeaderDate, TransformError>)
    requires HasFields(row, [col])
    requires h.Success? && h.value.month.Some? ==> h.value.month.value in Months.MonthNames
    ensures RecordOf(row, col, h).Success? <==> h.Success? && h.value.month.Some? && row["Categoria"].Present?
    ensures h.Failure? ==> RecordOf(row, col, h) == Failure(h.error)
    ensures h.Success? && RecordOf(row, col, h).Failure? ==>
      RecordOf(row, col, h).error == UnknownMonth || RecordOf(row, col, h).error == CategoryNotText
    ensures h.Success? && h.value.month.None? ==> RecordOf(row, col, h) == Failure(UnknownMonth)
    ensures h.Success? && h.value.month.Some? && row["Categoria"].Missing? ==>
      RecordOf(row, col, h) == Failure(CategoryNotText)
    ensures RecordOf(row, col, h).Success? ==>
      var r := RecordOf(row, col, h).value;
      && h == Success(DateHeader.HeaderDate(Some(r.mes), r.ano))
      && r == MakeRecord(row, col, r.ano, r.mes, row["Categoria"].text)
  {
    if h.Success? {
      var hd := h.value;
      assert hd == DateHeader.HeaderDate(hd.month, hd.year);
    }
  }

  /** The record appended for a parsed header month and year and a present category. */
  function MakeRecord(row: Row, col: string, year: int, m: nat, cat: string): Record
    requires HasFields(row, [col]) && m in Months.MonthNames
  {
    Record(DateHeader.DateString(year, m), year, m, Months.MonthNames[m],
      row["Tipo"], row["Grupo"], Text.Strip(cat), CellValue(row[col]))
  }

  /** The outcome of the inner loop body for each date column of one row, in header order. */
  function RowResults(row: Row, cols: seq<string>): (r: seq<Result<Record, TransformError>>)
    requires HasFields(row, cols)
    ensures |r| == |cols|
  {
    seq(|cols|, j requires 0 <= j < |cols| => RecordFor(row, cols[j]))
  }

  /** The outcomes for every row (outer loop) and date column (inner loop). */
  function Grid(rows: seq<Row>, cols: seq<string>): (g: seq<seq<Result<Record, TransformError>>>)
    requires AllHaveFields(rows, cols)
    ensures |g| == |rows| && Sequences.Rectangular(g, |cols|)
  {
    seq(|rows|, i requires 0 <= i < |rows| => RowResults(rows[i], cols))
  }

  /** `transformed_data` after the nested loop, or the error that ended it. */
  function Produced(rows: seq<Row>, cols: seq<string>): Result<seq<Record>, TransformError>
    requires AllHaveFields(rows, cols)
  {
    Sequences.Collect(Sequences.Concat(Grid(rows, cols)))
  }

  /**
   * `transformed_data` holds one record per row and date column (`|rows| * |cols|`
   * in all), the record for row `i` and date column `j` at row-major position
   * `Pos(i, j, |cols|)`, which is `i * |cols| + j` by `Sequences.MulIsProduct`.
   */
  lemma ProducedSuccess(rows: seq<Row>, cols: seq<string>)
    requires AllHaveFields(rows, cols)
    ensures Produced(rows, cols).Success? <==>
      forall i, j :: 0 <= i < |rows| && 0 <= j < |cols| ==> RecordFor(rows[i], cols[j]).Success?
    ensures Produced(rows, cols).Success? ==>
      && |Produced(rows, cols).value| == |rows| * |cols|
      && forall i: nat, j: nat :: i < |rows| && j < |cols| ==>
           Sequences.Pos(i, j, |cols|) < |Produced(rows, cols).value| &&
           RecordFor(rows[i], cols[j]) == Success(Produced(rows, cols).value[Sequences.Pos(i, j, |cols|)])
  {
    var g := Grid(rows, cols);
    Sequences.GridSuccess(g, |cols|);
    Sequences.MulIsProduct(|rows|, |cols|);
    forall i, j | 0 <= i < |rows| && 0 <= j < |cols|
      ensures g[i][j] == RecordFor(rows[i], cols[j])
    {
      GridAt(rows, cols, i, j);
    }
  }

  /** Entry `(i, j)` of the grid is the outcome of the loop body for row `i` and date column `j`. */
  lemma GridAt(rows: seq<Row>, cols: seq<string>, i: nat, j: nat)
    requires AllHaveFields(rows, cols) && i < |rows| && j < |cols|
    ensures Grid(rows, cols)[i][j] == RecordFor(rows[i], cols[j])
  {
  }

  /** The records of a successful loop are exactly the records built for some row and date column. */
  lemma ProducedMembers(rows: seq<Row>, cols: seq<string>)
    requires AllHaveFields(rows, cols) && Produced(rows, cols).Success?
    ensures forall r :: r in Produced(rows, cols).value <==>
      exists i, j :: 0 <= i < |rows| && 0 <= j < |cols| && RecordFor(rows[i], cols[j]) == Success(r)
  {
    var g := Grid(rows, cols);
    var vs := Produced(rows, cols).value;
    forall r | r in vs
      ensures exists i, j :: 0 <= i < |rows| && 0 <= j < |cols| && RecordFor(rows[i], cols[j]) == Success(r)
    {
      var i, j := Sequences.GridMemberFrom(g, |cols|, r);
      GridAt(rows, cols, i, j);
    }
    forall r, i, j | 0 <= i < |rows| && 0 <= j < |cols| && RecordFor(rows[i], cols[j]) == Success(r)
      ensures r in vs
    {
      GridAt(rows, cols, i, j);
      Sequences.GridMemberOf(g, |cols|, i, j, r);
    }
  }

  /**
   * A run that fails reports the outcome of the first failing (row, date
   * column) pair in row-major order; every earlier pair produced a record.
   */
  lemma ProducedFailure(rows: seq<Row>, cols: seq<string>)
    requires AllHaveFields(rows, cols) && Produced(rows, cols).Failure?
    ensures exists i, j ::
      && 0 <= i < |rows| && 0 <= j < |cols|
      && RecordFor(rows[i], cols[j]) == Failure(Produced(rows, cols).error)
      && forall i', j' :: 0 <= i' < |rows| && 0 <= j' < |cols| && (i' < i || (i' == i && j' < j)) ==>
           RecordFor(rows[i'], cols[j']).Success?
  {
    var g := Grid(rows, cols);
    var i, j := Sequences.GridFirstFailure(g, |cols|);
    forall i', j' | 0 <= i' < |rows| && 0 <= j' < |cols| && (i' < i || (i' == i && j' < j))
      ensures RecordFor(rows[i'], cols[j']).Success?
    {
      assert g[i'][j'] == RecordFor(rows[i'], cols[j']);
    }
    assert g[i][j] == RecordFor(rows[i], cols[j]);
  }

  /** After a passing input check every row has the identifying columns and the date columns. */
  lemma FieldsPresent(t: Table)
    requires WellFormed(t) && Validation.Validate(t.columns).Success?
    ensures AllHaveFields(t.rows, Validation.DateColumns(t.columns))
  {
    Validation.MissingRequired(t.columns);
  }

  /**
   * `transform_data` without the file I/O: the input check, the reshape, and
   * the sort. A run with no rows builds an empty frame, and sorting it by
   * `Data` raises.
   */
  function Transform(t: Table): Result<seq<Record>, TransformError>
    requires WellFormed(t)
  {
    match Validation.Validate(t.columns)
    case Failure(e) => Failure(e)
    case Success(_) =>
      var cols := Validation.DateColumns(t.columns);
      FieldsPresent(t);
      match Produced(t.rows, cols)
      case Failure(e) => Failure(e)
      case Success(rs) =>
        if |rs| == 0 then Failure(NoRecords) else Success(Ordering.SortRecords(rs))
  }

  /** A cell without a comma is read as written: `str(i)` of an integer is `i`. */
  lemma CellValueInteger(i: int)
    ensures CellValue(Present(Numbers.IntToString(i))) == i as real
  {
    var s := Numbers.IntToString(i);
    var digits := Numbers.NatToString(if i < 0 then -i else i);
    assert s == digits || s == "-" + digits;
    assert Text.ReplaceChar(s, ',', '.') == s;
    Numbers.ParseNumberOfIntToString(i);
  }

  /**
   * A decimal comma is read as a decimal point: `ip,fp` is the digits of `ip`
   * and `fp` scaled down by the number of fraction digits.
   */
  lemma CellValueDecimalComma(ip: string, fp: string)
    requires |ip| > 0 && Numbers.AllDigits(ip) && Numbers.AllDigits(fp)
    ensures Numbers.AllDigits(ip + fp)
    ensures CellValue(Present(ip + "," + fp)) ==
      Numbers.DigitsValue(ip + fp) as real / Numbers.Pow10(|fp|) as real
  {
    assert ',' !in ip && ',' !in fp;
    Text.ReplaceSeparator(ip, fp, ',', '.');
    Numbers.ParseNumberOfDecimal(ip, fp);
  }

  /**
   * Text with two or more separators in all (a thousands separator beside a
   * decimal comma) has two points after the comma is replaced, which
   * `pd.to_numeric` does not accept: the value is 0.
   */
  lemma CellValueSeparators(s: string)
    requires Text.Count(s, ',') + Text.Count(s, '.') >= 2
    ensures CellValue(Present(s)) == 0.0
  {
    var r := Text.ReplaceChar(s, ',', '.');
    Text.ReplaceCharCount(s, ',', '.');
    if Numbers.ParseNumber(r).Some? {
      Numbers.AtMostOnePoint(r);
    }
  }

  /** `1.500,00`, a thousands separator beside a decimal comma, is read as 0. */
  lemma CellValueThousands()
    ensures CellValue(Present("1.500,00")) == 0.0
  {
    var s := "1.500,00";
    assert s == "1" + "." + "500" + "," + "00";
    Text.CountAppend("1" + "." + "500", "," + "00", ',');
    Text.CountAppend("1" + "." + "500", "," + "00", '.');
    assert Text.Count(s, ',') + Text.Count(s, '.') >= 2;
    CellValueSeparators(s);
  }

  /** `1500,50` is read as 1500.5. */
  lemma CellValueCommaExample()
    ensures CellValue(Present("1500,50")) == 1500.5
  {
    var ip, fp := "1500", "50";
    CellValueDecimalComma(ip, fp);
    var d := Numbers.DigitsValue(ip + fp);
    var p := Numbers.Pow10(|fp|);
    assert d == 150050 by {
      assert ip + fp == "150050";
      assert "150050"[..5] == "15005" && "15005"[..4] == "1500" && "1500"[..3] == "150";
      assert "150"[..2] == "15" && "15"[..1] == "1" && "1"[..0] == "";
    }
    assert p == 100;
    CommaExampleValue(d, p);
    assert ip + "," + fp == "1500,50";
  }

  /** The scaling step of `CellValueCommaExample`. */
  lemma CommaExampleValue(d: nat, p: nat)
    requires d == 150050 && p == 100
    ensures d as real / p as real == 1500.5
  {
  }

  /** A record is built exactly when the header parses to a known month and `Categoria` is present. */
  lemma RecordForSuccess(row: Row, col: string)
    requires HasFields(row, [col])
    ensures RecordFor(row, col).Success? <==>
      && DateHeader.ParseDateColumn(col).Success?
      && DateHeader.ParseDateColumn(col).value.month.Some?
      && row["Categoria"].Present?
  {
    RecordOfCases(row, col, DateHeader.ParseDateColumn(col));
  }

  /**
   * The header is checked before the category: a header without exactly one
   * '/' fails with `HeaderShape` whatever the row holds, and no other header does.
   */
  lemma RecordForHeaderShape(row: Row, col: string)
    requires HasFields(row, [col])
    ensures RecordFor(row, col) == Failure(HeaderShape) <==> Text.Count(col, '/') != 1
  {
    DateHeader.ParseDateColumnShape(col);
    RecordOfCases(row, col, DateHeader.ParseDateColumn(col));
  }

  /**
   * The order in which the loop body fails: a header error first; then an
   * unknown month, whatever `Categoria` holds, since the date is formatted
   * before the category is stripped; then a NaN `Categoria`.
   */
  lemma RecordForErrorOrder(row: Row, col: string)
    requires HasFields(row, [col])
    ensures var h := DateHeader.ParseDateColumn(col);
      && (h.Failure? ==> RecordFor(row, col) == Failure(h.error))
      && (h.Success? && h.value.month.None? ==> RecordFor(row, col) == Failure(UnknownMonth))
      && (h.Success? && h.value.month.Some? && row["Categoria"].Missing? ==>
            RecordFor(row, col) == Failure(CategoryNotText))
  {
    RecordOfCases(row, col, DateHeader.ParseDateColumn(col));
  }

  /** A failed loop body raises one of its four errors, never one of the input check's. */
  lemma RecordForErrorKinds(row: Row, col: string)
    requires HasFields(row, [col]) && RecordFor(row, col).Failure?
    ensures var e := RecordFor(row, col).error;
      e.HeaderShape? || e.YearNotInteger? || e.UnknownMonth? || e.CategoryNotText?
  {
    RecordOfCases(row, col, DateHeader.ParseDateColumn(col));
  }

  /**
   * The fields of a record: the date parts come from the header, the date
   * string and month name from the month, `Tipo` and `Grupo` are copied,
   * `Categoria` is stripped and `Valor` is the cell's value.
   */
  lemma RecordForFields(row: Row, col: string)
    requires HasFields(row, [col]) && RecordFor(row, col).Success?
    ensures var r := RecordFor(row, col).value;
      && DateHeader.ParseDateColumn(col) == Success(DateHeader.HeaderDate(Some(r.mes), r.ano))
      && 1 <= r.mes <= 12 && r.mesNome == Months.MonthNames[r.mes]
      && r.data == DateHeader.DateString(r.ano, r.mes)
      && r.tipo == row["Tipo"] && r.grupo == row["Grupo"]
      && row["Categoria"].Present? && r.categoria == Text.Strip(row["Categoria"].text)
      && Text.IsStripped(r.categoria)
      && r.valor == CellValue(row[col])
  {
    RecordOfCases(row, col, DateHeader.ParseDateColumn(col));
  }

  /**
   * A row of the March 2024 column: the record is dated `2024-03-01`, named
   * `Março`, with the category stripped and the value `1500,50` read as 1500.5.
   */
  lemma RecordForExample(row: Row, col: string)
    requires col == "Mar/24" && HasFields(row, [col])
    requires row["Categoria"] == Present(" Vendas ") && row[col] == Present("1500,50")
    ensures RecordFor(row, col).Success?
    ensures var r := RecordFor(row, col).value;
      && r.data == "2024-03-01" && r.ano == 2024 && r.mes == 3 && r.mesNome == "Março"
      && r.tipo == row["Tipo"] && r.grupo == row["Grupo"]
      && r.categoria == "Vendas" && r.valor == 1500.5
  {
    DateHeader.ParseDateColumnExample();
    RecordForSuccess(row, col);
    RecordForFields(row, col);
    var r := RecordFor(row, col).value;
    assert r.mes == 3 && r.ano == 2024;
    Months.MarchExample();
    DateHeader.DateStringExample();
    CellValueCommaExample();
    Text.StripExample();
  }

  /**
   * A successful run returns the records of the reshape sorted by the key
   * `(Data, Tipo, Grupo, Categoria)`: the same records, each as often, one
   * per row and date column, and at least one.
   */
  lemma TransformSuccess(t: Table)
    requires WellFormed(t) && Transform(t).Success?
    ensures Validation.Validate(t.columns).Success?
    ensures AllHaveFields(t.rows, Validation.DateColumns(t.columns))
    ensures var cols := Validation.DateColumns(t.columns);
      && Produced(t.rows, cols).Success?
      && Ordering.Sorted(Transform(t).value)
      && multiset(Transform(t).value) == multiset(Produced(t.rows, cols).value)
      && |Transform(t).value| == |t.rows| * |cols| > 0
  {
    FieldsPresent(t);
    var cols := Validation.DateColumns(t.columns);
    ProducedSuccess(t.rows, cols);
    var rs := Produced(t.rows, cols).value;
    assert |multiset(Transform(t).value)| == |multiset(rs)|;
  }

  /** The loop body never raises `NoRecords`: a run that fails in the loop does not either. */
  lemma ProducedErrorKinds(rows: seq<Row>, cols: seq<string>)
    requires AllHaveFields(rows, cols) && Produced(rows, cols).Failure?
    ensures Produced(rows, cols).error != NoRecords
  {
    ProducedFailure(rows, cols);
    var i, j :| 0 <= i < |rows| && 0 <= j < |cols| && RecordFor(rows[i], cols[j]) == Failure(Produced(rows, cols).error);
    RecordForErrorKinds(rows[i], cols[j]);
  }

  /** With at least one date column, the loop produces no record exactly when there are no rows. */
  lemma ProducedEmpty(rows: seq<Row>, cols: seq<string>)
    requires AllHaveFields(rows, cols) && Produced(rows, cols).Success? && |cols| > 0
    ensures |Produced(rows, cols).value| == 0 <==> |rows| == 0
  {
    ProducedSuccess(rows, cols);
    if |rows| > 0 {
      var zero: nat := 0;
      assert Sequences.Pos(zero, zero, |cols|) < |Produced(rows, cols).value|;
    }
  }

  /** The records of a successful run are exactly the records built for some row and date column. */
  lemma TransformMembers(t: Table)
    requires WellFormed(t) && Transform(t).Success?
    ensures AllHaveFields(t.rows, Validation.DateColumns(t.columns))
    ensures var cols := Validation.DateColumns(t.columns);
      forall r :: r in Transform(t).value <==>
        exists i, j :: 0 <= i < |t.rows| && 0 <= j < |cols| && RecordFor(t.rows[i], cols[j]) == Success(r)
  {
    TransformSuccess(t);
    var cols := Validation.DateColumns(t.columns);
    forall r | r in Transform(t).value
      ensures exists i, j :: 0 <= i < |t.rows| && 0 <= j < |cols| && RecordFor(t.rows[i], cols[j]) == Success(r)
    {
      var i, j := TransformMemberFrom(t, r);
    }
    forall r, i, j | 0 <= i < |t.rows| && 0 <= j < |cols| && RecordFor(t.rows[i], cols[j]) == Success(r)
      ensures r in Transform(t).value
    {
      TransformMemberOf(t, i, j);
    }
  }

  /** `r` carries the `Tipo`, `Grupo` and stripped `Categoria` of `row`. */
  predicate FromRow(r: Record, row: Row) {
    && "Tipo" in row && "Grupo" in row && "Categoria" in row
    && r.tipo == row["Tipo"] && r.grupo == row["Grupo"]
    && row["Categoria"].Present? && r.categoria == Text.Strip(row["Categoria"].text)
  }

  /** A record of a successful run is the record built for some row `i` and date column `j`. */
  lemma TransformMemberFrom(t: Table, r: Record) returns (i: nat, j: nat)
    requires WellFormed(t) && Transform(t).Success? && r in Transform(t).value
    ensures var cols := Validation.DateColumns(t.columns);
      && AllHaveFields(t.rows, cols) && i < |t.rows| && j < |cols|
      && RecordFor(t.rows[i], cols[j]) == Success(r)
  {
    TransformSuccess(t);
    var cols := Validation.DateColumns(t.columns);
    assert r in multiset(Produced(t.rows, cols).value);
    i, j := Sequences.GridMemberFrom(Grid(t.rows, cols), |cols|, r);
    GridAt(t.rows, cols, i, j);
  }

  /** The record built for row `i` and date column `j` of a successful run is one of its records. */
  lemma TransformMemberOf(t: Table, i: nat, j: nat)
    requires WellFormed(t) && Transform(t).Success? && i < |t.rows|
    requires j < |Validation.DateColumns(t.columns)|
    ensures var cols := Validation.DateColumns(t.columns);
      && AllHaveFields(t.rows, cols) && RecordFor(t.rows[i], cols[j]).Success?
      && RecordFor(t.rows[i], cols[j]).value in Transform(t).value
  {
    TransformSuccess(t);
    var cols := Validation.DateColumns(t.columns);
    var g := Grid(t.rows, cols);
    Sequences.GridSuccess(g, |cols|);
    GridAt(t.rows, cols, i, j);
    var r := RecordFor(t.rows[i], cols[j]).value;
    Sequences.GridMemberOf(g, |cols|, i, j, r);
    assert r in multiset(Transform(t).value);
  }

  /** Every record of a successful run comes from an input row, the row `i`. */
  lemma TransformRecordRow(t: Table, r: Record) returns (i: nat)
    requires WellFormed(t) && Transform(t).Success? && r in Transform(t).value
    ensures i < |t.rows| && FromRow(r, t.rows[i])
  {
    var j;
    i, j := TransformMemberFrom(t, r);
    RecordForFields(t.rows[i], Validation.DateColumns(t.columns)[j]);
  }

  /** Every input row of a successful run gives at least one record, `r`. */
  lemma TransformRowRecord(t: Table, i: int) returns (r: Record)
    requires WellFormed(t) && Transform(t).Success? && 0 <= i < |t.rows|
    ensures r in Transform(t).value && FromRow(r, t.rows[i])
  {
    TransformSuccess(t);
    var cols := Validation.DateColumns(t.columns);
    TransformMemberOf(t, i, 0);
    r := RecordFor(t.rows[i], cols[0]).value;
    RecordForFields(t.rows[i], cols[0]);
  }

  /**
   * The input check comes first and its error is the run's; otherwise a run
   * ends with `NoRecords` exactly when the table has no rows.
   */
  lemma TransformErrors(t: Table)
    requires WellFormed(t)
    ensures Validation.Validate(t.columns).Failure? ==>
      Transform(t) == Failure(Validation.Validate(t.columns).error)
    ensures Transform(t) == Failure(NoRecords) <==>
      Validation.Validate(t.columns).Success? && |t.rows| == 0
  {
    if Validation.Validate(t.columns).Success? {
      FieldsPresent(t);
      var cols := Validation.DateColumns(t.columns);
      if Produced(t.rows, cols).Failure? {
        ProducedErrorKinds(t.rows, cols);
      } else {
        ProducedEmpty(t.rows, cols);
      }
    }
  }

  /**
   * A run that fails after the input check, with rows to read, fails with the
   * error of the first failing (row, date column) pair of `ProducedFailure`.
   */
  lemma TransformLoopFailure(t: Table)
    requires WellFormed(t) && Validation.Validate(t.columns).Success? && |t.rows| > 0
    requires Transform(t).Failure?
    ensures AllHaveFields(t.rows, Validation.DateColumns(t.columns))
    ensures var p := Produced(t.rows, Validation.DateColumns(t.columns));
      p.Failure? && p.error == Transform(t).error
  {
    TransformErrors(t);
    FieldsPresent(t);
  }

  /** A record whose `Data` is the date string of its own year and month, with a four-digit year. */
  predicate Dated(r: Record) {
    1000 <= r.ano <= 9999 && 1 <= r.mes <= 12 && r.data == DateHeader.DateString(r.ano, r.mes)
  }

  /**
   * Records sorted by the key and dated by their own four-digit year and month
   * are in chronological order.
   */
  lemma SortedIsChronological(rs: seq<Record>)
    requires Ordering.Sorted(rs) && forall k :: 0 <= k < |rs| ==> Dated(rs[k])
    ensures forall i, j :: 0 <= i < j < |rs| ==>
      rs[i].ano < rs[j].ano || (rs[i].ano == rs[j].ano && rs[i].mes <= rs[j].mes)
  {
    forall i, j | 0 <= i < j < |rs|
      ensures rs[i].ano < rs[j].ano || (rs[i].ano == rs[j].ano && rs[i].mes <= rs[j].mes)
    {
      assert Ordering.KeyLe(rs[i], rs[j]);
      DateHeader.DateStringChronological(rs[j].ano, rs[j].mes, rs[i].ano, rs[i].mes);
    }
  }

  /**
   * When every header year has four digits (as `2000 + int('YY')` does for
   * two-digit years), a run returns its records in chronological order.
   */
  lemma TransformChronological(t: Table)
    requires WellFormed(t) && Transform(t).Success?
    requires forall r :: r in Transform(t).value ==> 1000 <= r.ano <= 9999
    ensures var rs := Transform(t).value;
      forall i, j :: 0 <= i < j < |rs| ==>
        rs[i].ano < rs[j].ano || (rs[i].ano == rs[j].ano && rs[i].mes <= rs[j].mes)
  {
    var rs := Transform(t).value;
    TransformSuccess(t);
    TransformMembers(t);
    var cols := Validation.DateColumns(t.columns);
    forall k | 0 <= k < |rs| ensures Dated(rs[k]) {
      assert rs[k] in rs;
      var i, j :| 0 <= i < |t.rows| && 0 <= j < |cols| && RecordFor(t.rows[i], cols[j]) == Success(rs[k]);
      RecordForFields(t.rows[i], cols[j]);
    }
    SortedIsChronological(rs);
  }

  /**
   * The body of the inner loop, step by step: parse the header, format the
   * date (a `None` month fails here), read the value, and build the record
   * (stripping a missing `Categoria` fails).
   */
  method ReshapeCell(row: Row, dateCol: string) returns (r: Result<Record, TransformError>)
    requires HasFields(row, [dateCol])
    ensures r == RecordFor(row, dateCol)
  {
    var header := DateHeader.ParseDateColumn(dateCol);
    if header.Failure? {
      return Failure(header.error);
    }
    var month, year := header.value.month, header.value.year;
    if month.None? {
      return Failure(UnknownMonth);
    }
    var dateStr := DateHeader.DateString(year, month.value);
    var value := CellValue(row[dateCol]);
    var categoria := row["Categoria"];
    if categoria.Missing? {
      return Failure(CategoryNotText);
    }
    r := Success(Record(
      dateStr, year, month.value, Months.MonthNames[month.value],
      row["Tipo"], row["Grupo"], Text.Strip(categoria.text), value));
  }

  /**
   * The inner loop of `transform_data` for the row at index `i`: append the
   * record for each date column in turn to `transformed`, or stop at the first
   * column whose record cannot be built. `g` is the grid of all outcomes.
   */
  method ReshapeRow(row: Row, dateColumns: seq<string>, transformed: seq<Record>,
                    ghost g: seq<seq<Result<Record, TransformError>>>, ghost i: nat)
    returns (outcome: Result<seq<Record>, TransformError>)
    requires HasFields(row, dateColumns)
    requires i < |g| && g[i] == RowResults(row, dateColumns)
    requires Sequences.Collect(Sequences.Concat(g[..i])) == Success(transformed)
    ensures outcome.Success? ==> Sequences.Collect(Sequences.Concat(g[..i + 1])) == outcome
    ensures outcome.Failure? ==> Sequences.Collect(Sequences.Concat(g)) == outcome
  {
    var records := transformed;
    Sequences.GridRowStart(g, i, records);
    var j := 0;
    while j < |dateColumns|
      invariant 0 <= j <= |dateColumns|
      invariant Sequences.Collect(Sequences.Concat(g[..i]) + g[i][..j]) == Success(records)
    {
      var cell := ReshapeCell(row, dateColumns[j]);
      assert g[i][j] == cell;
      if cell.Failure? {
        Sequences.GridFailure(g, i, j);
        return Failure(cell.error);
      }
      Sequences.GridStep(g, i, j, records, cell.value);
      records := records + [cell.value];
      j := j + 1;
    }
    Sequences.GridRowDone(g, i, records);
    outcome := Success(records);
  }

  /**
   * `transform_data` as the source runs it: check the input, then for each
   * row and each date column build a record and append it, and finally sort.
   * The result is `Transform`.
   */
  method TransformData(t: Table) returns (result: Result<seq<Record>, TransformError>)
    requires WellFormed(t)
    ensures result == Transform(t)
  {
    var check := Validation.Validate(t.columns);
    if check.Failure? {
      return Failure(check.error);
    }
    var dateColumns := Validation.DateColumns(t.columns);
    FieldsPresent(t);
    ghost var g := Grid(t.rows, dateColumns);
    var transformed: seq<Record> := [];
    var i := 0;
    while i < |t.rows|
      invariant 0 <= i <= |t.rows|
      invariant Sequences.Collect(Sequences.Concat(g[..i])) == Success(transformed)
    {
      var step := ReshapeRow(t.rows[i], dateColumns, transformed, g, i);
      if step.Failure? {
        return Failure(step.error);
      }
      transformed := step.value;
      i := i + 1;
    }
    assert g[..i] == g;
    if |transformed| == 0 {
      return Failure(NoRecords);
    }
    result := Success(Ordering.SortRecords(transformed));
  }
}
