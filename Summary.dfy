/**
 * `generate_summary_stats` over the long table: the date range, the number of
 * records, and the number of distinct groups and categories.
 */
module Summary {
  import opened Wrappers
  import opened Schema
  import Text
  import Ordering
  import Validation
  import Reshape

  /**
   * The summary dictionary without `total_income` and `total_expenses`.
   * `None` stands for the NaN that `min()` and `max()` give on an empty column.
   */
  datatype Stats = Stats(
    start: Option<string>,
    end: Option<string>,
    totalEntries: nat,
    uniqueGroups: nat,
    uniqueCategories: nat)

  /** `df['Data'].min()`: the date of some record, `None` when there is none. */
  function MinData(rs: seq<Record>): (r: Option<string>)
    ensures r.None? <==> |rs| == 0
    ensures r.Some? ==> exists k :: 0 <= k < |rs| && rs[k].data == r.value
    decreases |rs|
  {
    if |rs| == 0 then None
    else
      match MinData(rs[1..])
      case None => Some(rs[0].data)
      case Some(m) =>
        assert exists k :: 0 <= k < |rs| && rs[k].data == m by {
          var k :| 0 <= k < |rs[1..]| && rs[1..][k].data == m;
          assert rs[k + 1].data == m;
        }
        if Text.StrLt(rs[0].data, m) then Some(rs[0].data) else Some(m)
  }

  /** `df['Data'].max()`: the date of some record, `None` when there is none. */
  function MaxData(rs: seq<Record>): (r: Option<string>)
    ensures r.None? <==> |rs| == 0
    ensures r.Some? ==> exists k :: 0 <= k < |rs| && rs[k].data == r.value
    decreases |rs|
  {
    if |rs| == 0 then None
    else
      match MaxData(rs[1..])
      case None => Some(rs[0].data)
      case Some(m) =>
        assert exists k :: 0 <= k < |rs| && rs[k].data == m by {
          var k :| 0 <= k < |rs[1..]| && rs[1..][k].data == m;
          assert rs[k + 1].data == m;
        }
        if Text.StrLt(m, rs[0].data) then Some(rs[0].data) else Some(m)
  }

  /** No record is dated before the minimum. */
  lemma {:induction false} MinDataLeast(rs: seq<Record>)
    requires |rs| > 0
    ensures forall k :: 0 <= k < |rs| ==> !Text.StrLt(rs[k].data, MinData(rs).value)
    decreases |rs|
  {
    var m := MinData(rs).value;
    Text.StrLtIrreflexive(m);
    if |rs| > 1 {
      var tail := rs[1..];
      MinDataLeast(tail);
      var mt := MinData(tail).value;
      forall k | 1 <= k < |rs| ensures !Text.StrLt(rs[k].data, m) {
        assert rs[k] == tail[k - 1];
        if Text.StrLt(rs[k].data, m) {
          if m == rs[0].data {
            Text.StrLtTransitive(rs[k].data, m, mt);
          }
        }
      }
      if m == mt {
        Text.StrLtTrichotomy(rs[0].data, mt);
      }
    }
  }

  /** No record is dated after the maximum. */
  lemma {:induction false} MaxDataGreatest(rs: seq<Record>)
    requires |rs| > 0
    ensures forall k :: 0 <= k < |rs| ==> !Text.StrLt(MaxData(rs).value, rs[k].data)
    decreases |rs|
  {
    var m := MaxData(rs).value;
    Text.StrLtIrreflexive(m);
    if |rs| > 1 {
      var tail := rs[1..];
      MaxDataGreatest(tail);
      var mt := MaxData(tail).value;
      forall k | 1 <= k < |rs| ensures !Text.StrLt(m, rs[k].data) {
        assert rs[k] == tail[k - 1];
        if Text.StrLt(m, rs[k].data) {
          if m == rs[0].data {
            Text.StrLtTransitive(mt, m, rs[k].data);
          }
        }
      }
      if m == mt {
        Text.StrLtTrichotomy(rs[0].data, mt);
      }
    }
  }

  /** The values `df['Grupo'].nunique()` counts: the distinct present groups (NaN is not counted). */
  function GroupSet(rs: seq<Record>): (r: set<string>)
    ensures forall g :: g in r <==> exists k :: 0 <= k < |rs| && rs[k].grupo == Present(g)
    ensures |r| <= |rs|
    decreases |rs|
  {
    if |rs| == 0 then {}
    else
      var init := rs[..|rs| - 1];
      var last := rs[|rs| - 1];
      assert forall k :: 0 <= k < |init| ==> init[k] == rs[k];
      GroupSet(init) + (if last.grupo.Present? then {last.grupo.text} else {})
  }

  /** The values `df['Categoria'].nunique()` counts: the distinct categories. */
  function CategorySet(rs: seq<Record>): (r: set<string>)
    ensures forall c :: c in r <==> exists k :: 0 <= k < |rs| && rs[k].categoria == c
    ensures |r| <= |rs|
    decreases |rs|
  {
    if |rs| == 0 then {}
    else
      var init := rs[..|rs| - 1];
      var last := rs[|rs| - 1];
      assert forall k :: 0 <= k < |init| ==> init[k] == rs[k];
      CategorySet(init) + {last.categoria}
  }

  /** `generate_summary_stats` without the income and expense sums. */
  function Summarize(rs: seq<Record>): (s: Stats)
    ensures s.totalEntries == |rs|
    ensures s.uniqueGroups <= s.totalEntries && s.uniqueCategories <= s.totalEntries
    ensures s.start.Some? <==> |rs| > 0
  {
    Stats(MinData(rs), MaxData(rs), |rs|, |GroupSet(rs)|, |CategorySet(rs)|)
  }

  /** On records sorted by the key, the date range runs from the first record's date to the last's. */
  lemma SortedDateRange(rs: seq<Record>)
    requires Ordering.Sorted(rs) && |rs| > 0
    ensures MinData(rs) == Some(rs[0].data)
    ensures MaxData(rs) == Some(rs[|rs| - 1].data)
  {
    MinDataLeast(rs);
    MaxDataGreatest(rs);
    var lo := MinData(rs).value;
    var hi := MaxData(rs).value;
    var i :| 0 <= i < |rs| && rs[i].data == lo;
    var j :| 0 <= j < |rs| && rs[j].data == hi;
    if i > 0 {
      assert Ordering.KeyLe(rs[0], rs[i]);
    }
    if j < |rs| - 1 {
      assert Ordering.KeyLe(rs[j], rs[|rs| - 1]);
    }
    Text.StrLtTrichotomy(lo, rs[0].data);
    Text.StrLtTrichotomy(hi, rs[|rs| - 1].data);
  }

  /** The distinct present `Grupo` values of the input rows. */
  function RowGroups(rows: seq<Row>): set<string> {
    set i | 0 <= i < |rows| && "Grupo" in rows[i] && rows[i]["Grupo"].Present? :: rows[i]["Grupo"].text
  }

  /** The distinct stripped `Categoria` values of the input rows. */
  function RowCategories(rows: seq<Row>): set<string> {
    set i | 0 <= i < |rows| && "Categoria" in rows[i] && rows[i]["Categoria"].Present? ::
      Text.Strip(rows[i]["Categoria"].text)
  }

  /**
   * The summary of a successful run: one entry per row and date column, the
   * date range from the first sorted record to the last, and as many groups
   * and categories as the input rows have distinct ones.
   */
  lemma TransformSummary(t: Table)
    requires WellFormed(t) && Reshape.Transform(t).Success?
    ensures var rs := Reshape.Transform(t).value;
      var s := Summarize(rs);
      && s.totalEntries == |t.rows| * |Validation.DateColumns(t.columns)|
      && s.start == Some(rs[0].data) && s.end == Some(rs[|rs| - 1].data)
      && s.uniqueGroups == |RowGroups(t.rows)|
      && s.uniqueCategories == |RowCategories(t.rows)|
  {
    var rs := Reshape.Transform(t).value;
    Reshape.TransformSuccess(t);
    SortedDateRange(rs);
    TransformUniqueSets(t);
  }

  /** The groups and categories of a run's records are those of the input rows. */
  lemma TransformUniqueSets(t: Table)
    requires WellFormed(t) && Reshape.Transform(t).Success?
    ensures GroupSet(Reshape.Transform(t).value) == RowGroups(t.rows)
    ensures CategorySet(Reshape.Transform(t).value) == RowCategories(t.rows)
  {
    GroupsFromRows(t);
    GroupsOfRows(t);
    CategoriesFromRows(t);
    CategoriesOfRows(t);
  }

  /** Each group of a run's records is the group of an input row. */
  lemma GroupsFromRows(t: Table)
    requires WellFormed(t) && Reshape.Transform(t).Success?
    ensures GroupSet(Reshape.Transform(t).value) <= RowGroups(t.rows)
  {
    var rs := Reshape.Transform(t).value;
    forall g | g in GroupSet(rs) ensures g in RowGroups(t.rows) {
      var k :| 0 <= k < |rs| && rs[k].grupo == Present(g);
      var i := Reshape.TransformRecordRow(t, rs[k]);
      assert t.rows[i]["Grupo"] == Present(g);
    }
  }

  /** Each present group of an input row is the group of one of the run's records. */
  lemma GroupsOfRows(t: Table)
    requires WellFormed(t) && Reshape.Transform(t).Success?
    ensures RowGroups(t.rows) <= GroupSet(Reshape.Transform(t).value)
  {
    forall g | g in RowGroups(t.rows) ensures g in GroupSet(Reshape.Transform(t).value) {
      var i :| 0 <= i < |t.rows| && "Grupo" in t.rows[i] && t.rows[i]["Grupo"] == Present(g);
      RowInSets(t, i);
    }
  }

  /** The group and category of input row `i` are among those of the run's records. */
  lemma RowInSets(t: Table, i: int)
    requires WellFormed(t) && Reshape.Transform(t).Success? && 0 <= i < |t.rows|
    ensures var row, rs := t.rows[i], Reshape.Transform(t).value;
      && "Grupo" in row && "Categoria" in row && row["Categoria"].Present?
      && (row["Grupo"].Present? ==> row["Grupo"].text in GroupSet(rs))
      && Text.Strip(row["Categoria"].text) in CategorySet(rs)
  {
    var rs := Reshape.Transform(t).value;
    var r := Reshape.TransformRowRecord(t, i);
    var k :| 0 <= k < |rs| && rs[k] == r;
  }

  /** Each category of a run's records is the stripped category of an input row. */
  lemma CategoriesFromRows(t: Table)
    requires WellFormed(t) && Reshape.Transform(t).Success?
    ensures CategorySet(Reshape.Transform(t).value) <= RowCategories(t.rows)
  {
    var rs := Reshape.Transform(t).value;
    forall c | c in CategorySet(rs) ensures c in RowCategories(t.rows) {
      var k :| 0 <= k < |rs| && rs[k].categoria == c;
      var i := Reshape.TransformRecordRow(t, rs[k]);
      assert Text.Strip(t.rows[i]["Categoria"].text) == c;
    }
  }

  /** Each stripped category of an input row is the category of one of the run's records. */
  lemma CategoriesOfRows(t: Table)
    requires WellFormed(t) && Reshape.Transform(t).Success?
    ensures RowCategories(t.rows) <= CategorySet(Reshape.Transform(t).value)
  {
    forall c | c in RowCategories(t.rows) ensures c in CategorySet(Reshape.Transform(t).value) {
      var i :| 0 <= i < |t.rows| && "Categoria" in t.rows[i] && t.rows[i]["Categoria"].Present?
        && Text.Strip(t.rows[i]["Categoria"].text) == c;
      RowInSets(t, i);
    }
  }
}
