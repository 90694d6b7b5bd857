/** The two constant tables that `FinancialDataTransformer.__init__` sets up. */
module Months {
  import opened Wrappers
  import Text

  /** `month_map`: Portuguese month abbreviations to month numbers. */
  const MonthNumbers: map<string, nat> := map[
    "Jan" := 1, "Fev" := 2, "Mar" := 3, "Abr" := 4, "Mai" := 5, "Jun" := 6,
    "Jul" := 7, "Ago" := 8, "Set" := 9, "Out" := 10, "Nov" := 11, "Dez" := 12]

  /** `month_names`: month numbers to Portuguese month names. */
  const MonthNames: map<nat, string> := map[
    1 := "Janeiro", 2 := "Fevereiro", 3 := "Março", 4 := "Abril",
    5 := "Maio", 6 := "Junho", 7 := "Julho", 8 := "Agosto",
    9 := "Setembro", 10 := "Outubro", 11 := "Novembro", 12 := "Dezembro"]

  /** The abbreviations in calendar order, an independent statement of `month_map`. */
  const Abbreviations: seq<string> :=
    ["Jan", "Fev", "Mar", "Abr", "Mai", "Jun", "Jul", "Ago", "Set", "Out", "Nov", "Dez"]

  /**
   * `month_map.get(abbr)`: `None` for an unknown abbreviation, otherwise a
   * month number in 1..12 that `month_names` has a name for.
   */
  function MonthOf(abbr: string): (r: Option<nat>)
    ensures r.Some? ==> 1 <= r.value <= 12 && r.value in MonthNames
    ensures r.None? <==> abbr !in Abbreviations
  {
    if abbr in MonthNumbers then Some(MonthNumbers[abbr]) else None
  }

  /** `month_map` has exactly the twelve abbreviations as keys and maps the k-th one to k. */
  lemma MonthNumbersInOrder()
    ensures forall a :: a in MonthNumbers <==> a in Abbreviations
    ensures forall k :: 0 <= k < 12 ==> MonthNumbers[Abbreviations[k]] == k + 1
  {
    forall a | a in Abbreviations ensures a in MonthNumbers {
      var k :| 0 <= k < 12 && Abbreviations[k] == a;
    }
  }

  /** `month_names` has a name for exactly the month numbers 1..12. */
  lemma MonthNamesComplete()
    ensures forall m: nat :: m in MonthNames <==> 1 <= m <= 12
  {
  }

  /** Every month number is reached by exactly one abbreviation. */
  lemma MonthOfAbbreviation(m: nat)
    requires 1 <= m <= 12
    ensures MonthOf(Abbreviations[m - 1]) == Some(m)
    ensures forall a :: MonthOf(a) == Some(m) ==> a == Abbreviations[m - 1]
  {
    MonthNumbersInOrder();
  }

  /** No abbreviation has whitespace at its edges or holds a '/'. */
  lemma AbbreviationPlain(m: nat)
    requires 1 <= m <= 12
    ensures Text.IsStripped(Abbreviations[m - 1]) && '/' !in Abbreviations[m - 1]
  {
  }

  /** `Mar` is month 3, whose name is `Março`. */
  lemma MarchExample()
    ensures MonthOf("Mar") == Some(3) && MonthNames[3] == "Março"
  {
  }
}
