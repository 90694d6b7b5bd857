/** `_validate_input_data` and the selection of date columns. */
module Validation {
  import opened Wrappers
  import opened Schema

  /** The identifying columns, in the order the check lists them. */
  const RequiredColumns: seq<string> := ["Tipo", "Grupo", "Categoria"]

  /** `[col for col in required if col not in columns]`, in the order of `required`. */
  function MissingFrom(required: seq<string>, columns: seq<string>): seq<string>
    decreases |required|
  {
    if |required| == 0 then []
    else (if required[0] in columns then [] else [required[0]]) + MissingFrom(required[1..], columns)
  }

  /** A name is reported missing exactly when it is required and absent from the header. */
  lemma {:induction false} MissingFromMembers(required: seq<string>, columns: seq<string>)
    ensures forall c :: c in MissingFrom(required, columns) <==> c in required && c !in columns
    decreases |required|
  {
    if |required| > 0 {
      MissingFromMembers(required[1..], columns);
      assert required == [required[0]] + required[1..];
    }
  }

  /** The test a header must pass to be a date column: it holds a '/' and is not `Total`. */
  predicate IsDateColumn(c: string) {
    '/' in c && c != "Total"
  }

  /** `[col for col in columns if '/' in col and col != 'Total']`. */
  function DateColumns(columns: seq<string>): (r: seq<string>)
    ensures forall c :: c in r <==> c in columns && IsDateColumn(c)
    ensures |r| <= |columns|
    decreases |columns|
  {
    if |columns| == 0 then []
    else
      var last := columns[|columns| - 1];
      DateColumns(columns[..|columns| - 1]) + (if IsDateColumn(last) then [last] else [])
  }

  /** Date columns keep the header's order: selecting from a concatenation concatenates the selections. */
  lemma {:induction false} DateColumnsAppend(a: seq<string>, b: seq<string>)
    ensures DateColumns(a + b) == DateColumns(a) + DateColumns(b)
    decreases |b|
  {
    if |b| == 0 {
      assert a + b == a;
    } else {
      var b' := b[..|b| - 1];
      assert (a + b)[..|a + b| - 1] == a + b';
      assert (a + b)[|a + b| - 1] == b[|b| - 1];
      DateColumnsAppend(a, b');
    }
  }

  /**
   * `_validate_input_data`: `Success(true)` when the check passes; otherwise
   * the error it raises. Missing identifying columns are reported first.
   */
  function Validate(columns: seq<string>): Result<bool, TransformError> {
    var missing := MissingFrom(RequiredColumns, columns);
    if |missing| > 0 then Failure(MissingColumns(missing))
    else if |DateColumns(columns)| == 0 then Failure(NoDateColumns)
    else Success(true)
  }

  /** One step of `MissingFrom`: the first required name, then the rest. */
  lemma MissingCons(x: string, rest: seq<string>, columns: seq<string>)
    ensures MissingFrom([x] + rest, columns) ==
      (if x in columns then [] else [x]) + MissingFrom(rest, columns)
  {
    assert ([x] + rest)[1..] == rest;
  }

  /** The missing identifying columns, written out for the three of them. */
  lemma MissingRequired(columns: seq<string>)
    ensures MissingFrom(RequiredColumns, columns) ==
      (if "Tipo" in columns then [] else ["Tipo"]) +
      (if "Grupo" in columns then [] else ["Grupo"]) +
      (if "Categoria" in columns then [] else ["Categoria"])
  {
    var t: seq<string> := if "Tipo" in columns then [] else ["Tipo"];
    var g: seq<string> := if "Grupo" in columns then [] else ["Grupo"];
    var c: seq<string> := if "Categoria" in columns then [] else ["Categoria"];
    assert RequiredColumns == ["Tipo"] + (["Grupo"] + (["Categoria"] + []));
    MissingCons("Tipo", ["Grupo"] + (["Categoria"] + []), columns);
    MissingCons("Grupo", ["Categoria"] + [], columns);
    MissingCons("Categoria", [], columns);
    assert MissingFrom([], columns) == [];
    assert c + [] == c;
    assert t + (g + c) == t + g + c;
  }

  /**
   * The check fails for missing columns exactly when one of `Tipo`, `Grupo`,
   * `Categoria` is absent, and the error lists every absent one in that order.
   */
  lemma ValidateMissing(columns: seq<string>)
    ensures Validate(columns).Failure? && Validate(columns).error.MissingColumns?
        <==> !("Tipo" in columns && "Grupo" in columns && "Categoria" in columns)
    ensures Validate(columns).Failure? && Validate(columns).error.MissingColumns? ==>
      Validate(columns).error.names ==
        (if "Tipo" in columns then [] else ["Tipo"]) +
        (if "Grupo" in columns then [] else ["Grupo"]) +
        (if "Categoria" in columns then [] else ["Categoria"])
  {
    MissingRequired(columns);
  }

  /**
   * With the identifying columns present, the check fails exactly when no
   * header is a date column, and otherwise passes.
   */
  lemma ValidateDates(columns: seq<string>)
    requires "Tipo" in columns && "Grupo" in columns && "Categoria" in columns
    ensures Validate(columns) ==
      if exists c :: c in columns && IsDateColumn(c) then Success(true) else Failure(NoDateColumns)
  {
    MissingRequired(columns);
    var d := DateColumns(columns);
    if |d| > 0 {
      assert d[0] in columns && IsDateColumn(d[0]);
    }
    if exists c :: c in columns && IsDateColumn(c) {
      var c :| c in columns && IsDateColumn(c);
      assert c in d;
    }
  }
}
