/** The output-file rule of `main`: `input_file.replace('.csv', '_optimized.csv')`. */
module OutputPath {
  import Text

  /** The path the long table is written to, derived from the input path. */
  function OutputPath(input: string): string {
    Text.ReplaceAll(input, ".csv", "_optimized.csv")
  }

  /** Each `.csv` in the input path grows by the ten characters of `_optimized`. */
  lemma OutputPathLength(input: string)
    ensures |OutputPath(input)| == |input| + 10 * Text.Occurrences(input, ".csv")
  {
    Text.ReplaceAllLength(input, ".csv", "_optimized.csv");
  }

  /** The output path is the input path exactly when the input holds no `.csv`. */
  lemma OutputPathUnchanged(input: string)
    ensures OutputPath(input) == input <==> !Text.Contains(input, ".csv")
  {
    OutputPathLength(input);
    Text.OccurrencesPositive(input, ".csv");
    if !Text.Contains(input, ".csv") {
      Text.ReplaceAllNone(input, ".csv", "_optimized.csv");
    }
  }

  /**
   * The scan replaces the first `.csv` and carries on after it: every `.csv`
   * in the path is replaced, not only a final extension.
   */
  lemma {:induction false} OutputPathSplit(a: string, b: string)
    requires !Text.Contains(a, ".csv")
    ensures OutputPath(a + ".csv" + b) == a + "_optimized.csv" + OutputPath(b)
    decreases |a|
  {
    var s := a + ".csv" + b;
    if |a| == 0 {
      assert s[..4] == ".csv" && s[4..] == b;
    } else {
      assert s[..4] != ".csv" by {
        if |a| >= 4 {
          assert a[0..4] == s[..4];
          assert !Text.OccursAt(a, ".csv", 0);
        } else {
          assert s[..4][|a|] == '.';
        }
      }
      assert s[1..] == a[1..] + ".csv" + b;
      if Text.Contains(a[1..], ".csv") {
        Text.ContainsTail(a, ".csv");
      }
      OutputPathSplit(a[1..], b);
      assert [a[0]] + (a[1..] + "_optimized.csv" + OutputPath(b)) == a + "_optimized.csv" + OutputPath(b);
    }
  }

  /**
   * A path that holds `.csv` only as its extension is written beside it with
   * `_optimized` before the extension.
   */
  lemma OutputPathOfCsvName(base: string)
    requires !Text.Contains(base, ".csv")
    ensures OutputPath(base + ".csv") == base + "_optimized.csv"
  {
    OutputPathSplit(base, "");
    assert base + ".csv" + "" == base + ".csv";
    assert OutputPath("") == "";
  }

  /** A doubled extension is replaced twice: `a.csv.csv` becomes `a_optimized.csv_optimized.csv`. */
  lemma OutputPathDoubleExtension(base: string)
    requires !Text.Contains(base, ".csv")
    ensures OutputPath(base + ".csv.csv") == base + "_optimized.csv_optimized.csv"
  {
    assert base + ".csv.csv" == base + ".csv" + ".csv";
    OutputPathSplit(base, ".csv");
    OutputPathOfExtension();
    assert base + "_optimized.csv" + "_optimized.csv" == base + "_optimized.csv_optimized.csv";
  }

  /** A bare extension `.csv` becomes `_optimized.csv`. */
  lemma OutputPathOfExtension()
    ensures OutputPath(".csv") == "_optimized.csv"
  {
    OutputPathOfCsvName("");
    assert "" + ".csv" == ".csv" && "" + "_optimized.csv" == "_optimized.csv";
  }

  /** `balanco.csv` is written to `balanco_optimized.csv`. */
  lemma OutputPathExample()
    ensures OutputPath("balanco.csv") == "balanco_optimized.csv"
  {
    var base := "balanco";
    forall i | 0 <= i <= |base| ensures !Text.OccursAt(base, ".csv", i) {
      if i + 4 <= |base| {
        assert base[i..i + 4][0] == base[i] != '.';
      }
    }
    OutputPathOfCsvName(base);
    assert base + ".csv" == "balanco.csv";
    assert base + "_optimized.csv" == "balanco_optimized.csv";
  }
}
