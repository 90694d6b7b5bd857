/**
 * Generic facts about the two shapes the reshape loop has: a grid of
 * outcomes read row by row, and a run of steps that stops at the first
 * failure.
 */
module Sequences {
  import opened Wrappers

  /** `i * c`, by repeated addition, so that row-major positions are reasoned about one row at a time. */
  function Mul(i: nat, c: nat): nat {
    if i == 0 then 0 else Mul(i - 1, c) + c
  }

  /** The row-major position of row `i`, column `j` in rows of `c`. */
  function Pos(i: nat, j: nat, c: nat): nat {
    Mul(i, c) + j
  }

  lemma {:induction false} MulIsProduct(i: nat, c: nat)
    ensures Mul(i, c) == i * c
  {
    if i > 0 {
      MulIsProduct(i - 1, c);
    }
  }

  /** Row `i` of a grid with rows of `c` ends no later than row `n` starts, for `i < n`. */
  lemma {:induction false} MulMonotone(i: nat, n: nat, c: nat)
    requires i < n
    ensures Mul(i, c) + c <= Mul(n, c)
  {
    if i + 1 < n {
      MulMonotone(i, n - 1, c);
    }
  }

  /** Row `i`, column `j` comes before row `i'`, column `j'` in row-major order exactly when its position is smaller. */
  lemma {:induction false} RowMajorOrder(i: nat, j: nat, i': nat, j': nat, c: nat)
    requires j < c && j' < c
    ensures Mul(i', c) + j' < Mul(i, c) + j <==> i' < i || (i' == i && j' < j)
  {
    if i' < i {
      MulMonotone(i', i, c);
    } else if i < i' {
      MulMonotone(i, i', c);
    }
  }

  /** Every position inside `n` rows of `c` is at some row and column. */
  lemma {:induction false} RowMajorSplit(k: nat, n: nat, c: nat) returns (i: nat, j: nat)
    requires k < Mul(n, c)
    ensures i < n && j < c && k == Mul(i, c) + j
  {
    if k < Mul(n - 1, c) {
      i, j := RowMajorSplit(k, n - 1, c);
    } else {
      i, j := n - 1, k - Mul(n - 1, c);
    }
  }

  /** The rows of a grid one after another. */
  function Concat<T>(g: seq<seq<T>>): seq<T>
    decreases |g|
  {
    if |g| == 0 then [] else Concat(g[..|g| - 1]) + g[|g| - 1]
  }

  /** All rows of the grid have `c` entries. */
  predicate Rectangular<T>(g: seq<seq<T>>, c: nat) {
    forall r :: 0 <= r < |g| ==> |g[r]| == c
  }

  /** Starting a row: no entry of it has been read yet. */
  lemma GridRowStart<T, E>(g: seq<seq<Result<T, E>>>, i: nat, xs: seq<T>)
    requires i < |g| && Collect(Concat(g[..i])) == Success(xs)
    ensures Collect(Concat(g[..i]) + g[i][..0]) == Success(xs)
  {
    assert Concat(g[..i]) + g[i][..0] == Concat(g[..i]);
  }

  /** Reading one more successful entry of the current row appends its value. */
  lemma GridStep<T, E>(g: seq<seq<Result<T, E>>>, i: nat, j: nat, xs: seq<T>, x: T)
    requires i < |g| && j < |g[i]|
    requires Collect(Concat(g[..i]) + g[i][..j]) == Success(xs) && g[i][j] == Success(x)
    ensures Collect(Concat(g[..i]) + g[i][..j + 1]) == Success(xs + [x])
  {
    var done := Concat(g[..i]) + g[i][..j];
    assert g[i][..j + 1] == g[i][..j] + [g[i][j]];
    assert Concat(g[..i]) + g[i][..j + 1] == done + [Success(x)];
    CollectSnoc(done, x);
  }

  /** Finishing a row: the rows read so far now include it. */
  lemma GridRowDone<T, E>(g: seq<seq<Result<T, E>>>, i: nat, xs: seq<T>)
    requires i < |g| && Collect(Concat(g[..i]) + g[i][..|g[i]|]) == Success(xs)
    ensures Collect(Concat(g[..i + 1])) == Success(xs)
  {
    assert g[..i + 1][..i] == g[..i];
    assert g[i][..|g[i]|] == g[i];
  }

  /** Concatenating two grids concatenates their row-major readings. */
  lemma {:induction false} ConcatAppend<T>(a: seq<seq<T>>, b: seq<seq<T>>)
    ensures Concat(a + b) == Concat(a) + Concat(b)
    decreases |b|
  {
    if |b| == 0 {
      assert a + b == a;
    } else {
      var b' := b[..|b| - 1];
      assert (a + b)[..|a + b| - 1] == a + b';
      ConcatAppend(a, b');
    }
  }

  /** A grid of `n` rows of `c` reads as `n * c` entries, entry `(i, j)` at position `i * c + j`. */
  lemma {:induction false} ConcatAt<T>(g: seq<seq<T>>, c: nat, i: nat, j: nat)
    requires Rectangular(g, c) && i < |g| && j < c
    ensures |Concat(g)| == Mul(|g|, c)
    ensures Mul(i, c) + j < |Concat(g)| && Concat(g)[Mul(i, c) + j] == g[i][j]
    decreases |g|
  {
    var n := |g| - 1;
    var init := g[..n];
    ConcatLength(g, c);
    ConcatLength(init, c);
    if i < n {
      MulMonotone(i, n, c);
      ConcatAt(init, c, i, j);
    }
  }

  lemma {:induction false} ConcatLength<T>(g: seq<seq<T>>, c: nat)
    requires Rectangular(g, c)
    ensures |Concat(g)| == Mul(|g|, c)
    decreases |g|
  {
    if |g| > 0 {
      ConcatLength(g[..|g| - 1], c);
    }
  }

  /**
   * Running a sequence of steps that each succeed with a value or fail: the
   * values of all of them, or the error of the first that fails.
   */
  function Collect<T, E>(rs: seq<Result<T, E>>): (r: Result<seq<T>, E>)
    ensures r.Success? <==> forall k :: 0 <= k < |rs| ==> rs[k].Success?
    ensures r.Success? ==> |r.value| == |rs| && forall k :: 0 <= k < |rs| ==> rs[k] == Success(r.value[k])
    decreases |rs|
  {
    if |rs| == 0 then Success([])
    else
      var init := rs[..|rs| - 1];
      assert forall k :: 0 <= k < |init| ==> init[k] == rs[k];
      match Collect(init)
      case Failure(e) => Failure(e)
      case Success(xs) =>
        match rs[|rs| - 1]
        case Failure(e) => Failure(e)
        case Success(x) => Success(xs + [x])
  }

  /** Once a prefix of the steps fails, later steps do not matter: the first failure is the result. */
  lemma {:induction false} CollectPrefixFailure<T, E>(rs: seq<Result<T, E>>, k: nat)
    requires k <= |rs| && Collect(rs[..k]).Failure?
    ensures Collect(rs) == Collect(rs[..k])
    decreases |rs| - k
  {
    if k < |rs| {
      assert rs[..k + 1][..k] == rs[..k];
      CollectPrefixFailure(rs, k + 1);
    } else {
      assert rs[..k] == rs;
    }
  }

  /** A failed run reports the first failing step, and every earlier step succeeded. */
  lemma {:induction false} CollectFirstFailure<T, E>(rs: seq<Result<T, E>>) returns (k: nat)
    requires Collect(rs).Failure?
    ensures k < |rs| && rs[k] == Failure(Collect(rs).error)
    ensures forall k' :: 0 <= k' < k ==> rs[k'].Success?
    decreases |rs|
  {
    var init := rs[..|rs| - 1];
    assert forall k :: 0 <= k < |init| ==> init[k] == rs[k];
    if Collect(init).Failure? {
      k := CollectFirstFailure(init);
    } else {
      k := |rs| - 1;
    }
  }

  /** The rows before `i` and the first `j` entries of row `i` are a prefix of the row-major reading. */
  lemma ConcatPrefix<T>(g: seq<seq<T>>, i: nat, j: nat)
    requires i < |g| && j <= |g[i]|
    ensures |Concat(g[..i]) + g[i][..j]| <= |Concat(g)|
    ensures Concat(g)[..|Concat(g[..i]) + g[i][..j]|] == Concat(g[..i]) + g[i][..j]
  {
    assert g == g[..i + 1] + g[i + 1..];
    ConcatAppend(g[..i + 1], g[i + 1..]);
    assert g[..i + 1][..i] == g[..i];
    var front, row, rest := Concat(g[..i]), g[i], Concat(g[i + 1..]);
    assert Concat(g) == front + row + rest;
    assert (front + row + rest)[..|front| + j] == front + row[..j];
  }

  /**
   * Reading a grid row by row, a failure at row `i`, column `j` after the
   * earlier entries all succeeded is the failure of the whole run.
   */
  lemma GridFailure<T, E>(g: seq<seq<Result<T, E>>>, i: nat, j: nat)
    requires i < |g| && j < |g[i]|
    requires Collect(Concat(g[..i]) + g[i][..j]).Success? && g[i][j].Failure?
    ensures Collect(Concat(g)) == Failure(g[i][j].error)
  {
    var done := Concat(g[..i]) + g[i][..j];
    var step := Concat(g[..i]) + g[i][..j + 1];
    assert g[i][..j + 1] == g[i][..j] + [g[i][j]];
    assert step == done + [g[i][j]];
    assert step[..|done|] == done;
    ConcatPrefix(g, i, j + 1);
    CollectPrefixFailure(Concat(g), |step|);
  }

  /** `vs` holds the value of entry `(i, j)` of `g` at position `Mul(i, c) + j`. */
  ghost predicate RowMajorValues<T, E>(g: seq<seq<Result<T, E>>>, c: nat, vs: seq<T>) {
    && Rectangular(g, c)
    && forall i: nat, j: nat :: i < |g| && j < c ==> Pos(i, j, c) < |vs| && g[i][j] == Success(vs[Pos(i, j, c)])
  }

  /**
   * A grid read row by row succeeds exactly when every entry does, and then
   * holds the value of entry `(i, j)` at position `Mul(i, c) + j`.
   */
  lemma GridSuccess<T, E>(g: seq<seq<Result<T, E>>>, c: nat)
    requires Rectangular(g, c)
    ensures Collect(Concat(g)).Success? <==> forall i, j :: 0 <= i < |g| && 0 <= j < c ==> g[i][j].Success?
    ensures Collect(Concat(g)).Success? ==>
      |Collect(Concat(g)).value| == Mul(|g|, c) && RowMajorValues(g, c, Collect(Concat(g)).value)
  {
    var rs := Concat(g);
    var r := Collect(rs);
    ConcatLength(g, c);
    if r.Success? {
      forall i: nat, j: nat | i < |g| && j < c
        ensures Pos(i, j, c) < |r.value| && g[i][j] == Success(r.value[Pos(i, j, c)])
      {
        ConcatAt(g, c, i, j);
      }
    } else {
      var k :| 0 <= k < |rs| && !rs[k].Success?;
      var i, j := RowMajorSplit(k, |g|, c);
      ConcatAt(g, c, i, j);
    }
  }

  /**
   * A grid read row by row that fails reports entry `(i, j)`, and every entry
   * before it in row-major order succeeded.
   */
  lemma GridFirstFailure<T, E>(g: seq<seq<Result<T, E>>>, c: nat) returns (i: nat, j: nat)
    requires Rectangular(g, c) && Collect(Concat(g)).Failure?
    ensures i < |g| && j < c && g[i][j] == Failure(Collect(Concat(g)).error)
    ensures forall i', j' :: 0 <= i' < |g| && 0 <= j' < c && (i' < i || (i' == i && j' < j)) ==> g[i'][j'].Success?
  {
    var rs := Concat(g);
    var k := CollectFirstFailure(rs);
    ConcatLength(g, c);
    i, j := RowMajorSplit(k, |g|, c);
    ConcatAt(g, c, i, j);
    forall i', j' | 0 <= i' < |g| && 0 <= j' < c && (i' < i || (i' == i && j' < j))
      ensures g[i'][j'].Success?
    {
      RowMajorOrder(i, j, i', j', c);
      ConcatAt(g, c, i', j');
    }
  }

  /** Each value of a grid read row by row is the value of one of its entries. */
  lemma GridMemberFrom<T, E>(g: seq<seq<Result<T, E>>>, c: nat, x: T) returns (i: nat, j: nat)
    requires Rectangular(g, c) && Collect(Concat(g)).Success? && x in Collect(Concat(g)).value
    ensures i < |g| && j < c && g[i][j] == Success(x)
  {
    var rs := Concat(g);
    var vs := Collect(rs).value;
    var k :| 0 <= k < |vs| && vs[k] == x;
    ConcatLength(g, c);
    i, j := RowMajorSplit(k, |g|, c);
    ConcatAt(g, c, i, j);
    assert rs[k] == Success(vs[k]);
  }

  /** The value of each successful entry is among the values of the grid read row by row. */
  lemma GridMemberOf<T, E>(g: seq<seq<Result<T, E>>>, c: nat, i: nat, j: nat, x: T)
    requires Rectangular(g, c) && Collect(Concat(g)).Success?
    requires i < |g| && j < c && g[i][j] == Success(x)
    ensures x in Collect(Concat(g)).value
  {
    var rs := Concat(g);
    var vs := Collect(rs).value;
    ConcatAt(g, c, i, j);
    var k := Mul(i, c) + j;
    assert rs[k] == Success(vs[k]);
  }

  /** Adding one more successful step appends its value. */
  lemma CollectSnoc<T, E>(rs: seq<Result<T, E>>, x: T)
    requires Collect(rs).Success?
    ensures Collect(rs + [Success(x)]) == Success(Collect(rs).value + [x])
  {
    assert (rs + [Success(x)])[..|rs|] == rs;
  }
}
