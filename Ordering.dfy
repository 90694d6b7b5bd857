/**
 * The order `sort_values(['Data', 'Tipo', 'Grupo', 'Categoria'])` puts the
 * long table in: lexicographic on the four key columns, text compared as
 * Python compares `str`, and a missing cell after every present one.
 */
module Ordering {
  import opened Schema
  import Text

  /** Order on one key cell: text by code points, and `NaN` last. */
  predicate CellLt(a: Cell, b: Cell) {
    match (a, b)
    case (Present(x), Present(y)) => Text.StrLt(x, y)
    case (Present(_), Missing) => true
    case _ => false
  }

  /** Strict order on the sort key `(Data, Tipo, Grupo, Categoria)`. */
  predicate KeyLt(a: Record, b: Record) {
    || Text.StrLt(a.data, b.data)
    || (a.data == b.data && CellLt(a.tipo, b.tipo))
    || (a.data == b.data && a.tipo == b.tipo && CellLt(a.grupo, b.grupo))
    || (a.data == b.data && a.tipo == b.tipo && a.grupo == b.grupo && Text.StrLt(a.categoria, b.categoria))
  }

  /** Two records whose four key columns agree. */
  predicate SameKey(a: Record, b: Record) {
    a.data == b.data && a.tipo == b.tipo && a.grupo == b.grupo && a.categoria == b.categoria
  }

  /** `a` may come before `b`: `b` is not strictly smaller. */
  predicate KeyLe(a: Record, b: Record) {
    !KeyLt(b, a)
  }

  /** Sorted by the key: no record is followed by one with a strictly smaller key. */
  predicate Sorted(s: seq<Record>) {
    forall i, j :: 0 <= i < j < |s| ==> KeyLe(s[i], s[j])
  }

  lemma CellLtIrreflexive(a: Cell)
    ensures !CellLt(a, a)
  {
    if a.Present? {
      Text.StrLtIrreflexive(a.text);
    }
  }

  lemma CellLtTransitive(a: Cell, b: Cell, c: Cell)
    requires CellLt(a, b) && CellLt(b, c)
    ensures CellLt(a, c)
  {
    if c.Present? {
      Text.StrLtTransitive(a.text, b.text, c.text);
    }
  }

  lemma CellLtTrichotomy(a: Cell, b: Cell)
    ensures a == b || CellLt(a, b) || CellLt(b, a)
  {
    if a.Present? && b.Present? {
      Text.StrLtTrichotomy(a.text, b.text);
    }
  }

  /** No key is strictly below itself. */
  lemma KeyLtIrreflexive(a: Record)
    ensures !KeyLt(a, a)
  {
    Text.StrLtIrreflexive(a.data);
    CellLtIrreflexive(a.tipo);
    CellLtIrreflexive(a.grupo);
    Text.StrLtIrreflexive(a.categoria);
  }

  /** The key order is transitive. */
  lemma KeyLtTransitive(a: Record, b: Record, c: Record)
    requires KeyLt(a, b) && KeyLt(b, c)
    ensures KeyLt(a, c)
  {
    if Text.StrLt(a.data, b.data) && Text.StrLt(b.data, c.data) {
      Text.StrLtTransitive(a.data, b.data, c.data);
    } else if a.data == b.data && b.data == c.data {
      if CellLt(a.tipo, b.tipo) && CellLt(b.tipo, c.tipo) {
        CellLtTransitive(a.tipo, b.tipo, c.tipo);
      } else if a.tipo == b.tipo && b.tipo == c.tipo {
        if CellLt(a.grupo, b.grupo) && CellLt(b.grupo, c.grupo) {
          CellLtTransitive(a.grupo, b.grupo, c.grupo);
        } else if a.grupo == b.grupo && b.grupo == c.grupo {
          Text.StrLtTransitive(a.categoria, b.categoria, c.categoria);
        }
      }
    }
  }

  /** Any two keys are equal or ordered one way. */
  lemma KeyLtTotal(a: Record, b: Record)
    ensures SameKey(a, b) || KeyLt(a, b) || KeyLt(b, a)
  {
    Text.StrLtTrichotomy(a.data, b.data);
    CellLtTrichotomy(a.tipo, b.tipo);
    CellLtTrichotomy(a.grupo, b.grupo);
    Text.StrLtTrichotomy(a.categoria, b.categoria);
  }

  /** `KeyLe` chains: it is a total preorder. */
  lemma KeyLeTransitive(a: Record, b: Record, c: Record)
    requires KeyLe(a, b) && KeyLe(b, c)
    ensures KeyLe(a, c)
  {
    if KeyLt(c, a) {
      KeyLtTotal(a, b);
      if KeyLt(a, b) {
        KeyLtTransitive(c, a, b);
      }
    }
  }

  /** A strictly smaller key is not also strictly larger. */
  lemma KeyLtAsymmetric(a: Record, b: Record)
    requires KeyLt(a, b)
    ensures !KeyLt(b, a)
  {
    if KeyLt(b, a) {
      KeyLtTransitive(a, b, a);
      KeyLtIrreflexive(a);
    }
  }

  /** A record that may precede the head of a sorted sequence may precede all of it. */
  lemma {:induction false} SortedCons(x: Record, s: seq<Record>)
    requires Sorted(s) && (|s| == 0 || KeyLe(x, s[0]))
    ensures Sorted([x] + s)
  {
    forall j | 0 < j < |s| ensures KeyLe(x, s[j]) {
      KeyLeTransitive(x, s[0], s[j]);
    }
  }

  /** The head of a sorted sequence may precede the rest of it inserted with a larger record. */
  lemma {:induction false} InsertStep(x: Record, s: seq<Record>, t: seq<Record>)
    requires Sorted(s) && |s| > 0 && KeyLt(s[0], x)
    requires Sorted(t) && multiset(t) == multiset(s[1..]) + multiset{x}
    ensures Sorted([s[0]] + t) && multiset([s[0]] + t) == multiset(s) + multiset{x}
  {
    KeyLtAsymmetric(s[0], x);
    forall j | 0 <= j < |t| ensures KeyLe(s[0], t[j]) {
      assert t[j] in multiset(t);
      if t[j] != x {
        assert t[j] in multiset(s[1..]);
        var k :| 0 <= k < |s[1..]| && s[1..][k] == t[j];
        assert s[k + 1] == t[j];
      }
    }
    assert s == [s[0]] + s[1..];
  }

  /** Inserting `x` into a sorted sequence in front of the first record it does not follow. */
  function Insert(x: Record, s: seq<Record>): (r: seq<Record>)
    requires Sorted(s)
    ensures Sorted(r) && multiset(r) == multiset(s) + multiset{x}
    decreases |s|
  {
    if |s| == 0 || KeyLe(x, s[0]) then
      SortedCons(x, s);
      [x] + s
    else
      var t := Insert(x, s[1..]);
      InsertStep(x, s, t);
      [s[0]] + t
  }

  /** The sorted permutation `sort_values` returns, built by insertion. */
  function SortRecords(s: seq<Record>): (r: seq<Record>)
    ensures Sorted(r) && multiset(r) == multiset(s)
    decreases |s|
  {
    if |s| == 0 then []
    else
      assert s == [s[0]] + s[1..];
      Insert(s[0], SortRecords(s[1..]))
  }
}
