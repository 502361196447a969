/** The truth table of prepositinallogic.py: every assignment of the atoms
    Q, P, R, the three sentences of the knowledge base
    KB = (Q -> P) and (P -> not Q) and (Q or R), and three candidate
    consequences R, R -> P and Q -> R; and entailment checked by running
    over the models of the table. */
module TruthTable {

  import opened Wrappers

  // ---------------------------------------------------------------------------
  // Connectives

  /** `implies`: false only when the premise holds and the conclusion does
      not. */
  function Implies(a: bool, b: bool): (r: bool)
    ensures r == (a ==> b)
    ensures !r <==> a && !b
  {
    !a || b
  }

  /** `or_operator`. */
  function Or(a: bool, b: bool): (r: bool)
    ensures r <==> a || b
    ensures !r <==> !a && !b
  {
    a || b
  }

  /** `not_operator`. */
  function Not(a: bool): (r: bool)
    ensures r != a
  {
    !a
  }

  // ---------------------------------------------------------------------------
  // Enumerating assignments

  /** Number of tuples of length `n` over `b` values. */
  function Pow(b: nat, n: nat): nat
  {
    if n == 0 then 1 else b * Pow(b, n - 1)
  }

  /** Every tuple of `ts` with `v` put in front. */
  function Prefixed<T>(v: T, ts: seq<seq<T>>): (r: seq<seq<T>>)
    ensures |r| == |ts|
    ensures forall i :: 0 <= i < |r| ==> r[i] == [v] + ts[i]
  {
    if ts == [] then [] else [[v] + ts[0]] + Prefixed(v, ts[1..])
  }

  /** For each value of `vs` in turn, the tuples of `ts` with that value in
      front. */
  function PrefixAll<T>(vs: seq<T>, ts: seq<seq<T>>): (r: seq<seq<T>>)
    ensures |r| == |vs| * |ts|
  {
    if vs == [] then [] else Prefixed(vs[0], ts) + PrefixAll(vs[1..], ts)
  }

  /** `itertools.product(vals, repeat=n)`: the tuples of length `n` over
      `vals`, the last position varying fastest. */
  function Product<T>(vals: seq<T>, n: nat): (r: seq<seq<T>>)
    ensures |r| == Pow(|vals|, n)
  {
    if n == 0 then [[]] else PrefixAll(vals, Product(vals, n - 1))
  }

  /** What `PrefixAll` holds: exactly the tuples `[v] + t`, `v` from `vs`
      and `t` from `ts`. */
  lemma {:induction false} PrefixAllContents<T>(vs: seq<T>, ts: seq<seq<T>>, u: seq<T>)
    ensures u in PrefixAll(vs, ts) <==> |u| > 0 && u[0] in vs && u[1..] in ts
  {
    if vs != [] {
      PrefixAllContents(vs[1..], ts, u);
      var here := Prefixed(vs[0], ts);
      if u in here {
        var i :| 0 <= i < |here| && here[i] == u;
        assert u[1..] == ts[i];
      }
      if |u| > 0 && u[0] == vs[0] && u[1..] in ts {
        var i :| 0 <= i < |ts| && ts[i] == u[1..];
        assert here[i] == u;
      }
      assert PrefixAll(vs, ts) == here + PrefixAll(vs[1..], ts);
    }
  }

  /** The product holds exactly the tuples of length `n` whose entries all
      come from `vals`. */
  lemma {:induction false} ProductContents<T>(vals: seq<T>, n: nat, u: seq<T>)
    ensures u in Product(vals, n) <==> |u| == n && forall i :: 0 <= i < |u| ==> u[i] in vals
  {
    if n > 0 {
      PrefixAllContents(vals, Product(vals, n - 1), u);
      if |u| > 0 {
        ProductContents(vals, n - 1, u[1..]);
        if |u| == n && forall i :: 0 <= i < |u| ==> u[i] in vals {
          assert forall i :: 0 <= i < |u[1..]| ==> u[1..][i] == u[i + 1];
        }
        if u[0] in vals && u[1..] in Product(vals, n - 1) {
          forall i | 0 <= i < |u|
            ensures u[i] in vals
          {
            if i > 0 {
              assert u[i] == u[1..][i - 1];
            }
          }
        }
      }
    }
  }

  // ---------------------------------------------------------------------------
  // The table

  /** Columns of a row, as the header of `print_truth_table` names them:
      Q, P, R, Q -> P, P -> not Q, Q or R, KB, R, R -> P, Q -> R. */
  function Column(c: nat, q: bool, p: bool, r: bool): bool
    requires c < 10
  {
    match c
    case 0 => q
    case 1 => p
    case 2 => r
    case 3 => q ==> p
    case 4 => p ==> !q
    case 5 => q || r
    case 6 => (q ==> p) && (p ==> !q) && (q || r)
    case 7 => r
    case 8 => r ==> p
    case 9 => q ==> r
  }

  /** The row appended for the assignment (q, p, r). */
  function MakeRow(q: bool, p: bool, r: bool): (row: seq<bool>)
    ensures |row| == 10 && row[..3] == [q, p, r]
    ensures forall c :: 0 <= c < 10 ==> row[c] == Column(c, q, p, r)
  {
    var qImpliesP := Implies(q, p);
    var pImpliesNotQ := Implies(p, Not(q));
    var qOrR := Or(q, r);
    var kb := qImpliesP && pImpliesNotQ && qOrR;
    [q, p, r, qImpliesP, pImpliesNotQ, qOrR, kb, r, Implies(r, p), Implies(q, r)]
  }

  /** The assignments in the order `itertools.product([True, False],
      repeat=3)` yields them. */
  function Assignments(): (r: seq<seq<bool>>)
    ensures |r| == 8
  {
    Product([true, false], 3)
  }

  /** `construct_truth_table`: one row per assignment. */
  function ConstructTruthTable(): (t: seq<seq<bool>>)
    ensures |t| == 8
    ensures forall k :: 0 <= k < 8 ==> |t[k]| == 10 && t[k][..3] == Assignments()[k]
    ensures forall k, c :: 0 <= k < 8 && 0 <= c < 10 ==> t[k][c] == Column(c, t[k][0], t[k][1], t[k][2])
  {
    var a := Assignments();
    forall k | 0 <= k < 8
      ensures |a[k]| == 3 && a[k] == [a[k][0], a[k][1], a[k][2]]
    {
      AssignmentsOrder(k);
    }
    seq(8, k requires 0 <= k < 8 => MakeRow(a[k][0], a[k][1], a[k][2]))
  }

  /** Over two values, the product of length `n` is the product of length
      `n - 1` with the first value in front, then with the second. */
  lemma ProductStep<T>(a: T, b: T, n: nat, k: nat)
    requires 0 < n && k < Pow(2, n)
    ensures k < Pow(2, n - 1) ==> Product([a, b], n)[k] == [a] + Product([a, b], n - 1)[k]
    ensures Pow(2, n - 1) <= k ==> Product([a, b], n)[k] == [b] + Product([a, b], n - 1)[k - Pow(2, n - 1)]
  {
    var ts := Product([a, b], n - 1);
    assert [a, b][1..] == [b];
    assert PrefixAll([b], ts) == Prefixed(b, ts) + PrefixAll([], ts);
    assert Product([a, b], n) == Prefixed(a, ts) + Prefixed(b, ts);
  }

  /** The assignment of row `k`: Q is true in the first four rows, P in the
      first two of each four, R in every other row starting with the
      first. */
  lemma TableOrder(k: nat)
    requires k < 8
    ensures ConstructTruthTable()[k][0] == (k < 4)
    ensures ConstructTruthTable()[k][1] == (k % 4 < 2)
    ensures ConstructTruthTable()[k][2] == (k % 2 == 0)
  {
    var a, t := Assignments(), ConstructTruthTable();
    AssignmentsOrder(k);
    assert t[k][..3] == a[k];
    assert t[k][0] == a[k][0] && t[k][1] == a[k][1] && t[k][2] == a[k][2];
  }

  /** The k-th triple of the product follows the bit pattern of `k`, True
      first. */
  lemma AssignmentsOrder(k: nat)
    requires k < 8
    ensures |Assignments()[k]| == 3
    ensures Assignments()[k][0] == (k < 4)
    ensures Assignments()[k][1] == (k % 4 < 2)
    ensures Assignments()[k][2] == (k % 2 == 0)
  {
    TripleOrder(true, false, k);
  }

  /** Position `k` of the product of length 3 over two values `a`, `b`:
      the digits of `k` in base 2, most significant first, 0 picking `a`. */
  lemma TripleOrder<T>(a: T, b: T, k: nat)
    requires k < 8
    ensures |Product([a, b], 3)| == 8 && |Product([a, b], 3)[k]| == 3
    ensures Product([a, b], 3)[k][0] == (if k < 4 then a else b)
    ensures Product([a, b], 3)[k][1] == (if k % 4 < 2 then a else b)
    ensures Product([a, b], 3)[k][2] == (if k % 2 == 0 then a else b)
  {
    assert Pow(2, 2) == 4 && Pow(2, 3) == 8;
    var j := if k < 4 then k else k - 4;
    assert j == k % 4;
    ProductStep(a, b, 3, k);
    PairOrder(a, b, j);
    assert Product([a, b], 3)[k] == [if k < 4 then a else b] + Product([a, b], 2)[j];
  }

  /** Position `j` of the product of length 2 over `a`, `b`. */
  lemma PairOrder<T>(a: T, b: T, j: nat)
    requires j < 4
    ensures |Product([a, b], 2)| == 4 && |Product([a, b], 2)[j]| == 2
    ensures Product([a, b], 2)[j][0] == (if j < 2 then a else b)
    ensures Product([a, b], 2)[j][1] == (if j % 2 == 0 then a else b)
  {
    assert Pow(2, 0) == 1 && Pow(2, 1) == 2 && Pow(2, 2) == 4;
    var i := if j < 2 then j else j - 2;
    assert i == j % 2;
    ProductStep(a, b, 2, j);
    ProductStep(a, b, 1, i);
    assert Product([a, b], 0) == [[]];
    assert Product([a, b], 1)[i] == [if i == 0 then a else b];
    assert Product([a, b], 2)[j] == [if j < 2 then a else b] + Product([a, b], 1)[i];
  }

  /** The row holding the assignment (q, p, r). */
  function RowOf(q: bool, p: bool, r: bool): (k: nat)
    ensures k < 8
  {
    (if q then 0 else 4) + (if p then 0 else 2) + (if r then 0 else 1)
  }

  /** Every assignment has a row, and it is the only one with that
      assignment. */
  lemma TableCovers(q: bool, p: bool, r: bool, k: nat)
    requires k < 8
    ensures (ConstructTruthTable()[k][0] == q && ConstructTruthTable()[k][1] == p && ConstructTruthTable()[k][2] == r)
            <==> k == RowOf(q, p, r)
  {
    TableOrder(k);
    RowOfDigits(k);
  }

  /** Reading the assignment of row `k` back gives `k`. */
  lemma RowOfDigits(k: nat)
    requires k < 8
    ensures RowOf(k < 4, k % 4 < 2, k % 2 == 0) == k
  {
    if k == 0 {} else if k == 1 {} else if k == 2 {} else if k == 3 {}
    else if k == 4 {} else if k == 5 {} else if k == 6 {} else {}
  }

  // ---------------------------------------------------------------------------
  // Entailment

  /** Python's `row[i]`: negative indices count from the end; `None` where
      the source raises `IndexError`. */
  function PyIndex(row: seq<bool>, i: int): (r: Option<bool>)
    ensures r.Some? <==> -|row| <= i < |row|
  {
    if 0 <= i < |row| then Some(row[i])
    else if -|row| <= i < 0 then Some(row[|row| + i])
    else None
  }

  /** Both indices `check_entailment` reads exist in the row. */
  predicate Readable(row: seq<bool>, idx: int)
  {
    PyIndex(row, 6).Some? && PyIndex(row, idx).Some?
  }

  /** A model of the knowledge base in which the column is false. */
  predicate CounterModel(row: seq<bool>, idx: int)
    requires Readable(row, idx)
  {
    PyIndex(row, 6).value && !PyIndex(row, idx).value
  }

  /** `check_entailment`: `Some(false)` at the first row where KB holds and
      the column does not, `Some(true)` when no row is such; `None` where
      reading a row raises first. */
  function CheckEntailment(table: seq<seq<bool>>, idx: int): (r: Option<bool>)
    ensures (forall k :: 0 <= k < |table| ==> Readable(table[k], idx)) ==>
              r == Some(forall k :: 0 <= k < |table| ==> !CounterModel(table[k], idx))
    ensures r == Some(false) ==> exists k :: 0 <= k < |table| && Readable(table[k], idx) && CounterModel(table[k], idx)
    ensures r == Some(true) ==> forall k :: 0 <= k < |table| ==> Readable(table[k], idx) && !CounterModel(table[k], idx)
    ensures r.None? ==> exists k :: 0 <= k < |table| && !Readable(table[k], idx)
    decreases |table|
  {
    if table == [] then Some(true)
    else if !Readable(table[0], idx) then None
    else if CounterModel(table[0], idx) then Some(false)
    else
      var rest := CheckEntailment(table[1..], idx);
      assert forall k :: 1 <= k < |table| ==> table[k] == table[1..][k - 1];
      rest
  }

  /** The semantic notion: column `c` is true in every model of KB. */
  predicate Entails(c: nat)
    requires c < 10
  {
    forall q: bool, p: bool, r: bool :: Column(6, q, p, r) ==> Column(c, q, p, r)
  }

  /** The column a Python index in -10..9 names on a ten-entry row. */
  function ColumnOf(idx: int): (c: nat)
    requires -10 <= idx < 10
    ensures c < 10
  {
    if idx < 0 then idx + 10 else idx
  }

  /** Row `k` can be read at `idx`, and it is a counter-model exactly when
      its assignment satisfies KB and falsifies the column. */
  lemma RowMeaning(k: nat, idx: int)
    requires k < 8 && -10 <= idx < 10
    ensures Readable(ConstructTruthTable()[k], idx)
    ensures var t := ConstructTruthTable();
            CounterModel(t[k], idx) <==> Column(6, t[k][0], t[k][1], t[k][2]) && !Column(ColumnOf(idx), t[k][0], t[k][1], t[k][2])
  {
    var t := ConstructTruthTable();
    assert PyIndex(t[k], idx) == Some(t[k][ColumnOf(idx)]);
  }

  /** Where the index is one Python accepts on a ten-entry row, checking
      the table is checking every model of KB. */
  lemma CheckIsModelChecking(idx: int)
    requires -10 <= idx < 10
    ensures CheckEntailment(ConstructTruthTable(), idx) == Some(Entails(ColumnOf(idx)))
  {
    var t := ConstructTruthTable();
    forall k | 0 <= k < |t|
      ensures Readable(t[k], idx)
    {
      RowMeaning(k, idx);
    }
    NoCounterModelIffEntails(idx);
  }

  /** No row of the table is a counter-model exactly when KB entails the
      column. */
  lemma NoCounterModelIffEntails(idx: int)
    requires -10 <= idx < 10
    ensures var t := ConstructTruthTable();
            (forall k :: 0 <= k < |t| ==> Readable(t[k], idx) && !CounterModel(t[k], idx)) <==> Entails(ColumnOf(idx))
  {
    var t := ConstructTruthTable();
    var c := ColumnOf(idx);
    if Entails(c) {
      forall k | 0 <= k < |t|
        ensures Readable(t[k], idx) && !CounterModel(t[k], idx)
      {
        RowMeaning(k, idx);
        assert Column(6, t[k][0], t[k][1], t[k][2]) ==> Column(c, t[k][0], t[k][1], t[k][2]);
      }
    } else {
      var q: bool, p: bool, r: bool :| Column(6, q, p, r) && !Column(c, q, p, r);
      var k := RowOf(q, p, r);
      TableCovers(q, p, r, k);
      RowMeaning(k, idx);
      assert CounterModel(t[k], idx);
    }
  }

  /** An index outside -10..9 raises on the first row. */
  lemma CheckOutOfRange(idx: int)
    requires idx < -10 || 10 <= idx
    ensures CheckEntailment(ConstructTruthTable(), idx).None?
  {
    assert !Readable(ConstructTruthTable()[0], idx);
  }

  /** The three checks at the end of the program: KB entails R and Q -> R
      but not R -> P (Q false, P false, R true is a model of KB). */
  lemma KnownEntailments()
    ensures CheckEntailment(ConstructTruthTable(), 7) == Some(true)
    ensures CheckEntailment(ConstructTruthTable(), 8) == Some(false)
    ensures CheckEntailment(ConstructTruthTable(), 9) == Some(true)
  {
    CheckIsModelChecking(7);
    CheckIsModelChecking(8);
    CheckIsModelChecking(9);
    assert Column(6, false, false, true) && !Column(8, false, false, true);
  }
}
