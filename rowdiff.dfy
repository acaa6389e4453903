/**
 * The row-by-row comparison of two VD52 columns: after trimming trailing
 * whitespace from every cell, each row both columns have is listed when the
 * two values differ, and every row only the longer column has is listed
 * against the marker `<YOK>`. Rows are numbered from 1.
 *
 * The comparison itself only tests cells for equality, so it is stated for
 * cells of any type `T` with the marker as a parameter; `Compare` applies it
 * to trimmed strings and `<YOK>`.
 */
module RowDiff {
  import opened Chars

  /** What stands in for the cell of the column that has run out of rows. */
  const Missing: string := "<YOK>"

  /** One reported difference: the 1-based row and the two values. */
  datatype DiffRow<T> = DiffRow(row: nat, left: T, right: T)


  /** Every cell with its trailing whitespace removed. */
  function TrimColumn(col: seq<string>): (r: seq<string>)
    ensures |r| == |col|
    ensures forall i :: 0 <= i < |col| ==> r[i] == TrimRight(col[i])
  {
    seq(|col|, i requires 0 <= i < |col| => TrimRight(col[i]))
  }

  /** The cell at index `i`, or the marker past the column's end. */
  function Cell<T>(col: seq<T>, i: nat, missing: T): T
  {
    if i < |col| then col[i] else missing
  }

  /** Row `i + 1` is reported: it lies past the end of one column, or the two values differ. */
  predicate Listed<T(==)>(a: seq<T>, b: seq<T>, i: nat)
  {
    i < Max(|a|, |b|) && (i < |a| && i < |b| ==> a[i] != b[i])
  }

  /** The rows up to `k` that both columns have and whose values differ, in order. */
  function Mismatches<T(==)>(a: seq<T>, b: seq<T>, k: nat): (r: seq<DiffRow<T>>)
    requires k <= |a| && k <= |b|
    ensures |r| <= k
  {
    if k == 0 then []
    else Mismatches(a, b, k - 1) + (if a[k - 1] != b[k - 1] then [DiffRow(k, a[k - 1], b[k - 1])] else [])
  }

  /** Rows `from + 1` to `k` of `col`, each against the marker on the side of the other column. */
  function Surplus<T>(col: seq<T>, from: nat, k: nat, onLeft: bool, missing: T): (r: seq<DiffRow<T>>)
    requires from <= k <= |col|
    decreases k - from
    ensures |r| == k - from
  {
    if k == from then []
    else
      var row := if onLeft then DiffRow(k, col[k - 1], missing) else DiffRow(k, missing, col[k - 1]);
      Surplus(col, from, k - 1, onLeft, missing) + [row]
  }

  /** The list the three loops of the comparison build. */
  function Differences<T(==)>(a: seq<T>, b: seq<T>, missing: T): (r: seq<DiffRow<T>>)
    ensures Max(|a|, |b|) - Min(|a|, |b|) <= |r| <= Max(|a|, |b|)
  {
    var n := Min(|a|, |b|);
    Mismatches(a, b, n) + Surplus(a, n, |a|, true, missing) + Surplus(b, n, |b|, false, missing)
  }

  /**
   * The reference list: every row up to `k`, in order, that is listed,
   * each with that row's two cells.
   */
  function Report<T(==)>(a: seq<T>, b: seq<T>, k: nat, missing: T): seq<DiffRow<T>>
  {
    if k == 0 then []
    else
      Report(a, b, k - 1, missing) +
      (if Listed(a, b, k - 1) then [DiffRow(k, Cell(a, k - 1, missing), Cell(b, k - 1, missing))] else [])
  }

  /** Over the rows both columns have, the comparison loop builds the reference list. */
  lemma {:induction false} MismatchesReport<T>(a: seq<T>, b: seq<T>, k: nat, missing: T)
    requires k <= |a| && k <= |b|
    ensures Mismatches(a, b, k) == Report(a, b, k, missing)
  {
    if k > 0 {
      MismatchesReport(a, b, k - 1, missing);
    }
  }

  /** Past the end of `b`, the surplus rows of `a` extend the reference list. */
  lemma {:induction false} LeftSurplusReport<T>(a: seq<T>, b: seq<T>, k: nat, missing: T)
    requires |b| <= k <= |a|
    decreases k
    ensures Report(a, b, k, missing) == Report(a, b, |b|, missing) + Surplus(a, |b|, k, true, missing)
  {
    if k > |b| {
      LeftSurplusReport(a, b, k - 1, missing);
      assert Listed(a, b, k - 1);
    }
  }

  /** Past the end of `a`, the surplus rows of `b` extend the reference list. */
  lemma {:induction false} RightSurplusReport<T>(a: seq<T>, b: seq<T>, k: nat, missing: T)
    requires |a| <= k <= |b|
    decreases k
    ensures Report(a, b, k, missing) == Report(a, b, |a|, missing) + Surplus(b, |a|, k, false, missing)
  {
    if k > |a| {
      RightSurplusReport(a, b, k - 1, missing);
      assert Listed(a, b, k - 1);
    }
  }

  /** The three loops together build the reference list over all rows of the longer column. */
  lemma DifferencesAreReport<T>(a: seq<T>, b: seq<T>, missing: T)
    ensures Differences(a, b, missing) == Report(a, b, Max(|a|, |b|), missing)
  {
    var n := Min(|a|, |b|);
    MismatchesReport(a, b, n, missing);
    if |a| >= |b| {
      LeftSurplusReport(a, b, |a|, missing);
      assert Surplus(b, n, |b|, false, missing) == [];
    } else {
      RightSurplusReport(a, b, |b|, missing);
      assert Surplus(a, n, |a|, true, missing) == [];
    }
  }

  /** Each entry of the reference list up to `k` is a listed row between 1 and `k`, with that row's two cells. */
  lemma {:induction false} ReportSound<T>(a: seq<T>, b: seq<T>, k: nat, missing: T)
    ensures forall j :: 0 <= j < |Report(a, b, k, missing)| ==>
      var e := Report(a, b, k, missing)[j];
      && 1 <= e.row <= k && Listed(a, b, e.row - 1)
      && e == DiffRow(e.row, Cell(a, e.row - 1, missing), Cell(b, e.row - 1, missing))
  {
    if k > 0 {
      ReportSound(a, b, k - 1, missing);
      var r, d := Report(a, b, k - 1, missing), Report(a, b, k, missing);
      assert forall j :: 0 <= j < |r| ==> d[j] == r[j];
    }
  }

  /** The rows of the reference list are strictly ascending. */
  lemma {:induction false} ReportAscending<T>(a: seq<T>, b: seq<T>, k: nat, missing: T)
    ensures forall i, j :: 0 <= i < j < |Report(a, b, k, missing)| ==>
      Report(a, b, k, missing)[i].row < Report(a, b, k, missing)[j].row
  {
    if k > 0 {
      ReportAscending(a, b, k - 1, missing);
      ReportSound(a, b, k - 1, missing);
      var r, d := Report(a, b, k - 1, missing), Report(a, b, k, missing);
      assert forall j :: 0 <= j < |r| ==> d[j] == r[j];
    }
  }

  /** Every listed row up to `k` is in the reference list, with its two cells. */
  lemma {:induction false} ReportComplete<T>(a: seq<T>, b: seq<T>, k: nat, missing: T)
    ensures forall i: nat :: i < k && Listed(a, b, i) ==>
      DiffRow(i + 1, Cell(a, i, missing), Cell(b, i, missing)) in Report(a, b, k, missing)
  {
    if k > 0 {
      ReportComplete(a, b, k - 1, missing);
    }
  }

  /** Two equal columns: nothing is listed. */
  lemma {:induction false} ReportOfEqual<T>(a: seq<T>, k: nat, missing: T)
    ensures Report(a, a, k, missing) == []
  {
    if k > 0 {
      ReportOfEqual(a, k - 1, missing);
    }
  }

  /**
   * What the comparison reports, for all columns: row `i + 1` is in the
   * list, with the two cells of that row (the marker past a column's end),
   * exactly when it lies past the end of the shorter column or its two
   * values differ; the rows are strictly ascending.
   */
  lemma DifferencesSpec<T>(a: seq<T>, b: seq<T>, missing: T)
    ensures forall j :: 0 <= j < |Differences(a, b, missing)| ==>
      var e := Differences(a, b, missing)[j];
      && 1 <= e.row && Listed(a, b, e.row - 1)
      && e == DiffRow(e.row, Cell(a, e.row - 1, missing), Cell(b, e.row - 1, missing))
    ensures forall i: nat :: Listed(a, b, i) ==>
      DiffRow(i + 1, Cell(a, i, missing), Cell(b, i, missing)) in Differences(a, b, missing)
    ensures forall i, j :: 0 <= i < j < |Differences(a, b, missing)| ==>
      Differences(a, b, missing)[i].row < Differences(a, b, missing)[j].row
  {
    var k := Max(|a|, |b|);
    DifferencesAreReport(a, b, missing);
    ReportSound(a, b, k, missing);
    ReportAscending(a, b, k, missing);
    ReportComplete(a, b, k, missing);
  }

  /** No difference is reported exactly when the two columns are equal. */
  lemma NoDifferencesIffEqual<T>(a: seq<T>, b: seq<T>, missing: T)
    ensures Differences(a, b, missing) == [] <==> a == b
  {
    DifferencesAreReport(a, b, missing);
    if a == b {
      ReportOfEqual(a, Max(|a|, |b|), missing);
    } else {
      var i: nat;
      if |a| != |b| {
        i := Min(|a|, |b|);
      } else {
        i :| 0 <= i < |a| && a[i] != b[i];
      }
      assert Listed(a, b, i);
      ReportComplete(a, b, Max(|a|, |b|), missing);
    }
  }

  /**
   * The three loops of the comparison over two trimmed columns: the common
   * rows one by one, then the surplus rows of the first column, then those
   * of the second.
   */
  method DiffColumns<T(==)>(s1: seq<T>, s2: seq<T>, missing: T) returns (diffs: seq<DiffRow<T>>)
    ensures diffs == Differences(s1, s2, missing)
  {
    var n := if |s1| < |s2| then |s1| else |s2|;
    diffs := [];
    var i := 0;
    while i < n
      invariant 0 <= i <= n
      invariant diffs == Mismatches(s1, s2, i)
    {
      var v1, v2 := s1[i], s2[i];
      if v1 != v2 {
        diffs := diffs + [DiffRow(i + 1, v1, v2)];
      }
      i := i + 1;
    }
    ghost var common := diffs;
    if |s1| > n {
      i := n;
      while i < |s1|
        invariant n <= i <= |s1|
        invariant diffs == common + Surplus(s1, n, i, true, missing)
      {
        diffs := diffs + [DiffRow(i + 1, s1[i], missing)];
        i := i + 1;
      }
    }
    ghost var left := diffs;
    if |s2| > n {
      i := n;
      while i < |s2|
        invariant n <= i <= |s2|
        invariant diffs == left + Surplus(s2, n, i, false, missing)
      {
        diffs := diffs + [DiffRow(i + 1, missing, s2[i])];
        i := i + 1;
      }
    }
  }

  /** The comparison of two VD52 columns: trim every cell, then diff against `<YOK>`. */
  method Compare(col1: seq<string>, col2: seq<string>) returns (diffs: seq<DiffRow<string>>)
    ensures diffs == Differences(TrimColumn(col1), TrimColumn(col2), Missing)
  {
    var s1, s2 := TrimColumn(col1), TrimColumn(col2);
    diffs := DiffColumns(s1, s2, Missing);
  }

  /** Two rows against three, the first pair equal and the second not. */
  lemma TwoAgainstThree<T>(s1: seq<T>, s2: seq<T>, missing: T)
    requires |s1| == 2 && |s2| == 3 && s1[0] == s2[0] && s1[1] != s2[1]
    ensures Differences(s1, s2, missing) == [DiffRow(2, s1[1], s2[1]), DiffRow(3, missing, s2[2])]
  {
    assert Mismatches(s1, s2, 1) == [];
    assert Surplus(s2, 2, 3, false, missing) == [DiffRow(3, missing, s2[2])];
  }

  /**
   * Trailing blanks do not count as a difference; the second rows differ,
   * and the third row exists only in the second column.
   */
  lemma CompareExample(c1: seq<string>, c2: seq<string>)
    requires c1 == ["14C0 22083", "R17757  "] && c2 == ["14C0 22083  ", "R17758", "A405"]
    ensures Differences(TrimColumn(c1), TrimColumn(c2), Missing) ==
      [DiffRow(2, "R17757", "R17758"), DiffRow(3, Missing, "A405")]
  {
    var s1, s2 := TrimColumn(c1), TrimColumn(c2);
    assert s1[0] == s2[0] == "14C0 22083" by {
      TrimRightBlanks("14C0 22083", 0);
      TrimRightBlanks("14C0 22083", 2);
      assert c1[0] == "14C0 22083" + Blanks(0) && c2[0] == "14C0 22083" + Blanks(2);
    }
    assert s1[1] == "R17757" by {
      TrimRightBlanks("R17757", 2);
      assert c1[1] == "R17757" + Blanks(2);
    }
    assert s2[1] == "R17758" by {
      TrimRightBlanks("R17758", 0);
      assert c2[1] == "R17758" + Blanks(0);
    }
    assert s2[2] == "A405" by {
      TrimRightBlanks("A405", 0);
      assert c2[2] == "A405" + Blanks(0);
    }
    assert s1[1] != s2[1] by { assert s1[1][5] != s2[1][5]; }
    TwoAgainstThree(s1, s2, Missing);
  }
}
