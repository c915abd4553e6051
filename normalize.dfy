/** Row normalisation (`adjustRows`): empty rows disappear, and every row
    whose size is not `BASE` is rescaled component by component with
    `Math.round(size * BASE / rowSize)`; if rounding leaves the row off
    `BASE`, the difference goes to the first component that is not the
    placeholder of the drag in progress. */
module Normalization {
  import opened Grid

  // ---------------------------------------------------------------------
  // Math.round on a rational

  /** `Math.round(p / q)` for integers: the nearest integer, halves rounded
      towards positive infinity. */
  function Round(p: int, q: int): (r: int)
    requires q != 0
    ensures q > 0 ==> q * (2 * r - 1) <= 2 * p < q * (2 * r + 1)
    ensures q < 0 ==> -q * (2 * r - 1) <= -2 * p < -q * (2 * r + 1)
  {
    var (n, d) := if q > 0 then (p, q) else (-p, -q);
    RoundBounds(n, d);
    (2 * n + d) / (2 * d)
  }

  lemma RoundBounds(n: int, d: int)
    requires d > 0
    ensures d * (2 * ((2 * n + d) / (2 * d)) - 1) <= 2 * n < d * (2 * ((2 * n + d) / (2 * d)) + 1)
  {
    var r := (2 * n + d) / (2 * d);
    var m := (2 * n + d) % (2 * d);
    assert 2 * d * r + m == 2 * n + d && 0 <= m < 2 * d;
    assert d * (2 * r - 1) == 2 * d * r - d;
    assert d * (2 * r + 1) == 2 * d * r + d;
  }

  /** The value the characterisation of `Round` pins down is unique, for
      either sign of the divisor. */
  lemma RoundUnique(p: int, q: int, r: int)
    requires q != 0
    requires q > 0 ==> q * (2 * r - 1) <= 2 * p < q * (2 * r + 1)
    requires q < 0 ==> -q * (2 * r - 1) <= -2 * p < -q * (2 * r + 1)
    ensures Round(p, q) == r
  {
    var s := Round(p, q);
    var d := if q > 0 then q else -q;
    MulCancel(d, 2 * s - 1, 2 * r + 1);
    MulCancel(d, 2 * r - 1, 2 * s + 1);
  }

  lemma MulCancel(q: int, a: int, b: int)
    requires q > 0
    ensures q * a < q * b ==> a < b
  {
    assert q * b - q * a == q * (b - a);
  }

  /** A component alone in its row is rescaled to exactly `BASE`. */
  lemma RoundWhole(s: int)
    requires s != 0
    ensures Round(s * BASE, s) == BASE
  {
    if s > 0 {
      RoundUnique(s * BASE, s, BASE);
    } else {
      assert Round(s * BASE, s) == Round(-s * BASE, -s);
      RoundUnique(-s * BASE, -s, BASE);
    }
  }

  /** The new size of a component of size `size` in a row of size `total`. */
  function Scaled(size: int, total: int): int
    requires total != 0
  {
    Round(size * BASE, total)
  }

  // ---------------------------------------------------------------------
  // One row

  /** The row's components rescaled one after another, in document order. */
  function Rescale(model: seq<Entry>, row: seq<nat>, total: int): (m: seq<Entry>)
    requires total != 0 && forall i :: i in row ==> i < |model|
    ensures |m| == |model|
    ensures forall i :: 0 <= i < |model| && i !in row ==> m[i] == model[i]
    ensures forall i :: 0 <= i < |model| ==> m[i].componentId == model[i].componentId && m[i].kind == model[i].kind
  {
    if row == [] then model
    else
      var init, x := row[..|row| - 1], row[|row| - 1];
      assert x in row;
      InPrefix(row, |row| - 1);
      var m := Rescale(model, init, total);
      SetSize(m, x, Scaled(m[x].size, total))
  }

  /** With no repeated component, each one of the row gets its own rescaled size. */
  lemma {:induction false} RescaleAt(model: seq<Entry>, row: seq<nat>, total: int, i: nat)
    requires total != 0 && forall j :: j in row ==> j < |model|
    requires Unique(row) && i in row
    ensures Rescale(model, row, total)[i].size == Scaled(model[i].size, total)
  {
    var init, x := row[..|row| - 1], row[|row| - 1];
    assert row == init + [x];
    InPrefix(row, |row| - 1);
    if i != x {
      assert i in init;
      RescaleAt(model, init, total, i);
    } else {
      assert i !in init;
    }
  }

  /** Whether index `i` is the placeholder of the drag in progress. */
  predicate IsPlaceholder(i: nat, placeholder: Option<nat>)
  {
    placeholder == Some(i)
  }

  /** The first component of the row that is not the placeholder
      (`row.querySelector('.component')`). */
  function FirstComponent(row: seq<nat>, placeholder: Option<nat>): (r: Option<nat>)
    ensures r.None? <==> forall i :: i in row ==> IsPlaceholder(i, placeholder)
    ensures r.Some? ==> r.value in row && !IsPlaceholder(r.value, placeholder)
  {
    if row == [] then None
    else if !IsPlaceholder(row[0], placeholder) then Some(row[0])
    else
      assert forall i :: i in row ==> i == row[0] || i in row[1..];
      FirstComponent(row[1..], placeholder)
  }

  /** `FirstComponent` picks the earliest non-placeholder, in document order. */
  lemma {:induction false} FirstComponentIsFirst(row: seq<nat>, placeholder: Option<nat>)
    requires FirstComponent(row, placeholder).Some?
    ensures exists k :: 0 <= k < |row| && row[k] == FirstComponent(row, placeholder).value
              && forall j :: 0 <= j < k ==> IsPlaceholder(row[j], placeholder)
  {
    if IsPlaceholder(row[0], placeholder) {
      FirstComponentIsFirst(row[1..], placeholder);
      var k :| 0 <= k < |row[1..]| && row[1..][k] == FirstComponent(row, placeholder).value
              && forall j :: 0 <= j < k ==> IsPlaceholder(row[1..][j], placeholder);
      assert forall j :: 1 <= j < k + 1 ==> row[j] == row[1..][j - 1];
      assert row[k + 1] == FirstComponent(row, placeholder).value;
    } else {
      assert row[0] == FirstComponent(row, placeholder).value;
    }
  }

  /** A row can be rescaled unless it has components and its size is 0
      (there the source divides by zero). */
  predicate Rescalable(model: seq<Entry>, row: seq<nat>)
    requires forall i :: i in row ==> i < |model|
  {
    row == [] || RowSize(model, row) != 0
  }

  /** The correction after rescaling: if the row is still off `BASE`, the
      difference goes to its first non-placeholder component. */
  function Correct(model: seq<Entry>, row: seq<nat>, placeholder: Option<nat>): (m: seq<Entry>)
    requires forall i :: i in row ==> i < |model|
    ensures |m| == |model|
    ensures forall i :: 0 <= i < |model| && i !in row ==> m[i] == model[i]
    ensures forall i :: 0 <= i < |model| ==> m[i].componentId == model[i].componentId && m[i].kind == model[i].kind
  {
    var after := RowSize(model, row);
    if after == BASE then model
    else match FirstComponent(row, placeholder)
      case None => model
      case Some(c) => SetSize(model, c, model[c].size + (BASE - after))
  }

  /** What `adjustRows` does to the sizes of one row. */
  function NormalizeRow(model: seq<Entry>, row: seq<nat>, placeholder: Option<nat>): (m: seq<Entry>)
    requires forall i :: i in row ==> i < |model|
    requires Rescalable(model, row)
    ensures |m| == |model|
    ensures forall i :: 0 <= i < |model| && i !in row ==> m[i] == model[i]
    ensures forall i :: 0 <= i < |model| ==> m[i].componentId == model[i].componentId && m[i].kind == model[i].kind
    ensures RowSize(model, row) == BASE ==> m == model
  {
    var total := RowSize(model, row);
    if total == BASE || row == [] then model
    else Correct(Rescale(model, row, total), row, placeholder)
  }

  /** A row made of one placeholder only is rescaled to exactly `BASE`. */
  lemma PlaceholderRow(model: seq<Entry>, p: nat)
    requires p < |model| && model[p].size != 0
    ensures RowSize(Rescale(model, [p], model[p].size), [p]) == BASE
  {
    var m := Rescale(model, [p], model[p].size);
    RescaleAt(model, [p], model[p].size, p);
    RoundWhole(model[p].size);
    assert SizesOf(m, [p]) == [m[p].size];
    SumSingle(m[p].size);
  }

  /** A non-empty row without repeats whose every component is the
      placeholder is that one placeholder. */
  lemma OnlyPlaceholder(row: seq<nat>, placeholder: Option<nat>)
    requires row != [] && Unique(row)
    requires forall i :: i in row ==> IsPlaceholder(i, placeholder)
    ensures row == [row[0]]
  {
    assert row[0] in row && row[|row| - 1] in row;
  }

  lemma RowSizeSingle(model: seq<Entry>, p: nat)
    requires p < |model|
    ensures RowSize(model, [p]) == model[p].size
  {
    assert SizesOf(model, [p]) == [model[p].size];
    SumSingle(model[p].size);
  }

  /** After normalisation every non-empty row (with no repeated component)
      sums to exactly `BASE`: the correction lands on a non-placeholder if
      there is one, and a row holding only the placeholder rescales to
      `BASE` by itself. */
  lemma NormalizeRowReachesBase(model: seq<Entry>, row: seq<nat>, placeholder: Option<nat>)
    requires forall i :: i in row ==> i < |model|
    requires Rescalable(model, row) && Unique(row) && row != []
    ensures RowSize(NormalizeRow(model, row, placeholder), row) == BASE
  {
    var total := RowSize(model, row);
    if total != BASE {
      if FirstComponent(row, placeholder).None? {
        OnlyPlaceholder(row, placeholder);
        assert row[0] in row;
        PlaceholderReachesBase(model, row[0], placeholder);
      } else {
        CorrectReachesBase(Rescale(model, row, total), row, placeholder);
      }
    }
  }

  /** The correction brings a row with a non-placeholder component to `BASE`. */
  lemma CorrectReachesBase(model: seq<Entry>, row: seq<nat>, placeholder: Option<nat>)
    requires forall i :: i in row ==> i < |model|
    requires Unique(row) && FirstComponent(row, placeholder).Some?
    ensures RowSize(Correct(model, row, placeholder), row) == BASE
  {
    var after := RowSize(model, row);
    if after != BASE {
      var c := FirstComponent(row, placeholder).value;
      RowSizeSetSize(model, row, c, model[c].size + (BASE - after));
    }
  }

  /** A row holding only the placeholder is normalised to `BASE`. */
  lemma PlaceholderReachesBase(model: seq<Entry>, p: nat, placeholder: Option<nat>)
    requires p < |model| && Rescalable(model, [p])
    ensures RowSize(NormalizeRow(model, [p], placeholder), [p]) == BASE
  {
    RowSizeSingle(model, p);
    if model[p].size != BASE {
      var scaled := Rescale(model, [p], model[p].size);
      PlaceholderRow(model, p);
      assert Correct(scaled, [p], placeholder) == scaled;
    }
  }

  /** When the row was off `BASE`, every component except the corrected one
      holds its rounded share; the corrected one holds its rounded share plus
      what rounding left over. */
  lemma NormalizeRowSizes(model: seq<Entry>, row: seq<nat>, placeholder: Option<nat>, i: nat)
    requires forall j :: j in row ==> j < |model|
    requires Rescalable(model, row) && Unique(row) && i in row
    requires RowSize(model, row) != BASE
    ensures var total := RowSize(model, row);
            var after := RowSize(Rescale(model, row, total), row);
            var m := NormalizeRow(model, row, placeholder);
            if after != BASE && FirstComponent(row, placeholder) == Some(i)
            then m[i].size == Scaled(model[i].size, total) + (BASE - after)
            else m[i].size == Scaled(model[i].size, total)
  {
    RescaleAt(model, row, RowSize(model, row), i);
  }

  // ---------------------------------------------------------------------
  // All rows

  /** No row with components has size 0 in `model`. */
  predicate AllRescalable(model: seq<Entry>, rows: seq<seq<nat>>)
    requires InRange(model, rows)
  {
    forall k :: 0 <= k < |rows| ==> Rescalable(model, rows[k])
  }

  /** The rows can go through `adjustRows`: they name entries of the model,
      no index occurs twice, and no row with components has size 0. */
  predicate Normalizable(model: seq<Entry>, rows: seq<seq<nat>>)
  {
    InRange(model, rows) && Unique(Flatten(rows)) && AllRescalable(model, rows)
  }

  /** In `a + b` without repeats, neither part repeats and they share nothing. */
  lemma UniqueAppend(a: seq<nat>, b: seq<nat>)
    requires Unique(a + b)
    ensures Unique(a) && Unique(b)
    ensures forall i :: i in b ==> i !in a
  {
    forall i, j | 0 <= i < j < |a| ensures a[i] != a[j] {
      assert (a + b)[i] == a[i] && (a + b)[j] == a[j];
    }
    forall i, j | 0 <= i < j < |b| ensures b[i] != b[j] {
      assert (a + b)[|a| + i] == b[i] && (a + b)[|a| + j] == b[j];
    }
    forall p, q | 0 <= p < |a| && 0 <= q < |b| ensures a[p] != b[q] {
      assert (a + b)[p] == a[p] && (a + b)[|a| + q] == b[q];
    }
  }

  /** What the rows before the last and the last row inherit from the
      preconditions on all rows. */
  lemma SplitLast(model: seq<Entry>, rows: seq<seq<nat>>, init: seq<seq<nat>>, row: seq<nat>)
    requires Normalizable(model, rows)
    requires rows == init + [row]
    ensures Normalizable(model, init)
    ensures Flatten(rows) == Flatten(init) + row
    ensures Unique(row)
    ensures forall i :: i in row ==> i < |model| && i !in Flatten(init)
    ensures Rescalable(model, row)
  {
    assert init == rows[..|rows| - 1];
    assert forall k :: 0 <= k < |init| ==> init[k] == rows[k];
    UniqueAppend(Flatten(init), row);
    assert row == rows[|rows| - 1];
  }

  /** `adjustRows`' pass over the rows, first to last; each row is
      normalised in the model the earlier rows left behind. */
  function NormalizeAll(model: seq<Entry>, rows: seq<seq<nat>>, placeholder: Option<nat>): (m: seq<Entry>)
    requires Normalizable(model, rows)
    ensures |m| == |model|
    ensures forall i :: 0 <= i < |model| && i !in Flatten(rows) ==> m[i] == model[i]
    ensures forall i :: 0 <= i < |model| ==> m[i].componentId == model[i].componentId && m[i].kind == model[i].kind
  {
    if rows == [] then model
    else
      var init, row := rows[..|rows| - 1], rows[|rows| - 1];
      SplitLast(model, rows, init, row);
      var m := NormalizeAll(model, init, placeholder);
      RowSizeFrame(model, m, row);
      NormalizeRow(m, row, placeholder)
  }


  lemma NormalizablePrefix(model: seq<Entry>, rows: seq<seq<nat>>, n: nat)
    requires Normalizable(model, rows) && n <= |rows|
    ensures Normalizable(model, rows[..n])
  {
    assert forall k :: 0 <= k < n ==> rows[..n][k] == rows[k];
    assert rows == rows[..n] + rows[n..];
    FlattenAppend(rows[..n], rows[n..]);
    UniqueAppend(Flatten(rows[..n]), Flatten(rows[n..]));
  }

  /** One more row of the pass: row `r` is normalised in the model the
      first `r` rows left behind, where it still has its original size. */
  lemma NormalizeAllStep(model: seq<Entry>, rows: seq<seq<nat>>, r: nat, placeholder: Option<nat>)
    requires Normalizable(model, rows) && r < |rows|
    ensures Normalizable(model, rows[..r]) && Normalizable(model, rows[..r + 1])
    ensures forall i :: i in rows[r] ==> i < |model|
    ensures RowSize(NormalizeAll(model, rows[..r], placeholder), rows[r]) == RowSize(model, rows[r])
    ensures Rescalable(NormalizeAll(model, rows[..r], placeholder), rows[r])
    ensures NormalizeAll(model, rows[..r + 1], placeholder)
         == NormalizeRow(NormalizeAll(model, rows[..r], placeholder), rows[r], placeholder)
  {
    NormalizablePrefix(model, rows, r + 1);
    var p := rows[..r + 1];
    assert p[..r] == rows[..r] && p[r] == rows[r];
    SplitLast(model, p, rows[..r], rows[r]);
    RowSizeFrame(model, NormalizeAll(model, rows[..r], placeholder), rows[r]);
  }

  /** After the pass, every row with components sums to exactly `BASE`. */
  lemma {:induction false} NormalizeAllReachesBase(model: seq<Entry>, rows: seq<seq<nat>>, placeholder: Option<nat>, k: nat)
    requires Normalizable(model, rows)
    requires k < |rows| && rows[k] != []
    ensures forall i :: i in rows[k] ==> i < |model|
    ensures RowSize(NormalizeAll(model, rows, placeholder), rows[k]) == BASE
  {
    var n := |rows| - 1;
    var init, row := rows[..n], rows[n];
    SplitLast(model, rows, init, row);
    assert forall i :: i in rows[k] ==> i < |model|;
    var m := NormalizeAll(model, init, placeholder);
    RowSizeFrame(model, m, row);
    if k == n {
      NormalizeRowReachesBase(m, row, placeholder);
    } else {
      assert rows[k] == init[k];
      NormalizeAllReachesBase(model, init, placeholder, k);
      forall i | i in rows[k] ensures i !in row {
        InFlatten(init, k, i);
      }
      RowSizeFrame(m, NormalizeAll(model, rows, placeholder), rows[k]);
    }
  }

  /** Rows that already sum to `BASE` keep their sizes through the pass. */
  lemma {:induction false} NormalizeAllKeepsBalancedRow(model: seq<Entry>, rows: seq<seq<nat>>, placeholder: Option<nat>, k: nat, i: nat)
    requires Normalizable(model, rows)
    requires k < |rows| && i in rows[k]
    requires forall j :: j in rows[k] ==> j < |model|
    requires RowSize(model, rows[k]) == BASE
    ensures i < |model| && NormalizeAll(model, rows, placeholder)[i] == model[i]
  {
    var n := |rows| - 1;
    var init, row := rows[..n], rows[n];
    SplitLast(model, rows, init, row);
    var m := NormalizeAll(model, init, placeholder);
    RowSizeFrame(model, m, row);
    if k == n {
      assert i !in Flatten(init);
    } else {
      assert rows[k] == init[k];
      NormalizeAllKeepsBalancedRow(model, init, placeholder, k, i);
      InFlatten(init, k, i);
    }
  }

  // ---------------------------------------------------------------------
  // Removing empty rows

  /** The rows without the empty ones (`row.remove()`), in order. */
  function KeepNonEmpty(rows: seq<seq<nat>>): (r: seq<seq<nat>>)
    ensures |r| <= |rows|
    ensures forall k :: 0 <= k < |r| ==> r[k] != []
  {
    if rows == [] then []
    else
      var init := KeepNonEmpty(rows[..|rows| - 1]);
      if rows[|rows| - 1] == [] then init else init + [rows[|rows| - 1]]
  }

  /** The pass over the rows keeps row `r` exactly when it is not empty. */
  lemma KeepNonEmptyStep(rows: seq<seq<nat>>, r: nat)
    requires r < |rows|
    ensures KeepNonEmpty(rows[..r + 1])
         == KeepNonEmpty(rows[..r]) + (if rows[r] == [] then [] else [rows[r]])
  {
    assert rows[..r + 1][..r] == rows[..r];
  }

  /** Dropping empty rows changes neither the components nor their order,
      and keeps every non-empty row. */
  lemma {:induction false} KeepNonEmptyFlatten(rows: seq<seq<nat>>)
    ensures Flatten(KeepNonEmpty(rows)) == Flatten(rows)
    ensures forall row :: row in rows && row != [] ==> row in KeepNonEmpty(rows)
    ensures forall row :: row in KeepNonEmpty(rows) ==> row in rows
  {
    if rows != [] {
      var init, last := rows[..|rows| - 1], rows[|rows| - 1];
      var kept := KeepNonEmpty(init);
      KeepNonEmptyFlatten(init);
      assert rows == init + [last];
      assert forall row :: row in rows ==> row in init || row == last;
      if last == [] {
        assert Flatten(rows) == Flatten(init) + [];
      } else {
        assert KeepNonEmpty(rows) == kept + [last];
        FlattenAppend(kept, [last]);
        FlattenOne(last);
      }
    }
  }

  /** Rows with no empty row are left as they are. */
  lemma {:induction false} KeepNonEmptyIdentity(rows: seq<seq<nat>>)
    requires forall k :: 0 <= k < |rows| ==> rows[k] != []
    ensures KeepNonEmpty(rows) == rows
  {
    if rows != [] {
      KeepNonEmptyIdentity(rows[..|rows| - 1]);
      assert rows == rows[..|rows| - 1] + [rows[|rows| - 1]];
    }
  }

  // ---------------------------------------------------------------------
  // Worked examples

  lemma {:induction false} SumConstant(s: seq<int>, v: int)
    requires forall k :: 0 <= k < |s| ==> s[k] == v
    ensures Sum(s) == |s| * v
  {
    if s != [] {
      SumConstant(s[..|s| - 1], v);
    }
  }

  /** A row `[9, 9]` becomes `[12, 12]`: rounding is exact, no correction. */
  lemma TwoNines(model: seq<Entry>, row: seq<nat>)
    requires |model| == 2 && model[0].size == 9 && model[1].size == 9
    requires row == [0, 1]
    ensures RowSize(model, row) == 18
    ensures NormalizeRow(model, row, None)[0].size == 12
    ensures NormalizeRow(model, row, None)[1].size == 12
  {
    SumConstant(SizesOf(model, row), 9);
    RoundUnique(9 * BASE, 18, 12);
    var m := Rescale(model, row, 18);
    forall i | 0 <= i < 2 ensures m[i].size == 12 {
      assert i in row;
      RescaleAt(model, row, 18, i);
    }
    SumConstant(SizesOf(m, row), 12);
  }

  /** Five components of size 2 round to 5 each (25 in all); the first one
      gives the extra unit back: `[4, 5, 5, 5, 5]`. */
  lemma FiveTwos(model: seq<Entry>, row: seq<nat>)
    requires |model| == 5 && forall i :: 0 <= i < 5 ==> model[i].size == 2
    requires row == [0, 1, 2, 3, 4]
    ensures RowSize(model, row) == 10
    ensures NormalizeRow(model, row, None)[0].size == 4
    ensures forall i :: 1 <= i < 5 ==> NormalizeRow(model, row, None)[i].size == 5
  {
    SumConstant(SizesOf(model, row), 2);
    RoundUnique(2 * BASE, 10, 5);
    var m := Rescale(model, row, 10);
    forall i | 0 <= i < 5 ensures m[i].size == 5 {
      assert i in row;
      RescaleAt(model, row, 10, i);
    }
    SumConstant(SizesOf(m, row), 5);
    assert FirstComponent(row, None) == Some(0);
  }

  // ---------------------------------------------------------------------
  // The pass as written: a row removed while the rows are walked

  /** The rows `adjustRows`' loop reaches as written. It walks the live list
      of rows; removing an empty row moves the next row into the slot just
      visited, so the loop steps over that row in this pass. */
  function LiveVisited(rows: seq<seq<nat>>): (r: seq<seq<nat>>)
    ensures |r| <= |rows|
    ensures forall row :: row in r ==> row in rows
    decreases |rows|
  {
    if rows == [] then []
    else if rows[0] == [] && |rows| >= 2 then
      assert forall row :: row in rows[2..] ==> row in rows;
      [rows[0]] + LiveVisited(rows[2..])
    else
      assert forall row :: row in rows[1..] ==> row in rows;
      [rows[0]] + LiveVisited(rows[1..])
  }

  /** Without an empty row the loop as written reaches every row. */
  lemma {:induction false} LiveVisitedNoEmpty(rows: seq<seq<nat>>)
    requires forall k :: 0 <= k < |rows| ==> rows[k] != []
    ensures LiveVisited(rows) == rows
    decreases |rows|
  {
    if rows != [] {
      LiveVisitedNoEmpty(rows[1..]);
      assert rows == [rows[0]] + rows[1..];
    }
  }

  /** An emptied row followed by a row off `BASE`: entry 0 of size 12 alone
      in the second row. The loop as written removes the empty row and
      never reaches `[0]`, which keeps size 12; the pass over every row
      brings it to `BASE`. */
  lemma LiveIterationSkipsRow(model: seq<Entry>)
    requires model == [Entry(1, "image", 12)]
    ensures LiveVisited([[], [0]]) == [[]]
    ensures Normalizable(model, [[]]) && Normalizable(model, [[], [0]])
    ensures RowSize(NormalizeAll(model, LiveVisited([[], [0]]), None), [0]) == 12
    ensures RowSize(NormalizeAll(model, [[], [0]], None), [0]) == BASE
  {
    var rows: seq<seq<nat>> := [[], [0]];
    assert LiveVisited(rows[2..]) == [];
    EmptyRowPass(model, None);
    RowSizeSingle(model, 0);
    assert Normalizable(model, rows) by {
      assert Flatten(rows) == [0] by { FlattenSnoc<nat>([[]], [0]); }
    }
    NormalizeAllReachesBase(model, rows, None, 1);
  }

  /** The pass over a single empty row changes nothing. */
  lemma EmptyRowPass(model: seq<Entry>, placeholder: Option<nat>)
    ensures Normalizable(model, [[]])
    ensures NormalizeAll(model, [[]], placeholder) == model
  {
    var one: seq<seq<nat>> := [[]];
    FlattenOne<nat>([]);
    assert one[..0] == [];
  }

}
