/** Where a dragged component lands. A drop on a component moves it next to
    that component (before it when the pointer is left of the component's
    centre, after it otherwise); a drop on a row's top or bottom band moves
    it into a new row of its own before or after that row. Rows are
    sequences of model indices; emptied rows are left for normalisation. */
module Placement {
  import opened Grid

  /** Which half of the target component the pointer is over. */
  datatype Side = Before | After

  /** Which padding band of the target row the pointer is over. */
  datatype Direction = Up | Down

  /** The row with every occurrence of `x` taken out. */
  function Without(row: seq<nat>, x: nat): (r: seq<nat>)
    ensures x !in r
  {
    if row == [] then []
    else (if row[0] == x then [] else [row[0]]) + Without(row[1..], x)
  }

  /** Every row with `x` taken out: the dragged element leaves its slot. */
  function RemoveAll(rows: seq<seq<nat>>, x: nat): (r: seq<seq<nat>>)
    ensures |r| == |rows|
  {
    seq(|rows|, j requires 0 <= j < |rows| => Without(rows[j], x))
  }

  /** The row with `x` inserted next to every occurrence of `t`. */
  function InsertAt(row: seq<nat>, t: nat, x: nat, side: Side): seq<nat>
  {
    if row == [] then []
    else (if row[0] != t then [row[0]] else if side == Before then [x, t] else [t, x])
         + InsertAt(row[1..], t, x, side)
  }

  /** Every row with `x` inserted next to `t`. */
  function InsertBeside(rows: seq<seq<nat>>, t: nat, x: nat, side: Side): (r: seq<seq<nat>>)
    ensures |r| == |rows|
  {
    seq(|rows|, j requires 0 <= j < |rows| => InsertAt(rows[j], t, x, side))
  }

  /** A drop of `x` on component `t` (`reorderEvent`). A drop of a component
      on itself leaves it where it is. */
  function PlaceBeside(rows: seq<seq<nat>>, x: nat, t: nat, side: Side): seq<seq<nat>>
  {
    if x == t then rows else InsertBeside(RemoveAll(rows, x), t, x, side)
  }

  /** Position of the new row for a drop on row `j` (`rowEvent`). */
  function NewRowPosition(j: nat, dir: Direction): nat
  {
    if dir == Up then j else j + 1
  }

  /** A drop of `x` on the band of row `j`: a new row holding only `x`. */
  function PlaceInNewRow(rows: seq<seq<nat>>, x: nat, j: nat, dir: Direction): seq<seq<nat>>
    requires j < |rows|
  {
    var rest := RemoveAll(rows, x);
    var p := NewRowPosition(j, dir);
    rest[..p] + [[x]] + rest[p..]
  }

  // ---------------------------------------------------------------------
  // Counting and order lemmas about the row operations

  lemma {:induction false} WithoutAppend(a: seq<nat>, b: seq<nat>, x: nat)
    ensures Without(a + b, x) == Without(a, x) + Without(b, x)
  {
    if a != [] {
      assert (a + b)[1..] == a[1..] + b;
      WithoutAppend(a[1..], b, x);
    } else {
      assert a + b == b;
    }
  }

  lemma {:induction false} WithoutCount(row: seq<nat>, x: nat, y: nat)
    ensures multiset(Without(row, x))[y] == if y == x then 0 else multiset(row)[y]
  {
    if row != [] {
      assert row == [row[0]] + row[1..];
      WithoutCount(row[1..], x, y);
    }
  }

  lemma {:induction false} WithoutAbsent(row: seq<nat>, x: nat)
    requires x !in row
    ensures Without(row, x) == row
  {
    if row != [] {
      assert row == [row[0]] + row[1..];
      WithoutAbsent(row[1..], x);
    }
  }

  /** Taking `x` out of every row takes it out of the concatenation. */
  lemma {:induction false} FlattenRemoveAll(rows: seq<seq<nat>>, x: nat)
    ensures Flatten(RemoveAll(rows, x)) == Without(Flatten(rows), x)
  {
    if rows != [] {
      var n := |rows|;
      assert RemoveAll(rows, x)[..n - 1] == RemoveAll(rows[..n - 1], x);
      FlattenRemoveAll(rows[..n - 1], x);
      WithoutAppend(Flatten(rows[..n - 1]), rows[n - 1], x);
    }
  }

  /** Inserting `x` next to `t` and then taking `x` out again gives back
      the row without `x`. */
  lemma {:induction false} WithoutInsertAt(row: seq<nat>, t: nat, x: nat, side: Side)
    requires x != t
    ensures Without(InsertAt(row, t, x, side), x) == Without(row, x)
  {
    if row != [] {
      var head := if row[0] != t then [row[0]] else if side == Before then [x, t] else [t, x];
      WithoutAppend(head, InsertAt(row[1..], t, x, side), x);
      WithoutInsertAt(row[1..], t, x, side);
      assert Without(head, x) == Without([row[0]], x);
      WithoutAppend([row[0]], row[1..], x);
      assert row == [row[0]] + row[1..];
    }
  }

  /** Inserting next to `t` adds one `x` per occurrence of `t`. */
  lemma {:induction false} InsertAtCount(row: seq<nat>, t: nat, x: nat, side: Side, y: nat)
    requires x != t
    ensures multiset(InsertAt(row, t, x, side))[y]
         == multiset(row)[y] + (if y == x then multiset(row)[t] else 0)
  {
    if row != [] {
      assert row == [row[0]] + row[1..];
      InsertAtCount(row[1..], t, x, side, y);
    }
  }

  lemma {:induction false} RemoveAllCount(rows: seq<seq<nat>>, x: nat, y: nat)
    ensures multiset(Flatten<nat>(RemoveAll(rows, x)))[y] == if y == x then 0 else multiset(Flatten<nat>(rows))[y]
  {
    FlattenRemoveAll(rows, x);
    WithoutCount(Flatten(rows), x, y);
  }

  lemma {:induction false} InsertBesideCount(rows: seq<seq<nat>>, t: nat, x: nat, side: Side, y: nat)
    requires x != t
    ensures multiset(Flatten<nat>(InsertBeside(rows, t, x, side)))[y]
         == multiset(Flatten<nat>(rows))[y] + (if y == x then multiset(Flatten<nat>(rows))[t] else 0)
  {
    if rows != [] {
      var n := |rows|;
      assert InsertBeside(rows, t, x, side)[..n - 1] == InsertBeside(rows[..n - 1], t, x, side);
      InsertBesideCount(rows[..n - 1], t, x, side, y);
      InsertAtCount(rows[n - 1], t, x, side, y);
    }
  }

  lemma {:induction false} WithoutInsertBeside(rows: seq<seq<nat>>, t: nat, x: nat, side: Side)
    requires x != t
    ensures Without(Flatten(InsertBeside(rows, t, x, side)), x) == Without(Flatten(rows), x)
  {
    FlattenRemoveAll(InsertBeside(rows, t, x, side), x);
    FlattenRemoveAll(rows, x);
    forall j | 0 <= j < |rows|
      ensures RemoveAll(InsertBeside(rows, t, x, side), x)[j] == RemoveAll(rows, x)[j]
    {
      WithoutInsertAt(rows[j], t, x, side);
    }
    assert RemoveAll(InsertBeside(rows, t, x, side), x) == RemoveAll(rows, x);
  }

  /** When `t` occurs once, at position `k`, the insertion puts `x` right
      next to it and leaves the rest of the row alone. */
  lemma {:induction false} InsertAtSplit(row: seq<nat>, t: nat, x: nat, side: Side, k: nat)
    requires k < |row| && row[k] == t
    requires t !in row[..k] && t !in row[k + 1..]
    ensures InsertAt(row, t, x, side)
         == row[..k] + (if side == Before then [x, t] else [t, x]) + row[k + 1..]
  {
    if k == 0 {
      assert row[1..] == row[k + 1..];
      InsertAtAbsent(row[1..], t, x, side);
    } else {
      assert row[1..][..k - 1] == row[1..k];
      assert row[1..][k - 1 + 1..] == row[k + 1..];
      assert t !in row[1..k];
      InsertAtSplit(row[1..], t, x, side, k - 1);
      assert row[..k] == [row[0]] + row[1..k];
    }
  }

  lemma {:induction false} InsertAtAbsent(row: seq<nat>, t: nat, x: nat, side: Side)
    requires t !in row
    ensures InsertAt(row, t, x, side) == row
  {
    if row != [] {
      assert row == [row[0]] + row[1..];
      InsertAtAbsent(row[1..], t, x, side);
    }
  }

  // ---------------------------------------------------------------------
  // Properties of the two kinds of drop

  /** Dropping on a component keeps every component exactly once and the
      number of rows, and keeps the order of all other components. */
  lemma PlaceBesideKeepsComponents(rows: seq<seq<nat>>, x: nat, t: nat, side: Side)
    requires multiset(Flatten<nat>(rows))[x] == 1 && multiset(Flatten<nat>(rows))[t] == 1
    ensures |PlaceBeside(rows, x, t, side)| == |rows|
    ensures multiset(Flatten<nat>(PlaceBeside(rows, x, t, side))) == multiset(Flatten<nat>(rows))
    ensures Without(Flatten(PlaceBeside(rows, x, t, side)), x) == Without(Flatten(rows), x)
  {
    if x != t {
      var rest := RemoveAll(rows, x);
      var placed := InsertBeside(rest, t, x, side);
      assert placed == PlaceBeside(rows, x, t, side);
      forall y ensures multiset(Flatten<nat>(placed))[y] == multiset(Flatten<nat>(rows))[y] {
        InsertBesideCount(rest, t, x, side, y);
        RemoveAllCount(rows, x, y);
        RemoveAllCount(rows, x, t);
      }
      WithoutInsertBeside(rest, t, x, side);
      FlattenRemoveAll(rows, x);
      assert x !in Flatten(rest);
      WithoutAbsent(Flatten(rest), x);
    }
  }

  /** Dropping on a component puts it immediately before the target (left
      half) or immediately after it (right half), in the target's row. */
  lemma PlaceBesideAdjacent(rows: seq<seq<nat>>, x: nat, t: nat, side: Side)
    requires x != t
    requires Unique(Flatten(rows)) && t in Flatten(rows)
    ensures exists j, k :: 0 <= j < |PlaceBeside(rows, x, t, side)| &&
                           0 <= k && k + 1 < |PlaceBeside(rows, x, t, side)[j]| &&
                           PlaceBeside(rows, x, t, side)[j][k] == (if side == Before then x else t) &&
                           PlaceBeside(rows, x, t, side)[j][k + 1] == (if side == Before then t else x)
  {
    var j := RowOf(rows, t);
    var rest := RemoveAll(rows, x);
    var row := rest[j];
    assert t in row by {
      WithoutCount(rows[j], x, t);
      assert multiset(rows[j])[t] > 0;
    }
    var k :| 0 <= k < |row| && row[k] == t;
    UniqueWithout(rows, x, j);
    assert Unique(row);
    assert t !in row[..k] && t !in row[k + 1..];
    InsertAtSplit(row, t, x, side, k);
    var placed := PlaceBeside(rows, x, t, side);
    assert placed[j] == InsertAt(row, t, x, side);
    assert placed[j][k] == (if side == Before then x else t);
    assert placed[j][k + 1] == (if side == Before then t else x);
  }

  /** The row holding a given member of the concatenation. */
  function RowOf(rows: seq<seq<nat>>, t: nat): (j: nat)
    requires t in Flatten(rows)
    ensures j < |rows| && t in rows[j]
  {
    var n := |rows|;
    if t in rows[n - 1] then n - 1 else RowOf(rows[..n - 1], t)
  }

  /** A row of rows whose concatenation has no duplicate has none either,
      even after taking `x` out. */
  lemma UniqueWithout(rows: seq<seq<nat>>, x: nat, j: nat)
    requires Unique(Flatten(rows)) && j < |rows|
    ensures Unique(Without(rows[j], x))
  {
    FlattenSplit(rows, j);
    var pre := Flatten(rows[..j]);
    assert Unique(rows[j]) by {
      forall a, b | 0 <= a < b < |rows[j]| ensures rows[j][a] != rows[j][b] {
        assert Flatten(rows)[|pre| + a] == rows[j][a];
        assert Flatten(rows)[|pre| + b] == rows[j][b];
      }
    }
    UniqueWithoutRow(rows[j], x);
  }

  lemma {:induction false} UniqueWithoutRow(row: seq<nat>, x: nat)
    requires Unique(row)
    ensures Unique(Without(row, x))
    ensures forall y :: y in Without(row, x) ==> y in row
  {
    if row != [] {
      UniqueWithoutRow(row[1..], x);
      var rest := Without(row[1..], x);
      assert row[0] !in row[1..];
      assert row[0] !in rest;
    }
  }

  /** Taking out a component that occurs once loses exactly that component. */
  lemma WithoutOnce(s: seq<nat>, x: nat)
    requires multiset(s)[x] == 1
    ensures multiset(Without(s, x)) + multiset{x} == multiset(s)
  {
    forall y ensures (multiset(Without(s, x)) + multiset{x})[y] == multiset(s)[y] {
      WithoutCount(s, x, y);
    }
  }

  lemma FlattenInsertRow(a: seq<seq<nat>>, b: seq<seq<nat>>, x: nat)
    ensures Flatten(a + [[x]] + b) == Flatten(a) + [x] + Flatten(b)
    ensures Flatten(a + b) == Flatten(a) + Flatten(b)
  {
    FlattenAppend(a + [[x]], b);
    FlattenAppend(a, [[x]]);
    FlattenAppend(a, b);
    FlattenOne([x]);
  }

  lemma WithoutInserted(fa: seq<nat>, fb: seq<nat>, x: nat)
    requires x !in fa && x !in fb
    ensures Without(fa + [x] + fb, x) == fa + fb
  {
    var s := fa + [x];
    WithoutAppend(s, fb, x);
    assert Without(fa + [x] + fb, x) == Without(s, x) + Without(fb, x);
    WithoutAppend(fa, [x], x);
    assert Without(s, x) == Without(fa, x) + Without([x], x);
    WithoutSingle(x);
    WithoutAbsent(fa, x);
    assert fa + [] == fa;
    assert Without(s, x) == fa;
    WithoutAbsent(fb, x);
  }

  lemma WithoutSingle(x: nat)
    ensures Without([x], x) == []
  {
    assert [x][1..] == [];
  }

  /** Putting a row `[x]` between two runs of rows adds `x` to their
      concatenation and nothing else. */
  lemma InsertRowFacts(a: seq<seq<nat>>, b: seq<seq<nat>>, x: nat)
    requires x !in Flatten(a + b)
    ensures multiset(Flatten<nat>(a + [[x]] + b)) == multiset(Flatten<nat>(a + b)) + multiset{x}
    ensures Without(Flatten(a + [[x]] + b), x) == Flatten(a + b)
  {
    FlattenInsertRow(a, b, x);
    var fa, fb := Flatten(a), Flatten(b);
    assert fa + [x] + fb == (fa + fb)[..|fa|] + [x] + (fa + fb)[|fa|..];
    WithoutInserted(fa, fb, x);
  }

  /** Dropping on a row band keeps every component exactly once and the
      order of all other components. */
  lemma PlaceInNewRowKeepsComponents(rows: seq<seq<nat>>, x: nat, j: nat, dir: Direction)
    requires j < |rows|
    requires multiset(Flatten<nat>(rows))[x] == 1
    ensures multiset(Flatten<nat>(PlaceInNewRow(rows, x, j, dir))) == multiset(Flatten<nat>(rows))
    ensures Without(Flatten(PlaceInNewRow(rows, x, j, dir)), x) == Without(Flatten(rows), x)
  {
    var rest := RemoveAll(rows, x);
    var p := NewRowPosition(j, dir);
    assert rest == rest[..p] + rest[p..];
    FlattenRemoveAll(rows, x);
    InsertRowFacts(rest[..p], rest[p..], x);
    WithoutOnce(Flatten(rows), x);
  }

  /** Dropping on a row band creates exactly one new row, holding only the
      dragged component, directly before the target row ("up") or directly
      after it ("down"); taking that new row out leaves the old rows, each
      without the dragged component, in their old order. */
  lemma PlaceInNewRowShape(rows: seq<seq<nat>>, x: nat, j: nat, dir: Direction)
    requires j < |rows|
    ensures |PlaceInNewRow(rows, x, j, dir)| == |rows| + 1
    ensures PlaceInNewRow(rows, x, j, dir)[NewRowPosition(j, dir)] == [x]
    ensures dir == Up ==> PlaceInNewRow(rows, x, j, dir)[j + 1] == Without(rows[j], x)
    ensures dir == Down ==> PlaceInNewRow(rows, x, j, dir)[j] == Without(rows[j], x)
    ensures PlaceInNewRow(rows, x, j, dir)[..NewRowPosition(j, dir)]
          + PlaceInNewRow(rows, x, j, dir)[NewRowPosition(j, dir) + 1..] == RemoveAll(rows, x)
  {
    var rest := RemoveAll(rows, x);
    var p := NewRowPosition(j, dir);
    var placed := PlaceInNewRow(rows, x, j, dir);
    assert placed[..p] == rest[..p];
    assert placed[p + 1..] == rest[p..];
    assert rest == rest[..p] + rest[p..];
  }
}
