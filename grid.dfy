/** Shared vocabulary of the grid editor: the base unit, model entries,
    rows of model indices, sums and flattening. */
module Grid {

  /** Every row of the editor is meant to add up to this many units. */
  const BASE: int := 24

  /** One entry of the editor's model array. */
  datatype Entry = Entry(componentId: int, kind: string, size: int)

  datatype Option<T> = None | Some(value: T)

  /** Left-to-right sum, the same fold as `Array.reduce((a, b) => a + b, 0)`. */
  function Sum(s: seq<int>): int
  {
    if s == [] then 0 else Sum(s[..|s| - 1]) + s[|s| - 1]
  }

  lemma SumSingle(x: int)
    ensures Sum([x]) == x
  {
    assert [x][..0] == [];
  }

  lemma {:induction false} SumAppend(a: seq<int>, b: seq<int>)
    ensures Sum(a + b) == Sum(a) + Sum(b)
  {
    if b == [] {
      assert a + b == a;
    } else {
      assert (a + b)[..|a + b| - 1] == a + b[..|b| - 1];
      SumAppend(a, b[..|b| - 1]);
    }
  }

  /** Concatenation of rows, i.e. the components in document order. */
  function Flatten<T>(rows: seq<seq<T>>): seq<T>
  {
    if rows == [] then [] else Flatten(rows[..|rows| - 1]) + rows[|rows| - 1]
  }

  lemma {:induction false} FlattenAppend<T>(a: seq<seq<T>>, b: seq<seq<T>>)
    ensures Flatten(a + b) == Flatten(a) + Flatten(b)
  {
    if b == [] {
      assert a + b == a;
    } else {
      var init, last := b[..|b| - 1], b[|b| - 1];
      assert a + b == (a + init) + [last];
      FlattenAppend(a, init);
      FlattenSnoc(a + init, last);
    }
  }

  lemma FlattenSnoc<T>(rows: seq<seq<T>>, r: seq<T>)
    ensures Flatten(rows + [r]) == Flatten(rows) + r
  {
    assert (rows + [r])[..|rows|] == rows;
  }

  /** Appending `x` to the last row appends it to the flattened rows. */
  lemma FlattenExtendLast<T>(rows: seq<seq<T>>, x: T)
    requires rows != []
    ensures Flatten(rows[..|rows| - 1] + [rows[|rows| - 1] + [x]]) == Flatten(rows) + [x]
  {
    var init, last := rows[..|rows| - 1], rows[|rows| - 1];
    FlattenSnoc(init, last + [x]);
    assert Flatten(rows) == Flatten(init) + last;
    assert Flatten(init) + (last + [x]) == (Flatten(init) + last) + [x];
  }

  lemma FlattenOne<T>(r: seq<T>)
    ensures Flatten([r]) == r
  {
    assert [r][..0] == [];
  }

  /** Flatten of a sequence split around row `j`. */
  lemma {:induction false} FlattenSplit<T>(rows: seq<seq<T>>, j: nat)
    requires j < |rows|
    ensures Flatten(rows) == Flatten(rows[..j]) + rows[j] + Flatten(rows[j + 1..])
    decreases |rows|
  {
    var n := |rows| - 1;
    var init := rows[..n];
    if j == n {
      assert rows[j + 1..] == [];
    } else {
      FlattenSplit(init, j);
      assert init[..j] == rows[..j] && init[j] == rows[j];
      var tail := rows[j + 1..];
      assert tail[..|tail| - 1] == init[j + 1..] && tail[|tail| - 1] == rows[n];
    }
  }

  /** Every member of a row is a member of the flattened rows. */
  lemma InFlatten<T>(rows: seq<seq<T>>, j: nat, x: T)
    requires j < |rows| && x in rows[j]
    ensures x in Flatten(rows)
  {
    FlattenSplit(rows, j);
  }

  /** The indices 0, 1, ..., n - 1 in order. */
  function Iota(n: nat): (r: seq<nat>)
    ensures |r| == n
  {
    if n == 0 then [] else Iota(n - 1) + [n - 1]
  }

  lemma {:induction false} IotaAt(n: nat, k: nat)
    requires k < n
    ensures Iota(n)[k] == k
  {
    if k < n - 1 {
      IotaAt(n - 1, k);
    }
  }

  /** A sequence is a permutation of the indices 0 .. n - 1. */
  ghost predicate IsPermutationOfIndices(s: seq<nat>, n: nat)
  {
    multiset(s) == multiset(Iota(n))
  }

  lemma {:induction false} IotaMultiplicity(n: nat, x: int)
    ensures multiset(Iota(n))[x] == if 0 <= x < n then 1 else 0
  {
    if n > 0 {
      IotaMultiplicity(n - 1, x);
      assert Iota(n) == Iota(n - 1) + [n - 1];
    }
  }

  /** No index occurs twice. */
  predicate Unique(s: seq<nat>)
  {
    forall i, j :: 0 <= i < j < |s| ==> s[i] != s[j]
  }

  /** A permutation of 0 .. n - 1 has no repeated index and no index outside the range. */
  lemma PermutationFacts(s: seq<nat>, n: nat)
    requires IsPermutationOfIndices(s, n)
    ensures Unique(s)
    ensures forall x :: x in s ==> x < n
    ensures |s| == n
  {
    forall x | x in s ensures x < n {
      IotaMultiplicity(n, x);
    }
    forall i, j | 0 <= i < j < |s| ensures s[i] != s[j] {
      if s[i] == s[j] {
        assert s == s[..i] + [s[i]] + s[i + 1..j] + [s[j]] + s[j + 1..];
        assert multiset(s)[s[i]] >= 2;
        IotaMultiplicity(n, s[i]);
      }
    }
    assert |multiset(s)| == |multiset(Iota(n))|;
  }

  /** Every index of every row names an entry of the model. */
  predicate InRange(model: seq<Entry>, rows: seq<seq<nat>>)
  {
    forall r, i :: 0 <= r < |rows| && i in rows[r] ==> i < |model|
  }

  /** The sizes of the components of a row, left to right. */
  function SizesOf(model: seq<Entry>, row: seq<nat>): (s: seq<int>)
    requires forall i :: i in row ==> i < |model|
    ensures |s| == |row|
  {
    seq(|row|, k requires 0 <= k < |row| => assert row[k] in row; model[row[k]].size)
  }

  /** Sum of the sizes of a row's components (`getRowSize`). */
  function RowSize(model: seq<Entry>, row: seq<nat>): int
    requires forall i :: i in row ==> i < |model|
  {
    Sum(SizesOf(model, row))
  }

  lemma InPrefix<T>(s: seq<T>, n: nat)
    requires n <= |s|
    ensures forall x :: x in s[..n] ==> x in s
  {
    forall x | x in s[..n] ensures x in s {
      var k :| 0 <= k < n && s[..n][k] == x;
      assert s[k] == x;
    }
  }

  lemma RowSizeSnoc(model: seq<Entry>, init: seq<nat>, x: nat)
    requires x < |model| && forall i :: i in init ==> i < |model|
    ensures forall i :: i in init + [x] ==> i < |model|
    ensures RowSize(model, init + [x]) == RowSize(model, init) + model[x].size
  {
    assert (init + [x])[..|init|] == init;
    assert SizesOf(model, init + [x])[..|init|] == SizesOf(model, init);
  }

  /** The model with the size of entry `i` replaced (`resizeComponent`). */
  function SetSize(model: seq<Entry>, i: nat, size: int): (m: seq<Entry>)
    requires i < |model|
    ensures |m| == |model| && m[i].size == size
    ensures m[i].componentId == model[i].componentId && m[i].kind == model[i].kind
    ensures forall j :: 0 <= j < |model| && j != i ==> m[j] == model[j]
  {
    model[i := model[i].(size := size)]
  }

  /** A row's size depends only on the sizes of its own components. */
  lemma {:induction false} RowSizeFrame(m1: seq<Entry>, m2: seq<Entry>, row: seq<nat>)
    requires forall i :: i in row ==> i < |m1| && i < |m2| && m1[i].size == m2[i].size
    ensures RowSize(m1, row) == RowSize(m2, row)
  {
    assert SizesOf(m1, row) == SizesOf(m2, row);
  }

  /** Changing one component of a row by `d` changes the row's size by `d`. */
  lemma {:induction false} RowSizeSetSize(model: seq<Entry>, row: seq<nat>, i: nat, size: int)
    requires i < |model|
    requires forall j :: j in row ==> j < |model|
    requires Unique(row) && i in row
    ensures RowSize(SetSize(model, i, size), row) == RowSize(model, row) + size - model[i].size
  {
    var m := SetSize(model, i, size);
    var init, x := row[..|row| - 1], row[|row| - 1];
    assert row == init + [x] && x in row;
    InPrefix(row, |row| - 1);
    RowSizeSnoc(model, init, x);
    RowSizeSnoc(m, init, x);
    if x == i {
      assert i !in init;
      RowSizeFrame(model, m, init);
    } else {
      assert i in init;
      RowSizeSetSize(model, init, i, size);
    }
  }
}
