/** The row partitioner run by `initialize`: components are laid out in
    order, a new row is opened whenever the running total is 0, and the
    total is reset once it reaches BASE or more. */
module Partitioning {
  import opened Grid

  /** State of the partition loop: the rows of sizes emitted so far (the
      last one possibly still open) and the running total. */
  datatype Scan = Scan(rows: seq<seq<int>>, total: int)

  /** A running total that keeps the current row open: neither 0 nor BASE or more. */
  predicate Open(t: int)
  {
    t != 0 && t < BASE
  }

  /** The running total left after a row whose sizes add up to `t`. */
  function Carry(t: int): int
  {
    if Open(t) then t else 0
  }

  /** One iteration of the loop: a new row when the total is 0, otherwise
      the size joins the open row; the total is reset at BASE or more. */
  function Step(s: Scan, x: int): Scan
    requires s.total != 0 ==> s.rows != []
  {
    var rows := if s.total == 0 then s.rows + [[x]]
                else s.rows[..|s.rows| - 1] + [s.rows[|s.rows| - 1] + [x]];
    Scan(rows, Reset(s.total + x))
  }

  /** The running total after adding a size: back to 0 at BASE or more. */
  function Reset(t: int): int
  {
    if t >= BASE then 0 else t
  }

  /** The loop state after consuming every size of `sizes`, left to right. */
  function ScanOf(sizes: seq<int>): (r: Scan)
    ensures r.total != 0 ==> r.rows != []
  {
    if sizes == [] then Scan([], 0)
    else Step(ScanOf(sizes[..|sizes| - 1]), sizes[|sizes| - 1])
  }

  /** The rows (as sequences of sizes) that the partitioner produces. */
  function Partition(sizes: seq<int>): seq<seq<int>>
  {
    ScanOf(sizes).rows
  }

  /** Every proper, non-empty prefix of the row leaves the running total open,
      so no new row could have started inside it. */
  predicate StaysOpen(row: seq<int>)
  {
    forall k :: 0 < k < |row| ==> Open(Sum(row[..k]))
  }

  /** The shape of what the partitioner emits: non-empty rows that stay open
      until their last component, and every row but the last closed (its sum
      is 0 or at least BASE). The last row may be short. */
  predicate WellPartitioned(rows: seq<seq<int>>)
  {
    (forall j :: 0 <= j < |rows| ==> rows[j] != [] && StaysOpen(rows[j])) &&
    (forall j :: 0 <= j < |rows| - 1 ==> !Open(Sum(rows[j])))
  }

  /** The running total after the rows `rows`. */
  function TotalAfter(rows: seq<seq<int>>): int
  {
    if rows == [] then 0 else Carry(Sum(rows[|rows| - 1]))
  }

  /** The invariant of ScanInvariant survives a size that opens a new row. */
  lemma ScanStepNewRow(s: Scan, x: int)
    requires WellPartitioned(s.rows) && s.total == TotalAfter(s.rows) && s.total == 0
    ensures Flatten(Step(s, x).rows) == Flatten(s.rows) + [x]
    ensures WellPartitioned(Step(s, x).rows)
    ensures Step(s, x).total == TotalAfter(Step(s, x).rows)
  {
    var rows := Step(s, x).rows;
    SumSingle(x);
    assert rows == s.rows + [[x]];
    FlattenSnoc(s.rows, [x]);
    forall j | 0 <= j < |rows| - 1 ensures !Open(Sum(rows[j])) {
      if j == |s.rows| - 1 {
        assert Carry(Sum(s.rows[j])) == 0;
      }
    }
  }

  /** The invariant of ScanInvariant survives a size that joins the open row. */
  lemma ScanStepSameRow(s: Scan, x: int)
    requires WellPartitioned(s.rows) && s.total == TotalAfter(s.rows) && s.total != 0
    ensures s.rows != []
    ensures Flatten(Step(s, x).rows) == Flatten(s.rows) + [x]
    ensures WellPartitioned(Step(s, x).rows)
    ensures Step(s, x).total == TotalAfter(Step(s, x).rows)
  {
    var rows := Step(s, x).rows;
    var n := |s.rows|;
    var init, last := s.rows[..n - 1], s.rows[n - 1];
    assert s.rows == init + [last];
    assert rows == init + [last + [x]];
    FlattenExtendLast(s.rows, x);
    assert (last + [x])[..|last|] == last;
    assert Sum(last + [x]) == Sum(last) + x;
    forall k | 0 < k < |last + [x]| ensures Open(Sum((last + [x])[..k])) {
      if k < |last| {
        assert (last + [x])[..k] == last[..k];
      }
    }
    assert forall j :: 0 <= j < n - 1 ==> rows[j] == s.rows[j];
  }

  /** What the loop state is after any prefix: the rows give back the input
      in order, they are well partitioned, and the total is what the last
      row leaves open. */
  lemma {:induction false} ScanInvariant(sizes: seq<int>)
    ensures Flatten(ScanOf(sizes).rows) == sizes
    ensures WellPartitioned(ScanOf(sizes).rows)
    ensures ScanOf(sizes).total == TotalAfter(ScanOf(sizes).rows)
  {
    if sizes != [] {
      var p, x := sizes[..|sizes| - 1], sizes[|sizes| - 1];
      assert sizes == p + [x];
      ScanInvariant(p);
      if ScanOf(p).total == 0 {
        ScanStepNewRow(ScanOf(p), x);
      } else {
        ScanStepSameRow(ScanOf(p), x);
      }
    }
  }

  /** Consuming a row that stays open, after a prefix that ends on a closed
      row, appends exactly that row. */
  lemma {:induction false} ScanRow(p: seq<int>, done: seq<seq<int>>, r: seq<int>, k: nat)
    requires ScanOf(p) == Scan(done, 0)
    requires StaysOpen(r)
    requires 0 < k <= |r|
    ensures ScanOf(p + r[..k]) == Scan(done + [r[..k]], Carry(Sum(r[..k])))
  {
    if k == 1 {
      var q := p + r[..1];
      assert q[..|q| - 1] == p && q[|q| - 1] == r[0];
      assert r[..1] == [r[0]];
      SumSingle(r[0]);
    } else {
      ScanRow(p, done, r, k - 1);
      assert Open(Sum(r[..k - 1]));
      assert p + r[..k] == (p + r[..k - 1]) + [r[k - 1]];
      assert r[..k] == r[..k - 1] + [r[k - 1]];
      ScanExtend(p + r[..k - 1], done, r[..k - 1], r[k - 1]);
    }
  }

  /** A size that joins an open row extends it by that size. */
  lemma ScanExtend(q: seq<int>, done: seq<seq<int>>, row: seq<int>, x: int)
    requires ScanOf(q) == Scan(done + [row], Sum(row)) && Open(Sum(row))
    ensures ScanOf(q + [x]) == Scan(done + [row + [x]], Carry(Sum(row + [x])))
  {
    assert (q + [x])[..|q|] == q;
    assert (done + [row])[..|done|] == done;
    assert (row + [x])[..|row|] == row;
  }

  /** Any well-partitioned sequence of rows is exactly what the partitioner
      rebuilds from their concatenation. */
  lemma {:induction false} PartitionRebuilds(rows: seq<seq<int>>)
    requires WellPartitioned(rows)
    ensures ScanOf(Flatten(rows)) == Scan(rows, TotalAfter(rows))
  {
    if rows != [] {
      var init, r := rows[..|rows| - 1], rows[|rows| - 1];
      assert rows == init + [r];
      assert WellPartitioned(init) by {
        assert forall j :: 0 <= j < |init| ==> init[j] == rows[j];
      }
      PartitionRebuilds(init);
      if init != [] {
        assert !Open(Sum(init[|init| - 1]));
      }
      FlattenSnoc(init, r);
      assert r[..|r|] == r;
      ScanRow(Flatten(init), init, r, |r|);
    }
  }

  /** The partitioner is characterised by its output's shape: `rows` is the
      partition of `sizes` exactly when the rows concatenate back to `sizes`
      and are well partitioned. */
  lemma PartitionCharacterization(sizes: seq<int>, rows: seq<seq<int>>)
    ensures Partition(sizes) == rows <==> Flatten(rows) == sizes && WellPartitioned(rows)
  {
    ScanInvariant(sizes);
    if Flatten(rows) == sizes && WellPartitioned(rows) {
      PartitionRebuilds(rows);
    }
  }

  /** Re-running the partitioner on its own output changes nothing. */
  lemma PartitionIdempotent(sizes: seq<int>)
    ensures Partition(Flatten(Partition(sizes))) == Partition(sizes)
  {
    ScanInvariant(sizes);
  }

  lemma {:induction false} SumPositive(s: seq<int>)
    requires forall i :: 0 <= i < |s| ==> s[i] > 0
    ensures s != [] ==> Sum(s) > 0
    ensures Sum(s) >= 0
  {
    if s != [] {
      SumPositive(s[..|s| - 1]);
    }
  }

  /** With positive sizes, the partitioner cuts rows that each add up to
      exactly BASE back where they were. */
  lemma PartitionRoundTrip(rows: seq<seq<int>>)
    requires forall j, i :: 0 <= j < |rows| && 0 <= i < |rows[j]| ==> rows[j][i] > 0
    requires forall j :: 0 <= j < |rows| ==> Sum(rows[j]) == BASE
    ensures Partition(Flatten(rows)) == rows
  {
    forall j | 0 <= j < |rows| ensures rows[j] != [] && StaysOpen(rows[j]) {
      var r := rows[j];
      forall k | 0 < k < |r| ensures Open(Sum(r[..k])) {
        assert r == r[..k] + r[k..];
        SumAppend(r[..k], r[k..]);
        SumPositive(r[..k]);
        SumPositive(r[k..]);
      }
    }
    PartitionRebuilds(rows);
  }

  /** With positive sizes every row but the last reaches at least BASE, and
      only the last one may fall short. */
  lemma PartitionRowsReachBase(sizes: seq<int>)
    requires forall i :: 0 <= i < |sizes| ==> sizes[i] > 0
    ensures forall j :: 0 <= j < |Partition(sizes)| - 1 ==> Sum(Partition(sizes)[j]) >= BASE
    ensures Flatten(Partition(sizes)) == sizes
  {
    ScanInvariant(sizes);
    var rows := Partition(sizes);
    forall j | 0 <= j < |rows| - 1 ensures Sum(rows[j]) >= BASE {
      forall i | 0 <= i < |rows[j]| ensures rows[j][i] > 0 {
        InFlatten(rows, j, rows[j][i]);
      }
      SumPositive(rows[j]);
    }
  }

  /** The editor's initial sizes 9, 15, 15, 9, 9, 15 form three rows of 24. */
  lemma InitialLayoutRows(sizes: seq<int>)
    requires sizes == [9, 15, 15, 9, 9, 15]
    ensures Partition(sizes) == [[9, 15], [15, 9], [9, 15]]
  {
    var rows := [[9, 15], [15, 9], [9, 15]];
    FlattenSnoc([[9, 15], [15, 9]], [9, 15]);
    FlattenSnoc([[9, 15]], [15, 9]);
    FlattenSnoc([], [9, 15]);
    assert [[9, 15]] == [] + [[9, 15]];
    assert [9, 15][..1] == [9];
    assert [15, 9][..1] == [15];
    SumSingle(9);
    SumSingle(15);
    assert Sum([9, 15]) == 24 && Sum([15, 9]) == 24;
    assert Flatten(rows) == sizes;
    PartitionRoundTrip(rows);
  }

  /** The sizes of the components of the model, in order. */
  function Sizes(model: seq<Entry>): (s: seq<int>)
    ensures |s| == |model|
  {
    seq(|model|, i requires 0 <= i < |model| => model[i].size)
  }

  /** Rows of model indices turned into rows of sizes. */
  function SizeRows(model: seq<Entry>, rows: seq<seq<nat>>): (s: seq<seq<int>>)
    requires InRange(model, rows)
    ensures |s| == |rows|
  {
    seq(|rows|, j requires 0 <= j < |rows| => SizesOf(model, rows[j]))
  }

  lemma SizeRowsNewRow(model: seq<Entry>, rows: seq<seq<nat>>, i: nat)
    requires InRange(model, rows) && i < |model|
    ensures InRange(model, rows + [[i]])
    ensures SizeRows(model, rows + [[i]]) == SizeRows(model, rows) + [[model[i].size]]
  {
    assert SizesOf(model, [i]) == [model[i].size];
  }

  lemma SizeRowsExtend(model: seq<Entry>, rows: seq<seq<nat>>, i: nat)
    requires InRange(model, rows) && i < |model| && rows != []
    ensures InRange(model, rows[..|rows| - 1] + [rows[|rows| - 1] + [i]])
    ensures SizeRows(model, rows[..|rows| - 1] + [rows[|rows| - 1] + [i]])
         == SizeRows(model, rows)[..|rows| - 1] + [SizeRows(model, rows)[|rows| - 1] + [model[i].size]]
  {
    var n := |rows|;
    var last := rows[n - 1];
    assert forall x :: x in last + [i] ==> x in last || x == i;
    assert SizesOf(model, last + [i]) == SizesOf(model, last) + [model[i].size];
  }

  lemma ScanOfSnoc(sizes: seq<int>, k: nat)
    requires k < |sizes|
    ensures ScanOf(sizes[..k + 1]) == Step(ScanOf(sizes[..k]), sizes[k])
  {
    assert sizes[..k + 1][..k] == sizes[..k];
  }

  /** The state of the partition loop after `index` entries: the rows hold
      the indices 0 .. index - 1 in order, and their sizes together with the
      running total are what the specification's scan gives on that prefix. */
  predicate Partial(model: seq<Entry>, rows: seq<seq<nat>>, index: nat, size: int)
    requires index <= |model|
  {
    && InRange(model, rows)
    && Flatten(rows) == Iota(index)
    && ScanOf(Sizes(model)[..index]) == Scan(SizeRows(model, rows), size)
  }

  /** An iteration of the partition loop that opens a new row keeps the
      loop state in step with the specification. */
  lemma PartitionRowsNewRow(model: seq<Entry>, rows: seq<seq<nat>>, index: nat)
    requires index < |model| && Partial(model, rows, index, 0)
    ensures Partial(model, rows + [[index]], index + 1, Reset(model[index].size))
  {
    ScanOfSnoc(Sizes(model), index);
    FlattenSnoc(rows, [index]);
    SizeRowsNewRow(model, rows, index);
  }

  /** An iteration of the partition loop that extends the open row keeps
      the loop state in step with the specification. */
  lemma PartitionRowsExtend(model: seq<Entry>, rows: seq<seq<nat>>, size: int, index: nat)
    requires index < |model| && size != 0 && Partial(model, rows, index, size)
    ensures rows != []
    ensures Partial(model, rows[..|rows| - 1] + [rows[|rows| - 1] + [index]], index + 1,
                    Reset(size + model[index].size))
  {
    ScanOfSnoc(Sizes(model), index);
    FlattenExtendLast(rows, index);
    SizeRowsExtend(model, rows, index);
  }

  /** The partition loop of `initialize`: rows of model indices, the
      running total `size` and a new row whenever it is 0. */
  method PartitionRows(model: seq<Entry>) returns (rows: seq<seq<nat>>)
    ensures InRange(model, rows)
    ensures Flatten(rows) == Iota(|model|)
    ensures SizeRows(model, rows) == Partition(Sizes(model))
  {
    var size := 0;
    rows := [];
    assert Sizes(model)[..0] == [];
    for index := 0 to |model|
      invariant Partial(model, rows, index, size)
    {
      if size == 0 {
        PartitionRowsNewRow(model, rows, index);
        rows := rows + [[index]];
      } else {
        PartitionRowsExtend(model, rows, size, index);
        rows := rows[..|rows| - 1] + [rows[|rows| - 1] + [index]];
      }
      size := size + model[index].size;
      if size >= BASE {
        size := 0;
      }
    }
    assert Sizes(model)[..|model|] == Sizes(model);
  }
}
