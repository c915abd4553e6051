/** The editor: the model array and the rows of the page, each row the
    model indices (`dataset.index`) of its components in document order.
    The rows are kept as the page keeps them; they are computed from the
    sizes only once, when the editor starts. */
module Editor {
  import opened Grid
  import opened Partitioning
  import opened Resizing
  import opened Placement
  import opened Normalization

  // ---------------------------------------------------------------------
  // Facts about a layout whose rows hold every model index once

  /** Every index names an entry, no index occurs twice, and every entry is
      named exactly once. */
  lemma ValidFacts(model: seq<Entry>, rows: seq<seq<nat>>)
    requires IsPermutationOfIndices(Flatten(rows), |model|)
    ensures InRange(model, rows) && Unique(Flatten(rows))
    ensures forall x: nat :: x < |model| ==> multiset(Flatten<nat>(rows))[x] == 1
  {
    PermutationFacts(Flatten(rows), |model|);
    forall r, i | 0 <= r < |rows| && i in rows[r] ensures i < |model| {
      InFlatten<nat>(rows, r, i);
    }
    forall x: nat | x < |model| ensures multiset(Flatten<nat>(rows))[x] == 1 {
      IotaMultiplicity(|model|, x);
    }
  }

  /** Every index of `order` names an entry of a model of length `n`. */
  predicate IndicesBelow(order: seq<nat>, n: nat)
  {
    forall k :: 0 <= k < |order| ==> order[k] < n
  }

  /** Every index of rows in range names an entry. */
  lemma FlattenInRange(model: seq<Entry>, rows: seq<seq<nat>>)
    requires InRange(model, rows)
    ensures IndicesBelow(Flatten(rows), |model|)
  {
    if rows != [] {
      var init := rows[..|rows| - 1];
      assert forall r :: 0 <= r < |init| ==> init[r] == rows[r];
      FlattenInRange(model, init);
      var last := rows[|rows| - 1];
      assert forall k :: 0 <= k < |last| ==> last[k] in rows[|rows| - 1];
    }
  }

  // ---------------------------------------------------------------------
  // Resizing a pair of neighbours

  /** A splitter grabbed at mousedown: the model indices of its left and
      right neighbours and their sizes at that moment. */
  datatype Grip = Grip(left: nat, right: nat, leftSize: int, rightSize: int)

  /** The model after one pointer move of a gesture that started with `g`
      (`resizeComponent` on both neighbours, or nothing). */
  function ResizeModel(model: seq<Entry>, g: Grip, delta: int): (m: seq<Entry>)
    requires g.left < |model| && g.right < |model|
    ensures |m| == |model|
    ensures forall i :: 0 <= i < |model| && i != g.left && i != g.right ==> m[i] == model[i]
  {
    match Resize(g.leftSize, g.rightSize, delta)
    case Applied(l, r) => SetSize(SetSize(model, g.left, l), g.right, r)
    case Rejected => model
  }

  /** A move leaves the size of every row unchanged when the grip's two
      sizes still add up to what the two neighbours hold (in particular on
      the first move of a gesture): a row holding both neighbours keeps its
      sum, a row holding neither is not touched. */
  lemma ResizeKeepsRowSize(model: seq<Entry>, row: seq<nat>, g: Grip, delta: int)
    requires forall i :: i in row ==> i < |model|
    requires g.left < |model| && g.right < |model| && g.left != g.right
    requires Unique(row) && (g.left in row <==> g.right in row)
    requires g.leftSize + g.rightSize == model[g.left].size + model[g.right].size
    ensures RowSize(ResizeModel(model, g, delta), row) == RowSize(model, row)
  {
    match Resize(g.leftSize, g.rightSize, delta)
    case Applied(l, r) =>
      var m1 := SetSize(model, g.left, l);
      if g.left in row {
        RowSizeSetSize(model, row, g.left, l);
        RowSizeSetSize(m1, row, g.right, r);
      } else {
        RowSizeFrame(model, m1, row);
        RowSizeFrame(m1, SetSize(m1, g.right, r), row);
      }
    case Rejected =>
  }

  /** A rejected move changes no size; an applied one sets the left
      neighbour to the captured size minus `delta`. */
  lemma ResizeModelSizes(model: seq<Entry>, g: Grip, delta: int)
    requires g.left < |model| && g.right < |model| && g.left != g.right
    ensures !(-g.rightSize < delta < g.leftSize) ==> ResizeModel(model, g, delta) == model
    ensures -g.rightSize < delta < g.leftSize ==>
              ResizeModel(model, g, delta)[g.left].size == g.leftSize - delta &&
              ResizeModel(model, g, delta)[g.right].size == g.rightSize + delta
  {
  }

  // ---------------------------------------------------------------------
  // Committing the order of the page to the model

  /** The model entries in the order the page shows them (`newModel`). */
  function Reorder(model: seq<Entry>, order: seq<nat>): (m: seq<Entry>)
    requires IndicesBelow(order, |model|)
    ensures |m| == |order|
    ensures forall k :: 0 <= k < |order| ==> m[k] == model[order[k]]
  {
    seq(|order|, k requires 0 <= k < |order| => model[order[k]])
  }

  /** The indices `start`, `start + 1`, ... of one row after renumbering. */
  function Run(start: nat, len: nat): (s: seq<nat>)
    ensures |s| == len
    ensures forall i :: 0 <= i < len ==> s[i] == start + i
  {
    seq(len, i requires 0 <= i < len => start + i)
  }

  /** The rows renumbered in document order (`component.dataset.index = newIndex`). */
  function Numbered(rows: seq<seq<nat>>): (r: seq<seq<nat>>)
    ensures |r| == |rows|
    ensures forall j :: 0 <= j < |rows| ==> r[j] == Run(|Flatten(rows[..j])|, |rows[j]|)
  {
    seq(|rows|, j requires 0 <= j < |rows| => Run(|Flatten(rows[..j])|, |rows[j]|))
  }

  lemma IotaRun(a: nat, b: nat)
    ensures Iota(a + b) == Iota(a) + Run(a, b)
  {
    forall k | 0 <= k < a + b ensures Iota(a + b)[k] == (Iota(a) + Run(a, b))[k] {
      IotaAt(a + b, k);
      if k < a {
        IotaAt(a, k);
      }
    }
  }

  lemma NumberedPrefix(rows: seq<seq<nat>>, n: nat)
    requires n <= |rows|
    ensures Numbered(rows)[..n] == Numbered(rows[..n])
  {
    forall j | 0 <= j < n ensures Numbered(rows)[..n][j] == Numbered(rows[..n])[j] {
      assert rows[..n][..j] == rows[..j];
    }
  }

  /** After renumbering, the page lists the indices 0, 1, ... in order. */
  lemma {:induction false} NumberedFlatten(rows: seq<seq<nat>>)
    ensures Flatten(Numbered(rows)) == Iota(|Flatten(rows)|)
  {
    if rows != [] {
      var n := |rows| - 1;
      NumberedPrefix(rows, n);
      NumberedFlatten(rows[..n]);
      IotaRun(|Flatten(rows[..n])|, |rows[n]|);
    }
  }

  /** Each component still shows the entry it showed before the commit:
      its new index names, in the new model, the entry its old index named. */
  lemma CommitKeepsEntry(model: seq<Entry>, rows: seq<seq<nat>>, j: nat, i: nat)
    requires InRange(model, rows)
    requires j < |rows| && i < |rows[j]|
    ensures IndicesBelow(Flatten(rows), |model|)
    ensures Numbered(rows)[j][i] < |Flatten<nat>(rows)| && rows[j][i] < |model|
    ensures Reorder(model, Flatten(rows))[Numbered(rows)[j][i]] == model[rows[j][i]]
  {
    FlattenInRange(model, rows);
    var order := Flatten<nat>(rows);
    FlattenSplit<nat>(rows, j);
    var a := Flatten<nat>(rows[..j]);
    var p := |a| + i;
    assert Numbered(rows)[j] == Run(|a|, |rows[j]|);
    IndexMiddle(a, rows[j], Flatten<nat>(rows[j + 1..]), i);
    assert rows[j][i] in rows[j];
  }

  lemma IndexMiddle<T>(a: seq<T>, r: seq<T>, c: seq<T>, i: nat)
    requires i < |r|
    ensures (a + r + c)[|a| + i] == r[i]
  {
  }

  /** Taking the index at position `p` out of an order takes its entry out
      of the reordered model. */
  lemma ReorderRemove(model: seq<Entry>, b: seq<nat>, p: nat)
    requires IndicesBelow(b, |model|) && p < |b|
    ensures IndicesBelow(b[..p] + b[p + 1..], |model|)
    ensures multiset(b) == multiset(b[..p] + b[p + 1..]) + multiset{b[p]}
    ensures multiset(Reorder(model, b))
         == multiset(Reorder(model, b[..p] + b[p + 1..])) + multiset{model[b[p]]}
  {
    var u, x, v := b[..p], b[p], b[p + 1..];
    assert b == (u + [x]) + v;
    ReorderAppend(model, u + [x], v);
    ReorderAppend(model, u, [x]);
    ReorderAppend(model, u, v);
    var ru, rv := Reorder(model, u), Reorder(model, v);
    assert Reorder(model, [x]) == [model[x]];
    assert multiset(ru + [model[x]] + rv) == multiset(ru + rv) + multiset{model[x]};
    assert multiset(u + [x] + v) == multiset(u + v) + multiset{x};
  }

  lemma ReorderAppend(model: seq<Entry>, u: seq<nat>, v: seq<nat>)
    requires IndicesBelow(u + v, |model|)
    ensures IndicesBelow(u, |model|) && IndicesBelow(v, |model|)
    ensures Reorder(model, u + v) == Reorder(model, u) + Reorder(model, v)
  {
    assert forall k :: 0 <= k < |u| ==> u[k] == (u + v)[k];
    assert forall k :: 0 <= k < |v| ==> v[k] == (u + v)[|u| + k];
  }

  /** Reordering by two orders with the same indices gives the same entries. */
  lemma {:induction false} ReorderSameIndices(model: seq<Entry>, a: seq<nat>, b: seq<nat>)
    requires IndicesBelow(a, |model|) && IndicesBelow(b, |model|)
    requires multiset(a) == multiset(b)
    ensures multiset(Reorder(model, a)) == multiset(Reorder(model, b))
    decreases |a|
  {
    if a == [] {
      assert |b| == |multiset(b)| == 0;
    } else {
      var n := |a| - 1;
      ReorderRemove(model, a, n);
      assert a[..n] + a[n + 1..] == a[..n];
      assert a[n] in multiset(b);
      var p :| 0 <= p < |b| && b[p] == a[n];
      ReorderRemove(model, b, p);
      var ma, mb := multiset(a[..n]), multiset(b[..p] + b[p + 1..]);
      assert ma == mb by {
        assert ma + multiset{a[n]} == mb + multiset{a[n]};
        forall y ensures ma[y] == mb[y] {
          assert (ma + multiset{a[n]})[y] == (mb + multiset{a[n]})[y];
        }
      }
      ReorderSameIndices(model, a[..n], b[..p] + b[p + 1..]);
    }
  }

  /** The model in the order of the identity is the model itself. */
  lemma ReorderIdentity(model: seq<Entry>)
    ensures IndicesBelow(Iota(|model|), |model|)
    ensures Reorder(model, Iota(|model|)) == model
  {
    forall k | 0 <= k < |model| ensures Iota(|model|)[k] == k {
      IotaAt(|model|, k);
    }
  }

  /** When every entry is on the page exactly once, the committed model is
      a permutation of the old one. */
  lemma ReorderPermutation(model: seq<Entry>, order: seq<nat>)
    requires IsPermutationOfIndices(order, |model|)
    ensures IndicesBelow(order, |model|)
    ensures multiset(Reorder(model, order)) == multiset(model)
  {
    PermutationFacts(order, |model|);
    assert forall k :: 0 <= k < |order| ==> order[k] in order;
    ReorderIdentity(model);
    ReorderSameIndices(model, order, Iota(|model|));
  }

  /** Committing twice is committing once: after a commit the page lists
      0, 1, ... in order, so a second one renumbers nothing and moves nothing. */
  lemma CommitIdempotent(model: seq<Entry>, rows: seq<seq<nat>>)
    requires InRange(model, rows)
    ensures Numbered(Numbered(rows)) == Numbered(rows)
    ensures IndicesBelow(Flatten(rows), |model|)
    ensures Flatten(Numbered(rows)) == Iota(|Reorder(model, Flatten(rows))|)
  {
    FlattenInRange(model, rows);
    NumberedFlatten(rows);
    var nr := Numbered(rows);
    forall j | 0 <= j < |rows| ensures Numbered(nr)[j] == nr[j] {
      NumberedPrefix(rows, j);
      NumberedFlatten(rows[..j]);
    }
  }

  // ---------------------------------------------------------------------
  // The editor

  /** The state of `adjustRows`' loop after its first `r` rows: the model
      is the pass over those rows, and `kept` holds their non-empty ones. */
  ghost predicate PassState(model0: seq<Entry>, rows: seq<seq<nat>>, r: nat, placeholder: Option<nat>,
                            model: seq<Entry>, kept: seq<seq<nat>>)
    requires Normalizable(model0, rows) && r <= |rows|
  {
    NormalizablePrefix(model0, rows, r);
    && model == NormalizeAll(model0, rows[..r], placeholder)
    && kept == KeepNonEmpty(rows[..r])
    && Flatten(kept) == Flatten(rows[..r])
  }

  /** One iteration of `adjustRows`' loop: row `r` can be normalised in the
      current model, and doing so (when it has components) keeps the loop
      state in step with the pass. */
  lemma PassStep(model0: seq<Entry>, rows: seq<seq<nat>>, r: nat, placeholder: Option<nat>,
                 model: seq<Entry>, kept: seq<seq<nat>>)
    requires Normalizable(model0, rows) && r < |rows|
    requires PassState(model0, rows, r, placeholder, model, kept)
    ensures forall i :: i in rows[r] ==> i < |model|
    ensures Rescalable(model, rows[r])
    ensures PassState(model0, rows, r + 1, placeholder,
                      if rows[r] == [] then model else NormalizeRow(model, rows[r], placeholder),
                      if rows[r] == [] then kept else kept + [rows[r]])
  {
    NormalizeAllStep(model0, rows, r, placeholder);
    KeepNonEmptyStep(rows, r);
    assert rows[..r + 1] == rows[..r] + [rows[r]];
    FlattenSnoc(rows[..r], rows[r]);
    FlattenSnoc(kept, rows[r]);
  }

  class Layout {
    /** The model array: one entry per component. */
    var model: seq<Entry>
    /** The rows of the page, each the model indices of its components. */
    var rows: seq<seq<nat>>

    /** The page shows every entry of the model exactly once. */
    ghost predicate Valid()
      reads this
    {
      IsPermutationOfIndices(Flatten(rows), |model|)
    }

    /** `initialize`: one component per entry, in model order, cut into
        rows by the running total. */
    constructor (initial: seq<Entry>)
      ensures model == initial
      ensures InRange(model, rows)
      ensures Flatten(rows) == Iota(|model|)
      ensures SizeRows(model, rows) == Partition(Sizes(model))
      ensures Valid()
    {
      var r := PartitionRows(initial);
      model := initial;
      rows := r;
    }

    /** One pointer move of a resize gesture (`mousemove` with the sizes
        captured at `mousedown` in `g`). */
    method ResizeMove(g: Grip, delta: int)
      requires g.left < |model| && g.right < |model|
      modifies this
      ensures rows == old(rows)
      ensures model == ResizeModel(old(model), g, delta)
      ensures Valid() <==> old(Valid())
    {
      match Resize(g.leftSize, g.rightSize, delta)
      case Applied(l, r) =>
        model := SetSize(model, g.left, l);
        model := SetSize(model, g.right, r);
      case Rejected =>
    }

    /** `adjustRows`' inner loop: every component of `row` rescaled by the
        row's size `total`, left to right. */
    method RescaleRow(row: seq<nat>, total: int)
      requires total != 0 && forall i :: i in row ==> i < |model|
      modifies this
      ensures rows == old(rows)
      ensures model == Rescale(old(model), row, total)
    {
      for j := 0 to |row|
        invariant rows == old(rows) && |model| == |old(model)|
        invariant forall i :: i in row[..j] ==> i < |old(model)|
        invariant model == Rescale(old(model), row[..j], total)
      {
        assert row[j] in row && row[..j + 1] == row[..j] + [row[j]];
        var c := row[j];
        model := SetSize(model, c, Round(model[c].size * BASE, total));
      }
      assert row[..|row|] == row;
    }

    /** `adjustRows`' correction of one row after rescaling. */
    method CorrectRow(row: seq<nat>, placeholder: Option<nat>)
      requires forall i :: i in row ==> i < |model|
      modifies this
      ensures rows == old(rows)
      ensures model == Correct(old(model), row, placeholder)
    {
      var rowSize := RowSize(model, row);
      if rowSize != BASE {
        match FirstComponent(row, placeholder)
        case None =>
        case Some(c) =>
          model := SetSize(model, c, model[c].size + (BASE - rowSize));
      }
    }

    /** `adjustRows` on one row that has components. */
    method NormalizeOne(row: seq<nat>, placeholder: Option<nat>)
      requires row != [] && forall i :: i in row ==> i < |model|
      requires Rescalable(model, row)
      modifies this
      ensures rows == old(rows)
      ensures model == NormalizeRow(old(model), row, placeholder)
    {
      var rowSize := RowSize(model, row);
      if rowSize != BASE {
        RescaleRow(row, rowSize);
        CorrectRow(row, placeholder);
      }
    }

    /** One iteration of `adjustRows`' loop, on row `r` of the rows `all`
        the pass started from: the row is normalised when it has components
        and kept exactly then. */
    method NormalizeAt(all: seq<seq<nat>>, model0: seq<Entry>, r: nat, placeholder: Option<nat>,
                       kept: seq<seq<nat>>) returns (next: seq<seq<nat>>)
      requires Normalizable(model0, all) && r < |all|
      requires PassState(model0, all, r, placeholder, model, kept)
      modifies this
      ensures rows == old(rows)
      ensures PassState(model0, all, r + 1, placeholder, model, next)
    {
      PassStep(model0, all, r, placeholder, model, kept);
      var row := all[r];
      next := kept;
      if row != [] {
        next := kept + [row];
        NormalizeOne(row, placeholder);
      }
    }

    /** `adjustRows`: empty rows are removed and every row is brought back
        to `BASE`, first row to last. */
    method Normalize(placeholder: Option<nat>)
      requires Normalizable(model, rows)
      modifies this
      ensures model == NormalizeAll(old(model), old(rows), placeholder)
      ensures rows == KeepNonEmpty(old(rows))
      ensures |model| == |old(model)| && Flatten(rows) == Flatten(old(rows))
    {
      var all, model0 := rows, model;
      var kept: seq<seq<nat>> := [];
      var r := 0;
      while r < |all|
        invariant r <= |all| && Normalizable(model0, all)
        invariant PassState(model0, all, r, placeholder, model, kept)
      {
        kept := NormalizeAt(all, model0, r, placeholder, kept);
        r := r + 1;
      }
      assert all[..|all|] == all;
      rows := kept;
    }

    /** A drop of component `x` on component `t`, on the side of `t` the
        pointer is over (`reorderEvent`'s `dragover`), followed by
        `adjustRows` with `x` as the placeholder. */
    method DragOverComponent(x: nat, t: nat, side: Side)
      requires Valid() && x < |model| && t < |model|
      requires Normalizable(model, PlaceBeside(rows, x, t, side))
      modifies this
      ensures rows == KeepNonEmpty(PlaceBeside(old(rows), x, t, side))
      ensures model == NormalizeAll(old(model), PlaceBeside(old(rows), x, t, side), Some(x))
      ensures Valid()
    {
      ValidFacts(model, rows);
      PlaceBesideKeepsComponents(rows, x, t, side);
      rows := PlaceBeside(rows, x, t, side);
      Normalize(Some(x));
    }

    /** A drop of component `x` on the top (`Up`) or bottom (`Down`) band
        of row `j` (`rowEvent`'s `dragover`): `x` moves to a new row of
        its own, then `adjustRows` runs with `x` as the placeholder. */
    method DragOverRow(x: nat, j: nat, dir: Direction)
      requires Valid() && x < |model| && j < |rows|
      requires Normalizable(model, PlaceInNewRow(rows, x, j, dir))
      modifies this
      ensures rows == KeepNonEmpty(PlaceInNewRow(old(rows), x, j, dir))
      ensures model == NormalizeAll(old(model), PlaceInNewRow(old(rows), x, j, dir), Some(x))
      ensures Valid()
    {
      ValidFacts(model, rows);
      PlaceInNewRowKeepsComponents(rows, x, j, dir);
      rows := PlaceInNewRow(rows, x, j, dir);
      Normalize(Some(x));
    }

    /** `updateModel`: the model is rebuilt in the order of the page and
        every component is renumbered to its position in that order. */
    method Commit()
      requires InRange(model, rows)
      modifies this
      ensures IndicesBelow(Flatten(old(rows)), |old(model)|)
      ensures model == Reorder(old(model), Flatten(old(rows)))
      ensures rows == Numbered(old(rows))
      ensures Valid()
    {
      var order := Flatten(rows);
      FlattenInRange(model, rows);
      var newModel: seq<Entry> := [];
      for k := 0 to |order|
        invariant newModel == Reorder(model, order[..k])
      {
        assert order[..k + 1] == order[..k] + [order[k]];
        newModel := newModel + [model[order[k]]];
      }
      assert order[..|order|] == order;
      NumberedFlatten(rows);
      model := newModel;
      rows := Numbered(rows);
    }
  }
}
