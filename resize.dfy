/** The resize engine behind each splitter: on every pointer move the two
    neighbour sizes captured when the gesture started are shifted by the
    integer `delta`, and the move is applied only when both stay positive. */
module Resizing {

  /** What one pointer move does to the two neighbours of the splitter. */
  datatype Outcome = Applied(left: int, right: int) | Rejected

  /** The guard and the new sizes of a pointer move, from the sizes `left`
      and `right` captured at mousedown. */
  function Resize(left: int, right: int, delta: int): (r: Outcome)
    ensures r.Applied? <==> -right < delta < left
    ensures r.Applied? ==> r.left > 0 && r.right > 0
    ensures r.Applied? ==> r.left + r.right == left + right
    ensures r.Applied? ==> r.left == left - delta
  {
    if left - delta > 0 && right + delta > 0 then Applied(left - delta, right + delta) else Rejected
  }

  /** From positive sizes, a move back by the same delta restores them. */
  lemma ResizeUndo(left: int, right: int, delta: int)
    requires left > 0 && right > 0
    requires Resize(left, right, delta).Applied?
    ensures Resize(Resize(left, right, delta).left, Resize(left, right, delta).right, -delta)
         == Applied(left, right)
  {
  }

  /** Because every move is computed from the captured sizes, a gesture does
      not drift: after a move by `d1`, a move by `d2` from the captured sizes
      lands where a move by `d2 - d1` from the current sizes would. */
  lemma ResizeNoDrift(left: int, right: int, d1: int, d2: int)
    requires Resize(left, right, d1).Applied?
    ensures Resize(Resize(left, right, d1).left, Resize(left, right, d1).right, d2 - d1)
         == Resize(left, right, d2)
  {
  }

  /** Every split of the pair's total into two positive sizes is reachable
      by some delta. */
  lemma ResizeReachesEverySplit(left: int, right: int, target: int)
    requires 0 < target < left + right
    ensures Resize(left, right, left - target) == Applied(target, left + right - target)
  {
  }
}
