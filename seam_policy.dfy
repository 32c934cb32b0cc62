/** The decision rules of the seam search, on plain energies: the four-way
    cascade that picks the next offset of a seam, and the rule that keeps the
    first cheapest start. */
module SeamPolicy {

  /** One step of a trace: the offset change (-1, 0 or +1) and the energy of
      the chosen neighbour. */
  datatype Move = Move(delta: int, cost: int)

  function Min3(a: int, b: int, c: int): int {
    if a <= b && a <= c then a else if b <= c then b else c
  }

  /** The cascade of the vertical trace over the energies of the left
      (-1), middle (0) and right (+1) neighbours in the next row. It takes
      the cheapest neighbour, prefers the middle whenever the middle is
      cheapest, and breaks a tie between the two sides in favour of the right. */
  function VerticalStep(left: int, middle: int, right: int): (m: Move)
    ensures -1 <= m.delta <= 1
    ensures m.cost == (if m.delta == -1 then left else if m.delta == 0 then middle else right)
    ensures m.cost == Min3(left, middle, right)
    ensures m.delta == 0 ==> middle == Min3(left, middle, right)
    ensures middle == Min3(left, middle, right) ==> m.delta == 0
    ensures middle != Min3(left, middle, right) ==> m.delta == (if right <= left then 1 else -1)
  {
    if middle < left then
      if middle <= right then Move(0, middle) else Move(1, right)
    else if middle < right then
      if middle <= left then Move(0, middle) else Move(-1, left)
    else if middle > left || middle > right then
      if right <= left then Move(1, right) else Move(-1, left)
    else
      Move(0, middle)
  }

  /** The cascade of the horizontal trace over the energies of the top
      (-1), middle (0) and bottom (+1) neighbours in the next column. It
      differs from VerticalStep in one case only: a tie between the two sides
      below the middle goes to the top. */
  function HorizontalStep(top: int, middle: int, bottom: int): (m: Move)
    ensures -1 <= m.delta <= 1
    ensures m.cost == (if m.delta == -1 then top else if m.delta == 0 then middle else bottom)
    ensures m.cost == Min3(top, middle, bottom)
    ensures m.delta == 0 ==> middle == Min3(top, middle, bottom)
    ensures middle == Min3(top, middle, bottom) ==> m.delta == 0
    ensures middle != Min3(top, middle, bottom) ==> m.delta == (if top <= bottom then -1 else 1)
  {
    if middle < top then
      if middle <= bottom then Move(0, middle) else Move(1, bottom)
    else if middle < bottom then
      if middle <= top then Move(0, middle) else Move(-1, top)
    else if middle > top || middle > bottom then
      if top <= bottom then Move(-1, top) else Move(1, bottom)
    else
      Move(0, middle)
  }

  /** The two cascades choose the same move except when the sides tie
      strictly below the middle; then the vertical one goes to +1 and the
      horizontal one to -1. */
  lemma StepsDifferOnlyOnSideTie(a: int, middle: int, b: int)
    ensures a == b && a < middle ==>
      VerticalStep(a, middle, b) == Move(1, b) && HorizontalStep(a, middle, b) == Move(-1, a)
    ensures !(a == b && a < middle) ==> VerticalStep(a, middle, b) == HorizontalStep(a, middle, b)
  {
  }

  /** The index the best-start loop of the search ends on: starts are tried
      in order and a later one replaces the best only when strictly cheaper.
      The result is the first index of a minimal cost. */
  function FirstMinIndex(costs: seq<int>): (k: int)
    requires |costs| > 0
    ensures 0 <= k < |costs|
    ensures forall j :: 0 <= j < |costs| ==> costs[k] <= costs[j]
    ensures forall j :: 0 <= j < k ==> costs[k] < costs[j]
    decreases |costs|
  {
    if |costs| == 1 then 0
    else
      var k := FirstMinIndex(costs[..|costs| - 1]);
      if costs[|costs| - 1] < costs[k] then |costs| - 1 else k
  }

  /** Trying one more cost replaces the first minimum only when the new
      cost is strictly smaller. */
  lemma FirstMinIndexExtend(costs: seq<int>, n: int)
    requires 1 <= n < |costs|
    ensures FirstMinIndex(costs[..n + 1]) ==
      var k := FirstMinIndex(costs[..n]);
      if costs[n] < costs[k] then n else k
  {
    assert costs[..n + 1][..n] == costs[..n];
  }

  /** Being a minimum and the first one determines the index. */
  lemma FirstMinIndexUnique(costs: seq<int>, k: int)
    requires 0 <= k < |costs|
    requires forall j :: 0 <= j < |costs| ==> costs[k] <= costs[j]
    requires forall j :: 0 <= j < k ==> costs[k] < costs[j]
    ensures FirstMinIndex(costs) == k
  {
  }
}
