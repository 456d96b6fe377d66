/**
 * The snake and its movement. The body is a delta chain: each element is
 * the offset from the previous segment (the first from the head), so the
 * absolute cells are recovered by walking the chain from the head.
 */
module Snakes {
  import opened Vectors

  const Width: int := 40
  const Height: int := 40
  const InitBodyLength: nat := 8

  datatype Snake = Snake(head: Vec, body: seq<Vec>)

  /** The starting snake: head at the grid centre, body hanging straight down. */
  const Init: Snake := Snake(
    Vec(Width / 2, Height / 2),
    [Vec(0, 1), Vec(0, 1), Vec(0, 1), Vec(0, 1), Vec(0, 1), Vec(0, 1), Vec(0, 1), Vec(0, 1)])

  /** `body.slice(0, -1)`: everything but the last element, and empty for an empty body. */
  function DropLast(body: seq<Vec>): (r: seq<Vec>)
    ensures |r| == if |body| == 0 then 0 else |body| - 1
    ensures forall i :: 0 <= i < |r| ==> r[i] == body[i]
  {
    if |body| == 0 then [] else body[..|body| - 1]
  }

  /**
   * One step: the head moves by `step`, the offset back to the old head is
   * pushed on the front of the body and the tail offset falls off.
   */
  function Move(s: Snake, step: Vec): (r: Snake)
    ensures r.head == Add(s.head, step)
    ensures |s.body| > 0 ==> |r.body| == |s.body|
    ensures |s.body| == 0 ==> r.body == [Neg(step)]
    ensures Add(r.head, r.body[0]) == s.head
    ensures forall i :: 0 < i < |r.body| ==> r.body[i] == s.body[i - 1]
  {
    Snake(Add(s.head, step), [Neg(step)] + DropLast(s.body))
  }

  /** Starting at `from`, add each delta in turn and record every point reached. */
  function Walk(from: Vec, deltas: seq<Vec>): (r: seq<Vec>)
    ensures |r| == |deltas|
    ensures |deltas| > 0 ==> r[0] == Add(from, deltas[0])
    ensures forall i :: 0 < i < |r| ==> r[i] == Add(r[i - 1], deltas[i])
    decreases |deltas|
  {
    if |deltas| == 0 then []
    else
      var p := Add(from, deltas[0]);
      [p] + Walk(p, deltas[1..])
  }

  /**
   * The absolute cells of a snake, head first: a walk from the head over a
   * zero offset followed by the body.
   */
  function Positions(s: Snake): (r: seq<Vec>)
    ensures |r| == |s.body| + 1
    ensures r[0] == s.head
    ensures forall i :: 0 <= i < |s.body| ==> r[i + 1] == Add(r[i], s.body[i])
  {
    var deltas := [Zero] + s.body;
    var r := Walk(s.head, deltas);
    assert forall i :: 0 <= i < |s.body| ==> deltas[i + 1] == s.body[i];
    r
  }

  /** Cell `i` is the head displaced by the first `i` body offsets. */
  lemma {:induction false} PositionIsPrefixSum(s: Snake, i: nat)
    requires i <= |s.body|
    ensures Positions(s)[i] == Add(s.head, Sum(s.body[..i]))
  {
    if i > 0 {
      PositionIsPrefixSum(s, i - 1);
      SumPrefixStep(s.body, i - 1);
    }
  }

  lemma {:induction false} MoveShiftsPosition(s: Snake, step: Vec, k: nat)
    requires k < |Move(s, step).body|
    ensures Positions(Move(s, step))[k + 1] == Positions(s)[k]
  {
    if k > 0 {
      MoveShiftsPosition(s, step, k - 1);
    }
  }

  /**
   * After a move the cells are the new head followed by the old cells
   * without the last one; in particular the old head is the second cell.
   */
  lemma PositionsAfterMove(s: Snake, step: Vec)
    ensures |s.body| > 0 ==> Positions(Move(s, step)) == [Add(s.head, step)] + Positions(s)[..|s.body|]
    ensures |s.body| == 0 ==> Positions(Move(s, step)) == [Add(s.head, step), s.head]
    ensures Positions(Move(s, step))[1] == s.head
  {
    var m := Move(s, step);
    var n, p := Positions(m), Positions(s);
    forall k | 0 <= k < |m.body|
      ensures n[k + 1] == p[k]
    {
      MoveShiftsPosition(s, step, k);
    }
    if |s.body| > 0 {
      assert n == [Add(s.head, step)] + p[..|s.body|];
    } else {
      assert n == [Add(s.head, step), s.head];
    }
  }

  /** The worked example: the start snake moved one cell right. */
  lemma MoveExample()
    ensures Move(Init, Vec(1, 0))
         == Snake(Vec(21, 20), [Vec(-1, 0), Vec(0, 1), Vec(0, 1), Vec(0, 1), Vec(0, 1), Vec(0, 1), Vec(0, 1), Vec(0, 1)])
  {
  }

  /**
   * The snakes the movement fold emits: the start snake, then one snake per
   * step, each the previous one moved by that step.
   */
  function Trail(start: Snake, steps: seq<Vec>): (r: seq<Snake>)
    ensures |r| == |steps| + 1
    ensures r[0] == start
    ensures forall i :: 0 <= i < |steps| ==> r[i + 1] == Move(r[i], steps[i])
  {
    if |steps| == 0 then [start]
    else
      var prev := Trail(start, steps[..|steps| - 1]);
      prev + [Move(prev[|steps| - 1], steps[|steps| - 1])]
  }

  /**
   * Each snake of a trail has its head one step from the previous head, and
   * unless a step undoes the one before it the head never returns to the
   * cell it held two steps earlier.
   */
  lemma TrailNeverTurnsBack(start: Snake, steps: seq<Vec>, i: nat)
    requires 0 < i <= |steps|
    requires i > 1 ==> steps[i - 1] != Neg(steps[i - 2])
    ensures var s := Trail(start, steps); s[i].head == Add(s[i - 1].head, steps[i - 1])
    ensures var s := Trail(start, steps); i > 1 ==> s[i].head != s[i - 2].head
  {
  }

  /** A non-empty body never changes length: eating does not grow the snake. */
  lemma {:induction false} TrailKeepsLength(start: Snake, steps: seq<Vec>, i: nat)
    requires |start.body| > 0 && i <= |steps|
    ensures |Trail(start, steps)[i].body| == |start.body|
  {
    if i > 0 {
      TrailKeepsLength(start, steps, i - 1);
    }
  }

  /** The head after `i` steps is the start head plus the first `i` steps. */
  lemma {:induction false} TrailHead(start: Snake, steps: seq<Vec>, i: nat)
    requires i <= |steps|
    ensures Trail(start, steps)[i].head == Add(start.head, Sum(steps[..i]))
  {
    if i > 0 {
      TrailHead(start, steps, i - 1);
      SumPrefixStep(steps, i - 1);
    }
  }

  /**
   * The body is a sliding window over the negated steps: after `i` steps
   * its `j`-th offset undoes step `i - 1 - j`, or is the start body's
   * offset `j - i` when fewer than `j + 1` steps have been taken.
   */
  lemma {:induction false} BodyIsWindow(start: Snake, steps: seq<Vec>, i: nat, j: nat)
    requires |start.body| > 0 && i <= |steps| && j < |start.body|
    ensures |Trail(start, steps)[i].body| == |start.body|
    ensures Trail(start, steps)[i].body[j] == if j < i then Neg(steps[i - 1 - j]) else start.body[j - i]
  {
    TrailKeepsLength(start, steps, i);
    if i > 0 {
      var s := Trail(start, steps);
      assert s[i] == Move(s[i - 1], steps[i - 1]);
      TrailKeepsLength(start, steps, i - 1);
      if j > 0 {
        BodyIsWindow(start, steps, i - 1, j - 1);
        assert s[i].body[j] == s[i - 1].body[j - 1];
      }
    }
  }
}
