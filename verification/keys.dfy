/**
 * The key tables of the game: which key codes are arrows, the unit step
 * each arrow stands for, and which arrow is the opposite of which.
 */
module Keys {
  import opened Wrappers
  import opened Vectors

  const ArrowUp: string := "ArrowUp"
  const ArrowDown: string := "ArrowDown"
  const ArrowLeft: string := "ArrowLeft"
  const ArrowRight: string := "ArrowRight"

  /** The code of the key that starts the game. */
  const Space: string := "Space"

  const ArrowCodes: seq<string> := [ArrowUp, ArrowDown, ArrowLeft, ArrowRight]

  /**
   * Membership in the list of the four arrow codes: the code has a position
   * in that list. The start key is not an arrow.
   */
  predicate IsArrowKey(code: string): (r: bool)
    ensures r <==> exists i :: 0 <= i < |ArrowCodes| && ArrowCodes[i] == code
    ensures r ==> code != Space
  {
    code in ArrowCodes
  }

  /**
   * The unit step of an arrow code; any other code has no entry in the
   * table and yields `None`.
   */
  function Offset(code: string): (r: Option<Vec>)
    ensures r.Some? <==> IsArrowKey(code)
    ensures r.Some? ==> IsUnit(r.value)
  {
    if code == ArrowUp then Some(Vec(0, -1))
    else if code == ArrowDown then Some(Vec(0, 1))
    else if code == ArrowLeft then Some(Vec(-1, 0))
    else if code == ArrowRight then Some(Vec(1, 0))
    else None
  }

  /** The opposite arrow of an arrow code; `None` for any other code. */
  function Reverse(code: string): (r: Option<string>)
    ensures r.Some? <==> IsArrowKey(code)
    ensures r.Some? ==> IsArrowKey(r.value) && r.value != code
  {
    if code == ArrowUp then Some(ArrowDown)
    else if code == ArrowDown then Some(ArrowUp)
    else if code == ArrowLeft then Some(ArrowRight)
    else if code == ArrowRight then Some(ArrowLeft)
    else None
  }

  /**
   * Whether `two` is the opposite arrow of `one`. Only two different arrow
   * codes can be opposite, and then `one` is also the opposite of `two`.
   */
  predicate IsReversed(one: string, two: string): (r: bool)
    ensures r ==> IsArrowKey(one) && IsArrowKey(two) && one != two
    ensures r ==> Reverse(two) == Some(one)
  {
    Reverse(one) == Some(two)
  }

  /** The step of each arrow: x grows to the right and y grows downwards. */
  lemma OffsetTable()
    ensures Offset(ArrowUp) == Some(Vec(0, -1))
    ensures Offset(ArrowDown) == Some(Vec(0, 1))
    ensures Offset(ArrowLeft) == Some(Vec(-1, 0))
    ensures Offset(ArrowRight) == Some(Vec(1, 0))
  {
  }

  /** Reversing twice gives the arrow back. */
  lemma ReverseIsInvolution(code: string)
    requires IsArrowKey(code)
    ensures Reverse(Reverse(code).value) == Some(code)
  {
  }

  /** Being opposite arrows is a symmetric relation. */
  lemma ReversedIsSymmetric(one: string, two: string)
    ensures IsReversed(one, two) <==> IsReversed(two, one)
  {
  }

  /** No code is its own opposite, so pressing the same arrow twice is never a reversal. */
  lemma ReversedIsIrreflexive(code: string)
    ensures !IsReversed(code, code)
  {
  }

  /** The step of an arrow's opposite is the negated step of the arrow. */
  lemma ReverseNegatesOffset(code: string)
    requires IsArrowKey(code)
    ensures Offset(Reverse(code).value) == Some(Neg(Offset(code).value))
  {
  }

  /** Two arrows are opposite exactly when their steps cancel. */
  lemma ReversedIffOppositeSteps(one: string, two: string)
    requires IsArrowKey(one) && IsArrowKey(two)
    ensures IsReversed(one, two) <==> Offset(two).value == Neg(Offset(one).value)
  {
  }
}
