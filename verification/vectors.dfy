/** Integer grid vectors: the `[x, y]` pairs the game uses for cells, steps and body offsets. */
module Vectors {

  datatype Vec = Vec(x: int, y: int)

  const Zero: Vec := Vec(0, 0)

  function Add(a: Vec, b: Vec): Vec {
    Vec(a.x + b.x, a.y + b.y)
  }

  function Neg(a: Vec): Vec {
    Vec(-a.x, -a.y)
  }

  /** Left-to-right sum of a sequence of vectors. */
  function Sum(vs: seq<Vec>): Vec {
    if |vs| == 0 then Zero else Add(Sum(vs[..|vs| - 1]), vs[|vs| - 1])
  }

  /** One cell along exactly one axis. */
  predicate IsUnit(v: Vec) {
    || (v.x == 0 && (v.y == 1 || v.y == -1))
    || (v.y == 0 && (v.x == 1 || v.x == -1))
  }

  /** Extending a prefix by one element adds that element to its sum. */
  lemma SumPrefixStep(vs: seq<Vec>, i: nat)
    requires i < |vs|
    ensures Sum(vs[..i + 1]) == Add(Sum(vs[..i]), vs[i])
  {
    assert vs[..i + 1][..i] == vs[..i];
  }
}
