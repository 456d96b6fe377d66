/**
 * Eggs, collisions and the score. Every snake the movement fold emits is
 * checked against the eggs; each hit is worth a fixed reward. Eggs are
 * never removed, so a head that comes back to an egg cell scores again.
 */
module Scoring {
  import opened Wrappers
  import opened Vectors
  import opened Snakes

  const ScorePerEgg: int := 100

  /**
   * The egg the head lands on: the largest index whose egg is at the head,
   * or `None` when no egg is there.
   */
  function EatenEgg(eggs: seq<Vec>, head: Vec): (r: Option<nat>)
    ensures r.None? <==> forall j :: 0 <= j < |eggs| ==> eggs[j] != head
    ensures r.Some? ==> r.value < |eggs| && eggs[r.value] == head
    ensures r.Some? ==> forall j :: r.value < j < |eggs| ==> eggs[j] != head
  {
    if |eggs| == 0 then None
    else if eggs[|eggs| - 1] == head then Some(|eggs| - 1)
    else EatenEgg(eggs[..|eggs| - 1], head)
  }

  /** The scan over the eggs in index order, where a later match overwrites an earlier one. */
  method FindEatenEgg(eggs: seq<Vec>, head: Vec) returns (eaten: Option<nat>)
    ensures eaten.None? <==> forall j :: 0 <= j < |eggs| ==> eggs[j] != head
    ensures eaten.Some? ==> eaten.value < |eggs| && eggs[eaten.value] == head
    ensures eaten.Some? ==> forall j :: eaten.value < j < |eggs| ==> eggs[j] != head
    ensures eaten == EatenEgg(eggs, head)
  {
    eaten := None;
    for i := 0 to |eggs|
      invariant eaten.None? <==> forall j :: 0 <= j < i ==> eggs[j] != head
      invariant eaten.Some? ==> eaten.value < i && eggs[eaten.value] == head
      invariant eaten.Some? ==> forall j :: eaten.value < j < i ==> eggs[j] != head
    {
      if eggs[i] == head {
        eaten := Some(i);
      }
    }
  }

  /** The collision events: the eaten-egg index of every snake that lands on an egg, in order. */
  function Hits(snakes: seq<Snake>, eggs: seq<Vec>): (r: seq<nat>)
    ensures |r| <= |snakes|
    ensures forall k :: 0 <= k < |r| ==> r[k] < |eggs|
  {
    if |snakes| == 0 then []
    else
      var prev := Hits(snakes[..|snakes| - 1], eggs);
      match EatenEgg(eggs, snakes[|snakes| - 1].head)
      case None => prev
      case Some(k) => prev + [k]
  }

  /** A single snake gives the egg under its head, if any, as its one event. */
  lemma HitOfOneSnake(s: Snake, eggs: seq<Vec>)
    ensures Hits([s], eggs) == if s.head in eggs then [EatenEgg(eggs, s.head).value] else []
  {
    assert [s][..0] == [];
  }

  /** The number of snakes whose head is on an egg cell. */
  function OnEgg(snakes: seq<Snake>, eggs: seq<Vec>): nat {
    if |snakes| == 0 then 0
    else (if snakes[0].head in eggs then 1 else 0) + OnEgg(snakes[1..], eggs)
  }

  /** There is exactly one collision event per snake whose head is on an egg. */
  lemma {:induction false} HitsCountOnEgg(snakes: seq<Snake>, eggs: seq<Vec>)
    ensures |Hits(snakes, eggs)| == OnEgg(snakes, eggs)
    decreases |snakes|
  {
    if |snakes| > 0 {
      var rest := snakes[1..];
      HitsCountOnEgg(rest, eggs);
      assert snakes == [snakes[0]] + rest;
      HitsAppend([snakes[0]], rest, eggs);
      HitOfOneSnake(snakes[0], eggs);
    }
  }

  /** Collision events of consecutive stretches of snakes simply concatenate. */
  lemma {:induction false} HitsAppend(a: seq<Snake>, b: seq<Snake>, eggs: seq<Vec>)
    ensures Hits(a + b, eggs) == Hits(a, eggs) + Hits(b, eggs)
    decreases |b|
  {
    if |b| == 0 {
      assert a + b == a;
    } else {
      var c := b[..|b| - 1];
      HitsAppend(a, c, eggs);
      assert (a + b)[..|a + b| - 1] == a + c;
    }
  }

  /** There are no collision events exactly when no head lands on an egg. */
  lemma {:induction false} HitsEmptyIff(snakes: seq<Snake>, eggs: seq<Vec>)
    ensures Hits(snakes, eggs) == [] <==> forall i :: 0 <= i < |snakes| ==> snakes[i].head !in eggs
    decreases |snakes|
  {
    if |snakes| > 0 {
      var prev := snakes[..|snakes| - 1];
      HitsEmptyIff(prev, eggs);
      assert forall i :: 0 <= i < |prev| ==> prev[i] == snakes[i];
    }
  }

  /**
   * Eggs are never consumed: two different snakes whose heads are on egg
   * cells give two collision events, even when it is the same egg.
   */
  lemma RevisitCountsAgain(snakes: seq<Snake>, eggs: seq<Vec>, i: nat, j: nat)
    requires i < j < |snakes|
    requires snakes[i].head in eggs && snakes[j].head in eggs
    ensures |Hits(snakes, eggs)| >= 2
  {
    var a, b := snakes[..j], snakes[j..];
    assert snakes == a + b;
    HitsAppend(a, b, eggs);
    assert a[i] == snakes[i];
    HitsEmptyIff(a, eggs);
    assert b[0] == snakes[j];
    HitsEmptyIff(b, eggs);
  }

  /** The score stream: 0 first, then one running total per collision event. */
  function Scores(hits: seq<nat>): (r: seq<int>)
    ensures |r| == |hits| + 1
    ensures r[0] == 0
    ensures forall i :: 0 <= i < |hits| ==> r[i + 1] == r[i] + ScorePerEgg
  {
    if |hits| == 0 then [0]
    else
      var prev := Scores(hits[..|hits| - 1]);
      prev + [prev[|hits| - 1] + ScorePerEgg]
  }

  /** After `i` collision events the score is exactly `i` rewards. */
  lemma {:induction false} ScoreIsRewardTimesHits(hits: seq<nat>, i: nat)
    requires i <= |hits|
    ensures Scores(hits)[i] == ScorePerEgg * i
  {
    if i > 0 {
      ScoreIsRewardTimesHits(hits, i - 1);
    }
  }

  /** The score never decreases. */
  lemma ScoresNonDecreasing(hits: seq<nat>, i: nat, j: nat)
    requires i <= j <= |hits|
    ensures 0 <= Scores(hits)[i] <= Scores(hits)[j]
  {
    ScoreIsRewardTimesHits(hits, i);
    ScoreIsRewardTimesHits(hits, j);
  }

  /** Which egg was hit makes no difference to the score. */
  lemma ScoreIgnoresEggIndex(hits: seq<nat>, other: seq<nat>)
    requires |hits| == |other|
    ensures Scores(hits) == Scores(other)
  {
    forall i | 0 <= i <= |hits|
      ensures Scores(hits)[i] == Scores(other)[i]
    {
      ScoreIsRewardTimesHits(hits, i);
      ScoreIsRewardTimesHits(other, i);
    }
  }
}
