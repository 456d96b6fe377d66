/**
 * The whole pipeline: a trace of key releases and timer firings, with a
 * fixed list of eggs, determines every snake, collision event and score
 * the game emits.
 */
module Game {
  import opened Vectors
  import opened Keys
  import opened Direction
  import opened Snakes
  import opened Scoring

  datatype Session = Session(snakes: seq<Snake>, hits: seq<nat>, scores: seq<int>)

  /** The snake stream: the initial snake, then one moved snake per move trigger. */
  function SnakeStream(t: seq<Event>): (r: seq<Snake>)
    ensures |r| == |Replay(t).merged| + 1
    ensures r[0] == Init
  {
    Trail(Init, Steps(t))
  }

  /**
   * Everything emitted for trace `t`: the snake stream; the collision
   * events and the score follow from the snakes and the eggs.
   */
  function Play(t: seq<Event>, eggs: seq<Vec>): (r: Session)
    ensures r.snakes == SnakeStream(t)
    ensures forall k :: 0 <= k < |r.hits| ==> r.hits[k] < |eggs|
    ensures |r.scores| == |r.hits| + 1
  {
    var snakes := SnakeStream(t);
    var hits := Hits(snakes, eggs);
    Session(snakes, hits, Scores(hits))
  }

  /**
   * Every move trigger moves the head by one unit step, and no trigger sends
   * the head straight back to the cell it just left.
   */
  lemma HeadMovesOneCell(t: seq<Event>, i: nat)
    requires 0 < i < |SnakeStream(t)|
    ensures var s := SnakeStream(t); s[i].head == Add(s[i - 1].head, Steps(t)[i - 1])
    ensures IsUnit(Steps(t)[i - 1])
    ensures var s := SnakeStream(t); i > 1 ==> s[i].head != s[i - 2].head
  {
    StepNeverReverses(t, i - 1);
    TrailNeverTurnsBack(Init, Steps(t), i);
  }

  /** Every snake of a session has the initial body length and so nine cells. */
  lemma BodyAlwaysEight(t: seq<Event>, i: nat)
    requires i < |SnakeStream(t)|
    ensures |SnakeStream(t)[i].body| == InitBodyLength
    ensures |Positions(SnakeStream(t)[i])| == InitBodyLength + 1
  {
    TrailKeepsLength(Init, Steps(t), i);
  }

  /** The last score is the reward times the number of collision events so far. */
  lemma FinalScore(t: seq<Event>, eggs: seq<Vec>)
    ensures var r := Play(t, eggs); r.scores[|r.scores| - 1] == ScorePerEgg * |r.hits|
  {
    var r := Play(t, eggs);
    ScoreIsRewardTimesHits(r.hits, |r.hits|);
  }

  /**
   * Without an accepted arrow the timer drives nothing: the snake stays the
   * initial snake. The second disjunct (no start key yet) already implies
   * the first by `Replay`'s contract; it is spelled out for the reader.
   */
  lemma IdleWithoutDirection(t: seq<Event>)
    requires Replay(t).manual == [] || !Started(t)
    ensures SnakeStream(t) == [Init]
  {
  }

  /** Space then ArrowRight moves the initial snake one cell right. */
  lemma TraceMoveExample()
    ensures SnakeStream([Key(Space), Key(ArrowRight)]) == [Init, Move(Init, Vec(1, 0))]
  {
    var start := [Key(Space)];
    assert Replay(start).manual == [] by {
      KeyStep([], Space);
      assert [] + start == start;
    }
    assert Started(start);
    FirstArrowAccepted(start, ArrowRight);
    var t := start + [Key(ArrowRight)];
    assert t == [Key(Space), Key(ArrowRight)];
    assert Replay(t).merged == [ArrowRight];
    assert Steps(t) == [Vec(1, 0)];
  }

  /** A head that returns to an egg cell scores again. */
  lemma RevisitScoresAgain(t: seq<Event>, eggs: seq<Vec>, i: nat, j: nat)
    requires i < j < |SnakeStream(t)|
    requires SnakeStream(t)[i].head in eggs && SnakeStream(t)[j].head in eggs
    ensures var r := Play(t, eggs); r.scores[|r.scores| - 1] >= 2 * ScorePerEgg
  {
    var r := Play(t, eggs);
    RevisitCountsAgain(r.snakes, eggs, i, j);
    FinalScore(t, eggs);
  }
}
