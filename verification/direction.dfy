/**
 * The input side of the game as a left fold over a finite trace of events.
 *
 * A trace records, in arrival order, every key release (by its code) and
 * every firing of the movement timer. Folding it yields what the three
 * input streams have emitted so far: the gate and filter state, the
 * accepted manual directions, and the merged sequence of move triggers.
 */
module Direction {
  import opened Wrappers
  import opened Vectors
  import opened Keys

  datatype Event = Key(code: string) | Tick

  /**
   * The state of the manual-direction filter: whether the start key has
   * been released yet, and the last arrow code the filter let through.
   */
  datatype Gate = Gate(started: bool, last: Option<string>)

  /** What the input streams have emitted after some prefix of a trace. */
  datatype Streams = Streams(gate: Gate, manual: seq<string>, merged: seq<string>)

  const Initial: Streams := Streams(Gate(false, None), [], [])

  /** The start key has been released somewhere in the trace. */
  predicate Started(t: seq<Event>) {
    Key(Space) in t
  }

  function Last(codes: seq<string>): Option<string> {
    if |codes| == 0 then None else Some(codes[|codes| - 1])
  }

  predicate AllArrows(codes: seq<string>) {
    forall i :: 0 <= i < |codes| ==> IsArrowKey(codes[i])
  }

  predicate NoAdjacentReversal(codes: seq<string>) {
    forall i :: 0 <= i < |codes| - 1 ==> !IsReversed(codes[i], codes[i + 1])
  }

  /** Whether the filter lets an arrow release with this code through. */
  predicate Accepts(g: Gate, code: string) {
    && g.started
    && IsArrowKey(code)
    && (g.last.None? || !IsReversed(g.last.value, code))
  }

  /**
   * One event. The start key opens the gate for good; an accepted arrow is
   * emitted on both the manual and the merged stream; a timer firing
   * re-emits the last accepted arrow on the merged stream, if there is one.
   */
  function Feed(s: Streams, e: Event): (r: Streams)
    ensures r.gate.started <==> s.gate.started || e == Key(Space)
    ensures e.Tick? ==> r.gate == s.gate && r.manual == s.manual
    ensures r.manual == s.manual || (e.Key? && r.manual == s.manual + [e.code] && r.gate.last == Some(e.code))
    ensures r.merged == s.merged || (e.Key? && r.merged == s.merged + [e.code]) || (e.Tick? && s.gate.last.Some? && r.merged == s.merged + [s.gate.last.value])
    ensures |r.manual| > |s.manual| <==> e.Key? && Accepts(s.gate, e.code)
  {
    match e
    case Tick =>
      (match s.gate.last
       case None => s
       case Some(c) => s.(merged := s.merged + [c]))
    case Key(c) =>
      if c == Space then s.(gate := s.gate.(started := true))
      else if Accepts(s.gate, c) then Streams(s.gate.(last := Some(c)), s.manual + [c], s.merged + [c])
      else s
  }

  /** The invariant the fold keeps between events. */
  predicate Consistent(s: Streams) {
    && (!s.gate.started ==> s.manual == [] && s.merged == [])
    && s.gate.last == Last(s.manual) == Last(s.merged)
    && AllArrows(s.manual) && AllArrows(s.merged)
    && NoAdjacentReversal(s.manual) && NoAdjacentReversal(s.merged)
  }

  lemma AppendKeepsNoReversal(codes: seq<string>, c: string)
    requires NoAdjacentReversal(codes)
    requires codes == [] || !IsReversed(codes[|codes| - 1], c)
    ensures NoAdjacentReversal(codes + [c])
  {
    var r := codes + [c];
    forall i | 0 <= i < |r| - 1
      ensures !IsReversed(r[i], r[i + 1])
    {
      if i < |codes| - 1 {
        assert r[i] == codes[i] && r[i + 1] == codes[i + 1];
      }
    }
  }

  lemma AppendKeepsArrows(codes: seq<string>, c: string)
    requires AllArrows(codes) && IsArrowKey(c)
    ensures AllArrows(codes + [c])
  {
  }

  lemma FeedKeepsConsistent(s: Streams, e: Event)
    requires Consistent(s)
    ensures Consistent(Feed(s, e))
    ensures Feed(s, e).gate.started <==> s.gate.started || e == Key(Space)
  {
    match e
    case Tick =>
      if s.gate.last.Some? {
        var c := s.gate.last.value;
        ReversedIsIrreflexive(c);
        AppendKeepsNoReversal(s.merged, c);
        AppendKeepsArrows(s.merged, c);
      }
    case Key(c) =>
      if c != Space && Accepts(s.gate, c) {
        AppendKeepsNoReversal(s.manual, c);
        AppendKeepsNoReversal(s.merged, c);
        AppendKeepsArrows(s.manual, c);
        AppendKeepsArrows(s.merged, c);
      }
  }

  /** The left fold of `Feed` over a trace, from the initial state. */
  function Replay(t: seq<Event>): (r: Streams)
    ensures r.gate.started <==> Started(t)
    ensures !r.gate.started ==> r.manual == [] && r.merged == []
    ensures r.gate.last == Last(r.manual) == Last(r.merged)
    ensures AllArrows(r.manual) && AllArrows(r.merged)
    ensures NoAdjacentReversal(r.manual) && NoAdjacentReversal(r.merged)
  {
    if |t| == 0 then Initial
    else
      var prefix := t[..|t| - 1];
      assert t == prefix + [t[|t| - 1]];
      var prev := Replay(prefix);
      FeedKeepsConsistent(prev, t[|t| - 1]);
      Feed(prev, t[|t| - 1])
  }

  /** The move triggers as unit steps, in arrival order. */
  function Steps(t: seq<Event>): (r: seq<Vec>)
    ensures |r| == |Replay(t).merged|
    ensures forall i :: 0 <= i < |r| ==> Offset(Replay(t).merged[i]) == Some(r[i])
  {
    Offsets(Replay(t).merged)
  }

  function Offsets(codes: seq<string>): (r: seq<Vec>)
    requires AllArrows(codes)
    ensures |r| == |codes|
    ensures forall i :: 0 <= i < |r| ==> Offset(codes[i]) == Some(r[i])
  {
    if |codes| == 0 then [] else [Offset(codes[0]).value] + Offsets(codes[1..])
  }

  /** Appending an event to a trace feeds it to the state the trace left. */
  lemma ReplaySnoc(t: seq<Event>, e: Event)
    ensures Replay(t + [e]) == Feed(Replay(t), e)
  {
    assert (t + [e])[..|t|] == t;
  }

  /**
   * A key release. Exactly when the game has started, the code is an arrow
   * and it is not the opposite of the last accepted arrow, it is appended to
   * both output streams; otherwise neither stream changes.
   */
  lemma {:induction false} KeyStep(t: seq<Event>, c: string)
    ensures var before, after := Replay(t), Replay(t + [Key(c)]);
      if Started(t) && IsArrowKey(c) && (before.manual == [] || !IsReversed(before.manual[|before.manual| - 1], c))
      then after.manual == before.manual + [c] && after.merged == before.merged + [c]
      else after.manual == before.manual && after.merged == before.merged
  {
    ReplaySnoc(t, Key(c));
  }

  /**
   * A timer firing. Nothing reaches the merged stream before an arrow has
   * been accepted; afterwards the latest accepted arrow does. The manual
   * stream is unaffected.
   */
  lemma {:induction false} TickStep(t: seq<Event>)
    ensures var before, after := Replay(t), Replay(t + [Tick]);
      && after.manual == before.manual
      && after.merged == before.merged + (if before.manual == [] then [] else [before.manual[|before.manual| - 1]])
  {
    ReplaySnoc(t, Tick);
    var before := Replay(t);
    assert before.gate.last == Last(before.manual);
    FeedTick(before);
  }

  lemma FeedTick(s: Streams)
    ensures Feed(s, Tick).manual == s.manual
    ensures Feed(s, Tick).merged == s.merged + (if s.gate.last.None? then [] else [s.gate.last.value])
  {
  }

  /** The first arrow after the start key is accepted, whatever it is. */
  lemma {:induction false} FirstArrowAccepted(t: seq<Event>, c: string)
    requires Started(t) && Replay(t).manual == []
    requires IsArrowKey(c)
    ensures Replay(t + [Key(c)]).manual == [c]
  {
    KeyStep(t, c);
  }

  /** Releasing the last accepted arrow again is accepted, not dropped. */
  lemma {:induction false} RepeatAccepted(t: seq<Event>, c: string)
    requires Replay(t).manual != [] && Replay(t).manual[|Replay(t).manual| - 1] == c
    ensures Replay(t + [Key(c)]).manual == Replay(t).manual + [c]
  {
    KeyStep(t, c);
    ReversedIsIrreflexive(c);
  }

  /**
   * Everything before the first start key is ignored: arrows released
   * before it have no effect on anything that follows.
   */
  lemma {:induction false} BeforeStartIgnored(t: seq<Event>, u: seq<Event>)
    requires !Started(t)
    ensures Replay(t + u) == Replay(u)
    decreases |u|
  {
    if |u| == 0 {
      assert t + u == t;
      NotStartedIsInitial(t);
    } else {
      var v, e := u[..|u| - 1], u[|u| - 1];
      BeforeStartIgnored(t, v);
      SplitLast(t, u);
      ReplaySnoc(t + v, e);
      ReplaySnoc(v, e);
    }
  }

  lemma SplitLast(t: seq<Event>, u: seq<Event>)
    requires |u| > 0
    ensures u == u[..|u| - 1] + [u[|u| - 1]]
    ensures t + u == (t + u[..|u| - 1]) + [u[|u| - 1]]
  {
  }

  lemma NotStartedIsInitial(t: seq<Event>)
    requires !Started(t)
    ensures Replay(t) == Initial
  {
    var r := Replay(t);
    assert r.gate.last == Last(r.manual);
  }

  /** Right, Right, Space, Up: only Up is accepted. */
  lemma GatingExample()
    ensures Replay([Key(ArrowRight), Key(ArrowRight), Key(Space), Key(ArrowUp)]).manual == [ArrowUp]
  {
    var early, start := [Key(ArrowRight), Key(ArrowRight)], [Key(Space)];
    assert !Started(early);
    assert ([] + start)[..0] == [];
    assert Replay(start).manual == [] by {
      KeyStep([], Space);
      assert [] + start == start;
    }
    assert Started(start);
    FirstArrowAccepted(start, ArrowUp);
    var late := start + [Key(ArrowUp)];
    BeforeStartIgnored(early, late);
    assert early + late == [Key(ArrowRight), Key(ArrowRight), Key(Space), Key(ArrowUp)];
  }

  /** Every step is a unit step and no step undoes the one before it. */
  lemma StepNeverReverses(t: seq<Event>, i: nat)
    requires i < |Steps(t)|
    ensures IsUnit(Steps(t)[i])
    ensures i > 0 ==> Steps(t)[i] != Neg(Steps(t)[i - 1])
  {
    var m := Replay(t).merged;
    if i > 0 {
      assert !IsReversed(m[i - 1], m[i]);
      ReversedIffOppositeSteps(m[i - 1], m[i]);
    }
  }
}
