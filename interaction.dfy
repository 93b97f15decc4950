/** The rotation angles A and B and the mouse-drag state machine that shares them with the
    animation tick, as values. The event handlers of class Donut.Viewer are proved to make
    exactly these transitions. */
module Interaction {

  /** Rotation angles and drag state: whether a drag is active and the last pointer
      position it was anchored at. */
  datatype Controls = Controls(a: real, b: real, isDragging: bool, lastX: real, lastY: real)

  /** Pointer events, plus Tick: the angle increment at the end of a render pass that drew
      a frame. */
  datatype Event = Press(x: real, y: real) | Move(x: real, y: real) | Release | Leave | Tick

  /** One transition. A move while dragging turns B by a hundredth of the horizontal
      movement and A by a hundredth of the vertical one, and re-anchors. */
  function Step(s: Controls, e: Event): (t: Controls)
    ensures t.isDragging <==> e.Press? || (s.isDragging && (e.Move? || e.Tick?))
    ensures !e.Tick? && !(e.Move? && s.isDragging) ==> t.a == s.a && t.b == s.b
  {
    match e
    case Press(x, y) => s.(isDragging := true, lastX := x, lastY := y)
    case Move(x, y) =>
      if s.isDragging then
        s.(b := s.b + (x - s.lastX) / 100.0, a := s.a + (y - s.lastY) / 100.0, lastX := x, lastY := y)
      else
        s
    case Release => if s.isDragging then s.(isDragging := false) else s
    case Leave => if s.isDragging then s.(isDragging := false) else s
    case Tick => s.(a := s.a + 0.04, b := s.b + 0.02)
  }

  /** The state after the events es, in order. */
  function Run(s: Controls, es: seq<Event>): Controls
    decreases |es|
  {
    if es == [] then s else Run(Step(s, es[0]), es[1..])
  }

  /** The number of ticks among es. */
  function Ticks(es: seq<Event>): nat
  {
    if es == [] then 0 else (if es[0].Tick? then 1 else 0) + Ticks(es[1..])
  }

  /** The pointer position of the last move in es, or (x, y) if es holds no move. */
  function LastMove(x: real, y: real, es: seq<Event>): (real, real)
    decreases |es|
  {
    if es == [] then (x, y)
    else if es[0].Move? then LastMove(es[0].x, es[0].y, es[1..])
    else LastMove(x, y, es[1..])
  }

  /** Events that neither press nor release. */
  predicate MovesAndTicks(es: seq<Event>)
  {
    forall k :: 0 <= k < |es| ==> es[k].Move? || es[k].Tick?
  }

  /** Release and leave both end a drag, change nothing else, and are idempotent. */
  lemma ReleaseEndsDrag(s: Controls)
    ensures Step(s, Release) == s.(isDragging := false)
    ensures Step(s, Leave) == Step(s, Release)
    ensures Step(Step(s, Release), Release) == Step(s, Release)
    ensures Step(Step(s, Leave), Leave) == Step(s, Leave)
  {
  }

  /** Moves and ticks compose additively: their order does not matter. */
  lemma TickCommutesWithMove(s: Controls, x: real, y: real)
    ensures Step(Step(s, Tick), Move(x, y)) == Step(Step(s, Move(x, y)), Tick)
  {
  }

  /** While no drag is active, moves change nothing. */
  lemma {:induction false} IdleIgnoresMoves(s: Controls, es: seq<Event>)
    requires !s.isDragging
    requires forall k :: 0 <= k < |es| ==> es[k].Move?
    ensures Run(s, es) == s
    decreases |es|
  {
    if es != [] {
      IdleIgnoresMoves(Step(s, es[0]), es[1..]);
    }
  }

  /** During a drag, the per-move deltas telescope: after any moves and ticks the angles
      have turned by a hundredth of the total pointer displacement since the anchor, plus
      the fixed increment of every tick. */
  lemma {:induction false} DragTelescopes(s: Controls, es: seq<Event>)
    requires s.isDragging && MovesAndTicks(es)
    decreases |es|
    ensures var t := Run(s, es);
            var (xn, yn) := LastMove(s.lastX, s.lastY, es);
            && t.isDragging && t.lastX == xn && t.lastY == yn
            && t.b == s.b + (xn - s.lastX) / 100.0 + 0.02 * (Ticks(es) as real)
            && t.a == s.a + (yn - s.lastY) / 100.0 + 0.04 * (Ticks(es) as real)
  {
    if es != [] {
      var next := Step(s, es[0]);
      assert MovesAndTicks(es[1..]) by {
        forall k | 0 <= k < |es[1..]| ensures es[1..][k].Move? || es[1..][k].Tick? {
          assert es[1..][k] == es[k + 1];
        }
      }
      DragTelescopes(next, es[1..]);
    }
  }

  /** A press at (x0, y0) followed by moves and ticks: the angles turn by a hundredth of
      the displacement from the press to the last move, plus the tick increments. */
  lemma PressThenDrag(s: Controls, x0: real, y0: real, es: seq<Event>)
    requires MovesAndTicks(es)
    ensures var t := Run(s, [Press(x0, y0)] + es);
            var (xn, yn) := LastMove(x0, y0, es);
            && t.isDragging
            && t.b == s.b + (xn - x0) / 100.0 + 0.02 * (Ticks(es) as real)
            && t.a == s.a + (yn - y0) / 100.0 + 0.04 * (Ticks(es) as real)
  {
    assert ([Press(x0, y0)] + es)[1..] == es;
    DragTelescopes(Step(s, Press(x0, y0)), es);
  }
}
