/** Strips of the video sequence editor, and the part of the scene that the
    move-selection operator reads and writes. */
module Strips {

  /** A possibly absent value: Python's `None`, or the "nothing found yet"
      state that the operator encodes with `float("inf")`. */
  datatype Option<+T> = None | Some(value: T)

  /** A strip: its channel, its final frame range and its selection flag.
      A strip is identified by its index in the editor's strip list. */
  datatype Strip = Strip(channel: int, frameStart: int, frameEnd: int, select: bool)

  /** The operator's `direction` property. */
  datatype Direction = Left | Right | Up | Down {
    predicate IsHorizontal() {
      Left? || Right?
    }
  }

  /** The scene as the operator sees it: every strip (`sequences_all`), the
      active strip as an index into that list, and the playhead frame. */
  datatype Editor = Editor(strips: seq<Strip>, active: Option<nat>, frameCurrent: int)

  /** The host keeps the active strip among the editor's strips. */
  predicate ActiveInRange(ed: Editor) {
    ed.active.Some? ==> ed.active.value < |ed.strips|
  }

  /** Two strips occupy the same place: channel and frame range agree. */
  predicate SameGeometry(s: Strip, t: Strip) {
    s.channel == t.channel && s.frameStart == t.frameStart && s.frameEnd == t.frameEnd
  }

  function Abs(x: int): nat {
    if x < 0 then -x else x
  }

  function AbsReal(x: real): real {
    if x < 0.0 then -x else x
  }

  /** The distance between the midpoints of two strips, written the way the
      operator computes it, with true division (and no rounding). */
  function MidpointDistance(s: Strip, t: Strip): real {
    AbsReal((s.frameStart as real + (s.frameEnd - s.frameStart) as real / 2.0)
      - (t.frameStart as real + (t.frameEnd - t.frameStart) as real / 2.0))
  }

  /** The midpoint distance measured in half frames: an integer, and ordered
      exactly as the operator's midpoint distance is. */
  function MidGap(s: Strip, t: Strip): (r: nat)
    ensures r as real == 2.0 * MidpointDistance(s, t)
  {
    Abs((s.frameStart + s.frameEnd) - (t.frameStart + t.frameEnd))
  }

  /** Comparing half-frame distances decides the same way as comparing the
      operator's midpoint distances. */
  lemma MidGapOrdersLikeMidpointDistance(s: Strip, t: Strip, u: Strip)
    ensures MidGap(s, u) < MidGap(t, u) <==> MidpointDistance(s, u) < MidpointDistance(t, u)
  {
  }

  /** The highest channel holding a strip: `max(seq.channel for seq in sequences)`. */
  function MaxChannel(strips: seq<Strip>): (r: int)
    requires |strips| > 0
    ensures exists i :: 0 <= i < |strips| && strips[i].channel == r
    ensures forall i :: 0 <= i < |strips| ==> strips[i].channel <= r
  {
    if |strips| == 1 then strips[0].channel
    else
      var rest := MaxChannel(strips[1..]);
      assert forall i :: 1 <= i < |strips| ==> strips[i] == strips[1..][i - 1];
      if strips[0].channel >= rest then strips[0].channel else rest
  }

  /** The lowest channel holding a strip: `min(seq.channel for seq in sequences)`. */
  function MinChannel(strips: seq<Strip>): (r: int)
    requires |strips| > 0
    ensures exists i :: 0 <= i < |strips| && strips[i].channel == r
    ensures forall i :: 0 <= i < |strips| ==> strips[i].channel >= r
  {
    if |strips| == 1 then strips[0].channel
    else
      var rest := MinChannel(strips[1..]);
      assert forall i :: 1 <= i < |strips| ==> strips[i] == strips[1..][i - 1];
      if strips[0].channel <= rest then strips[0].channel else rest
  }
}
