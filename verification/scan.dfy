/** The operator's search loops, iteration by iteration as written: the
    LEFT/RIGHT scan, whose `distance` variable is never reset between strips,
    and the UP/DOWN search that widens channel by channel. Each loop carries
    its invariant as the contract of the function that runs it. */
module Scan {
  import opened Strips
  import opened Nearest

  /** `nearest_strip` and `nearest_distance`; an absent distance stands for
      the initial `float("inf")`. */
  datatype Best = Best(nearest: Option<nat>, nearestDistance: Option<int>)

  /** Nothing found yet. */
  const Unset := Best(None, None)

  /** `d < nearest_distance`, where an absent bound is infinity. */
  predicate Below(d: int, bound: Option<int>) {
    bound.None? || d < bound.value
  }

  /** Python truthiness of `distance`: both `None` and `0` are false. */
  predicate Truthy(d: Option<int>) {
    d.Some? && d.value != 0
  }

  // ----- LEFT / RIGHT -----

  /** The LEFT/RIGHT loop's variables: the best strip so far and `distance`,
      which starts as `None` and keeps its last value between iterations. */
  datatype SideState = SideState(best: Best, distance: Option<int>)

  /** One iteration of the LEFT/RIGHT loop, on strip `j`. Started from a
      state that meets the invariant for the strips before `j`, it meets the
      invariant for the strips up to `j`, and it moves the best strip exactly
      as the clean update does, whatever stale value `distance` holds. */
  function SideStep(strips: seq<Strip>, a: nat, dir: Direction, st: SideState, j: nat): (r: SideState)
    requires a < |strips| && j < |strips|
    ensures SideInvariant(strips, a, dir, j, st) ==> SideInvariant(strips, a, dir, j + 1, r)
    ensures SideInvariant(strips, a, dir, j, st) ==> r.best == CleanSideStep(strips, a, dir, st.best, j)
  {
    var s := strips[j];
    var act := strips[a];
    if j != a && s.channel == act.channel then
      var d :=
        if dir.Left? && act.frameStart > s.frameEnd then Some(act.frameStart - s.frameEnd)
        else if dir.Right? && s.frameStart > act.frameEnd then Some(s.frameStart - act.frameEnd)
        else st.distance;
      if Truthy(d) && Below(Abs(d.value), st.best.nearestDistance) then
        SideState(Best(Some(j), Some(Abs(d.value))), d)
      else
        SideState(st.best, d)
    else
      st
  }

  /** What holds once the LEFT/RIGHT loop has looked at the first `n` strips:
      the best strip is the nearest candidate among them (none exactly when
      there is no candidate among them), its recorded distance is its gap,
      and a stale `distance` is never smaller than that recorded distance. */
  predicate SideInvariant(strips: seq<Strip>, a: nat, dir: Direction, n: nat, st: SideState)
    requires a < |strips| && n <= |strips|
  {
    && (st.best.nearest.None? ==>
          && st.best.nearestDistance.None?
          && forall j :: 0 <= j < n ==> !IsSideCandidate(strips, a, dir, j))
    && (st.best.nearest.Some? ==>
          && IsNearestBesideAmong(strips, a, dir, n, st.best.nearest.value)
          && st.best.nearestDistance == Some(Gap(strips, a, dir, st.best.nearest.value)))
    && (st.distance.Some? ==>
          && st.best.nearestDistance.Some?
          && st.best.nearestDistance.value <= st.distance.value)
  }

  /** The LEFT/RIGHT loop after its first `n` iterations. */
  function SideLoop(strips: seq<Strip>, a: nat, dir: Direction, n: nat): (st: SideState)
    requires a < |strips| && n <= |strips|
    ensures SideInvariant(strips, a, dir, n, st)
  {
    if n == 0 then SideState(Unset, None)
    else
      var prev := SideLoop(strips, a, dir, n - 1);
      SideStep(strips, a, dir, prev, n - 1)
  }

  /** The update the LEFT/RIGHT loop is evidently meant to perform: take
      strip `j` exactly when it is a candidate strictly closer than the best
      so far. */
  function CleanSideStep(strips: seq<Strip>, a: nat, dir: Direction, best: Best, j: nat): Best
    requires a < |strips| && j < |strips|
  {
    if IsSideCandidate(strips, a, dir, j) && Below(Gap(strips, a, dir, j), best.nearestDistance)
    then Best(Some(j), Some(Gap(strips, a, dir, j)))
    else best
  }

  /** The stale `distance` never does harm: every iteration of the loop as
      written changes the best strip exactly as the clean update does. A
      strip that fails the side test leaves the best strip alone even though
      `distance` still holds an earlier strip's gap, and a candidate's gap is
      never 0, so the truthiness test never turns a candidate away. */
  lemma StaleDistanceHarmless(strips: seq<Strip>, a: nat, dir: Direction, n: nat)
    requires a < |strips| && n < |strips|
    ensures SideLoop(strips, a, dir, n + 1).best
         == CleanSideStep(strips, a, dir, SideLoop(strips, a, dir, n).best, n)
    ensures !IsSideCandidate(strips, a, dir, n) ==>
              SideLoop(strips, a, dir, n + 1).best == SideLoop(strips, a, dir, n).best
  {
  }

  // ----- UP / DOWN -----

  /** One iteration of the inner loop over the strips, looking in channel `c`.
      Started from a state that meets the channel invariant for the strips
      before `j`, it meets it for the strips up to `j`. */
  function ChannelStep(strips: seq<Strip>, a: nat, c: int, best: Best, j: nat): (r: Best)
    requires a < |strips| && j < |strips|
    ensures ChannelInvariant(strips, a, c, j, best) ==> ChannelInvariant(strips, a, c, j + 1, r)
  {
    var d := MidGap(strips[j], strips[a]);
    if strips[j].channel == c && Below(d, best.nearestDistance) then Best(Some(j), Some(d))
    else best
  }

  /** What holds once the inner loop has looked at the first `n` strips, when
      it started with nothing found: the best strip is the nearest strip of
      channel `c` among them, or none when none of them lies in channel `c`. */
  predicate ChannelInvariant(strips: seq<Strip>, a: nat, c: int, n: nat, best: Best)
    requires a < |strips| && n <= |strips|
  {
    && (best.nearest.None? ==>
          && best.nearestDistance.None?
          && forall j :: 0 <= j < n ==> strips[j].channel != c)
    && (best.nearest.Some? ==>
          && IsNearestInChannelAmong(strips, a, c, n, best.nearest.value)
          && best.nearestDistance == Some(MidGap(strips[best.nearest.value], strips[a])))
  }

  /** The inner loop after its first `n` iterations, starting from `start`. */
  function ChannelPass(strips: seq<Strip>, a: nat, c: int, start: Best, n: nat): (best: Best)
    requires a < |strips| && n <= |strips|
    ensures start == Unset ==> ChannelInvariant(strips, a, c, n, best)
  {
    if n == 0 then start
    else
      var prev := ChannelPass(strips, a, c, start, n - 1);
      var best := ChannelStep(strips, a, c, prev, n - 1);
      assert start == Unset && best.nearest == Some(n - 1) ==>
        forall j :: 0 <= j < n - 1 && strips[j].channel == c ==>
          MidGap(strips[n - 1], strips[a]) < MidGap(strips[j], strips[a]);
      best
  }

  /** `i` lies in the lowest channel within `lo..hi` that holds any strip, and
      is the nearest strip of that channel. */
  predicate IsNearestInLowestChannel(strips: seq<Strip>, a: nat, lo: int, hi: int, i: nat)
    requires a < |strips|
  {
    && i < |strips|
    && lo <= strips[i].channel <= hi
    && (forall j :: 0 <= j < |strips| && lo <= strips[j].channel <= hi ==>
          strips[i].channel <= strips[j].channel)
    && IsNearestInChannelAmong(strips, a, strips[i].channel, |strips|, i)
  }

  /** `i` lies in the highest channel within `lo..hi` that holds any strip,
      and is the nearest strip of that channel. */
  predicate IsNearestInHighestChannel(strips: seq<Strip>, a: nat, lo: int, hi: int, i: nat)
    requires a < |strips|
  {
    && i < |strips|
    && lo <= strips[i].channel <= hi
    && (forall j :: 0 <= j < |strips| && lo <= strips[j].channel <= hi ==>
          strips[i].channel >= strips[j].channel)
    && IsNearestInChannelAmong(strips, a, strips[i].channel, |strips|, i)
  }

  /** The UP loop from channel `c` on: while nothing is found and `c` has not
      passed the highest channel, scan channel `c` and move one channel up. */
  function SearchUp(strips: seq<Strip>, a: nat, c: int, highest: int, best: Best): (r: Best)
    requires a < |strips|
    requires best.nearest.None? ==> best == Unset
    ensures best.nearest.Some? ==> r == best
    ensures best.nearest.None? ==>
              (r.nearest.None? <==>
                 forall j :: 0 <= j < |strips| ==> !(c <= strips[j].channel <= highest))
    ensures best.nearest.None? && r.nearest.Some? ==>
              IsNearestInLowestChannel(strips, a, c, highest, r.nearest.value)
    decreases highest - c
  {
    if best.nearest.None? && c <= highest then
      SearchUp(strips, a, c + 1, highest, ChannelPass(strips, a, c, best, |strips|))
    else
      best
  }

  /** The DOWN loop from channel `c` on: while nothing is found and `c` has
      not passed the lowest channel, scan channel `c` and move one channel down. */
  function SearchDown(strips: seq<Strip>, a: nat, c: int, lowest: int, best: Best): (r: Best)
    requires a < |strips|
    requires best.nearest.None? ==> best == Unset
    ensures best.nearest.Some? ==> r == best
    ensures best.nearest.None? ==>
              (r.nearest.None? <==>
                 forall j :: 0 <= j < |strips| ==> !(lowest <= strips[j].channel <= c))
    ensures best.nearest.None? && r.nearest.Some? ==>
              IsNearestInHighestChannel(strips, a, lowest, c, r.nearest.value)
    decreases c - lowest
  {
    if best.nearest.None? && c >= lowest then
      SearchDown(strips, a, c - 1, lowest, ChannelPass(strips, a, c, best, |strips|))
    else
      best
  }
}
