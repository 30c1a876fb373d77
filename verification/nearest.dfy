/** What "the nearest strip" means for each direction, stated directly over
    the whole strip list. These definitions are independent of how the
    operator scans for the strip; MoveSelection proves the scans meet them. */
module Nearest {
  import opened Strips

  /** Strip `j` qualifies for a horizontal move away from the active strip `a`:
      it is another strip, in the same channel, whose frame range lies
      strictly on the requested side. A strip that merely touches the active
      one does not qualify. */
  predicate IsSideCandidate(strips: seq<Strip>, a: nat, dir: Direction, j: nat)
    requires a < |strips| && j < |strips|
  {
    && j != a
    && strips[j].channel == strips[a].channel
    && (if dir.Left? then strips[a].frameStart > strips[j].frameEnd
        else dir.Right? && strips[j].frameStart > strips[a].frameEnd)
  }

  /** The gap between the facing frame boundaries of the active strip and a
      candidate beside it. */
  function Gap(strips: seq<Strip>, a: nat, dir: Direction, j: nat): (r: int)
    requires a < |strips| && j < |strips|
    requires IsSideCandidate(strips, a, dir, j)
    ensures r > 0
  {
    if dir.Left? then strips[a].frameStart - strips[j].frameEnd
    else strips[j].frameStart - strips[a].frameEnd
  }

  /** Among the first `n` strips, `i` is a side candidate with the smallest
      gap, and the earliest such candidate when several share that gap. */
  predicate IsNearestBesideAmong(strips: seq<Strip>, a: nat, dir: Direction, n: nat, i: nat)
    requires a < |strips| && n <= |strips|
  {
    && i < n
    && IsSideCandidate(strips, a, dir, i)
    && (forall j :: 0 <= j < n && IsSideCandidate(strips, a, dir, j) ==>
          Gap(strips, a, dir, i) <= Gap(strips, a, dir, j))
    && (forall j :: 0 <= j < i && IsSideCandidate(strips, a, dir, j) ==>
          Gap(strips, a, dir, i) < Gap(strips, a, dir, j))
  }

  /** Among the first `n` strips, `i` lies in channel `c` with the smallest
      midpoint distance to the active strip, and is the earliest such strip
      when several share that distance. */
  predicate IsNearestInChannelAmong(strips: seq<Strip>, a: nat, c: int, n: nat, i: nat)
    requires a < |strips| && n <= |strips|
  {
    && i < n
    && strips[i].channel == c
    && (forall j :: 0 <= j < n && strips[j].channel == c ==>
          MidGap(strips[i], strips[a]) <= MidGap(strips[j], strips[a]))
    && (forall j :: 0 <= j < i && strips[j].channel == c ==>
          MidGap(strips[i], strips[a]) < MidGap(strips[j], strips[a]))
  }

  /** `i` lies in the lowest occupied channel above the active strip, and is
      the nearest strip of that channel. */
  predicate IsNearestAbove(strips: seq<Strip>, a: nat, i: nat)
    requires a < |strips|
  {
    && i < |strips|
    && strips[i].channel > strips[a].channel
    && (forall j :: 0 <= j < |strips| && strips[j].channel > strips[a].channel ==>
          strips[i].channel <= strips[j].channel)
    && IsNearestInChannelAmong(strips, a, strips[i].channel, |strips|, i)
  }

  /** `i` lies in the highest occupied channel below the active strip, and is
      the nearest strip of that channel. */
  predicate IsNearestBelow(strips: seq<Strip>, a: nat, i: nat)
    requires a < |strips|
  {
    && i < |strips|
    && strips[i].channel < strips[a].channel
    && (forall j :: 0 <= j < |strips| && strips[j].channel < strips[a].channel ==>
          strips[i].channel >= strips[j].channel)
    && IsNearestInChannelAmong(strips, a, strips[i].channel, |strips|, i)
  }

  /** `i` is the strip a move in direction `dir` away from `a` should select. */
  predicate IsNeighbour(strips: seq<Strip>, a: nat, dir: Direction, i: nat)
    requires a < |strips|
  {
    match dir
    case Left => IsNearestBesideAmong(strips, a, dir, |strips|, i)
    case Right => IsNearestBesideAmong(strips, a, dir, |strips|, i)
    case Up => IsNearestAbove(strips, a, i)
    case Down => IsNearestBelow(strips, a, i)
  }

  /** No strip qualifies for a move in direction `dir`. */
  predicate NoCandidate(strips: seq<Strip>, a: nat, dir: Direction)
    requires a < |strips|
  {
    match dir
    case Left => forall j :: 0 <= j < |strips| ==> !IsSideCandidate(strips, a, dir, j)
    case Right => forall j :: 0 <= j < |strips| ==> !IsSideCandidate(strips, a, dir, j)
    case Up => forall j :: 0 <= j < |strips| ==> strips[j].channel <= strips[a].channel
    case Down => forall j :: 0 <= j < |strips| ==> strips[j].channel >= strips[a].channel
  }

  /** The definitions above single out at most one strip per direction: the
      earliest-on-ties rule leaves no choice. */
  lemma NeighbourUnique(strips: seq<Strip>, a: nat, dir: Direction, i: nat, k: nat)
    requires a < |strips|
    requires IsNeighbour(strips, a, dir, i) && IsNeighbour(strips, a, dir, k)
    ensures i == k
  {
  }
}
