/** The move-selection operator: pick the neighbour of the active strip in the
    requested direction, or keep the active strip when there is none, then
    make that strip the only selected one, the active one, and the playhead's
    frame. */
module MoveSelection {
  import opened Strips
  import opened Nearest
  import opened Scan

  /** The `nearest_strip` the operator's search ends with, `None` when no
      strip qualifies. It is the neighbour the reference definitions describe. */
  function FindNeighbour(strips: seq<Strip>, a: nat, dir: Direction): (r: Option<nat>)
    requires a < |strips|
    ensures r.Some? ==> r.value < |strips| && r.value != a && IsNeighbour(strips, a, dir, r.value)
    ensures r.None? <==> NoCandidate(strips, a, dir)
  {
    match dir
    case Left => SideLoop(strips, a, dir, |strips|).best.nearest
    case Right => SideLoop(strips, a, dir, |strips|).best.nearest
    case Up =>
      var highest := MaxChannel(strips);
      var r := SearchUp(strips, a, strips[a].channel + 1, highest, Unset).nearest;
      assert r.Some? ==> IsNearestAbove(strips, a, r.value);
      r
    case Down =>
      var lowest := MinChannel(strips);
      var r := SearchDown(strips, a, strips[a].channel - 1, lowest, Unset).nearest;
      assert r.Some? ==> IsNearestBelow(strips, a, r.value);
      r
  }

  /** The search selects a strip exactly when that strip is the neighbour the
      reference definitions single out. */
  lemma FindNeighbourCharacterised(strips: seq<Strip>, a: nat, dir: Direction, i: nat)
    requires a < |strips|
    ensures FindNeighbour(strips, a, dir) == Some(i) <==> IsNeighbour(strips, a, dir, i)
  {
  }

  /** A strip whose frame range merely touches the active strip's is never the
      LEFT or RIGHT neighbour: the side tests are strict. */
  lemma TouchingStripNeverChosen(strips: seq<Strip>, a: nat, j: nat)
    requires a < |strips| && j < |strips|
    ensures strips[j].frameEnd == strips[a].frameStart ==> FindNeighbour(strips, a, Left) != Some(j)
    ensures strips[j].frameStart == strips[a].frameEnd ==> FindNeighbour(strips, a, Right) != Some(j)
  {
  }

  /** Two strip lists that agree on every channel and frame range. */
  predicate SameLayout(s1: seq<Strip>, s2: seq<Strip>) {
    |s1| == |s2| && forall k :: 0 <= k < |s1| ==> SameGeometry(s1[k], s2[k])
  }

  /** The reference definitions read only channels and frame ranges. */
  lemma LayoutDecidesNeighbour(s1: seq<Strip>, s2: seq<Strip>, a: nat, dir: Direction, i: nat)
    requires a < |s1| && SameLayout(s1, s2)
    ensures IsNeighbour(s1, a, dir, i) <==> IsNeighbour(s2, a, dir, i)
  {
    if i < |s1| {
      if dir.IsHorizontal() {
        assert forall j :: 0 <= j < |s1| ==>
          (IsSideCandidate(s1, a, dir, j) <==> IsSideCandidate(s2, a, dir, j));
      } else {
        assert forall j :: 0 <= j < |s1| ==> MidGap(s1[j], s1[a]) == MidGap(s2[j], s2[a]);
      }
    }
  }

  /** The search reads only channels and frame ranges. */
  lemma LayoutDecidesSearch(s1: seq<Strip>, s2: seq<Strip>, a: nat, dir: Direction)
    requires a < |s1| && SameLayout(s1, s2)
    ensures FindNeighbour(s1, a, dir) == FindNeighbour(s2, a, dir)
  {
    var r1, r2 := FindNeighbour(s1, a, dir), FindNeighbour(s2, a, dir);
    if r1.Some? {
      LayoutDecidesNeighbour(s1, s2, a, dir, r1.value);
      FindNeighbourCharacterised(s2, a, dir, r1.value);
    } else if r2.Some? {
      LayoutDecidesNeighbour(s1, s2, a, dir, r2.value);
      FindNeighbourCharacterised(s1, a, dir, r2.value);
    }
  }

  /** The strip picked depends only on channels and frame ranges: editors
      that differ in selection flags and playhead alone end up identical. */
  lemma SelectionFlagsIgnored(ed1: Editor, ed2: Editor, dir: Direction)
    requires ActiveInRange(ed1) && ed1.active.Some? && ed2.active == ed1.active
    requires SameLayout(ed1.strips, ed2.strips)
    ensures Execute(ed1, dir) == Execute(ed2, dir)
  {
    LayoutDecidesSearch(ed1.strips, ed2.strips, ed1.active.value, dir);
    assert ClearSelection(ed1.strips) == ClearSelection(ed2.strips);
  }

  /** Every strip with its selection flag cleared, nothing else changed. */
  function ClearSelection(strips: seq<Strip>): (r: seq<Strip>)
    ensures |r| == |strips|
    ensures forall k :: 0 <= k < |r| ==> !r[k].select && SameGeometry(r[k], strips[k])
  {
    seq(|strips|, k requires 0 <= k < |strips| => strips[k].(select := false))
  }

  /** The operator's `execute`. */
  function Execute(ed: Editor, dir: Direction): (r: Editor)
    requires ActiveInRange(ed)
    ensures ActiveInRange(r)
    ensures |r.strips| == |ed.strips|
    ensures forall k :: 0 <= k < |ed.strips| ==> SameGeometry(r.strips[k], ed.strips[k])
    ensures ed.active.None? ==> r == ed
    ensures ed.active.Some? ==>
              && r.active.Some?
              && (forall k :: 0 <= k < |r.strips| ==> (r.strips[k].select <==> r.active == Some(k)))
              && r.frameCurrent == r.strips[r.active.value].frameStart
    ensures ed.active.Some? ==>
              (r.active == ed.active <==> NoCandidate(ed.strips, ed.active.value, dir))
    ensures ed.active.Some? && r.active != ed.active ==>
              IsNeighbour(ed.strips, ed.active.value, dir, r.active.value)
  {
    match ed.active
    case None => ed
    case Some(a) =>
      var target := match FindNeighbour(ed.strips, a, dir) {
        case Some(i) => i
        case None => a
      };
      var cleared := ClearSelection(ed.strips);
      var strips := cleared[target := cleared[target].(select := true)];
      Editor(strips, Some(target), strips[target].frameStart)
  }

  /** Two strips at the same gap to the left: the one listed first wins. */
  lemma TieGoesToEarliestExample()
    ensures var strips := [Strip(1, 0, 5, false), Strip(1, 10, 20, true), Strip(1, 0, 5, false)];
            Execute(Editor(strips, Some(1), 10), Left) ==
            Editor([Strip(1, 0, 5, true), Strip(1, 10, 20, false), Strip(1, 0, 5, false)], Some(0), 0)
  {
    var strips := [Strip(1, 0, 5, false), Strip(1, 10, 20, true), Strip(1, 0, 5, false)];
    FindNeighbourCharacterised(strips, 1, Left, 0);
    var r := Execute(Editor(strips, Some(1), 10), Left);
    assert r.strips[0].select && !r.strips[1].select && !r.strips[2].select;
  }

  /** The only other strip in the channel ends exactly where the active one
      starts: LEFT finds nothing and the active strip stays selected. */
  lemma TouchingStripFallsBackExample()
    ensures var strips := [Strip(1, 0, 10, false), Strip(1, 10, 20, true)];
            Execute(Editor(strips, Some(1), 3), Left) ==
            Editor([Strip(1, 0, 10, false), Strip(1, 10, 20, true)], Some(1), 10)
  {
  }

  /** UP skips the empty channel 2, stops at channel 3 although channel 4 is
      occupied too, and there takes the strip whose midpoint is nearer. */
  lemma UpSkipsEmptyChannelExample()
    ensures var strips := [Strip(1, 0, 10, true), Strip(4, 0, 10, false),
                           Strip(3, 100, 110, false), Strip(3, 20, 30, false)];
            FindNeighbour(strips, 0, Up) == Some(3)
  {
  }
}
