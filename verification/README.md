# Move Selection: a Dafny model

This project models the Blender add-on "Move Selection". Its only logic is the operator
`SEQUENCER_OT_move_selection.execute`. In the video sequence editor, it moves the selection
from the active strip to the nearest strip in one of four directions:

- **LEFT / RIGHT**: the nearest strip in the active strip's channel that lies strictly on
  that side. Nearness is the gap between the facing frame boundaries.
- **UP / DOWN**: the search starts in the channel next to the active strip's channel and
  moves outward one channel at a time. It stops in the first channel that holds any strip.
  There it takes the strip whose midpoint is nearest the active strip's midpoint.
- **Ties**: the strip listed first wins, because every comparison is a strict `<`.
- **Fallback**: when no strip qualifies, the active strip is selected again.

Afterwards exactly that strip is selected. It becomes the active strip, and the playhead
moves to its first frame. With no active strip, nothing changes.

Modules:

- `Strips` (`strips.dfy`): the data model. It holds `Strip`, `Direction` and `Editor`, the
  strip list together with the active index and the playhead frame. It also holds the
  half-frame midpoint distance `MidGap` and the channel extremes `MaxChannel` and
  `MinChannel`.
- `Nearest` (`nearest.dfy`): reference definitions that say directly what the neighbour in
  each direction is (`IsNeighbour`) and when there is none (`NoCandidate`).
- `Scan` (`scan.dfy`): the operator's loops, one iteration at a time, as written. This
  includes the LEFT/RIGHT `distance` variable, which is never reset between strips.
  Each loop's invariant is the contract of the function that runs it.
- `MoveSelection` (`move_selection.dfy`): `FindNeighbour`, `Execute` and the lemmas that
  tie the loops to the reference definitions.

Modelling choices:

- A strip is identified by its index in the strip list. The operator's `seq != active_strip`
  compares objects; here it compares indices.
- `float("inf")`, the initial `nearest_distance`, is an absent `Option` value.
- The midpoint distance `abs(s + (e - s) / 2 - (as + (ae - as) / 2))` is compared doubled,
  as the integer `|(s + e) - (as + ae)|`. `MidGap` proves this equals twice the exact
  (rational) midpoint distance, so both orderings agree.
- The truthiness of `distance` (`None` and `0` are false) is modelled explicitly, in `Truthy`.
- The side tests compare only the facing frame boundary, and strictly (`__init_.py:53`,
  `__init_.py:60`), so a strip that touches the active strip is never a candidate.
- Within the first occupied channel above or below, midpoint distance is the only criterion.

## Model

| member | source | states |
|---|---|---|
| Strips.MidGap | __init_.py:80-91 | the integer used to compare strips is exactly twice the midpoint distance the UP/DOWN tests compute with true division |
| Strips.MidGapOrdersLikeMidpointDistance | __init_.py:78-93 | comparing half-frame distances decides every `< nearest_distance` test the same way as comparing the midpoint distances |
| Strips.MaxChannel | __init_.py:72-74 | the highest channel is the channel of some strip, and no strip lies above it |
| Strips.MinChannel | __init_.py:111-113 | the lowest channel is the channel of some strip, and no strip lies below it |
| Nearest.Gap | __init_.py:51-64 | the gap of a strip that passes the strict side test is always positive, so a real candidate's `distance` is never falsy |
| Nearest.NeighbourUnique | __init_.py:66-68 | the nearest-and-earliest-on-ties rule picks at most one strip per direction, so the neighbour is well defined |
| Scan.SideStep | __init_.py:47-68 | one LEFT/RIGHT iteration, reading the stale `distance` when the side test fails, keeps the loop invariant and moves the best strip exactly as the clean update "take a candidate strictly closer than the best" does |
| Scan.SideLoop | __init_.py:42-68 | after any number of strips, the LEFT/RIGHT best is the first candidate of minimal gap among them (none iff there is no candidate), and the leftover `distance` is at least `nearest_distance` |
| Scan.StaleDistanceHarmless | __init_.py:44-68 | each iteration as written, with `distance` never reset, changes the best strip exactly as the clean rule "take a candidate strictly closer than the best" does; a strip failing the side test changes nothing |
| Scan.ChannelStep | __init_.py:76-106 | one iteration of the inner UP/DOWN loop keeps the channel invariant: the best strip is the first of minimal midpoint distance in the channel so far, none iff the channel has had no strip so far |
| Scan.ChannelPass | __init_.py:76-106 | a pass over all strips that starts with nothing found ends with the first strip of minimal midpoint distance in the channel, or none iff the channel is empty |
| Scan.SearchUp | __init_.py:69-107 | the UP search finds nothing iff no strip lies in channels c..highest; otherwise it returns the nearest strip of the lowest occupied channel in that range; it terminates with measure highest - c |
| Scan.SearchDown | __init_.py:108-146 | the mirror of SearchUp: the nearest strip of the highest occupied channel in lowest..c, none iff that range is empty; terminates with measure c - lowest |
| MoveSelection.FindNeighbour | __init_.py:42-146 | the search result is never the active strip and always a neighbour in the requested direction; it is absent exactly when no strip qualifies |
| MoveSelection.FindNeighbourCharacterised | __init_.py:42-146 | the search picks strip i if and only if i is the neighbour the reference definitions describe |
| MoveSelection.TouchingStripNeverChosen | __init_.py:51-64 | a strip ending where the active strip starts is never the LEFT pick, and one starting where it ends is never the RIGHT pick |
| MoveSelection.LayoutDecidesSearch | __init_.py:42-146 | two strip lists with the same channels and frame ranges give the same search result |
| MoveSelection.LayoutDecidesNeighbour | __init_.py:49-146 | whether a strip is the neighbour in a direction depends only on the channels and frame ranges of the strips |
| MoveSelection.SelectionFlagsIgnored | __init_.py:36-155 | when there is an active strip, the outcome depends only on channels and frame ranges, not on the selection flags or the playhead beforehand (with no active strip the editor is returned unchanged, flags and playhead included) |
| MoveSelection.ClearSelection | __init_.py:38-40 | afterwards no strip is selected, and every strip keeps its channel and frame range |
| MoveSelection.Execute | __init_.py:30-156 | with no active strip nothing changes; otherwise exactly one strip is selected, it is the new active strip, and the playhead is at its start frame; the active strip is kept iff nothing qualifies, and any other choice is the neighbour; channels and frame ranges never change |
| MoveSelection.TieGoesToEarliestExample | __init_.py:55-68 | two strips with the same gap to the left: the one listed first is chosen |
| MoveSelection.TouchingStripFallsBackExample | __init_.py:51-68 | when the only other strip in the channel touches the active one, LEFT keeps the active strip |
| MoveSelection.UpSkipsEmptyChannelExample | __init_.py:69-107 | UP skips an empty channel, stops at the first occupied one even though a higher channel is occupied, and takes the nearer midpoint there |

## Left out

- The add-on metadata `bl_info` is left out (__init_.py:1-11). It is data for the host, not behaviour.
- Both `menu_func` definitions are left out (__init_.py:159-168), as are `register` and `unregister` (__init_.py:171-202). They are calls into Blender's plugin, menu and keymap API, which the model cannot see. `unregister` also looks up the `"Window"` keymap, not the `"Sequencer"` keymap that `register` creates.
- The scene object graph is left out. The model keeps only the strip list, the active strip and `frame_current`. Strip fields other than channel, frame range and selection flag are not modelled.
- Strips.MidGap: the comparison is exact. Python's floats round `(e - s) / 2` and the sums once frame numbers pass 2^52. Blender frame numbers never get that large.
- The model requires the active strip to be one of the editor's strips (`ActiveInRange`). Blender keeps the active strip inside `sequences_all`. This is also why `max()` and `min()` over the strips never see an empty list and never raise.
- A scene without a sequence editor is left out. When `context.scene.sequence_editor` is `None`, `__init_.py:32` raises `AttributeError` before the active-strip test. The operator has no `poll`, and `__init_.py:173` also lists it in the 3D viewport's Object menu, so this path is reachable. The model always has an editor, and it does not model the exception.
- The operator's return value `{"FINISHED"}` is always the same and is not modelled.
