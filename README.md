# MoreSnow: a verified model of the snow-and-pile screensaver effect

This project models the per-tick logic of the "moresnow" terminal effect:
the `MoreSnowIterator` of `hypr/omarchy-screensaver-christmas/effect_moresnow.py`.

The effect has two kinds of particle:

- **Text snow.** Every character of the input text starts on the top row of
  its own column. It falls along a sway path to its input cell. All
  characters wait in a pending list sorted by descending input row. While
  that list is non-empty, one character at a random index is released on
  alternate ticks.
- **Background snow.** Flakes are spawned on the top row in a random column
  and fall to the bottom row. A flake whose path is over is counted on its
  column's pile, up to 5 per column. The flake placed at height `h` is moved
  to row `bottom - h`, so a column holds rows `bottom`, `bottom - 1`, ...,
  `bottom - 4`. A flake that arrives at a full column is removed.

Rows are the canvas's own row numbers, and `canvas.top` is the largest of
them. Every path runs from `top` down to a lower row (the `c.bottom <= c.top`
case of `Sway.BackgroundPathShape`). In this numbering, the pending list
puts the highest row first, nearest the top of the canvas. The piled rows
`bottom - h` for `h >= 1` lie below the bottom row. The model states the
rows as the code computes them and claims nothing about where they appear
on screen.

A run goes through three phases, and they never go backwards:

1. **Spawning.** Bursts of 3 to 6 background flakes, one every third tick.
2. **Fadeout.** This starts once nothing is pending and no text character is
   still moving. At that point every background flake still in the air gets
   a path straight down its current column. Then bursts of 5 to 10 flakes
   come every other tick, while a counter runs for 100 ticks.
3. **Stopped.** No more spawning. The iteration ends on the first tick that
   finds no background flake left.

The model has five modules:

- `Geometry`: coordinates, the canvas, clamping, and truncating division.
- `Sway`: the sway-waypoint paths of `build` and `spawn_background_snowflake`.
- `Pile`: the landing pass of `check_background_snow_landing`, as the
  function `Land` and as the method `LandingPass`.
- `Pending`: the pending order and the sort of `build`.
- `MoreSnow`: the iterator itself. The class `MoreSnowIterator` has the
  source's fields, and its methods change them in place. `Next` is
  `__next__`.

The motion engine and the random-number generator are not modelled as code:

- **Motion engine.** Between two ticks it may move a particle along its path,
  and it clears the path when the particle arrives. In the model that means
  the environment may rewrite `text[i].active`, `background[k].pos` and
  `background[k].path`. Each tick's contract holds for any such rewrite.
- **Random draws.** Each `random.randint(a, b)` is a nondeterministic choice
  (`:|`) in `a..b`. Every contract therefore holds for every outcome of the
  draws.

Background flakes carry an identity (`id`), which stands for Python object
identity.

## Model

| member | source | states |
|---|---|---|
| Geometry.Clamp | hypr/omarchy-screensaver-christmas/effect_moresnow.py:272-276 | `max(left, min(right, x))` lies within the bounds. It is `x` when `x` is inside them, and the nearer bound otherwise. |
| Geometry.TruncDiv | hypr/omarchy-screensaver-christmas/effect_moresnow.py:212-213 | Python's `int()` of a quotient rounds toward zero: the magnitude is the floor of `|a| / b`, with the sign of `a`. |
| Sway.SwayWaypoints | hypr/omarchy-screensaver-christmas/effect_moresnow.py:207-218 | The sway loop draws `numSways - 1` amounts in 1..3. It emits exactly the clamped waypoints of `SwayPoints`, and returns the unclamped running column. |
| Sway.OffsetDrift | hypr/omarchy-screensaver-christmas/effect_moresnow.py:214-216 | Alternating left/right sways move the running column by at most 2 per pair. A trailing left sway moves it by 1 to 3. |
| Sway.SwayRowsMonotone | hypr/omarchy-screensaver-christmas/effect_moresnow.py:212-213 | Waypoint rows start at `top`, reach the target at `i = numSways`, stay between the two, and move monotonically toward the target. |
| Sway.SwayPointBounds | hypr/omarchy-screensaver-christmas/effect_moresnow.py:211-218 | A single waypoint's row lies between the top and the target. When the start column is on the canvas, the waypoint's column is within -5..+2 of it. |
| Sway.SwayPointsShape | hypr/omarchy-screensaver-christmas/effect_moresnow.py:207-218 | There are `numSways - 1` waypoints, every column inside the canvas, and the rows run monotonically from the top to the target. When the start column is on the canvas, every column is within -5..+2 of it. |
| Sway.SwayPoints | hypr/omarchy-screensaver-christmas/effect_moresnow.py:211-218 | The closed form of the sway loop: waypoint `i` is at the clamped running column and row `top - int(fall_distance * i / num_sways)`. Its properties are in `SwayPointsShape`. |
| Sway.TextPath | hypr/omarchy-screensaver-christmas/effect_moresnow.py:204-221 | A character's fall path: the sway waypoints, then its input cell. `TextPathShape` proves its properties. |
| Sway.TextPathShape | hypr/omarchy-screensaver-christmas/effect_moresnow.py:204-221 | A text path has 2 to 4 waypoints and ends on the character's input cell. The sway waypoints before it have columns on the canvas. When the input row is not above the top, all rows fall monotonically from the top to the input row. The input cell itself is not required to be on the canvas. |
| Sway.BackgroundPath | hypr/omarchy-screensaver-christmas/effect_moresnow.py:259-277 | A background flake's fall path: the sway waypoints, then the clamped final column on the bottom row. `BackgroundPathShape` proves its properties. |
| Sway.BackgroundPathShape | hypr/omarchy-screensaver-christmas/effect_moresnow.py:259-277 | A flake path has 2 to 4 waypoints, all on the canvas. It ends on the bottom row in the column of the last sway. When `bottom <= top`, its rows fall monotonically from the top to the bottom. |
| Pile.Land | hypr/omarchy-screensaver-christmas/effect_moresnow.py:286-302 | The landing pass as a function of the list and the heights. Its properties are the `Land*` lemmas below. |
| Pile.LandingPass | hypr/omarchy-screensaver-christmas/effect_moresnow.py:284-302 | Over a list with distinct identities, the walk over a snapshot ends with exactly `Land`'s list and heights. A placed flake is overwritten in place, and a flake at a full pile is dropped with `list.remove`. Each removal takes out the walked-to position. |
| Pile.LandBounded | hypr/omarchy-screensaver-christmas/effect_moresnow.py:291-298 | No column's pile height ever leaves 0..5. |
| Pile.LandHeight | hypr/omarchy-screensaver-christmas/effect_moresnow.py:291-298 | Over one pass, a column's height becomes `min(5, h + n)`, where `n` is the number of its pathless flakes. |
| Pile.LandColumn | hypr/omarchy-screensaver-christmas/effect_moresnow.py:286-302 | In each column, the first `min(5 - h, n)` pathless flakes are kept in order, the `j`-th placed on row `bottom - (h + j)`. The rest are removed. |
| Pile.LandKeepsMoving | hypr/omarchy-screensaver-christmas/effect_moresnow.py:286-287 | Flakes still on a path are kept, unchanged and in order. |
| Pile.LandMonotone | hypr/omarchy-screensaver-christmas/effect_moresnow.py:291-298 | Pile heights never decrease, and a column once seen stays in the map. |
| Pile.LandIdsIncreasing | hypr/omarchy-screensaver-christmas/effect_moresnow.py:286-302 | The pass keeps the list in spawn order. |
| Pile.LandIdsWithin | hypr/omarchy-screensaver-christmas/effect_moresnow.py:286-302 | Any identity range the input respects is respected by the kept list. |
| Pile.LandKeptFromInput | hypr/omarchy-screensaver-christmas/effect_moresnow.py:286-302 | The pass adds no flake. Each kept flake is an input flake with the same identity, path and column, at most moved within its column. |
| Pile.PathlessFlakeRemovedWithinSixPasses | hypr/omarchy-screensaver-christmas/effect_moresnow.py:286-302 | A flake that stays pathless in one column is gone after at most six landing passes, whatever else happens between passes. |
| Pile.RemoveFirst | hypr/omarchy-screensaver-christmas/effect_moresnow.py:302 | `list.remove` requires the flake to be present, and leaves the list one shorter. |
| Pile.RemoveFirstAt | hypr/omarchy-screensaver-christmas/effect_moresnow.py:302 | When position `j` holds the first flake of its identity, `list.remove` takes out exactly position `j`. |
| Pending.RemoveAt | hypr/omarchy-screensaver-christmas/effect_moresnow.py:311 | `pop(k)` shortens the list by one and removes exactly the element at `k`, counted as a multiset. |
| Pending.RemoveAtKeepsOrder | hypr/omarchy-screensaver-christmas/effect_moresnow.py:311 | Popping any index keeps the rest in range, repeat-free and sorted by descending row, and the popped character is no longer pending. |
| Pending.Insert | hypr/omarchy-screensaver-christmas/effect_moresnow.py:235 | The insertion step of the sort keeps every index in range and adds exactly `x` to the multiset. |
| Pending.InsertSorted | hypr/omarchy-screensaver-christmas/effect_moresnow.py:235 | Insertion into a list sorted by descending row keeps it sorted. |
| Pending.SortDesc | hypr/omarchy-screensaver-christmas/effect_moresnow.py:235 | `sort(key=row, reverse=True)` yields a permutation of its input, sorted by descending row. |
| Pending.DistinctMultiset | hypr/omarchy-screensaver-christmas/effect_moresnow.py:235 | A list is repeat-free exactly when no multiset count exceeds 1. So a sort of a repeat-free list stays repeat-free. |
| MoreSnow.InitialPending | hypr/omarchy-screensaver-christmas/effect_moresnow.py:230-235 | `build`'s pending list holds every character exactly once, highest input row first. |
| MoreSnow.BuildText | hypr/omarchy-screensaver-christmas/effect_moresnow.py:175-232 | Each character starts on the top row of its input column, on an active text path ending at its input cell. |
| MoreSnow.FastForward | hypr/omarchy-screensaver-christmas/effect_moresnow.py:332-339 | One flake's cutover: a new path with the single waypoint at the bottom of its current column, if it has a path. |
| MoreSnow.Release | hypr/omarchy-screensaver-christmas/effect_moresnow.py:307-316 | One tick's text-release rule. `ReleaseRate` proves its rate over many ticks. |
| MoreSnow.Fade | hypr/omarchy-screensaver-christmas/effect_moresnow.py:342-346 | One tick's fadeout-counter rule. `FadeoutLength` proves its length. |
| MoreSnow.Cadence | hypr/omarchy-screensaver-christmas/effect_moresnow.py:342-363 | One tick's background-spawn rule. `BurstCount` proves the burst rate. |
| MoreSnow.FastForwardAll | hypr/omarchy-screensaver-christmas/effect_moresnow.py:331-339 | In the cutover, every flake keeps its identity and position. A flake on a path gets the single waypoint at the bottom of its current column, and a pathless flake is untouched. |
| MoreSnow.BurstCount | hypr/omarchy-screensaver-christmas/effect_moresnow.py:348-363 | Within one phase, starting from delay `d`, bursts come on tick `d + 1` and then every 3 ticks (every 2 in fadeout). |
| MoreSnow.FadeoutLength | hypr/omarchy-screensaver-christmas/effect_moresnow.py:342-346 | After completion, the counter climbs by one per tick to 101. Spawning has stopped exactly when more than 100 ticks have passed. |
| MoreSnow.ReleaseRate | hypr/omarchy-screensaver-christmas/effect_moresnow.py:307-316 | From delay `d`, one character leaves the pending list on tick `d + 1` and then every other tick, until none is left. |
| MoreSnow.MoreSnowIterator.constructor | hypr/omarchy-screensaver-christmas/effect_moresnow.py:131-139 | The initial state: nothing spawned, all delays and the counter 0, both flags false, and the text and pending list as `build` makes them. |
| MoreSnow.MoreSnowIterator.AllTextLanded | hypr/omarchy-screensaver-christmas/effect_moresnow.py:319-325 | The completion test is true exactly when nothing is pending and no text character is still on its path. |
| MoreSnow.MoreSnowIterator.ReleaseText | hypr/omarchy-screensaver-christmas/effect_moresnow.py:307-316 | With the delay spent, one pending character at some index is popped and the delay is set to 1. Otherwise the delay counts down. The order invariant is kept. |
| MoreSnow.MoreSnowIterator.FastForwardBackground | hypr/omarchy-screensaver-christmas/effect_moresnow.py:331-339 | The in-place loop leaves the list equal to `FastForwardAll` of the old list. |
| MoreSnow.MoreSnowIterator.CompleteText | hypr/omarchy-screensaver-christmas/effect_moresnow.py:317-339 | `textComplete` is set exactly when all text has landed, and only then is the background fast-forwarded. |
| MoreSnow.MoreSnowIterator.SpawnBackgroundSnowflake | hypr/omarchy-screensaver-christmas/effect_moresnow.py:237-282 | Appends one flake with the next identity, on the top row of a column inside the bounds, on a background path. Nothing else changes in the list. |
| MoreSnow.MoreSnowIterator.SpawnBackgroundSnowflakes | hypr/omarchy-screensaver-christmas/effect_moresnow.py:350-352 | `count` spawns append `count` such flakes with consecutive identities. |
| MoreSnow.MoreSnowIterator.SpawnStep | hypr/omarchy-screensaver-christmas/effect_moresnow.py:341-363 | The fadeout counter rule (`Fade`) and the spawn cadence (`Cadence`): burst sizes, delays, and nothing once stopped. |
| MoreSnow.MoreSnowIterator.CheckBackgroundSnowLanding | hypr/omarchy-screensaver-christmas/effect_moresnow.py:284-302 | The flake list and heights become `Land` of the old ones. The pile cap and spawn order are kept. |
| MoreSnow.MoreSnowIterator.TextStep | hypr/omarchy-screensaver-christmas/effect_moresnow.py:306-339 | The release rule holds. Completion latches exactly when the pending list was empty and all text has landed, and the cutover happens on that tick only. |
| MoreSnow.MoreSnowIterator.Next | hypr/omarchy-screensaver-christmas/effect_moresnow.py:304-374 | One tick keeps the invariant and never moves the phase backwards. It follows the release, fadeout and cadence rules, and its background is `Land` of (cutover or old list) plus the new flakes. It stops exactly when spawning has stopped and no flake is left. |

`MoreSnowIterator.Valid` is the invariant every tick keeps:

- the pending list is repeat-free, within the text, and sorted by descending row;
- every pile height is within 0..5;
- the background list is in spawn order;
- the delays are within their ranges;
- `textComplete` implies that nothing is pending;
- the counter is 0 before completion, and spawning has stopped exactly when
  the counter is above 100.

Where the source's own docstring and comments read differently from its
code, the model follows the code:

- The module docstring (line 1) says snow "accumulates", and the comment at
  line 294 says snow is stacked at the bottom with a maximum height of 5.
  But a flake stacked on a pile keeps no path, so every later landing pass
  examines it again. Each re-examination raises its column's count, and the
  flake is removed once the count reaches 5. `PathlessFlakeRemovedWithinSixPasses`
  captures this. Piled snow is not a resting state. It is also what lets
  the stop test at line 369 succeed once spawning has stopped.
- The comment at line 234 says the descending sort lets the bottom letters
  fill first. But line 311 pops a uniformly random index of the pending
  list, so the sort does not fix the release order. `Release` and
  `ReleaseText` allow any index.
- The comment at line 318 describes checking whether all text characters
  have landed. The code runs that test only on ticks that begin with nothing
  pending and the text not yet complete (the `elif` at line 317). It does
  not run on the tick that pops the last character.

## Left out

- Configuration and command-line arguments: the symbols, colours,
  movement speed and gradients. The model has no use for them.
- Rendering: scenes, colour gradients, layers, visibility, `update()` and
  the returned frame. None of these affect the state the model tracks.
- Speed and easing of paths, and `random.uniform` speed factors: they only
  affect how fast the motion engine moves a particle.
- The motion engine's internals: how a particle moves along its path. It is
  an environment step between ticks.
- The distribution of random draws. Only their ranges are modelled.
- `random.choice` of symbols and colours, which only affect appearance.
- `is_outline_character` (lines 141-164): it has no caller in the iterator.
- `all_chars` and `char_to_index` in `build` (lines 169-172): they are never read.
- `active_characters` bookkeeping: it belongs to the rendering loop.
- `terminal.get_characters()` is taken to return the input text characters
  only, not the added background flakes. The model's completion test ranges
  over `text`.
- `Pile.RemoveFirst`: Python's `list.remove` finds a flake by object
  identity, and the model finds it by the `id` field. When no flake has that
  identity, Python raises `ValueError`; the model instead requires a match.
  The landing pass always has one.
- `Pending.SortDesc`: Python's sort is stable, but the model does not prove
  stability among characters on the same row. Only the permutation and the
  descending order are stated.
- `Geometry.TruncDiv`: `int(fall_distance * (i / num_sways))` uses floating
  point. The model uses exact integer division truncated toward zero, so
  float rounding of the product is not modelled.
- `MoreSnow.MoreSnowIterator.Next`: termination of a whole run is not proved,
  because whether a flake ever arrives is up to the motion engine. What is
  proved: the phases are monotone, the fadeout lasts exactly 100 ticks, a
  pathless flake is gone within six passes, and the stop condition is an
  if-and-only-if.
