/** The per-tick driver of the "moresnow" effect (`MoreSnowIterator`).

    Text characters start above the canvas and are released one at a time,
    on alternate ticks, from a pending list sorted highest input row first; each
    falls along a sway path to its input cell. Background flakes are spawned
    in bursts and pile up at the bottom. Once no text character is pending
    or moving, background flakes still falling are sent straight down, a
    faster flurry runs for 100 ticks, spawning stops, and the iteration ends
    when the last background flake is gone.

    The motion engine is outside the model: between ticks it may move a
    particle along its path and clear the path when the particle arrives,
    which here means rewriting `text[i].active`, `background[k].pos` and
    `background[k].path` (keeping identities). Random draws are
    nondeterministic choices within the ranges the source draws from. */
module MoreSnow {
  import opened Geometry
  import opened Sway
  import opened Pile
  import opened Pending

  /** A character of the input text: its input cell, its current cell, its
      fall path, and whether the motion engine still has it on that path. */
  datatype TextChar = TextChar(input: Coord, pos: Coord, path: seq<Coord>, active: bool)

  datatype Phase = Spawning | FadingOut | Stopped

  function Rank(p: Phase): nat {
    match p
    case Spawning => 0
    case FadingOut => 1
    case Stopped => 2
  }

  /** Ticks of fadeout spawning before spawning stops for good. */
  const FadeoutTicks: int := 100

  /** The input rows of the text, the key of the pending order. */
  function Rows(text: seq<TextChar>): (r: seq<int>)
    ensures |r| == |text|
    ensures forall i :: 0 <= i < |text| ==> r[i] == text[i].input.row
  {
    seq(|text|, i requires 0 <= i < |text| => text[i].input.row)
  }

  function Indices(n: nat): (r: seq<nat>)
    ensures |r| == n && forall i :: 0 <= i < n ==> r[i] == i
  {
    seq(n, i requires 0 <= i < n => i as nat)
  }

  /** The cutover: a flake still on a path is sent straight down its current
      column to the bottom row; a pathless flake is left alone. */
  function FastForward(f: Flake, bottom: int): Flake {
    if f.path.Some? then f.(path := Some([Coord(f.pos.column, bottom)])) else f
  }

  function FastForwardAll(fs: seq<Flake>, bottom: int): (r: seq<Flake>)
    ensures |r| == |fs|
    ensures forall i :: 0 <= i < |fs| ==> r[i].id == fs[i].id && r[i].pos == fs[i].pos
    ensures forall i :: 0 <= i < |fs| && fs[i].path.Some? ==> r[i].path == Some([Coord(fs[i].pos.column, bottom)])
    ensures forall i :: 0 <= i < |fs| && fs[i].path.None? ==> r[i] == fs[i]
  {
    seq(|fs|, i requires 0 <= i < |fs| => FastForward(fs[i], bottom))
  }

  /** A flake as `spawn_background_snowflake` adds it under identity `id`:
      on the top row in a column inside the bounds, on a background path
      from that column. */
  ghost predicate NewFlake(c: Canvas, f: Flake, id: nat) {
    f.id == id && c.left <= f.pos.column <= c.right && f.pos.row == c.top &&
    f.path.Some? && IsBackgroundPath(c, f.pos.column, f.path.value)
  }

  /** `added` are new flakes with consecutive identities from `firstId`. */
  ghost predicate NewFlakes(c: Canvas, added: seq<Flake>, firstId: nat) {
    forall k :: 0 <= k < |added| ==> NewFlake(c, added[k], firstId + k)
  }

  /** The pending list `build` leaves: every character once, highest input
      row first. */
  function InitialPending(text: seq<TextChar>): (r: seq<nat>)
    ensures InRange(r, |text|) && Distinct(r) && SortedDesc(r, Rows(text))
    ensures multiset(r) == multiset(Indices(|text|))
  {
    var order := Indices(|text|);
    DistinctMultiset(order);
    var sorted := SortDesc(order, Rows(text));
    DistinctMultiset(sorted);
    sorted
  }

  /** The character set-up of `build`: each input character starts on the top
      row of its own column, on a text path (sway waypoints, then its input
      cell) that the motion engine has started. */
  method BuildText(canvas: Canvas, inputs: seq<Coord>) returns (chars: seq<TextChar>)
    requires canvas.Valid()
    ensures |chars| == |inputs|
    ensures forall i :: 0 <= i < |inputs| ==>
      chars[i].input == inputs[i] && chars[i].active &&
      chars[i].pos == Coord(inputs[i].column, canvas.top) &&
      IsTextPath(canvas, inputs[i], chars[i].path)
  {
    chars := [];
    var i := 0;
    while i < |inputs|
      invariant 0 <= i <= |inputs| && |chars| == i
      invariant forall j :: 0 <= j < i ==>
        chars[j].input == inputs[j] && chars[j].active &&
        chars[j].pos == Coord(inputs[j].column, canvas.top) &&
        IsTextPath(canvas, inputs[j], chars[j].path)
    {
      var input := inputs[i];
      var numSways :| 2 <= numSways <= 4;
      var waypoints, column, amounts := SwayWaypoints(canvas, input.column, input.row, numSways);
      var fallPath := waypoints + [input];
      assert fallPath == TextPath(canvas, input, PathDraw(numSways, amounts));
      chars := chars + [TextChar(input, Coord(input.column, canvas.top), fallPath, true)];
      i := i + 1;
    }
  }

  /** The pending list names distinct characters, highest input row first. */
  predicate PendingOrder(pending: seq<nat>, text: seq<TextChar>) {
    InRange(pending, |text|) && Distinct(pending) && SortedDesc(pending, Rows(text))
  }

  /** Background flakes are listed in spawn order, all spawned before `nextId`. */
  predicate SpawnOrder(background: seq<Flake>, nextId: nat) {
    IdsIncreasing(background) && forall k :: 0 <= k < |background| ==> background[k].id < nextId
  }

  /** How the latched flags and the fadeout counter fit together: completion
      comes only after the pending list is empty, the counter runs only after
      completion, and spawning stops exactly when it has passed 100. */
  predicate Phases(pending: seq<nat>, textComplete: bool, fadeoutCounter: int, spawnStopped: bool) {
    (textComplete ==> pending == []) &&
    (!textComplete ==> fadeoutCounter == 0) &&
    0 <= fadeoutCounter <= FadeoutTicks + 1 &&
    (spawnStopped <==> fadeoutCounter > FadeoutTicks)
  }

  /** No text character is still on its path. */
  predicate AllLanded(text: seq<TextChar>) {
    forall i :: 0 <= i < |text| ==> !text[i].active
  }

  /** The text-release rule of one tick, from pending list `p0` and delay `d0`
      to `p1` and `d1`: with characters pending, a spent delay releases one
      at some index and resets the delay to 1, otherwise the delay counts
      down; with none pending, both stay. */
  ghost predicate Release(p0: seq<nat>, d0: int, p1: seq<nat>, d1: int) {
    if p0 == [] then p1 == [] && d1 == d0
    else if d0 <= 0 then d1 == 1 && exists k :: 0 <= k < |p0| && p1 == RemoveAt(p0, k)
    else d1 == d0 - 1 && p1 == p0
  }

  /** The fadeout counter of one tick: it counts ticks once the text is
      complete and spawning has not stopped; spawning stops, for good, once
      it has passed 100. */
  predicate Fade(stopped0: bool, complete: bool, counter0: int, counter1: int, stopped1: bool) {
    counter1 == (if !stopped0 && complete then counter0 + 1 else counter0) &&
    (stopped1 <==> stopped0 || (complete && counter1 > FadeoutTicks))
  }

  /** The background spawn rule of one tick, `spawned` being the number of
      flakes added: nothing once stopped; while the delay runs, it counts
      down; when spent, a burst of 3 to 6 flakes and delay 2 before the text
      is complete, 5 to 10 flakes and delay 1 after. */
  predicate Cadence(stopped: bool, complete: bool, delay0: int, delay1: int, spawned: int) {
    if stopped then spawned == 0 && delay1 == delay0
    else if delay0 > 0 then spawned == 0 && delay1 == delay0 - 1
    else if complete then 5 <= spawned <= 10 && delay1 == 1
    else 3 <= spawned <= 6 && delay1 == 2
  }

  /** Number of ticks of `spawned` that added flakes. */
  function Bursts(spawned: seq<int>): nat {
    if spawned == [] then 0 else (if spawned[0] > 0 then 1 else 0) + Bursts(spawned[1..])
  }

  /** Over a run of ticks in one phase (before fadeout: period 3; during it:
      period 2) starting with delay `d`, the first burst comes on tick
      `d + 1` and then one every `period` ticks. */
  lemma {:induction false} BurstCount(complete: bool, delays: seq<int>, spawned: seq<int>)
    requires |delays| == |spawned| + 1 && 0 <= delays[0] <= 2
    requires forall i :: 0 <= i < |spawned| ==> Cadence(false, complete, delays[i], delays[i + 1], spawned[i])
    ensures var period, d, n := if complete then 2 else 3, delays[0], |spawned|;
      Bursts(spawned) == if n <= d then 0 else (n - d - 1) / period + 1
    decreases |spawned|
  {
    if spawned != [] {
      BurstCount(complete, delays[1..], spawned[1..]);
      assert Cadence(false, complete, delays[0], delays[1], spawned[0]);
    }
  }

  /** From the completing tick on, the counter climbs by one per tick to 101
      and spawning has stopped exactly when more than 100 ticks have passed
      since it was 0. */
  lemma {:induction false} FadeoutLength(counters: seq<int>, stops: seq<bool>)
    requires |counters| == |stops| >= 1
    requires 0 <= counters[0] <= FadeoutTicks + 1 && (stops[0] <==> counters[0] > FadeoutTicks)
    requires forall i :: 0 <= i < |counters| - 1 ==> Fade(stops[i], true, counters[i], counters[i + 1], stops[i + 1])
    ensures var n := |counters| - 1;
      counters[n] == Min(FadeoutTicks + 1, counters[0] + n) && (stops[n] <==> counters[0] + n > FadeoutTicks)
    decreases |counters|
  {
    if |counters| > 1 {
      var n := |counters| - 1;
      FadeoutLength(counters[..n], stops[..n]);
      assert Fade(stops[n - 1], true, counters[n - 1], counters[n], stops[n]);
    }
  }

  /** Text release rate: from delay `d`, a character leaves the pending list on
      tick `d + 1` and then on every other tick, until none is left. */
  lemma {:induction false} ReleaseRate(pendings: seq<seq<nat>>, delays: seq<int>)
    requires |pendings| == |delays| >= 1 && 0 <= delays[0] <= 1
    requires forall i :: 0 <= i < |pendings| - 1 ==> Release(pendings[i], delays[i], pendings[i + 1], delays[i + 1])
    ensures |pendings[|pendings| - 1]| == Max(0, |pendings[0]| - (|pendings| - delays[0]) / 2)
    decreases |pendings|
  {
    if |pendings| > 1 {
      ReleaseRate(pendings[1..], delays[1..]);
      assert Release(pendings[0], delays[0], pendings[1], delays[1]);
      if pendings[0] != [] && delays[0] <= 0 {
        var k :| 0 <= k < |pendings[0]| && pendings[1] == RemoveAt(pendings[0], k);
      }
    }
  }

  class MoreSnowIterator {
    const canvas: Canvas
    /** The input characters, in the terminal's order. */
    var text: seq<TextChar>
    /** Indices into `text` of the characters not yet released. */
    var pending: seq<nat>
    var background: seq<Flake>
    var bottomPileHeight: map<int, int>
    var textSpawnDelay: int
    var backgroundSpawnDelay: int
    var textComplete: bool
    var fadeoutCounter: int
    var spawnStopped: bool
    /** Identity of the next background flake added to the terminal. */
    var nextId: nat

    ghost predicate Valid()
      reads this
    {
      canvas.Valid() &&
      PendingOrder(pending, text) &&
      PileBounded(bottomPileHeight) &&
      SpawnOrder(background, nextId) &&
      0 <= textSpawnDelay <= 1 && 0 <= backgroundSpawnDelay <= 2 &&
      Phases(pending, textComplete, fadeoutCounter, spawnStopped)
    }

    /** The phase the two latched flags encode. */
    function CurrentPhase(): Phase
      reads this
    {
      if spawnStopped then Stopped else if textComplete then FadingOut else Spawning
    }

    /** Set-up and `build`: every input character gets a sway path from the
        top of its column to its input cell, and the pending list holds all
        of them, highest row first. */
    constructor (canvas: Canvas, inputs: seq<Coord>)
      requires canvas.Valid()
      ensures Valid() && this.canvas == canvas
      ensures |text| == |inputs|
      ensures forall i :: 0 <= i < |inputs| ==>
        text[i].input == inputs[i] && text[i].active &&
        text[i].pos == Coord(inputs[i].column, canvas.top) &&
        IsTextPath(canvas, inputs[i], text[i].path)
      ensures multiset(pending) == multiset(Indices(|inputs|))
      ensures background == [] && bottomPileHeight == map[] && nextId == 0
      ensures textSpawnDelay == 0 && backgroundSpawnDelay == 0 && fadeoutCounter == 0
      ensures !textComplete && !spawnStopped
    {
      var chars := BuildText(canvas, inputs);
      var sorted := InitialPending(chars);
      this.canvas := canvas;
      text := chars;
      pending := sorted;
      background := [];
      bottomPileHeight := map[];
      textSpawnDelay := 0;
      backgroundSpawnDelay := 0;
      textComplete := false;
      fadeoutCounter := 0;
      spawnStopped := false;
      nextId := 0;
      new;
      assert !textComplete && !spawnStopped;
      assert SortedDesc(pending, Rows(text));
      assert Valid();
    }

    /** The completion test: nothing is pending and no text character is
        still on its path. */
    method AllTextLanded() returns (landed: bool)
      ensures landed <==> pending == [] && AllLanded(text)
    {
      landed := pending == [];
      if landed {
        var i := 0;
        while i < |text|
          invariant 0 <= i <= |text|
          invariant forall j :: 0 <= j < i ==> !text[j].active
        {
          if text[i].active {
            landed := false;
            break;
          }
          i := i + 1;
        }
      }
    }

    /** Release of text snow: when the delay has run out, one pending
        character at a random index leaves the list and the delay is set to
        1; otherwise the delay counts down. */
    method ReleaseText()
      requires Valid() && pending != []
      modifies this`pending, this`textSpawnDelay
      ensures Valid()
      ensures old(textSpawnDelay) <= 0 ==>
        textSpawnDelay == 1 && exists k :: 0 <= k < |old(pending)| && pending == RemoveAt(old(pending), k)
      ensures old(textSpawnDelay) > 0 ==>
        textSpawnDelay == old(textSpawnDelay) - 1 && pending == old(pending)
    {
      if textSpawnDelay <= 0 {
        var k :| 0 <= k < |pending|;
        ghost var before := pending;
        RemoveAtKeepsOrder(pending, Rows(text), k);
        pending := RemoveAt(pending, k);
        textSpawnDelay := 1;
        assert pending == RemoveAt(before, k);
      } else {
        textSpawnDelay := textSpawnDelay - 1;
      }
    }

    /** Sends every background flake still on a path straight down. */
    method FastForwardBackground()
      requires Valid()
      modifies this`background
      ensures Valid()
      ensures background == FastForwardAll(old(background), canvas.bottom)
    {
      var i := 0;
      while i < |background|
        invariant 0 <= i <= |background| == |old(background)|
        invariant forall k :: 0 <= k < i ==> background[k] == FastForward(old(background)[k], canvas.bottom)
        invariant forall k :: i <= k < |background| ==> background[k] == old(background)[k]
      {
        var snow := background[i];
        if snow.path.Some? {
          var currentPos := snow.pos;
          background := background[i := snow.(path := Some([Coord(currentPos.column, canvas.bottom)]))];
        }
        i := i + 1;
      }
    }

    /** The completion branch of a tick with nothing pending: if no text
        character is on its path, latch `textComplete` and fast-forward the
        background. */
    method CompleteText()
      requires Valid() && pending == [] && !textComplete
      modifies this`textComplete, this`background
      ensures Valid()
      ensures textComplete <==> AllLanded(text)
      ensures background == if textComplete then FastForwardAll(old(background), canvas.bottom) else old(background)
    {
      var allTextLanded := AllTextLanded();
      if allTextLanded {
        textComplete := true;
        FastForwardBackground();
      }
    }

    /** `spawn_background_snowflake`: a new flake on the top row of a random
        column, on a sway path to the bottom row. */
    method SpawnBackgroundSnowflake()
      requires Valid()
      modifies this`background, this`nextId
      ensures Valid()
      ensures nextId == old(nextId) + 1
      ensures |background| == |old(background)| + 1 && background[..|old(background)|] == old(background)
      ensures NewFlake(canvas, background[|old(background)|], old(nextId))
    {
      var snowCol :| canvas.left <= snowCol <= canvas.right;
      var numSways :| 2 <= numSways <= 4;
      var waypoints, column, amounts := SwayWaypoints(canvas, snowCol, canvas.bottom, numSways);
      var finalColumn := Clamp(column, canvas.left, canvas.right);
      var fallPath := waypoints + [Coord(finalColumn, canvas.bottom)];
      assert fallPath == BackgroundPath(canvas, snowCol, PathDraw(numSways, amounts));
      background := background + [Flake(nextId, Coord(snowCol, canvas.top), Some(fallPath))];
      nextId := nextId + 1;
    }

    /** `count` calls of `spawn_background_snowflake`. */
    method SpawnBackgroundSnowflakes(count: nat)
      requires Valid()
      modifies this`background, this`nextId
      ensures Valid()
      ensures nextId == old(nextId) + count
      ensures |background| == |old(background)| + count && background[..|old(background)|] == old(background)
      ensures NewFlakes(canvas, background[|old(background)|..], old(nextId))
    {
      var n := 0;
      while n < count
        invariant 0 <= n <= count && Valid()
        invariant nextId == old(nextId) + n
        invariant |background| == |old(background)| + n && background[..|old(background)|] == old(background)
        invariant NewFlakes(canvas, background[|old(background)|..], old(nextId))
      {
        ghost var before := background;
        SpawnBackgroundSnowflake();
        assert background[|old(background)|..] == before[|old(background)|..] + [background[|before|]];
        n := n + 1;
      }
    }

    /** The background-spawning part of a tick. In fadeout the counter counts
        ticks and stops spawning once past 100; otherwise a burst comes when
        the delay has run out (3 to 6 flakes, then delay 2, before fadeout;
        5 to 10 flakes, then delay 1, during it) and the delay counts down
        in between. */
    method SpawnStep()
      requires Valid()
      modifies this`background, this`nextId, this`fadeoutCounter, this`spawnStopped, this`backgroundSpawnDelay
      ensures Valid()
      ensures nextId >= old(nextId)
      ensures |background| == |old(background)| + (nextId - old(nextId))
      ensures background[..|old(background)|] == old(background)
      ensures NewFlakes(canvas, background[|old(background)|..], old(nextId))
      ensures Fade(old(spawnStopped), textComplete, old(fadeoutCounter), fadeoutCounter, spawnStopped)
      ensures Cadence(spawnStopped, textComplete, old(backgroundSpawnDelay), backgroundSpawnDelay, nextId - old(nextId))
    {
      if !spawnStopped {
        if textComplete {
          fadeoutCounter := fadeoutCounter + 1;
          if fadeoutCounter > FadeoutTicks {
            spawnStopped := true;
          } else if backgroundSpawnDelay <= 0 {
            var count :| 5 <= count <= 10;
            SpawnBackgroundSnowflakes(count);
            backgroundSpawnDelay := 1;
          } else {
            backgroundSpawnDelay := backgroundSpawnDelay - 1;
          }
        } else {
          if backgroundSpawnDelay <= 0 {
            var count :| 3 <= count <= 6;
            SpawnBackgroundSnowflakes(count);
            backgroundSpawnDelay := 2;
          } else {
            backgroundSpawnDelay := backgroundSpawnDelay - 1;
          }
        }
      }
    }

    /** `check_background_snow_landing`: every pathless background flake is
        stacked on its column or, if the column is full, removed; the pass
        itself is `LandingPass`. */
    method CheckBackgroundSnowLanding()
      requires Valid()
      modifies this`background, this`bottomPileHeight
      ensures Valid()
      ensures background == Land(old(background), old(bottomPileHeight), canvas.bottom).kept
      ensures bottomPileHeight == Land(old(background), old(bottomPileHeight), canvas.bottom).pile
    {
      LandBounded(background, bottomPileHeight, canvas.bottom);
      LandIdsIncreasing(background, bottomPileHeight, canvas.bottom);
      LandIdsWithin(background, bottomPileHeight, canvas.bottom, 0, nextId);
      assert DistinctIds(background);
      background, bottomPileHeight := LandingPass(background, bottomPileHeight, canvas.bottom);
    }

    /** The text part of a tick: release while characters are pending,
        otherwise the completion test until it succeeds. */
    method TextStep()
      requires Valid()
      modifies this`pending, this`textSpawnDelay, this`textComplete, this`background
      ensures Valid()
      ensures Release(old(pending), old(textSpawnDelay), pending, textSpawnDelay)
      ensures textComplete <==> old(textComplete) || (old(pending) == [] && AllLanded(text))
      ensures background == if textComplete && !old(textComplete) then FastForwardAll(old(background), canvas.bottom) else old(background)
    {
      if pending != [] {
        ReleaseText();
      } else if !textComplete {
        CompleteText();
      }
    }

    /** `__next__`: one tick. `stop` is true exactly when the iteration ends
        (spawning has stopped and no background flake is left); `added` are
        the background flakes this tick spawned. */
    method Next() returns (stop: bool, ghost added: seq<Flake>)
      requires Valid()
      modifies this
      ensures Valid()
      ensures text == old(text)
      // the phases only move forward
      ensures Rank(old(CurrentPhase())) <= Rank(CurrentPhase())
      ensures Release(old(pending), old(textSpawnDelay), pending, textSpawnDelay)
      ensures textComplete <==> old(textComplete) || (old(pending) == [] && AllLanded(text))
      ensures Fade(old(spawnStopped), textComplete, old(fadeoutCounter), fadeoutCounter, spawnStopped)
      ensures nextId >= old(nextId)
      ensures Cadence(spawnStopped, textComplete, old(backgroundSpawnDelay), backgroundSpawnDelay, nextId - old(nextId))
      // background: cutover on the completing tick, new flakes appended, then the landing pass
      ensures NewFlakes(canvas, added, old(nextId)) && |added| == nextId - old(nextId)
      ensures var before := (if textComplete && !old(textComplete) then FastForwardAll(old(background), canvas.bottom)
                             else old(background)) + added;
        background == Land(before, old(bottomPileHeight), canvas.bottom).kept &&
        bottomPileHeight == Land(before, old(bottomPileHeight), canvas.bottom).pile
      ensures stop <==> spawnStopped && background == []
    {
      TextStep();
      ghost var cut := background;
      SpawnStep();
      added := background[|cut|..];
      assert background == cut + added;
      CheckBackgroundSnowLanding();
      stop := spawnStopped && |background| == 0;
    }
  }
}
