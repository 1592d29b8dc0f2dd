/** Accumulation of background flakes at the bottom of the canvas.

    Each flake that no longer has an active motion path is, in list order,
    stacked in its column: a column seen for the first time starts at height
    0, the flake is placed on row `bottom - h` where `h` is the column's
    height, and the height becomes `h + 1`. A column at height 5 takes no
    more flakes; a pathless flake arriving there is removed from the list.
    Flakes that still have a path are left alone. */
module Pile {
  import opened Geometry

  datatype Option<T> = None | Some(value: T)

  /** A background snowflake: its identity, its current cell and its active
      motion path, if any (the waypoints still to be followed). */
  datatype Flake = Flake(id: nat, pos: Coord, path: Option<seq<Coord>>)

  /** Most flakes a column's pile holds. */
  const MaxPile: int := 5

  /** Outcome of one landing pass: the flakes that stay in the list, in
      order, and the new column heights. */
  datatype Landing = Landing(kept: seq<Flake>, pile: map<int, int>)

  /** Height of a column's pile; a column never seen has none. */
  function Height(pile: map<int, int>, column: int): int {
    if column in pile then pile[column] else 0
  }

  predicate PileBounded(pile: map<int, int>) {
    forall c :: c in pile ==> 0 <= pile[c] <= MaxPile
  }

  /** The landing pass over `fs` in list order. */
  function Land(fs: seq<Flake>, pile: map<int, int>, bottom: int): Landing
    decreases |fs|
  {
    if fs == [] then Landing([], pile)
    else if fs[0].path.Some? then
      var rest := Land(fs[1..], pile, bottom);
      Landing([fs[0]] + rest.kept, rest.pile)
    else
      var column := fs[0].pos.column;
      var p := if column in pile then pile else pile[column := 0];
      if p[column] < MaxPile then
        var rest := Land(fs[1..], p[column := p[column] + 1], bottom);
        Landing([fs[0].(pos := Coord(column, bottom - p[column]))] + rest.kept, rest.pile)
      else
        Land(fs[1..], p, bottom)
  }

  /** The flakes of `fs` that still have a path, in order. */
  function Moving(fs: seq<Flake>): seq<Flake>
    decreases |fs|
  {
    if fs == [] then [] else (if fs[0].path.Some? then [fs[0]] else []) + Moving(fs[1..])
  }

  /** The pathless flakes of `fs` in column `c`, in order. */
  function PathlessIn(fs: seq<Flake>, c: int): seq<Flake>
    decreases |fs|
  {
    if fs == [] then []
    else (if fs[0].path.None? && fs[0].pos.column == c then [fs[0]] else []) + PathlessIn(fs[1..], c)
  }

  predicate DistinctIds(fs: seq<Flake>) {
    forall i, j :: 0 <= i < j < |fs| ==> fs[i].id != fs[j].id
  }

  /** `x` is the identity of a pathless flake of `fs` in column `c`. */
  ghost predicate HasPathless(fs: seq<Flake>, x: nat, c: int) {
    exists f :: f in fs && f.id == x && f.path.None? && f.pos.column == c
  }

  /** Flakes listed in spawn order: identities strictly increase. */
  predicate IdsIncreasing(fs: seq<Flake>) {
    forall i, j :: 0 <= i < j < |fs| ==> fs[i].id < fs[j].id
  }

  lemma IdsIncreasingCons(h: Flake, s: seq<Flake>)
    ensures IdsIncreasing([h] + s) <==> IdsIncreasing(s) && forall f :: f in s ==> h.id < f.id
  {
    if IdsIncreasing([h] + s) {
      IdsIncreasingSplit(h, s);
    }
    if IdsIncreasing(s) && forall f :: f in s ==> h.id < f.id {
      IdsIncreasingJoin(h, s);
    }
  }

  lemma IdsIncreasingSplit(h: Flake, s: seq<Flake>)
    requires IdsIncreasing([h] + s)
    ensures IdsIncreasing(s) && forall f :: f in s ==> h.id < f.id
  {
    var t := [h] + s;
    forall f | f in s
      ensures h.id < f.id
    {
      var i :| 0 <= i < |s| && s[i] == f;
      assert t[0] == h && t[i + 1] == f;
    }
    forall i, j | 0 <= i < j < |s|
      ensures s[i].id < s[j].id
    {
      assert t[i + 1] == s[i] && t[j + 1] == s[j];
    }
  }

  lemma IdsIncreasingJoin(h: Flake, s: seq<Flake>)
    requires IdsIncreasing(s) && forall f :: f in s ==> h.id < f.id
    ensures IdsIncreasing([h] + s)
  {
    var t := [h] + s;
    forall i, j | 0 <= i < j < |t|
      ensures t[i].id < t[j].id
    {
      assert t[j] == s[j - 1];
      assert s[j - 1] in s;
      if i > 0 { assert t[i] == s[i - 1]; }
    }
  }

  /** The pass keeps identities within any bounds the input respects. */
  lemma {:induction false} LandIdsWithin(fs: seq<Flake>, pile: map<int, int>, bottom: int, lo: int, hi: int)
    requires forall f :: f in fs ==> lo <= f.id < hi
    ensures forall f :: f in Land(fs, pile, bottom).kept ==> lo <= f.id < hi
    decreases |fs|
  {
    if fs != [] {
      var column := fs[0].pos.column;
      var p := if column in pile then pile else pile[column := 0];
      assert forall f :: f in fs[1..] ==> f in fs;
      if fs[0].path.Some? {
        LandIdsWithin(fs[1..], pile, bottom, lo, hi);
      } else if p[column] < MaxPile {
        LandIdsWithin(fs[1..], p[column := p[column] + 1], bottom, lo, hi);
      } else {
        LandIdsWithin(fs[1..], p, bottom, lo, hi);
      }
    }
  }

  /** The pass adds no flake: each kept flake is a flake of the input with
      the same identity, path and column, at most moved within its column. */
  lemma {:induction false} LandKeptFromInput(fs: seq<Flake>, pile: map<int, int>, bottom: int)
    ensures forall f :: f in Land(fs, pile, bottom).kept ==>
      exists g :: g in fs && g.id == f.id && g.path == f.path && g.pos.column == f.pos.column
    decreases |fs|
  {
    if fs != [] {
      var column := fs[0].pos.column;
      var p := if column in pile then pile else pile[column := 0];
      var rest := if fs[0].path.Some? then pile else if p[column] < MaxPile then p[column := p[column] + 1] else p;
      LandKeptFromInput(fs[1..], rest, bottom);
      assert forall g :: g in fs[1..] ==> g in fs;
      assert fs[0] in fs;
    }
  }

  /** The pass keeps the spawn order of the list. */
  lemma {:induction false} LandIdsIncreasing(fs: seq<Flake>, pile: map<int, int>, bottom: int)
    requires IdsIncreasing(fs)
    ensures IdsIncreasing(Land(fs, pile, bottom).kept)
    decreases |fs|
  {
    if fs != [] {
      var column := fs[0].pos.column;
      var p := if column in pile then pile else pile[column := 0];
      var p' := if fs[0].path.Some? then pile else if p[column] < MaxPile then p[column := p[column] + 1] else p;
      var rest := Land(fs[1..], p', bottom);
      assert fs == [fs[0]] + fs[1..];
      IdsIncreasingCons(fs[0], fs[1..]);
      LandIdsIncreasing(fs[1..], p', bottom);
      if fs[0].path.Some? || p[column] < MaxPile {
        var head := Land(fs, pile, bottom).kept[0];
        assert Land(fs, pile, bottom).kept == [head] + rest.kept && head.id == fs[0].id;
        LandIdsWithin(fs[1..], p', bottom, fs[0].id + 1, fs[|fs| - 1].id + 1);
        IdsIncreasingCons(head, rest.kept);
      }
    }
  }

  /** No column's height ever leaves 0..5. */
  lemma {:induction false} LandBounded(fs: seq<Flake>, pile: map<int, int>, bottom: int)
    requires PileBounded(pile)
    ensures PileBounded(Land(fs, pile, bottom).pile)
    decreases |fs|
  {
    if fs != [] {
      var column := fs[0].pos.column;
      var p := if column in pile then pile else pile[column := 0];
      if fs[0].path.Some? {
        LandBounded(fs[1..], pile, bottom);
      } else if p[column] < MaxPile {
        LandBounded(fs[1..], p[column := p[column] + 1], bottom);
      } else {
        LandBounded(fs[1..], p, bottom);
      }
    }
  }

  /** Heights never decrease, and a column once seen stays seen. */
  lemma {:induction false} LandMonotone(fs: seq<Flake>, pile: map<int, int>, bottom: int)
    ensures var r := Land(fs, pile, bottom).pile;
      forall c :: c in pile ==> c in r && pile[c] <= r[c]
    decreases |fs|
  {
    if fs != [] {
      var column := fs[0].pos.column;
      var p := if column in pile then pile else pile[column := 0];
      if fs[0].path.Some? {
        LandMonotone(fs[1..], pile, bottom);
      } else if p[column] < MaxPile {
        assert forall c :: c in pile ==> c in p[column := p[column] + 1] && pile[c] <= p[column := p[column] + 1][c];
        LandMonotone(fs[1..], p[column := p[column] + 1], bottom);
      } else {
        LandMonotone(fs[1..], p, bottom);
      }
    }
  }

  /** Flakes that still have a path are kept, unchanged and in order. */
  lemma {:induction false} LandKeepsMoving(fs: seq<Flake>, pile: map<int, int>, bottom: int)
    ensures Moving(Land(fs, pile, bottom).kept) == Moving(fs)
    decreases |fs|
  {
    if fs != [] {
      var column := fs[0].pos.column;
      var p := if column in pile then pile else pile[column := 0];
      var r := Land(fs, pile, bottom);
      if fs[0].path.Some? {
        LandKeepsMoving(fs[1..], pile, bottom);
        assert ([fs[0]] + Land(fs[1..], pile, bottom).kept)[1..] == Land(fs[1..], pile, bottom).kept;
      } else if p[column] < MaxPile {
        var rest := Land(fs[1..], p[column := p[column] + 1], bottom);
        LandKeepsMoving(fs[1..], p[column := p[column] + 1], bottom);
        assert r.kept[1..] == rest.kept;
      } else {
        LandKeepsMoving(fs[1..], p, bottom);
      }
    }
  }

  /** Splitting the first flake off a list, for the filters above. */
  lemma FiltersCons(f: Flake, s: seq<Flake>, c: int)
    ensures PathlessIn([f] + s, c) == (if f.path.None? && f.pos.column == c then [f] else []) + PathlessIn(s, c)
    ensures Moving([f] + s) == (if f.path.Some? then [f] else []) + Moving(s)
  {
    assert ([f] + s)[1..] == s;
  }

  /** Per column, with `h` the column's height before the pass and `n` its
      pathless arrivals: the column's height becomes `h + min(5 - h, n)`,
      that is `min(5, h + n)`, and other flakes do not touch it. */
  lemma {:induction false} LandHeight(fs: seq<Flake>, pile: map<int, int>, bottom: int, c: int)
    requires PileBounded(pile)
    ensures var h := Height(pile, c);
      var n := |PathlessIn(fs, c)|;
      Height(Land(fs, pile, bottom).pile, c) == h + Min(MaxPile - h, n) == Min(MaxPile, h + n)
    decreases |fs|
  {
    if fs != [] {
      var f := fs[0];
      var column := f.pos.column;
      var p := if column in pile then pile else pile[column := 0];
      assert fs == [f] + fs[1..];
      FiltersCons(f, fs[1..], c);
      if f.path.Some? {
        LandHeight(fs[1..], pile, bottom, c);
      } else if p[column] < MaxPile {
        LandHeight(fs[1..], p[column := p[column] + 1], bottom, c);
      } else {
        LandHeight(fs[1..], p, bottom, c);
      }
    }
  }

  /** `stacked` holds the first `min(5 - h, n)` of the `n` flakes of
      `arrivals`, in order, the `j`-th moved to row `bottom - (h + j)` of
      column `c`. */
  predicate StackedFrom(stacked: seq<Flake>, arrivals: seq<Flake>, h: int, c: int, bottom: int) {
    |stacked| == Min(MaxPile - h, |arrivals|) &&
    forall j :: 0 <= j < |stacked| ==> stacked[j] == arrivals[j].(pos := Coord(c, bottom - (h + j)))
  }

  /** Per column, with `h` the column's height before the pass: the first
      `min(5 - h, n)` of the `n` pathless arrivals are kept, in order, the
      `j`-th of them moved to row `bottom - (h + j)` of its column; the
      others are removed. */
  lemma {:induction false} LandColumn(fs: seq<Flake>, pile: map<int, int>, bottom: int, c: int)
    requires PileBounded(pile)
    ensures StackedFrom(PathlessIn(Land(fs, pile, bottom).kept, c), PathlessIn(fs, c), Height(pile, c), c, bottom)
    decreases |fs|
  {
    if fs != [] {
      var column := fs[0].pos.column;
      var p := if column in pile then pile else pile[column := 0];
      if fs[0].path.Some? {
        LandColumn(fs[1..], pile, bottom, c);
        MovingStep(fs, pile, bottom, c);
      } else if p[column] < MaxPile {
        assert p[column := p[column] + 1] == pile[column := Height(pile, column) + 1];
        LandColumn(fs[1..], pile[column := Height(pile, column) + 1], bottom, c);
        PlacedStep(fs, pile, bottom, c);
      } else {
        LandColumn(fs[1..], pile, bottom, c);
        RemovedStep(fs, pile, bottom, c);
      }
    }
  }

  /** LandColumn's step over a flake that still has a path. */
  lemma MovingStep(fs: seq<Flake>, pile: map<int, int>, bottom: int, c: int)
    requires fs != [] && fs[0].path.Some?
    requires StackedFrom(PathlessIn(Land(fs[1..], pile, bottom).kept, c), PathlessIn(fs[1..], c), Height(pile, c), c, bottom)
    ensures StackedFrom(PathlessIn(Land(fs, pile, bottom).kept, c), PathlessIn(fs, c), Height(pile, c), c, bottom)
  {
    var rest := Land(fs[1..], pile, bottom);
    assert fs == [fs[0]] + fs[1..];
    FiltersCons(fs[0], fs[1..], c);
    FiltersCons(fs[0], rest.kept, c);
    assert Land(fs, pile, bottom).kept == [fs[0]] + rest.kept;
  }

  /** LandColumn's step over a pathless flake that is stacked. */
  lemma PlacedStep(fs: seq<Flake>, pile: map<int, int>, bottom: int, c: int)
    requires fs != [] && fs[0].path.None? && PileBounded(pile)
    requires var column := fs[0].pos.column;
      var p' := pile[column := Height(pile, column) + 1];
      Height(pile, column) < MaxPile &&
      StackedFrom(PathlessIn(Land(fs[1..], p', bottom).kept, c), PathlessIn(fs[1..], c), Height(p', c), c, bottom)
    ensures StackedFrom(PathlessIn(Land(fs, pile, bottom).kept, c), PathlessIn(fs, c), Height(pile, c), c, bottom)
  {
    var f := fs[0];
    var column := f.pos.column;
    var h := Height(pile, column);
    var p' := pile[column := h + 1];
    var rest := Land(fs[1..], p', bottom);
    var placed := f.(pos := Coord(column, bottom - h));
    LandPlacedUnfold(fs, pile, bottom);
    assert fs == [f] + fs[1..];
    FiltersCons(f, fs[1..], c);
    FiltersCons(placed, rest.kept, c);
    if column == c {
      assert PathlessIn(Land(fs, pile, bottom).kept, c) == [placed] + PathlessIn(rest.kept, c);
      assert PathlessIn(fs, c) == [f] + PathlessIn(fs[1..], c);
      ColumnStep(f, PathlessIn(fs[1..], c), PathlessIn(rest.kept, c), placed, c, h, bottom);
    } else {
      assert PathlessIn(Land(fs, pile, bottom).kept, c) == PathlessIn(rest.kept, c);
      assert PathlessIn(fs, c) == PathlessIn(fs[1..], c);
      assert Height(p', c) == Height(pile, c);
    }
  }

  /** One step of Land over a pathless flake in a column below height 5. */
  lemma LandPlacedUnfold(fs: seq<Flake>, pile: map<int, int>, bottom: int)
    requires fs != [] && fs[0].path.None? && Height(pile, fs[0].pos.column) < MaxPile
    ensures var column := fs[0].pos.column;
      var h := Height(pile, column);
      var rest := Land(fs[1..], pile[column := h + 1], bottom);
      Land(fs, pile, bottom) == Landing([fs[0].(pos := Coord(column, bottom - h))] + rest.kept, rest.pile)
  {
    var column := fs[0].pos.column;
    var p := if column in pile then pile else pile[column := 0];
    assert p[column := p[column] + 1] == pile[column := Height(pile, column) + 1];
  }

  /** LandColumn's step over a pathless flake removed from a full column. */
  lemma RemovedStep(fs: seq<Flake>, pile: map<int, int>, bottom: int, c: int)
    requires fs != [] && fs[0].path.None? && PileBounded(pile)
    requires fs[0].pos.column in pile && pile[fs[0].pos.column] >= MaxPile
    requires StackedFrom(PathlessIn(Land(fs[1..], pile, bottom).kept, c), PathlessIn(fs[1..], c), Height(pile, c), c, bottom)
    ensures StackedFrom(PathlessIn(Land(fs, pile, bottom).kept, c), PathlessIn(fs, c), Height(pile, c), c, bottom)
  {
    assert fs == [fs[0]] + fs[1..];
    FiltersCons(fs[0], fs[1..], c);
    assert Land(fs, pile, bottom).kept == Land(fs[1..], pile, bottom).kept;
  }

  /** The inductive step of LandColumn for a flake stacked in column `c`:
      one more arrival on top of the stack built from the later ones. */
  lemma ColumnStep(f: Flake, arrivals: seq<Flake>, stacked: seq<Flake>, placed: Flake, c: int, h: int, bottom: int)
    requires 0 <= h < MaxPile
    requires placed == f.(pos := Coord(c, bottom - h))
    requires StackedFrom(stacked, arrivals, h + 1, c, bottom)
    ensures StackedFrom([placed] + stacked, [f] + arrivals, h, c, bottom)
  {
    var a, t := [f] + arrivals, [placed] + stacked;
    forall j | 0 < j < |t|
      ensures t[j] == a[j].(pos := Coord(c, bottom - (h + j)))
    {
      assert t[j] == stacked[j - 1] && a[j] == arrivals[j - 1];
    }
  }

  lemma {:induction false} PathlessInMembers(fs: seq<Flake>, c: int)
    ensures forall f :: f in PathlessIn(fs, c) <==> f in fs && f.path.None? && f.pos.column == c
    decreases |fs|
  {
    if fs != [] {
      PathlessInMembers(fs[1..], c);
      assert forall f :: f in fs <==> f == fs[0] || f in fs[1..];
    }
  }

  lemma {:induction false} MovingMembers(fs: seq<Flake>)
    ensures forall f :: f in Moving(fs) <==> f in fs && f.path.Some?
    decreases |fs|
  {
    if fs != [] {
      MovingMembers(fs[1..]);
      assert forall f :: f in fs <==> f == fs[0] || f in fs[1..];
    }
  }

  /** A flake that stays pathless in column `c` for six landing passes in a
      row is gone after the sixth: each pass raises the column's height by
      one until it reaches 5, and a pass at height 5 removes every pathless
      arrival of the column. The flake lists of the passes are arbitrary
      (the motion engine and spawning change them between passes); only the
      heights carry over from pass to pass. */
  lemma PathlessFlakeRemovedWithinSixPasses(
    passes: seq<seq<Flake>>, piles: seq<map<int, int>>, bottom: int, x: nat, c: int)
    requires |passes| == 6 && |piles| == 6
    requires PileBounded(piles[0])
    requires forall k :: 0 <= k < 6 ==> HasPathless(passes[k], x, c)
    requires forall k :: 0 <= k < 5 ==> piles[k + 1] == Land(passes[k], piles[k], bottom).pile
    requires DistinctIds(passes[5])
    ensures forall f :: f in Land(passes[5], piles[5], bottom).kept ==> f.id != x
  {
    var k := 0;
    while k < 5
      invariant 0 <= k <= 5
      invariant PileBounded(piles[k])
      invariant Height(piles[k], c) >= Min(MaxPile, k)
    {
      LandBounded(passes[k], piles[k], bottom);
      LandHeight(passes[k], piles[k], bottom, c);
      PathlessInMembers(passes[k], c);
      var g :| g in passes[k] && g.id == x && g.path.None? && g.pos.column == c;
      assert g in PathlessIn(passes[k], c);
      k := k + 1;
    }
    var fs := passes[5];
    var r := Land(fs, piles[5], bottom);
    assert Height(piles[5], c) == MaxPile;
    LandColumn(fs, piles[5], bottom, c);
    LandKeepsMoving(fs, piles[5], bottom);
    PathlessInMembers(fs, c);
    MovingMembers(fs);
    MovingMembers(r.kept);
    var g :| g in fs && g.id == x && g.path.None? && g.pos.column == c;
    DistinctIdsUnique(fs);
    forall f | f in r.kept
      ensures f.id != x
    {
      if f.path.None? {
        var c' := f.pos.column;
        LandColumn(fs, piles[5], bottom, c');
        PathlessInMembers(r.kept, c');
        PathlessInMembers(fs, c');
        var j :| 0 <= j < |PathlessIn(r.kept, c')| && PathlessIn(r.kept, c')[j] == f;
        var a := PathlessIn(fs, c')[j];
        assert a in PathlessIn(fs, c') && f.id == a.id;
      }
    }
  }

  /** Distinct identities name distinct flakes. */
  lemma DistinctIdsUnique(fs: seq<Flake>)
    requires DistinctIds(fs)
    ensures forall u, v :: u in fs && v in fs && u.id == v.id ==> u == v
  {
    forall u, v | u in fs && v in fs && u.id == v.id
      ensures u == v
    {
      var i, j :| 0 <= i < |fs| && fs[i] == u && 0 <= j < |fs| && fs[j] == v;
    }
  }

  /** The landing pass has walked past the flakes now in `walked`, the flakes
      `rest` remain, and finishing `Land` from here yields `goal`. */
  predicate Walk(walked: seq<Flake>, rest: seq<Flake>, heights: map<int, int>, bottom: int, goal: Landing) {
    walked + Land(rest, heights, bottom).kept == goal.kept && Land(rest, heights, bottom).pile == goal.pile
  }

  /** One step of the pass over a flake still on its path. */
  lemma WalkMoving(walked: seq<Flake>, rest: seq<Flake>, heights: map<int, int>, bottom: int, goal: Landing)
    requires rest != [] && rest[0].path.Some? && Walk(walked, rest, heights, bottom, goal)
    ensures Walk(walked + [rest[0]], rest[1..], heights, bottom, goal)
  {
  }

  /** One step of the pass stacking a pathless flake on its column. */
  lemma WalkPlaced(walked: seq<Flake>, rest: seq<Flake>, heights: map<int, int>, bottom: int, goal: Landing)
    requires rest != [] && rest[0].path.None? && Walk(walked, rest, heights, bottom, goal)
    requires rest[0].pos.column in heights && heights[rest[0].pos.column] < MaxPile
    ensures var c := rest[0].pos.column;
      Walk(walked + [rest[0].(pos := Coord(c, bottom - heights[c]))], rest[1..], heights[c := heights[c] + 1], bottom, goal)
  {
  }

  /** One step of the pass removing a pathless flake from a full column. */
  lemma WalkRemoved(walked: seq<Flake>, rest: seq<Flake>, heights: map<int, int>, bottom: int, goal: Landing)
    requires rest != [] && rest[0].path.None? && Walk(walked, rest, heights, bottom, goal)
    requires rest[0].pos.column in heights && heights[rest[0].pos.column] >= MaxPile
    ensures Walk(walked, rest[1..], heights, bottom, goal)
  {
  }

  /** A column first seen by the pass starts at height 0. */
  lemma WalkInit(walked: seq<Flake>, rest: seq<Flake>, heights: map<int, int>, bottom: int, goal: Landing)
    requires rest != [] && rest[0].path.None? && Walk(walked, rest, heights, bottom, goal)
    requires rest[0].pos.column !in heights
    ensures Walk(walked, rest, heights[rest[0].pos.column := 0], bottom, goal)
  {
  }

  /** The list edits of the pass, at the position just past the walked prefix. */
  lemma EditAt(walked: seq<Flake>, rest: seq<Flake>, f: Flake)
    requires rest != []
    ensures var l, j := walked + rest, |walked|;
      l[j := f] == walked + [f] + rest[1..] &&
      l[..j] + l[j + 1..] == walked + rest[1..] &&
      l == walked + [rest[0]] + rest[1..]
  {
    var l, j := walked + rest, |walked|;
    assert l[..j] == walked && l[j + 1..] == rest[1..];
  }

  /** Python's `list.remove`: the list without its first flake of identity
      `id`; the source demands that such a flake is present. */
  function RemoveFirst(fs: seq<Flake>, id: nat): (r: seq<Flake>)
    requires exists k :: 0 <= k < |fs| && fs[k].id == id
    ensures |r| == |fs| - 1
    decreases |fs|
  {
    if fs[0].id == id then fs[1..]
    else
      var k :| 0 <= k < |fs| && fs[k].id == id;
      assert fs[1..][k - 1].id == id;
      [fs[0]] + RemoveFirst(fs[1..], id)
  }

  /** When position `j` holds the first flake of its identity, `list.remove`
      of that identity removes exactly position `j`. */
  lemma {:induction false} RemoveFirstAt(fs: seq<Flake>, j: nat)
    requires j < |fs| && forall m :: 0 <= m < j ==> fs[m].id != fs[j].id
    ensures RemoveFirst(fs, fs[j].id) == fs[..j] + fs[j + 1..]
    decreases j
  {
    if j > 0 {
      var t := fs[1..];
      assert t[j - 1] == fs[j];
      assert forall m :: 0 <= m < j - 1 ==> t[m] == fs[m + 1];
      RemoveFirstAt(t, j - 1);
      assert fs[..j] == [fs[0]] + t[..j - 1] && fs[j + 1..] == t[j..];
    }
  }

  /** Overwriting the walked-to flake without changing its identity, or
      dropping it, keeps the identities of the list distinct. */
  lemma WalkIds(walked: seq<Flake>, rest: seq<Flake>, f: Flake)
    requires rest != [] && f.id == rest[0].id && DistinctIds(walked + rest)
    ensures DistinctIds(walked + [f] + rest[1..]) && DistinctIds(walked + rest[1..])
  {
    var l := walked + rest;
    var l' := walked + [f] + rest[1..];
    assert forall i :: 0 <= i < |l'| ==> l'[i].id == l[i].id;
    var d := walked + rest[1..];
    forall i, k | 0 <= i < k < |d|
      ensures d[i].id != d[k].id
    {
      var i', k' := if i < |walked| then i else i + 1, if k < |walked| then k else k + 1;
      assert d[i] == l[i'] && d[k] == l[k'] && i' < k';
    }
  }

  /** Stacking the walked-to flake: overwriting it in place keeps the walk's
      shape and the identities distinct. */
  lemma PlaceAt(walked: seq<Flake>, rest: seq<Flake>, f: Flake)
    requires rest != [] && f.id == rest[0].id && DistinctIds(walked + rest)
    ensures (walked + rest)[|walked| := f] == walked + [f] + rest[1..]
    ensures DistinctIds(walked + [f] + rest[1..])
  {
    EditAt(walked, rest, f);
    WalkIds(walked, rest, f);
  }

  /** Dropping the walked-to flake: `list.remove` of its identity takes out
      exactly that position and keeps the identities distinct. */
  lemma DropAt(walked: seq<Flake>, rest: seq<Flake>)
    requires rest != [] && DistinctIds(walked + rest)
    ensures (walked + rest)[|walked|] == rest[0]
    ensures RemoveFirst(walked + rest, rest[0].id) == walked + rest[1..]
    ensures DistinctIds(walked + rest[1..])
  {
    var l, j := walked + rest, |walked|;
    EditAt(walked, rest, rest[0]);
    WalkIds(walked, rest, rest[0]);
    assert l[j] == rest[0];
    assert forall m :: 0 <= m < j ==> l[m].id != l[j].id;
    RemoveFirstAt(l, j);
  }

  /** The landing pass as the source runs it: a walk over a snapshot of the
      list, editing the list in place (a placed flake is overwritten at its
      position, a dropped one is removed with `list.remove`, which meets it
      exactly at the walk's position) and updating the heights. It ends with
      exactly what `Land` describes. */
  method LandingPass(snapshot: seq<Flake>, pile: map<int, int>, bottom: int) returns (flakes: seq<Flake>, heights: map<int, int>)
    requires DistinctIds(snapshot)
    ensures flakes == Land(snapshot, pile, bottom).kept
    ensures heights == Land(snapshot, pile, bottom).pile
  {
    flakes, heights := snapshot, pile;
    ghost var goal := Land(snapshot, heights, bottom);
    ghost var walked: seq<Flake> := [];
    var rest := snapshot;
    var j := 0;
    while rest != []
      invariant j == |walked|
      invariant flakes == walked + rest
      invariant Walk(walked, rest, heights, bottom, goal)
      invariant DistinctIds(flakes)
      decreases |rest|
    {
      var snow := rest[0];
      if snow.path.None? {
        var landingColumn := snow.pos.column;
        if landingColumn !in heights {
          WalkInit(walked, rest, heights, bottom, goal);
          heights := heights[landingColumn := 0];
        }
        if heights[landingColumn] < MaxPile {
          var stackedRow := bottom - heights[landingColumn];
          var placed := snow.(pos := Coord(landingColumn, stackedRow));
          WalkPlaced(walked, rest, heights, bottom, goal);
          PlaceAt(walked, rest, placed);
          flakes := flakes[j := placed];
          heights := heights[landingColumn := heights[landingColumn] + 1];
          walked := walked + [placed];
          j := j + 1;
        } else {
          WalkRemoved(walked, rest, heights, bottom, goal);
          DropAt(walked, rest);
          assert flakes[j] == snow;
          flakes := RemoveFirst(flakes, snow.id);
        }
      } else {
        WalkMoving(walked, rest, heights, bottom, goal);
        EditAt(walked, rest, snow);
        walked := walked + [snow];
        j := j + 1;
      }
      rest := rest[1..];
    }
  }
}
