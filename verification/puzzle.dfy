/**
  The puzzle state machine of `main` (main.py, lines 26-86).

  A game holds, per tile, its current corner (`slots`) and whether it has
  been snapped into place (`correctly_placed`); the draw order; the tile
  being dragged with its grab offset; and the frame countdown. The three
  mouse events are pure functions from one state to the next.
 */
module Puzzle {
  import opened Geometry
  import opened Permutations
  import opened DrawOrder

  /** Frames per second (`FPS`): the countdown starts at `duration * Fps`. */
  const Fps: int := 60

  /** Largest per-axis distance from the correct corner that still snaps. */
  const SnapTolerance: int := 30

  datatype Option<T> = None | Some(value: T)

  /** The dragged tile (`selected_piece`) and the corner-minus-pointer offset taken at pick-up. */
  datatype Selection = Selection(piece: nat, offsetX: int, offsetY: int)

  datatype Game = Game(
    grid: Grid,
    slots: seq<Pos>,
    placed: seq<bool>,
    drawOrder: seq<nat>,
    selected: Option<Selection>,
    timer: int,
    running: bool)

  /** What a release reports besides the new state: whether it completed the picture. */
  datatype StepResult = StepResult(game: Game, won: bool)

  /**
    The invariant every reachable state keeps: one slot and one flag per
    tile, a draw order that lists every tile once, a selected tile that is
    a real unplaced tile, and every placed tile lying on its correct
    position.
   */
  predicate Valid(g: Game) {
    && g.grid.cols > 0
    && |g.slots| == TileCount(g.grid)
    && |g.placed| == TileCount(g.grid)
    && IsPermutation(g.drawOrder, TileCount(g.grid))
    && (g.selected.Some? ==>
          g.selected.value.piece < TileCount(g.grid) && !g.placed[g.selected.value.piece])
    && forall i :: 0 <= i < |g.placed| && g.placed[i] ==> g.slots[i] == CorrectPosition(g.grid, i)
  }

  /** Number of placed tiles. */
  function PlacedCount(placed: seq<bool>): (n: nat)
    ensures n <= |placed|
    ensures n == |placed| <==> forall i :: 0 <= i < |placed| ==> placed[i]
  {
    if placed == [] then 0
    else (if placed[0] then 1 else 0) + PlacedCount(placed[1..])
  }

  /** Placing one more tile raises the count by exactly one. */
  lemma {:induction false} PlacedCountSet(placed: seq<bool>, t: nat)
    requires t < |placed| && !placed[t]
    ensures PlacedCount(placed[t := true]) == PlacedCount(placed) + 1
  {
    if t > 0 {
      assert placed[t := true][1..] == placed[1..][t - 1 := true];
      PlacedCountSet(placed[1..], t - 1);
    } else {
      assert placed[t := true][1..] == placed[1..];
    }
  }

  /** `all(correctly_placed)`. */
  predicate AllPlaced(placed: seq<bool>) {
    forall i :: 0 <= i < |placed| ==> placed[i]
  }

  /**
    The start of a game: `slots` is `random.sample(correct_positions, n)`
    for the index permutation `picks`, the draw order is `0 .. n-1`, no tile
    is placed, nothing is selected, and the countdown holds
    `duration * 60` frames.
   */
  function Init(grid: Grid, duration: int, picks: seq<nat>): (g: Game)
    requires grid.cols > 0
    requires IsPermutation(picks, TileCount(grid))
    ensures Valid(g)
    ensures multiset(g.slots) == multiset(CorrectPositions(grid))
    ensures g.drawOrder == Iota(TileCount(grid))
    ensures PlacedCount(g.placed) == 0 && g.selected == None
    ensures g.timer == duration * Fps && g.running
  {
    CorrectPositionsRowMajor(grid);
    GatherIsPermutation(CorrectPositions(grid), picks);
    var placed := seq(TileCount(grid), _ => false);
    assert PlacedCount(placed) != |placed| ==> PlacedCount(placed) == 0 by {
      NonePlaced(placed);
    }
    Game(grid, Gather(CorrectPositions(grid), picks), placed,
         Iota(TileCount(grid)), None, duration * Fps, true)
  }

  lemma {:induction false} NonePlaced(placed: seq<bool>)
    requires forall i :: 0 <= i < |placed| ==> !placed[i]
    ensures PlacedCount(placed) == 0
  {
    if placed != [] {
      NonePlaced(placed[1..]);
    }
  }

  /** The closed box `[x, x + size] x [y, y + size]` contains the point. */
  predicate Covers(corner: Pos, size: int, px: int, py: int) {
    corner.x <= px <= corner.x + size && corner.y <= py <= corner.y + size
  }

  /** Tile `t` lies under the point and can still be picked up. */
  predicate Grabbable(g: Game, t: nat, px: int, py: int)
    requires Valid(g)
  {
    t < TileCount(g.grid) && Covers(g.slots[t], TileSize(g.grid), px, py) && !g.placed[t]
  }

  /**
    `for i in reversed(draw_order)` up to the first grabbable tile: the
    highest position below `k` in the draw order whose tile is grabbable.
   */
  function TopmostGrabbable(g: Game, px: int, py: int, k: nat): (r: Option<nat>)
    requires Valid(g) && k <= |g.drawOrder|
    ensures r.Some? ==> r.value < k
    ensures r.Some? ==> Grabbable(g, g.drawOrder[r.value], px, py)
    ensures r.Some? ==> forall j :: r.value < j < k ==> !Grabbable(g, g.drawOrder[j], px, py)
    ensures r.None? ==> forall j :: 0 <= j < k ==> !Grabbable(g, g.drawOrder[j], px, py)
    decreases k
  {
    PermutationFacts(g.drawOrder, TileCount(g.grid));
    if k == 0 then None
    else if Grabbable(g, g.drawOrder[k - 1], px, py) then Some(k - 1)
    else TopmostGrabbable(g, px, py, k - 1)
  }

  /**
    Position `j` of the draw order holds a grabbable tile and no position
    above it does: it is the tile a mouse-down at (px, py) hits.
   */
  predicate IsTopmostGrabbable(g: Game, px: int, py: int, j: nat)
    requires Valid(g)
  {
    && j < |g.drawOrder|
    && Grabbable(g, g.drawOrder[j], px, py)
    && forall k :: j < k < |g.drawOrder| ==> !Grabbable(g, g.drawOrder[k], px, py)
  }

  /** At most one position is the topmost grabbable one. */
  lemma TopmostUnique(g: Game, px: int, py: int, j: nat)
    requires Valid(g) && IsTopmostGrabbable(g, px, py, j)
    ensures forall i: nat :: IsTopmostGrabbable(g, px, py, i) ==> i == j
  {
  }

  /**
    The state after grabbing the tile at draw-order position `j` at (px, py):
    it is selected with offset corner minus pointer and raised to the top.
   */
  function Grab(g: Game, px: int, py: int, j: nat): Game
    requires Valid(g) && j < |g.drawOrder| && g.drawOrder[j] < |g.slots|
  {
    var t := g.drawOrder[j];
    g.(selected := Some(Selection(t, g.slots[t].x - px, g.slots[t].y - py)),
       drawOrder := MoveToTop(g.drawOrder, j))
  }

  /**
    Mouse-down at (px, py). The topmost tile whose closed box contains the
    point and which is not yet placed is selected, with the grab offset
    corner minus pointer, and raised to the top of the draw order; placed
    tiles under the point are passed over. If there is no such tile
    nothing changes, not even an existing selection.
   */
  function PickUp(g: Game, px: int, py: int): (r: Game)
    requires Valid(g)
    ensures Valid(r)
    ensures (forall j :: 0 <= j < |g.drawOrder| ==> !Grabbable(g, g.drawOrder[j], px, py)) ==> r == g
    ensures (exists j :: 0 <= j < |g.drawOrder| && Grabbable(g, g.drawOrder[j], px, py)) ==>
      r.selected.Some? && Grabbable(g, r.selected.value.piece, px, py)
    ensures forall j: nat :: IsTopmostGrabbable(g, px, py, j) ==> r == Grab(g, px, py, j)
  {
    match TopmostGrabbable(g, px, py, |g.drawOrder|)
    case None => g
    case Some(j) =>
      PermutationFacts(g.drawOrder, TileCount(g.grid));
      IndexOfDistinct(g.drawOrder, j);
      GrabValid(g, px, py, j);
      Grab(g, px, py, IndexOf(g.drawOrder, g.drawOrder[j]))
  }

  /** The tile found by the scan is the topmost grabbable one, and grabbing it keeps the invariant. */
  lemma GrabValid(g: Game, px: int, py: int, j: nat)
    requires Valid(g) && TopmostGrabbable(g, px, py, |g.drawOrder|) == Some(j)
    ensures IsTopmostGrabbable(g, px, py, j)
    ensures forall i: nat :: IsTopmostGrabbable(g, px, py, i) ==> i == j
    ensures Valid(Grab(g, px, py, j))
    ensures Grab(g, px, py, j).selected.value.piece == g.drawOrder[j]
  {
    PermutationFacts(g.drawOrder, TileCount(g.grid));
    TopmostUnique(g, px, py, j);
  }

  /**
    Mouse-motion at (px, py). Only the selected tile moves, to pointer plus
    grab offset, so it stays rigidly attached to the pointer; with nothing
    selected nothing changes.
   */
  function Drag(g: Game, px: int, py: int): (r: Game)
    requires Valid(g)
    ensures Valid(r)
    ensures g.selected.None? ==> r == g
    ensures g.selected.Some? ==>
      var t := g.selected.value.piece;
      && r == g.(slots := r.slots)
      && |r.slots| == |g.slots|
      && r.slots[t].x - px == g.selected.value.offsetX
      && r.slots[t].y - py == g.selected.value.offsetY
      && forall i :: 0 <= i < |g.slots| && i != t ==> r.slots[i] == g.slots[i]
  {
    match g.selected
    case None => g
    case Some(sel) =>
      g.(slots := g.slots[sel.piece := Pos(px + sel.offsetX, py + sel.offsetY)])
  }

  /** Picking a tile up and dragging it back to the same point leaves every tile where it was. */
  lemma GrabInPlace(g: Game, px: int, py: int, j: nat)
    requires Valid(g) && IsTopmostGrabbable(g, px, py, j)
    ensures Drag(PickUp(g, px, py), px, py).slots == g.slots
  {
    PermutationFacts(g.drawOrder, TileCount(g.grid));
    var t := g.drawOrder[j];
    var p := Grab(g, px, py, j);
    assert p.selected == Some(Selection(t, g.slots[t].x - px, g.slots[t].y - py));
    assert Drag(p, px, py).slots == g.slots[t := g.slots[t]] == g.slots;
    assert PickUp(g, px, py) == p;
  }

  /** The tile is within the snap tolerance of its correct position on both axes. */
  predicate WithinSnap(corner: Pos, target: Pos) {
    -SnapTolerance <= corner.x - target.x <= SnapTolerance
    && -SnapTolerance <= corner.y - target.y <= SnapTolerance
  }

  /**
    The tiles a snap of tile `t` raises: unplaced tiles other than `t`
    lying exactly on `t`'s correct position. The loop tests this after `t`
    has been moved there and marked placed; measured on that updated
    state the set is the same, and the test `j != t` is then redundant.
   */
  function Waiting(g: Game, t: nat): (w: set<nat>)
    requires Valid(g) && t < TileCount(g.grid)
    ensures var target := CorrectPosition(g.grid, t);
      var slots := g.slots[t := target];
      var placed := g.placed[t := true];
      forall i :: i in w <==> 0 <= i < TileCount(g.grid) && !placed[i] && slots[i] == target
  {
    set i | 0 <= i < TileCount(g.grid) && i != t && !g.placed[i]
                                     && g.slots[i] == CorrectPosition(g.grid, t)
  }

  /**
    The reorder of a snap raises a waiting tile to the top whenever some
    tile is waiting, and leaves the draw order alone otherwise.
   */
  lemma PromoteWaiting(g: Game, t: nat)
    requires Valid(g) && t < TileCount(g.grid)
    ensures var w := Waiting(g, t);
      && (w != {} ==> TopIn(Promote(g.drawOrder, w), w))
      && (w == {} ==> Promote(g.drawOrder, w) == g.drawOrder)
  {
    var w := Waiting(g, t);
    if w != {} {
      PermutationFacts(g.drawOrder, TileCount(g.grid));
      var x :| x in w;
      var k := IndexOf(g.drawOrder, x);
      assert g.drawOrder[k] in w;
    }
  }

  /**
    Mouse-up. With a tile selected whose corner is within 30 of its correct
    position on both axes (inclusive), the tile snaps: its slot becomes the
    correct position, it is marked placed, the tiles waiting on that
    position are raised, the selection is cleared, and the release wins
    exactly when every tile is now placed. Otherwise (nothing selected, or
    too far) the state is left exactly as it was, selection included.
   */
  function Release(g: Game): (r: StepResult)
    requires Valid(g)
    ensures Valid(r.game)
    ensures g.selected.None? ==> r == StepResult(g, false)
    ensures g.selected.Some? ==>
      var t := g.selected.value.piece;
      var target := CorrectPosition(g.grid, t);
      if WithinSnap(g.slots[t], target) then
        && r.game == g.(slots := g.slots[t := target], placed := g.placed[t := true],
                        drawOrder := r.game.drawOrder, selected := None)
        && Without(r.game.drawOrder, Waiting(g, t)) == Without(g.drawOrder, Waiting(g, t))
        && (Waiting(g, t) != {} ==> TopIn(r.game.drawOrder, Waiting(g, t)))
        && (Waiting(g, t) == {} ==> r.game.drawOrder == g.drawOrder)
        && PlacedCount(r.game.placed) == PlacedCount(g.placed) + 1
        && (r.won <==> AllPlaced(r.game.placed))
      else r == StepResult(g, false)
  {
    match g.selected
    case None => StepResult(g, false)
    case Some(sel) =>
      var t := sel.piece;
      var target := CorrectPosition(g.grid, t);
      if WithinSnap(g.slots[t], target) then
        var w := Waiting(g, t);
        PromoteWaiting(g, t);
        PlacedCountSet(g.placed, t);
        var placed := g.placed[t := true];
        var order := Promote(g.drawOrder, w);
        var next := g.(slots := g.slots[t := target], placed := placed,
                       drawOrder := order, selected := None);
        StepResult(next, AllPlaced(placed))
      else StepResult(g, false)
  }

  /**
    A placed tile can no longer be picked up, so once placed it stays on
    its correct position whatever the pointer does.
   */
  lemma PlacedTileNeverGrabbed(g: Game, t: nat, px: int, py: int, qx: int, qy: int)
    requires Valid(g) && t < TileCount(g.grid) && g.placed[t]
    ensures !Grabbable(g, t, px, py)
    ensures PickUp(g, px, py).slots[t] == CorrectPosition(g.grid, t)
    ensures Drag(PickUp(g, px, py), qx, qy).slots[t] == CorrectPosition(g.grid, t)
  {
  }
}
