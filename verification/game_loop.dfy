/**
  The frame loop of `main` (main.py, lines 52-92).

  Each frame drains the frame's events in order, then counts the timer
  down by one and ends the game when it reaches zero. A release that
  completes the picture ends the game at once, dropping the rest of the
  frame's events and the countdown. A quit event only clears `running`:
  the frame's remaining events and its countdown still happen, and the
  loop stops after the frame.
 */
module GameLoop {
  import opened Geometry
  import opened Permutations
  import opened Puzzle

  /** The pointer events the game reacts to; a button-up's position is not used. */
  datatype Event = Quit | MouseDown(x: int, y: int) | MouseUp | MouseMotion(x: int, y: int)

  /** How a frame ends. */
  datatype FrameResult =
    | Continue(game: Game)   // next frame
    | Won(game: Game)        // `show_congratulations`
    | TimesUp(game: Game)    // `show_times_up`
    | Closed(game: Game)     // `running` is false: the loop exits

  /** A run of frames: how it ended (or `Continue` if the frames ran out) and how many frames it took. */
  datatype RunResult = RunResult(last: FrameResult, frames: nat)

  /** Number of button releases among a frame's events. */
  function Releases(es: seq<Event>): nat {
    if es == [] then 0 else (if es[0].MouseUp? then 1 else 0) + Releases(es[1..])
  }

  /** Number of button releases over a run of frames. */
  function ReleasesIn(frames: seq<seq<Event>>): nat {
    if frames == [] then 0 else Releases(frames[0]) + ReleasesIn(frames[1..])
  }

  /** Every placed flag of `before` is still set in `after`. */
  predicate PlacedKept(before: seq<bool>, after: seq<bool>) {
    |before| == |after| && forall i :: 0 <= i < |before| && before[i] ==> after[i]
  }

  /**
    One event. A release wins only if it snapped the selected tile and
    every tile is now placed; no event clears a placed flag, moves the
    countdown or changes the grid, and at most one tile becomes placed.
   */
  function Step(g: Game, e: Event): (r: StepResult)
    requires Valid(g)
    ensures Valid(r.game)
    ensures r.game.grid == g.grid && r.game.timer == g.timer
    ensures PlacedKept(g.placed, r.game.placed)
    ensures PlacedCount(r.game.placed) <= PlacedCount(g.placed) + (if e.MouseUp? then 1 else 0)
    ensures r.won ==> e.MouseUp? && g.selected.Some? && AllPlaced(r.game.placed)
    ensures r.won ==> !g.placed[g.selected.value.piece] && r.game.placed[g.selected.value.piece]
    ensures e.MouseUp? && PlacedCount(r.game.placed) > PlacedCount(g.placed)
      ==> (r.won <==> AllPlaced(r.game.placed))
    ensures !AllPlaced(g.placed) && AllPlaced(r.game.placed) ==> r.won
    ensures r.game.running == (g.running && !e.Quit?)
  {
    match e
    case Quit => StepResult(g.(running := false), false)
    case MouseDown(x, y) => StepResult(PickUp(g, x, y), false)
    case MouseUp => Release(g)
    case MouseMotion(x, y) => StepResult(Drag(g, x, y), false)
  }

  /**
    The frame's events in order, stopping at a winning release. A win
    means the picture is complete, and a frame that completes the picture
    wins; placed flags are never cleared and the countdown is untouched.
   */
  function Events(g: Game, es: seq<Event>): (r: StepResult)
    requires Valid(g)
    ensures Valid(r.game)
    ensures r.game.grid == g.grid && r.game.timer == g.timer
    ensures PlacedKept(g.placed, r.game.placed)
    ensures r.won ==> AllPlaced(r.game.placed)
    ensures !AllPlaced(g.placed) && AllPlaced(r.game.placed) ==> r.won
    ensures PlacedCount(r.game.placed) <= PlacedCount(g.placed) + Releases(es)
    ensures !r.won ==> r.game.running == (g.running && Quit !in es)
    decreases |es|
  {
    if es == [] then StepResult(g, false)
    else
      var s := Step(g, es[0]);
      if s.won then s
      else
        assert Quit in es <==> es[0] == Quit || Quit in es[1..] by {
          assert es == [es[0]] + es[1..];
        }
        Events(s.game, es[1..])
  }

  /**
    One frame: the events, then `timer -= 1` and the time-out check,
    then the end of the loop if a quit was seen.
   */
  function Frame(g: Game, es: seq<Event>): (r: FrameResult)
    requires Valid(g)
    ensures Valid(r.game)
    ensures r.game.grid == g.grid
    ensures PlacedKept(g.placed, r.game.placed)
    ensures r.Won? ==> AllPlaced(r.game.placed) && r.game.timer == g.timer
    ensures !AllPlaced(g.placed) && AllPlaced(r.game.placed) ==> r.Won?
    ensures PlacedCount(r.game.placed) <= PlacedCount(g.placed) + Releases(es)
    ensures !r.Won? ==> r.game.timer == g.timer - 1
    ensures r.TimesUp? <==> !r.Won? && g.timer <= 1
    ensures r.Continue? ==> r.game.timer >= 1 && r.game.running
    ensures r.Closed? <==> !r.Won? && g.timer > 1 && !(g.running && Quit !in es)
  {
    var s := Events(g, es);
    if s.won then Won(s.game)
    else
      var next := s.game.(timer := s.game.timer - 1);
      if next.timer <= 0 then TimesUp(next)
      else if !next.running then Closed(next)
      else Continue(next)
  }

  /** Frames one after another until the game ends or the frames run out. */
  function Run(g: Game, frames: seq<seq<Event>>): (r: RunResult)
    requires Valid(g)
    ensures Valid(r.last.game)
    ensures r.last.game.grid == g.grid
    ensures PlacedKept(g.placed, r.last.game.placed)
    ensures r.frames <= |frames|
    ensures r.last.Won? ==> AllPlaced(r.last.game.placed)
    ensures r.last.Continue? ==> r.frames == |frames|
    ensures PlacedCount(r.last.game.placed) <= PlacedCount(g.placed) + ReleasesIn(frames)
    decreases |frames|
  {
    if frames == [] then RunResult(Continue(g), 0)
    else
      match Frame(g, frames[0])
      case Continue(next) =>
        var rest := Run(next, frames[1..]);
        RunResult(rest.last, rest.frames + 1)
      case other => RunResult(other, 1)
  }

  /**
    The countdown: starting with `timer >= 1`, a run that has not ended
    has used up exactly one timer unit per frame; a time-out happens
    exactly at frame `timer`; and no game outlasts `timer` frames.
   */
  lemma {:induction false} Countdown(g: Game, frames: seq<seq<Event>>)
    requires Valid(g) && g.timer >= 1
    ensures var r := Run(g, frames);
      && (r.last.Continue? ==> r.last.game.timer == g.timer - r.frames)
      && (r.last.TimesUp? ==> r.frames == g.timer)
      && r.frames <= g.timer
      && (|frames| >= g.timer ==> !r.last.Continue?)
    decreases |frames|
  {
    if frames != [] {
      var f := Frame(g, frames[0]);
      if f.Continue? {
        Countdown(f.game, frames[1..]);
      }
    }
  }

  /**
    A won game shows the solved picture: every tile is placed and lies on
    its correct position.
   */
  lemma WonIsSolved(g: Game, frames: seq<seq<Event>>)
    requires Valid(g)
    ensures var r := Run(g, frames).last;
      r.Won? ==> forall i :: 0 <= i < TileCount(r.game.grid) ==>
        r.game.placed[i] && r.game.slots[i] == CorrectPosition(r.game.grid, i)
  {
  }

  /**
    Each release places at most one tile, so a fresh game cannot be won
    with fewer releases than there are tiles.
   */
  lemma WinNeedsEveryTile(grid: Grid, duration: int, picks: seq<nat>, frames: seq<seq<Event>>)
    requires grid.cols > 0
    requires IsPermutation(picks, TileCount(grid))
    ensures Run(Init(grid, duration, picks), frames).last.Won? ==> ReleasesIn(frames) >= TileCount(grid)
  {
  }

  /**
    A game started with `duration >= 1` seconds ends within
    `duration * 60` frames, and if it times out it does so at exactly that
    frame.
   */
  lemma SessionLength(grid: Grid, duration: int, picks: seq<nat>, frames: seq<seq<Event>>)
    requires grid.cols > 0 && duration >= 1
    requires IsPermutation(picks, TileCount(grid))
    ensures var r := Run(Init(grid, duration, picks), frames);
      && r.frames <= duration * Fps
      && (r.last.TimesUp? ==> r.frames == duration * Fps)
      && (|frames| >= duration * Fps ==> !r.last.Continue?)
  {
    Countdown(Init(grid, duration, picks), frames);
  }
}
