/**
  The screens around a game (main.py, lines 110-236).

  The start menu offers three presets; a finished game shows either the
  congratulations screen or the time's-up screen, each with a Restart and
  a Menu button. Restart calls `main(3, 3, 30)` whatever the difficulty
  was. The button hit-tests depend on rendered text sizes, so here a
  click is an abstract input naming the button it landed on.
 */
module Session {
  import Geometry
  import Puzzle

  datatype Difficulty = Easy | Medium | Hard

  /** The arguments of `main(rows, cols, duration)`. */
  datatype Settings = Settings(rows: nat, cols: nat, duration: int)

  /**
    The preset behind each menu entry. Every preset is a square grid whose
    tiles divide the 600-unit canvas exactly and whose duration is the one
    `get_duration` gives for that grid.
   */
  function Preset(d: Difficulty): (s: Settings)
    ensures s.rows == s.cols && 0 < s.cols && Geometry.CanvasSize % s.cols == 0
    ensures GetDuration(s.rows, s.cols) == s.duration
    ensures s.duration * Puzzle.Fps >= 1800
  {
    match d
    case Easy => Settings(3, 3, 30)
    case Medium => Settings(4, 4, 40)
    case Hard => Settings(5, 5, 60)
  }

  /**
    `get_duration(rows, cols)`: the duration of the preset with that grid,
    or 30 seconds for any other grid.
   */
  function GetDuration(rows: int, cols: int): (seconds: int)
    ensures rows == 3 && cols == 3 ==> seconds == 30
    ensures rows == 4 && cols == 4 ==> seconds == 40
    ensures rows == 5 && cols == 5 ==> seconds == 60
    ensures !(rows == cols && 3 <= rows <= 5) ==> seconds == 30
  {
    if rows == 3 && cols == 3 then 30
    else if rows == 4 && cols == 4 then 40
    else if rows == 5 && cols == 5 then 60
    else 30
  }

  datatype Screen =
    | Menu
    | Playing(settings: Settings)
    | Congratulations(settings: Settings)
    | TimesUp(settings: Settings)
    | Exited

  /** What can happen on a screen: a click on a named button, a game's ending, or a quit. */
  datatype Input =
    | Choose(difficulty: Difficulty)
    | GameWon
    | GameTimedOut
    | GameClosed
    | ClickRestart
    | ClickMenu
    | QuitEvent

  /** The preset a game is played at, if the screen belongs to one. */
  predicate OnlyPresets(s: Screen) {
    match s
    case Playing(st) => st == Preset(Easy) || st == Preset(Medium) || st == Preset(Hard)
    case Congratulations(st) => st == Preset(Easy) || st == Preset(Medium) || st == Preset(Hard)
    case TimesUp(st) => st == Preset(Easy) || st == Preset(Medium) || st == Preset(Hard)
    case _ => true
  }

  /**
    The screen transitions as written. The menu starts the chosen preset;
    a game ends on the congratulations or time's-up screen, or exits when
    its frame loop stops on a quit without a win or a time-out; both end
    screens restart at `(3, 3, 30)` or go back to the menu. A quit on the
    menu or an end screen exits at once; during a game it only clears
    `running`, which the frame loop reports as `GameClosed`. Every game
    the session can reach is played at one of the presets.
   */
  function Next(s: Screen, i: Input): (r: Screen)
    ensures OnlyPresets(s) ==> OnlyPresets(r)
    ensures s.Menu? && i.Choose? ==> r == Playing(Preset(i.difficulty))
    ensures s.Playing? && i.GameWon? ==> r == Congratulations(s.settings)
    ensures s.Playing? && i.GameTimedOut? ==> r == TimesUp(s.settings)
    ensures s.Playing? && i.GameClosed? ==> r == Exited
    ensures (s.Congratulations? || s.TimesUp?) && i.ClickMenu? ==> r == Menu
    ensures i.QuitEvent? && !s.Playing? ==> r == Exited
    ensures s.Playing? && (i.QuitEvent? || i.ClickRestart? || i.ClickMenu? || i.Choose?) ==> r == s
    ensures s.Exited? ==> r == Exited
    ensures (s.Congratulations? || s.TimesUp?) && i.ClickRestart? ==> r == Playing(Preset(Easy))
    ensures r.Playing? ==>
      || (s.Menu? && i.Choose? && r.settings == Preset(i.difficulty))
      || (s.Playing? && r == s)
      || ((s.Congratulations? || s.TimesUp?) && i.ClickRestart?)
  {
    match (s, i)
    case (Playing(_), QuitEvent) => s
    case (_, QuitEvent) => Exited
    case (Menu, Choose(d)) => Playing(Preset(d))
    case (Playing(st), GameWon) => Congratulations(st)
    case (Playing(st), GameTimedOut) => TimesUp(st)
    case (Playing(_), GameClosed) => Exited
    case (Congratulations(_), ClickRestart) => Playing(Settings(3, 3, 30))
    case (Congratulations(_), ClickMenu) => Menu
    case (TimesUp(_), ClickRestart) => Playing(Settings(3, 3, 30))
    case (TimesUp(_), ClickMenu) => Menu
    case _ => s
  }

  /** A sequence of inputs from screen `s`. */
  function Drive(s: Screen, inputs: seq<Input>): Screen
    decreases |inputs|
  {
    if inputs == [] then s else Drive(Next(s, inputs[0]), inputs[1..])
  }

  /**
    Starting from the menu, whatever happens, every game played is at one
    of the three presets; in particular its grid is square.
   */
  lemma {:induction false} ReachablePresets(s: Screen, inputs: seq<Input>)
    requires OnlyPresets(s)
    ensures OnlyPresets(Drive(s, inputs))
    ensures Drive(s, inputs).Playing? ==> Drive(s, inputs).settings.rows == Drive(s, inputs).settings.cols
    decreases |inputs|
  {
    if inputs != [] {
      ReachablePresets(Next(s, inputs[0]), inputs[1..]);
    }
  }

  /**
    As written, restarting after a Hard game starts an Easy game, although
    the source's own comment says the restart keeps the difficulty.
   */
  lemma RestartForgetsDifficulty()
    ensures Next(Congratulations(Preset(Hard)), ClickRestart) != Playing(Preset(Hard))
    ensures Next(TimesUp(Preset(Medium)), ClickRestart) != Playing(Preset(Medium))
  {
  }

  /** The transitions with Restart replaying the finished game's settings. */
  function NextIntended(s: Screen, i: Input): (r: Screen)
    ensures (s.Congratulations? || s.TimesUp?) && i.ClickRestart? ==> r == Playing(s.settings)
    ensures !i.ClickRestart? ==> r == Next(s, i)
    ensures OnlyPresets(s) ==> OnlyPresets(r)
  {
    match (s, i)
    case (Congratulations(st), ClickRestart) => Playing(st)
    case (TimesUp(st), ClickRestart) => Playing(st)
    case _ => Next(s, i)
  }

  /** With the intended restart, a finished game restarts at its own difficulty. */
  lemma RestartKeepsDifficulty(d: Difficulty, won: bool)
    ensures var finished := Next(Playing(Preset(d)), if won then GameWon else GameTimedOut);
      NextIntended(finished, ClickRestart) == Playing(Preset(d))
  {
  }
}
