# MoveFaster Puzzle — a Dafny model of the puzzle engine

MoveFaster Puzzle cuts a 600 x 600 picture into a square grid of tiles and
scatters the tiles over the canvas. The player drags each tile back to its
cell before a countdown runs out. This project models the game engine
that `main` in `main.py` runs once the graphics calls are removed. It
models these parts:

- **Geometry**: the tile side `600 // cols`, the row-major list
  `correct_positions`, and the `pieces[i // rows][i % cols]` slice lookup.
- **The shuffle**: `random.sample(correct_positions, n)`, taken as an index
  permutation given as input.
- **The draw order**: the list surgery
  `draw_order.append(draw_order.pop(draw_order.index(i)))`, and the
  reorder loop that changes `draw_order` while iterating over it.
- **The state machine**: pick-up (hit-test the topmost unplaced tile under
  the pointer), drag (move the selected tile with its grab offset), and
  release (snap within 30 units, raise tiles waiting on the snapped cell,
  check for a win).
- **The frame loop**: events in order, then `timer -= 1` and the
  time-out check.
- **The screens**: the three presets, `get_duration`, and the
  menu / end-screen transitions with restart.

The game state is an immutable record. It holds the grid, `slots`,
`placed`, `drawOrder`, an optional selection with its grab offset, `timer`
and `running`. Each event is a pure function from one state to the next.
The invariant `Puzzle.Valid` says:

- there is one slot and one flag per tile;
- the draw order is a permutation of `0 .. n-1`;
- the selected tile is a real tile and is not placed;
- every placed tile lies on its correct position.

Every operation preserves this invariant.

Files: `geometry.dfy` (module `Geometry`), `permutations.dfy`
(`Permutations`), `draw_order.dfy` (`DrawOrder`), `puzzle.dfy` (`Puzzle`),
`game_loop.dfy` (`GameLoop`), `session.dfy` (`Session`).

Behaviour kept as written:

- A release that does not snap keeps the tile selected. Later motion
  still drags it, because `selected_piece = None` sits inside the snap
  branch.
- A mouse-down that hits nothing keeps any existing selection.
- The snap tolerance is 30 units whatever the tile side. That is 15% of
  an Easy tile (200) and 25% of a Hard tile (120).
- A quit event only clears `running`. The frame's remaining events are
  still processed and the timer still counts down. So a quit frame can
  still end in a win or a time-out.
- A winning release ends the game at once. The rest of the frame's
  events are dropped and the timer is not decremented.

## Model

| member | source | states |
|---|---|---|
| Geometry.TileSize | main.py:10 | the tile side is the floor quotient: `cols` tiles fit in 600 and `cols` tiles one unit larger do not; it is positive whenever `cols <= 600` |
| Geometry.CorrectPositionsRowMajor | main.py:31 | the nested comprehension has `rows * cols` entries, and entry `k` is `((k % cols) * size, (k // cols) * size)` |
| Geometry.CellHasTile | main.py:31 | every grid cell `(i, j)` is the correct position of tile `i * cols + j`, which is a real tile |
| Geometry.CorrectPositionInjective | main.py:31 | when the tile side is positive, two tiles with the same correct position are the same tile, so the layout is a bijection between tiles and cells |
| Geometry.PieceCellIntended | main.py:26-27 | the slice `pieces[k // cols][k % cols]` exists and was cut from tile `k`'s own correct position |
| Geometry.PieceCellSquare | main.py:98 | on a square grid the lookup as written picks the same slice as the row-major one: it is in range and matches the correct position |
| Geometry.PieceCellNonSquare | main.py:98 | on a 2 x 3 grid the lookup as written asks tile 5 for `pieces` row 2, which does not exist; its own cell is (1, 2) |
| Permutations.PermutationFacts | main.py:36 | a permutation of `0 .. n-1` has length n, every entry below n, no entry twice and no index missing |
| Permutations.Gather | main.py:32 | sampling by an index list gives one element per pick, each the population element at that pick |
| Permutations.GatherIsPermutation | main.py:32-33 | sampling by a permutation gives the same multiset of positions as `correct_positions`: nothing lost, nothing duplicated |
| DrawOrder.IndexOf | main.py:65 | `list.index` gives the first position holding the value |
| DrawOrder.MoveToTop | main.py:65 | `append(pop(k))` keeps the entries below k in place, slides the ones above down by one, puts entry k on top, and keeps the contents |
| DrawOrder.MoveToTopKeepsOthers | main.py:78 | raising a waiting tile does not change the relative order of the tiles that are not waiting |
| DrawOrder.PromoteFrom | main.py:74-78 | the mutate-while-iterating loop, from position i on, permutes the list, keeps the relative order of non-waiting tiles, and leaves the list unchanged if no waiting tile remains from i |
| DrawOrder.PromoteFromKeepsTop | main.py:74-78 | once a waiting tile is on top, the rest of the loop keeps a waiting tile on top |
| DrawOrder.PromoteFromRaises | main.py:74-78 | a waiting tile at the current position is raised, so the loop ends with a waiting tile on top |
| DrawOrder.PromoteFromTop | main.py:74-78 | if any waiting tile sits at or after the current position, the loop ends with a waiting tile on top |
| DrawOrder.Promote | main.py:74-78 | the whole reorder loop permutes the draw order, keeps the relative order of non-waiting tiles, puts a waiting tile on top if there is one, and changes nothing if there is none |
| DrawOrder.PromoteSkipsNeighbour | main.py:74-78 | with tiles 0 and 1 waiting in `[0, 1, 2]`, the loop gives `[1, 2, 0]`: tile 1 is skipped and stays under tile 2 |
| DrawOrder.PromoteAll | main.py:74-78 | the intended reorder is a permutation that keeps each group's order and puts every waiting tile above every non-waiting tile |
| DrawOrder.PromoteDiffersFromIntended | main.py:74-78 | the loop as written and the intended reorder disagree on `[0, 1, 2]` with tiles 0 and 1 waiting |
| Puzzle.PlacedCount | main.py:80 | the number of placed tiles is at most n, and equals n exactly when `all(correctly_placed)` holds |
| Puzzle.PlacedCountSet | main.py:73 | marking an unplaced tile placed raises the count by exactly one |
| Puzzle.Init | main.py:29-48 | the initial state satisfies the invariant; the slots are a permutation of the correct positions; the draw order is `0 .. n-1`; no tile is placed; nothing is selected; the timer is `duration * 60` |
| Puzzle.TopmostGrabbable | main.py:58-61 | scanning `reversed(draw_order)` finds the highest position with an unplaced tile whose closed box contains the point; no position above it qualifies; if it finds none, no position qualifies |
| Puzzle.PickUp | main.py:56-66 | the result keeps the invariant; with no tile qualifying the state is unchanged; otherwise the topmost qualifying tile is selected with offset slot minus point and moved to the top, and nothing else changes |
| Puzzle.GrabInPlace | main.py:84-86 | a pick-up followed by a motion event to the same point moves no tile: the recorded offset is exactly slot minus pointer |
| Puzzle.Drag | main.py:84-86 | the result keeps the invariant; with nothing selected the state is unchanged; otherwise only the selected tile moves, and its corner minus the pointer equals the grab offset |
| Puzzle.Waiting | main.py:72-77 | the tiles a snap raises, measured before the update, are the same as the loop's test measured after the snapped tile was moved and marked placed (unplaced and lying exactly on its correct position); after that update the `j != selected_piece` test is redundant |
| Puzzle.PromoteWaiting | main.py:74-78 | when some tile waits on the snapped position, the reorder ends with a waiting tile on top; when none does, the draw order is unchanged |
| Puzzle.Release | main.py:67-82 | the result keeps the invariant; a tile within 30 on both axes (inclusive) snaps to its correct position and is marked placed; the selection is cleared; non-waiting tiles keep their draw order; a waiting tile, if any, ends on top, and with none the draw order is unchanged; one more tile is placed; the release wins iff every tile is placed; with nothing selected or too far away the state is unchanged |
| Puzzle.PlacedTileNeverGrabbed | main.py:61 | a placed tile cannot be picked up, so a pick-up at any point followed by a drag to any other point leaves it on its correct position |
| GameLoop.Step | main.py:53-86 | one event keeps the invariant, never clears a placed flag, and leaves the timer and grid alone; only a release places a tile, and at most one; a win comes only from a release that placed the selected tile and completed the picture, and an event that completes the picture wins; a quit clears `running` |
| GameLoop.Events | main.py:53-86 | a frame's events keep the invariant and every placed flag; a win means every tile is placed, and events that complete the picture win; at most one tile is placed per release; without a win, `running` is cleared exactly when a quit occurred |
| GameLoop.Frame | main.py:52-92 | a frame either wins with the timer untouched, or decrements the timer; a frame whose events complete the picture wins, since the win is checked before the countdown; it times out exactly when the timer was at most 1; it closes exactly when a quit was seen and time remains; it continues only with time left and `running` set |
| GameLoop.Run | main.py:52-92 | a run of frames keeps the invariant and every placed flag; a won run has every tile placed; it stops early only on an ending; it places at most one tile per release |
| GameLoop.Countdown | main.py:89-92 | from timer T >= 1, an ongoing run has used one unit per frame; a time-out happens exactly at frame T; no run lasts more than T frames |
| GameLoop.WonIsSolved | main.py:80-82 | when a run ends in a win, every tile is placed and lies on its correct position |
| GameLoop.WinNeedsEveryTile | main.py:67-82 | a fresh game can only be won after at least as many releases as there are tiles |
| GameLoop.SessionLength | main.py:42-92 | a game started with duration d >= 1 ends within d * 60 frames; a time-out happens at exactly frame d * 60 |
| Session.Preset | main.py:209-215 | each menu entry starts a square grid whose tile side divides 600, with the duration `get_duration` gives for that grid |
| Session.GetDuration | main.py:227-236 | 30, 40 and 60 seconds for the 3x3, 4x4 and 5x5 grids, and 30 for every other grid |
| Session.Next | main.py:134-215 | the screen transitions: the menu starts exactly the chosen preset; a game goes to the congratulations or time's-up screen carrying its own settings, or exits when its loop stopped on a quit; both end screens restart at (3, 3, 30) or return to the menu; a quit exits the menu and the end screens at once but leaves a game running until its frame ends; only presets are ever played |
| Session.ReachablePresets | main.py:209-215 | from the menu, whatever the inputs, every game played uses one of the three presets, so its grid is square |
| Session.RestartForgetsDifficulty | main.py:143-145 | as written, restarting after a Hard (or Medium) game does not restart at that difficulty |
| Session.NextIntended | main.py:180-182 | with the intended restart, an end screen restarts at the finished game's settings; every other transition is unchanged |
| Session.RestartKeepsDifficulty | main.py:180-182 | with the intended restart, winning or timing out at any preset and then restarting replays that preset |

## Left out

- Graphics and I/O are not modelled. This covers pygame initialisation, the display, image loading and scaling, `subsurface`, fonts, `blit`, `flip` and `clock.tick` (main.py:6-23, 95-106 and the screen functions). They are calls into a library the model cannot see.
- The randomness of `random.sample` is not modelled. The shuffle is an arbitrary index permutation passed in as input. Only the permutation property can be checked; uniformity cannot.
- The button hit-tests on the menu and end screens (`get_rect`, `collidepoint`) are not modelled. The rectangles depend on font rendering. A click is an abstract input naming the button it hit.
- The restart mechanics are not modelled: re-calling `main` and `start_menu` recursively, and `sys.exit`. Only the screen transitions are kept.
- A game whose frame loop stops on a quit, with no win or time-out in that frame, is modelled as `Exited`. In the source, `pygame.quit()` returns to the caller's loop, and that loop then fails on the closed display. A quit during a game is otherwise ignored by the screen model; the frame loop handles it.
- The timer and time-taken text (main.py:102, 118) are not modelled. They only format output.
- Drawing tiles in draw order (main.py:96-99) is not modelled. Only the slice-lookup arithmetic of line 98 is.
- Frame pacing at 60 Hz (`clock.tick`) is not modelled. A frame is one step of the model.
- `get_duration` is never called in the source. It is modelled as a stand-alone function tied to the presets.

## Findings

The game model keeps the behaviour as written. The corrected definitions
sit beside it, and their intended properties are proved.

| source | as written | input that shows it | evidently intended | confidence | as-written member | corrected member |
|---|---|---|---|---|---|---|
| main.py:145 | Restart calls `main(3, 3, 30)`; the comment says "Restart with the same difficulty" (the same at line 182) | win a Hard (5x5, 60 s) game and click Restart: a 3x3, 30 s game starts | restart with the finished game's rows, cols and duration | high; not executed | Session.RestartForgetsDifficulty | Session.NextIntended |
| main.py:98 | the tile image is `pieces[i // rows][i % cols]` | a 2 x 3 grid, tile 5: row `5 // 2 = 2` does not exist in the 2-row `pieces` | `pieces[i // cols][i % cols]`, the row-major cell of tile i | medium: every preset is square, so the three menu games never hit it; not executed | Geometry.PieceCellNonSquare | Geometry.PieceCellIntended |
| main.py:74-78 | `for j in draw_order` pops and appends on `draw_order` while iterating over it | draw order `[0, 1, 2]`, tiles 0 and 1 waiting on the snapped cell: the result is `[1, 2, 0]`, and tile 1 stays under tile 2 | raise every waiting tile above the others (iterate over a copy) | high; only the stacking order is affected; not executed | DrawOrder.PromoteSkipsNeighbour | DrawOrder.PromoteAll |
