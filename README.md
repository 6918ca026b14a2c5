# Y2K Scare Maze — a verified model of the game logic

The game is a first-person maze. The player finds a terminal and fixes three
broken pseudocode lines before a countdown runs out. This project models the
logic under the engine, in Dafny, and proves properties of that model:

- **The maze generator** (`maze.dfy`, module `Maze`). It is a recursive
  backtracker: a depth-first search that carves a spanning tree into a grid
  of 4-bit passage masks. A 64-bit linear congruential generator makes each
  random choice.
  - The grid is W×H with W, H ≥ 1; `GenerateMaze` fixes it at the game's
    20×20.
  - The generator is imperative: it works on 2-D arrays with a stack.
  - The proof carries a ghost parent map, a visiting order and a carving
    count through the loop.
  - On exit this shows that every cell is visited.
  - It also shows that passages are symmetric, stay inside the grid and use
    only the four direction bits.
  - Exactly W·H − 1 carvings happen, and every cell is reachable from
    (0, 0) through open passages.
- **The answer check** (`puzzle.dfy`, module `Puzzle`).
  - The table holds three lines, each a broken text, its correct text and a
    hint.
  - The default puzzle session, and `check_answer`: trim surrounding
    whitespace, then lower-case both sides, then compare for equality.
  - The proofs:
    - every correct text is accepted on its line;
    - padding and letter case never change the verdict;
    - blank input is rejected on every line;
    - every broken text is rejected on its own line.
- **The terminal screen** (`terminal.dfy`, module `Terminal`).
  - The typewriter reveals the warning text, then the patch listing. Its
    phases are Warning → Puzzle → Done.
  - Each frame of the screen covers leaving the warning, typing and
    submitting an answer, and Escape.
  - Pressing E near a terminal opens it.
  - The typewriter and the puzzle session are classes whose methods update
    their fields. Each method is proved equal to a pure function of the old
    state, and the lemmas are about those functions.
- **The game state** (`states.dfy`, module `States`).
  - The five game states, with Exploring first.
  - Requests for a new state overwrite one pending value, so the last
    request of a frame wins (`Apply`).
  - The end screens and the countdown, which both issue requests.

The model follows the code in these places:

- **The puzzle session is never reset.** The session is created once, when
  the game starts (src/main.rs:40). Opening the terminal again resets only
  the typewriter (src/terminal/spawner.rs:45). The intended design creates
  a fresh session on every entry, but the code does not.
  - Consequence, proved in `Terminal.ReentryAfterResolution`: once the
    puzzle is solved or failed, re-entering the terminal shows an empty
    warning forever. The typewriter only ticks while the puzzle is
    unsolved, and leaving the warning needs the whole warning shown.
  - Only Escape ever gets out of that screen.
- **A failed puzzle requests no state change.** The player stays on the
  terminal screen (src/terminal/ui.rs:162-164).
- **The typewriter's derived default has speed 0.** Until a reset it
  reveals nothing (`Terminal.ZeroSpeedRevealsNothing`).
- **The patch listing has no indentation.** Every line of the Rust literal
  ends in a backslash continuation, which also drops the leading spaces of
  the next line. So the listing is 210 characters and the warning is 229.
- **Line 3's broken text is a prefix of its answer.** The text is
  "RETURN stored_year + 190" against "RETURN stored_year + 1900". It does
  not differ in an inner character.
- **After solving, the line index is 3.** That is not an index into the
  table. The session invariant allows it only for a solved session, and
  the answer line is never shown then.

## Model

| member | source | states |
|---|---|---|
| Maze.Opposite | src/maze/generator.rs:81-91 | the opposite of each direction bit is a direction bit: N ↔ S and E ↔ W, in both directions of each equivalence |
| Maze.Cell.IsOpen | src/maze/generator.rs:20-22 | a direction reads as open only for a non-zero direction of a mask with some bit set; a closed mask is closed in every direction |
| Maze.DirectionBits | src/maze/generator.rs:7-10 | the four direction constants are distinct single bits, so `is_open(e)` on a single-bit mask holds iff the bits are equal; opposite is an involution |
| Maze.OpenAfterCarve | src/maze/generator.rs:20-22 | after OR-ing direction d into a mask, `is_open(e)` holds iff it held before or e = d; masks stay within the low four bits |
| Maze.LcgNext | src/maze/generator.rs:40 | the wrapping multiply then wrapping add equals s·6364136223846793005 + 1442695040888963407 mod 2^64 |
| Maze.IndexFromState | src/maze/generator.rs:41 | the index taken from the upper 31 bits of the state, reduced modulo max, is below max |
| Maze.Rng.New | src/maze/generator.rs:36 | the generator's state is the seed |
| Maze.Rng.NextUsize | src/maze/generator.rs:39-42 | the state advances by exactly one LCG step and the result is below max |
| Maze.UnvisitedNeighbors | src/maze/generator.rs:75-94 | the list built by the four conditional pushes is the candidate list `Candidates` |
| Maze.NoCandidatesClosed | src/maze/generator.rs:57-59 | a cell without candidates has every in-grid neighbour visited, which is what the pop branch relies on |
| Maze.CandidatesSpec | src/maze/generator.rs:75-94 | every candidate neighbour is in bounds, unvisited, orthogonally adjacent in its direction and tagged with the opposite bit; each of the four neighbours is returned iff it is in bounds and unvisited; the result is in the order N, S, E, W |
| Maze.StackIsOpenPath | src/maze/generator.rs:53-66 | under the loop invariant the stack starts at (0, 0) and each consecutive pair of entries is adjacent and joined by an open passage in both masks |
| Maze.InitialInv | src/maze/generator.rs:48-54 | the closed grid with only (0, 0) visited and pushed satisfies the search invariant |
| Maze.StartSearch | src/maze/generator.rs:48-54 | fresh arrays of the given size with every mask closed and only (0, 0) visited; the stack is [(0, 0)], the ghost visited set is {(0, 0)}, there is no parent and no carving, and the search invariant holds |
| Maze.PopKeepsInv | src/maze/generator.rs:58-59 | popping a top cell that has no unvisited neighbour keeps the invariant |
| Maze.CarvePassage | src/maze/generator.rs:63-65 | the current cell gains the direction bit, the neighbour gains the opposite bit and becomes visited, and nothing else changes |
| Maze.Push.KeepsCellInv | src/maze/generator.rs:63-64 | a carving step keeps every cell's invariant: masks within four bits, unvisited cells closed, passages symmetric and only along parent edges |
| Maze.Push.KeepsInv | src/maze/generator.rs:61-66 | carving into an unvisited neighbour and pushing it keeps the whole search invariant with one more visited cell and one more carving |
| Maze.Advance | src/maze/generator.rs:56-67 | with no candidates at the top cell the stack loses its top and the arrays and the generator are unchanged; otherwise the generator advances one step, the candidate it picks is carved from the top cell, marked visited and pushed; the invariant holds and the termination measure decreases |
| Maze.Descend | src/maze/generator.rs:60-66 | the generator advances one step; the neighbour at the index drawn from the new state is carved from the top cell (both masks, nothing else), marked visited and pushed; the parent map gains that edge, the carving count grows by one, and the invariant holds |
| Maze.SearchDone | src/maze/generator.rs:68-70 | with an empty stack every cell is visited; the masks are well formed, symmetric and inside the grid; there are W·H − 1 carvings, one per tree edge; every cell is reachable from (0, 0) |
| Maze.DfsComplete | src/maze/generator.rs:56-70 | a visited set closed under neighbours that contains the origin is the whole grid, and the parent tree then spans it |
| Maze.Generate | src/maze/generator.rs:46-71 | for any seed and size the result is a freshly allocated grid with well-formed, symmetric, in-grid masks that hold exactly the spanning tree's W·H − 1 passages, and every cell is reachable from (0, 0) |
| Maze.GenerateMaze | src/maze/generator.rs:4-5 | the same guarantees for the game's 20×20 maze: a fresh grid, well-formed symmetric in-grid masks holding exactly the 399 tree passages of a spanning tree rooted at (0, 0), and every cell reachable |
| Puzzle.CheckAnswer | src/terminal/puzzle.rs:80-85 | an input is accepted iff its normal form equals the lower-cased correct text, so an accepted input never normalises to the empty text |
| Puzzle.Trim | src/terminal/puzzle.rs:81-82 | trimming never lengthens a text |
| Puzzle.ToLower | src/terminal/puzzle.rs:81-82 | lower-casing keeps the length, leaves no upper-case letter and keeps every other character in place |
| Puzzle.Normalize | src/terminal/puzzle.rs:81-82 | the normal form is never longer than the input and has no upper-case letter |
| Puzzle.ToLowerChar | src/terminal/puzzle.rs:82 | lower-casing maps A–Z to a–z and keeps every other character |
| Puzzle.TrimSpec | src/terminal/puzzle.rs:82 | the trimmed text is the part between a whitespace prefix and a whitespace suffix; it is empty iff the text is all whitespace, and otherwise starts and ends with a non-whitespace character |
| Puzzle.LeadingWhitespaceSpec | src/terminal/puzzle.rs:82 | the leading count covers exactly the front whitespace run |
| Puzzle.TrailingWhitespaceSpec | src/terminal/puzzle.rs:82 | the trailing count covers exactly the end whitespace run |
| Puzzle.TrimIgnoresPadding | src/terminal/puzzle.rs:82 | whitespace added on either side never changes the trimmed text |
| Puzzle.TrimOfTrimmed | src/terminal/puzzle.rs:82 | a text without whitespace at its ends is its own trim |
| Puzzle.ToLowerKeepsWhitespaceCounts | src/terminal/puzzle.rs:82 | lower-casing moves no whitespace |
| Puzzle.NormalizeIsTrimOfLower | src/terminal/puzzle.rs:82-83 | trimming and lower-casing commute |
| Puzzle.CheckAnswerMeans | src/terminal/puzzle.rs:81-85 | an input is accepted iff its lower-cased, trimmed form is the lower-cased correct text |
| Puzzle.AnswerNormalForm | src/terminal/puzzle.rs:18-34 | each correct text normalises to its lower-cased self, which is not empty |
| Puzzle.CorrectAnswerAccepted | src/terminal/puzzle.rs:81-85 | the correct text of each line is accepted on that line |
| Puzzle.PaddingIgnored | src/terminal/puzzle.rs:82-84 | leading or trailing whitespace never changes the verdict |
| Puzzle.CaseIgnored | src/terminal/puzzle.rs:82-84 | inputs equal after lower-casing get the same verdict |
| Puzzle.BlankRejected | src/terminal/puzzle.rs:82-84 | the empty input and any all-whitespace input are rejected on every line |
| Puzzle.RejectedWhenCoreDiffers | src/terminal/puzzle.rs:82-84 | whitespace followed by a core that differs from the answer after lower-casing is rejected |
| Puzzle.BrokenRejectedFirst | src/terminal/puzzle.rs:20-21 | line 1's broken text is rejected: "yeer" differs from "year" at one letter |
| Puzzle.BrokenRejectedSecond | src/terminal/puzzle.rs:25-26 | line 2's broken text is rejected: "RETRUN" differs from "RETURN" even after lower-casing |
| Puzzle.BrokenRejectedThird | src/terminal/puzzle.rs:30-31 | line 3's broken text is rejected: it is one character shorter than the answer |
| Puzzle.BrokenRejected | src/terminal/puzzle.rs:18-34 | every line's broken text is rejected on that line |
| Puzzle.NormalizeLeadingSpaces | src/terminal/puzzle.rs:82 | "  Stored_Year" normalises to "stored_year" |
| Puzzle.NormalizeTrailingSpace | src/terminal/puzzle.rs:82 | "STORED_YEAR " normalises to "stored_year" |
| Puzzle.DefaultSessionValid | src/terminal/puzzle.rs:55-67 | the default session is unsolved, on the first line, and satisfies the session invariant |
| Puzzle.TerminalPuzzle.Default | src/terminal/puzzle.rs:55-67 | the resource starts unsolved, on line 0, with empty input, no attempts, three attempts allowed and no hint |
| States.InitialState | src/states.rs:10-13 | the game starts in Exploring |
| States.Apply | src/states.rs:10-18 | after a frame the state is the last request; with no request it is unchanged; it is always the old state or one requested |
| States.ApplyConcat | src/states.rs:10-18 | two batches of requests act like one batch |
| States.GameOverScreen | src/ui/game_over.rs:30-32 | Enter on the game-over screen moves to Exploring; otherwise nothing is requested |
| States.WinScreen | src/ui/game_over.rs:58-60 | Enter on the win screen moves to Exploring; otherwise nothing is requested |
| States.GameTimer.Default | src/game_timer.rs:15-22 | the countdown starts at 60 of 60 seconds |
| States.GameTimer.Tick | src/game_timer.rs:25-35 | the remaining time drops by the frame time; reaching zero or less pins it at zero and requests GameOver, otherwise nothing is requested |
| Terminal.TextLengths | src/terminal/ui.rs:56-62 | the warning has 229 characters and the listing 210 |
| Terminal.CharsToShow | src/terminal/ui.rs:74 | the float-to-count conversion drops the fraction and gives 0 for zero or negative amounts |
| Terminal.CharsToShowMonotone | src/terminal/ui.rs:74 | a larger amount never shows fewer characters |
| Terminal.StartStatesWellFormed | src/terminal/ui.rs:28-52 | the default and the reset typewriter satisfy the bound invariant and reveal what their timers call for |
| Terminal.TickTypewriter | src/terminal/ui.rs:64-87 | a tick keeps the speed, only ever moves the phase from Puzzle to Done, and a tick that changes anything leaves the count within the current text |
| Terminal.AcknowledgeWarning | src/terminal/ui.rs:110-116 | the speed is kept, and any change comes from Enter in the warning phase and leads to the listing phase with count and timer zeroed |
| Terminal.TickIdle | src/terminal/ui.rs:70-71 | a tick changes nothing when the typewriter is done or the puzzle is not unsolved |
| Terminal.TickReveals | src/terminal/ui.rs:73-82 | an active tick adds the frame time and reveals floor(timer × speed), capped at the current text's length |
| Terminal.TickPhases | src/terminal/ui.rs:84-86 | a tick never leaves Warning, and moves Puzzle to Done exactly when the listing is fully revealed |
| Terminal.AcknowledgeOnlyWhenRevealed | src/terminal/ui.rs:110-116 | leaving the warning happens exactly on Enter with the whole warning shown, and zeroes the count and the timer |
| Terminal.StepsKeepInvariants | src/terminal/ui.rs:76-86 | ticks and the warning step keep the count within the current text (so the warning slice is in bounds), and Done means the whole listing is shown |
| Terminal.TickNeverHides | src/terminal/ui.rs:73-82 | with non-negative frame time and speed a tick never reduces the revealed count |
| Terminal.SubmitAnswer | src/terminal/ui.rs:145-166 | every submission clears the input and keeps the attempt limit; a request is only ever Win, after an accepted answer; a rejected answer keeps the line and shows the hint |
| Terminal.ApplyVerdict | src/terminal/ui.rs:146-164 | a verdict clears the input and keeps the attempt limit; only a correct verdict that solves the puzzle makes a request, and it is Win; a correct verdict moves to the next line with no attempts, a wrong one keeps the line and shows the hint |
| Terminal.CorrectSubmission | src/terminal/ui.rs:146-155 | a correct answer advances the line, clears the input, attempts and hint, and solves the puzzle and requests Win exactly at the last line |
| Terminal.WrongSubmission | src/terminal/ui.rs:156-165 | a wrong answer keeps the line, clears the input, counts the attempt, shows the hint, requests nothing and fails exactly when attempts reach the maximum |
| Terminal.SubmitKeepsValid | src/terminal/ui.rs:145-166 | a submission keeps the session invariant |
| Terminal.ThreeCorrectAnswersSolve | src/terminal/ui.rs:145-166 | the three correct texts submitted from the default session solve the puzzle, with Win requested only by the third |
| Terminal.ThreeBlankAnswersFail | src/terminal/ui.rs:156-165 | three empty submissions fail the puzzle on line 1, with three attempts counted and no request |
| Terminal.RenderFrame | src/terminal/ui.rs:105-179 | one frame keeps the typewriter and session invariants |
| Terminal.SessionChangesOnlyOnAnswerLine | src/terminal/ui.rs:124-166 | the session changes only in phase Done while unsolved; the line moves only forward, by one, on a correct answer; the typewriter changes only in Warning |
| Terminal.WinOnlyOnSolving | src/terminal/ui.rs:152-155 | Win is requested only when the last line is answered correctly, which solves the puzzle |
| Terminal.SolvingRequestsWin | src/terminal/ui.rs:152-155 | a correct last answer requests Win, and the game moves there unless Escape is pressed in the same frame |
| Terminal.EscapeOverrides | src/terminal/ui.rs:177-179 | Escape always leaves the game in Exploring, even over a Win requested that frame |
| Terminal.FailureRequestsNothing | src/terminal/ui.rs:162-164 | a frame that leaves the puzzle failed requests nothing |
| Terminal.Run | src/terminal/ui.rs:65-179 | any sequence of ticks and frames keeps the typewriter and session invariants |
| Terminal.LockedAfterResolution | src/terminal/ui.rs:70-71 | with the puzzle resolved and the warning not fully shown, no sequence of events changes the typewriter or the session, and only Exploring is ever requested |
| Terminal.ReentryAfterResolution | src/terminal/spawner.rs:44-47 | re-entering after solving or failing leaves the screen on the empty warning for ever |
| Terminal.ZeroSpeedRevealsNothing | src/terminal/ui.rs:28-34 | without a reset (speed 0) the typewriter stays in Warning with nothing revealed |
| Terminal.TypewriterState.Default | src/terminal/ui.rs:28-34 | the resource starts with everything zero and phase Warning |
| Terminal.TypewriterState.Reset | src/terminal/ui.rs:47-52 | a reset zeroes the count and the timer, sets the speed to 30 and the phase to Warning |
| Terminal.TypewriterState.Tick | src/terminal/ui.rs:65-87 | the fields after a tick are those of the tick function |
| Terminal.Submit | src/terminal/ui.rs:145-166 | the puzzle fields and requests after Enter are those of the submission function |
| Terminal.Accept | src/terminal/ui.rs:146-155 | the correct-answer branch's field updates |
| Terminal.Reject | src/terminal/ui.rs:156-165 | the wrong-answer branch's field updates |
| Terminal.RenderTerminal | src/terminal/ui.rs:90-181 | the two resources and the requests after a frame are those of the frame function |
| Terminal.Interact | src/terminal/spawner.rs:31-48 | every request is AtTerminal, at most one per terminal; with no request the typewriter is left as it was, and any request comes with one player, E pressed and a reset typewriter |
| Terminal.CountInRange | src/terminal/spawner.rs:40-44 | the count of terminals in range is zero iff none is in range |
| Terminal.InteractOpensTerminal | src/terminal/spawner.rs:31-48 | with one player, E pressed and some terminal in range, the game moves to AtTerminal and the typewriter is reset; otherwise nothing changes |
| Terminal.InteractTerminal | src/terminal/spawner.rs:31-48 | the loop over terminals resets the typewriter and requests AtTerminal once per terminal in range |
| Terminal.NoSiteRequestsCombat | src/states.rs:15 | none of the terminal-frame, interaction, game-over or win sites asks for Combat (the countdown site is pinned to GameOver or nothing by States.GameTimer.Tick) |

## Left out

- Rendering: the egui panels, labels, colours and the text-edit widget. The widget's effect is a parameter: the edited answer line.
- Bevy scheduling. Which systems run in which state, and in what order within a frame, is not modelled. `Run` allows any interleaving of ticks and frames.
- Floating point. Frame times, the timer (`Terminal.CharsToShow`, `States.GameTimer.Tick`) and speeds are exact reals, not f32. Rounding and the saturation of huge values are not modelled; after the cap by the text length, saturation makes no difference.
- Terminal.CharsToShow: NaN is not modelled, because reals have no NaN.
- The player's position and the distance check in the interaction. Each terminal's "in range" is a boolean input, and the player query is a count of players.
- Unicode lower-casing. Only A–Z are lower-cased. Whitespace is the full Unicode White_Space set that `str::trim` strips.
- Byte slicing of the texts. Both texts are ASCII, so a byte length is a character length.
- The hint text and the error-line display are data on screen only.
- Randomness beyond the generator's arithmetic. The seed is a parameter; where the game's seed comes from, and the maze's rendering and physics, are not part of this model.
- Maze.UnvisitedNeighbors: it takes the grid size from the array, where the source uses the 20×20 constants. The two agree for the game's grid.
- Maze.Generate: its determinism for a given seed is not stated as a separate lemma. That the passages form a tree is implied, by W·H − 1 passages over a connected grid, but acyclicity is not proved on its own.
- Combat, enemies, the player controller, audio and the HUD.
