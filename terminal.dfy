/** The terminal screen: a typewriter that reveals the warning text and then
    the patch listing, the frame-by-frame handling of the screen (leaving the
    warning, typing and submitting answers, Escape), and the interaction in
    the maze that opens the terminal. */
module Terminal {
  import P = Puzzle
  import S = States

  /** Which text block the typewriter is revealing. */
  datatype TypewriterPhase = Warning | Puzzle | Done

  /** The text shown before the puzzle. Every line of the literal ends in a
      backslash continuation, so the text is the six lines below. */
  const WARNING_TEXT: string :=
    "> INITIALIZING Y2K PATCH CONSOLE...\n"
    + "> WARNING: CRITICAL SYSTEM FAULT DETECTED\n"
    + "> DATE OVERFLOW IMMINENT: 00/00/00\n"
    + "> LOCATE AND FIX ALL SYNTAX ERRORS IN THE PATCH CODE\n"
    + "> THE MACHINE CANNOT DO IT. YOU MUST.\n"
    + "> [PRESS ENTER TO BEGIN]\n"

  /** The reveal speed set by a reset. */
  const RESET_CHARS_PER_SECOND: real := 30.0

  /** The typewriter's fields as a value. */
  datatype Typewriter = Typewriter(charsRevealed: nat, timer: real, charsPerSecond: real, phase: TypewriterPhase)

  /** The derived default: everything zero, so nothing is revealed until a
      reset sets the speed. */
  const DEFAULT_TYPEWRITER: Typewriter := Typewriter(0, 0.0, 0.0, Warning)

  /** The typewriter after a reset: at the start of the warning, at full speed. */
  const RESET_TYPEWRITER: Typewriter := Typewriter(0, 0.0, RESET_CHARS_PER_SECOND, Warning)

  /** The text being revealed in a phase. */
  function TextOf(phase: TypewriterPhase): string {
    if phase == Warning then WARNING_TEXT else P.PUZZLE_PROMPT
  }

  const WARNING_LENGTH: nat := 229
  const PROMPT_LENGTH: nat := 210

  /** The length of the text being revealed in a phase. */
  function TextLength(phase: TypewriterPhase): nat {
    if phase == Warning then WARNING_LENGTH else PROMPT_LENGTH
  }

  /** The two lengths are those of the texts. Both texts are ASCII, so their
      lengths in characters are their lengths in bytes. */
  lemma TextLengths(phase: TypewriterPhase)
    ensures |WARNING_TEXT| == WARNING_LENGTH && |P.PUZZLE_PROMPT| == PROMPT_LENGTH
    ensures TextLength(phase) == |TextOf(phase)|
  {
  }

  /** The reveal amount: elapsed time times speed. */
  function Elapsed(timer: real, charsPerSecond: real): real {
    timer * charsPerSecond
  }

  /** More time at a non-negative speed is never a smaller amount. */
  lemma ElapsedMonotone(timer: real, delta: real, charsPerSecond: real)
    requires delta >= 0.0 && charsPerSecond >= 0.0
    ensures Elapsed(timer, charsPerSecond) <= Elapsed(timer + delta, charsPerSecond)
  {
    assert (timer + delta) * charsPerSecond == timer * charsPerSecond + delta * charsPerSecond;
  }

  function Min(a: nat, b: nat): (m: nat)
    ensures m <= a && m <= b && (m == a || m == b)
  {
    if a <= b then a else b
  }

  /** The conversion of the elapsed reveal amount to a character count: the
      fractional part is dropped, and zero or a negative amount gives no
      characters. */
  function CharsToShow(amount: real): (n: nat)
    ensures amount <= 0.0 ==> n == 0
    ensures amount > 0.0 ==> n as real <= amount < n as real + 1.0
  {
    if amount <= 0.0 then 0 else amount.Floor
  }

  /** A larger amount never shows fewer characters. */
  lemma CharsToShowMonotone(a: real, b: real)
    requires a <= b
    ensures CharsToShow(a) <= CharsToShow(b)
  {
    if a > 0.0 {
      assert CharsToShow(a) as real <= a <= b < CharsToShow(b) as real + 1.0;
    }
  }

  // ---------------------------------------------------------------------------
  // The typewriter as a value

  /** One frame of the typewriter: nothing happens once everything is shown
      or once the puzzle is no longer unsolved; otherwise the timer advances,
      the revealed count follows the timer, capped at the current text's
      length, and a fully revealed listing finishes the typewriter. */
  function TickTypewriter(t: Typewriter, delta: real, puzzleState: P.PuzzleState): (r: Typewriter)
    ensures r.charsPerSecond == t.charsPerSecond
    ensures r.phase == t.phase || (t.phase == Puzzle && r.phase == Done)
    ensures r != t ==> r.charsRevealed <= TextLength(t.phase)
  {
    if t.phase == Done || puzzleState != P.Unsolved then t
    else
      var timer := t.timer + delta;
      var length := TextLength(t.phase);
      var shown := Min(CharsToShow(Elapsed(timer, t.charsPerSecond)), length);
      Typewriter(shown, timer, t.charsPerSecond,
                 if shown >= length && t.phase == Puzzle then Done else t.phase)
  }

  /** Leaving the warning: only once the whole warning is shown and Enter is
      pressed; the listing then starts from nothing. */
  function AcknowledgeWarning(t: Typewriter, enterPressed: bool): (r: Typewriter)
    ensures r.charsPerSecond == t.charsPerSecond
    ensures r != t ==> enterPressed && t.phase == Warning && r.phase == Puzzle && r.charsRevealed == 0 && r.timer == 0.0
  {
    if t.phase == Warning && t.charsRevealed >= WARNING_LENGTH && enterPressed
    then t.(charsRevealed := 0, timer := 0.0, phase := Puzzle)
    else t
  }

  /** The revealed count never exceeds the text of the phase, and a finished
      typewriter shows the whole listing. In the warning phase this is what
      keeps the slice of the warning text in bounds. */
  predicate WellFormed(t: Typewriter) {
    && (t.phase == Warning ==> t.charsRevealed <= WARNING_LENGTH)
    && (t.phase == Puzzle ==> t.charsRevealed <= PROMPT_LENGTH)
    && (t.phase == Done ==> t.charsRevealed == PROMPT_LENGTH)
  }

  /** The revealed count is the one the timer calls for. */
  predicate Synchronised(t: Typewriter) {
    t.phase != Done ==> t.charsRevealed == Min(CharsToShow(Elapsed(t.timer, t.charsPerSecond)), TextLength(t.phase))
  }

  lemma StartStatesWellFormed()
    ensures WellFormed(DEFAULT_TYPEWRITER) && Synchronised(DEFAULT_TYPEWRITER)
    ensures WellFormed(RESET_TYPEWRITER) && Synchronised(RESET_TYPEWRITER)
  {
  }

  /** A tick does nothing once the typewriter is done or the puzzle is solved
      or failed. */
  lemma TickIdle(t: Typewriter, delta: real, puzzleState: P.PuzzleState)
    requires t.phase == Done || puzzleState != P.Unsolved
    ensures TickTypewriter(t, delta, puzzleState) == t
  {
  }

  /** An active tick reveals what the timer calls for, capped at the length of
      the current text; it keeps the speed and adds the frame time. */
  lemma TickReveals(t: Typewriter, delta: real)
    requires t.phase != Done
    ensures var r := TickTypewriter(t, delta, P.Unsolved);
      && r.timer == t.timer + delta && r.charsPerSecond == t.charsPerSecond
      && r.charsRevealed <= |TextOf(t.phase)|
      && (r.charsRevealed < |TextOf(t.phase)| ==> r.charsRevealed == CharsToShow(Elapsed(t.timer + delta, t.charsPerSecond)))
      && Synchronised(r)
  {
    TextLengths(t.phase);
  }

  /** A tick never leaves the warning, and it finishes the listing exactly
      when the listing is fully revealed. */
  lemma TickPhases(t: Typewriter, delta: real, puzzleState: P.PuzzleState)
    ensures var r := TickTypewriter(t, delta, puzzleState);
      && (t.phase == Warning ==> r.phase == Warning)
      && (t.phase == Puzzle && puzzleState == P.Unsolved ==> (r.phase == Done <==> r.charsRevealed == |P.PUZZLE_PROMPT|))
      && (t.phase == Puzzle && puzzleState != P.Unsolved ==> r.phase == Puzzle)
      && (t.phase == Done ==> r.phase == Done)
  {
    TextLengths(t.phase);
  }

  /** Leaving the warning happens exactly on Enter with the warning fully
      shown; it resets the count and the timer and keeps the speed. */
  lemma AcknowledgeOnlyWhenRevealed(t: Typewriter, enterPressed: bool)
    ensures var r := AcknowledgeWarning(t, enterPressed);
      && (r != t <==> t.phase == Warning && t.charsRevealed >= |WARNING_TEXT| && enterPressed)
      && (r != t ==> r == Typewriter(0, 0.0, t.charsPerSecond, Puzzle))
  {
    TextLengths(t.phase);
  }

  /** Ticks and the warning step keep the typewriter well formed and in step
      with its timer. */
  lemma StepsKeepInvariants(t: Typewriter, delta: real, puzzleState: P.PuzzleState, enterPressed: bool)
    requires WellFormed(t) && Synchronised(t)
    ensures WellFormed(TickTypewriter(t, delta, puzzleState)) && Synchronised(TickTypewriter(t, delta, puzzleState))
    ensures WellFormed(AcknowledgeWarning(t, enterPressed)) && Synchronised(AcknowledgeWarning(t, enterPressed))
  {
    var r := TickTypewriter(t, delta, puzzleState);
    if t.phase == Puzzle && puzzleState == P.Unsolved && r.phase == Done {
      assert r.charsRevealed == PROMPT_LENGTH;
    }
  }

  /** With time moving forward at a non-negative speed, a tick never hides
      characters that were already shown. */
  lemma TickNeverHides(t: Typewriter, delta: real, puzzleState: P.PuzzleState)
    requires WellFormed(t) && Synchronised(t)
    requires delta >= 0.0 && t.charsPerSecond >= 0.0
    ensures TickTypewriter(t, delta, puzzleState).charsRevealed >= t.charsRevealed
  {
    if t.phase != Done && puzzleState == P.Unsolved {
      ElapsedMonotone(t.timer, delta, t.charsPerSecond);
      CharsToShowMonotone(Elapsed(t.timer, t.charsPerSecond), Elapsed(t.timer + delta, t.charsPerSecond));
    }
  }

  // ---------------------------------------------------------------------------
  // Submitting an answer

  /** A session and the state requests one step made. */
  datatype Outcome = Outcome(session: P.Session, requests: seq<S.GameState>)

  /** Enter on the answer line. A correct answer moves to the next line with a
      clean slate, and after the last line solves the puzzle and asks for the
      win screen. A wrong answer counts an attempt, shows the hint and, once
      the attempts are used up, fails the puzzle; a failure asks for nothing. */
  function SubmitAnswer(s: P.Session): (o: Outcome)
    requires s.currentLine < |P.PUZZLE_LINES|
    ensures o.session.currentInput == "" && o.session.maxAttempts == s.maxAttempts
    ensures o.requests != [] ==> o.requests == [S.Win] && P.CheckAnswer(s.currentInput, s.currentLine)
    ensures !P.CheckAnswer(s.currentInput, s.currentLine) ==> o.session.currentLine == s.currentLine && o.session.showHint
  {
    ApplyVerdict(s, P.CheckAnswer(s.currentInput, s.currentLine))
  }

  /** The session update for a submission already judged right or wrong. */
  function ApplyVerdict(s: P.Session, correct: bool): (o: Outcome)
    ensures o.session.currentInput == "" && o.session.maxAttempts == s.maxAttempts
    ensures o.requests != [] ==> correct && o.requests == [S.Win] && o.session.state == P.Solved
    ensures correct ==> o.session.currentLine == s.currentLine + 1 && o.session.attemptsOnLine == 0
    ensures !correct ==> o.session.currentLine == s.currentLine && o.session.showHint
  {
    if correct then
      var line := s.currentLine + 1;
      var solved := line >= |P.PUZZLE_LINES|;
      Outcome(s.(currentLine := line, currentInput := "", attemptsOnLine := 0, showHint := false,
                 state := if solved then P.Solved else s.state),
              if solved then [S.Win] else [])
    else
      var attempts := s.attemptsOnLine + 1;
      Outcome(s.(attemptsOnLine := attempts, currentInput := "",
                 showHint := if attempts >= 1 then true else s.showHint,
                 state := if attempts >= s.maxAttempts then P.Failed else s.state),
              [])
  }

  /** A correct answer: the next line, input cleared, attempts and hint reset;
      the puzzle is solved, and the win screen requested, exactly when that
      was the last line. */
  lemma CorrectSubmission(s: P.Session)
    requires P.ValidSession(s) && s.state == P.Unsolved
    requires P.CheckAnswer(s.currentInput, s.currentLine)
    ensures var o := SubmitAnswer(s);
      && o.session.currentLine == s.currentLine + 1 && o.session.currentInput == []
      && o.session.attemptsOnLine == 0 && !o.session.showHint
      && (o.session.state == P.Solved <==> o.session.currentLine == |P.PUZZLE_LINES|)
      && (o.session.state != P.Solved ==> o.session.state == P.Unsolved)
      && (o.requests == [S.Win] <==> o.session.state == P.Solved)
      && (o.requests != [S.Win] ==> o.requests == [])
  {
  }

  /** A wrong answer: the same line, input cleared, one more attempt, the hint
      shown, no request, and the puzzle failed exactly when the attempts reach
      the limit. */
  lemma WrongSubmission(s: P.Session)
    requires P.ValidSession(s) && s.state == P.Unsolved
    requires !P.CheckAnswer(s.currentInput, s.currentLine)
    ensures var o := SubmitAnswer(s);
      && o.session.currentLine == s.currentLine && o.session.currentInput == []
      && o.session.attemptsOnLine == s.attemptsOnLine + 1 && o.session.showHint
      && (o.session.state == P.Failed <==> o.session.attemptsOnLine == s.maxAttempts)
      && (o.session.state != P.Failed ==> o.session.state == P.Unsolved)
      && o.requests == []
  {
  }

  /** Submitting keeps the session invariant. */
  lemma SubmitKeepsValid(s: P.Session)
    requires P.ValidSession(s) && s.state == P.Unsolved
    ensures P.ValidSession(SubmitAnswer(s).session)
  {
  }

  /** Three correct answers in a row from a fresh session solve the puzzle,
      and only the last one asks for the win screen. */
  lemma ThreeCorrectAnswersSolve()
    ensures var o1 := SubmitAnswer(P.DEFAULT_SESSION.(currentInput := P.PUZZLE_LINES[0].correct));
      var s1 := o1.session;
      && s1.currentLine == 1 && s1.state == P.Unsolved && o1.requests == []
      && var o2 := SubmitAnswer(s1.(currentInput := P.PUZZLE_LINES[1].correct));
      var s2 := o2.session;
      && s2.currentLine == 2 && s2.state == P.Unsolved && o2.requests == []
      && var o3 := SubmitAnswer(s2.(currentInput := P.PUZZLE_LINES[2].correct));
      && o3.session.state == P.Solved && o3.requests == [S.Win]
  {
    P.CorrectAnswerAccepted(0);
    P.CorrectAnswerAccepted(1);
    P.CorrectAnswerAccepted(2);
  }

  /** Three empty submissions on the first line fail the puzzle there, with
      the hint shown and no request. */
  lemma ThreeBlankAnswersFail()
    ensures var s1 := SubmitAnswer(P.DEFAULT_SESSION).session;
      var s2 := SubmitAnswer(s1).session;
      var o3 := SubmitAnswer(s2);
      && s1.attemptsOnLine == 1 && s1.showHint && s1.state == P.Unsolved
      && s2.attemptsOnLine == 2 && s2.state == P.Unsolved
      && o3.session.state == P.Failed && o3.session.currentLine == 0
      && o3.session.attemptsOnLine == 3 && o3.requests == []
  {
    P.BlankRejected("", 0);
  }

  // ---------------------------------------------------------------------------
  // One frame of the terminal screen

  /** Everything a frame of the terminal screen changes. */
  datatype Frame = Frame(typewriter: Typewriter, session: P.Session, requests: seq<S.GameState>)

  /** One frame of the screen. In the warning phase only the warning step
      runs. Once the listing is done and the puzzle is unsolved, the answer
      line takes the edited text and Enter submits it; otherwise the session
      is left alone. Escape asks for the maze after anything else this frame
      requested. The slice of the warning text and the lookup of the current
      line need the two requirements. */
  function RenderFrame(t: Typewriter, s: P.Session, edited: string, enterPressed: bool, escapePressed: bool): (f: Frame)
    requires t.phase == Warning ==> t.charsRevealed <= WARNING_LENGTH
    requires t.phase == Done && s.state == P.Unsolved ==> s.currentLine < |P.PUZZLE_LINES|
    ensures WellFormed(t) && Synchronised(t) ==> WellFormed(f.typewriter) && Synchronised(f.typewriter)
    ensures P.ValidSession(s) ==> P.ValidSession(f.session)
  {
    var escape := if escapePressed then [S.Exploring] else [];
    if t.phase == Warning then
      Frame(AcknowledgeWarning(t, enterPressed), s, escape)
    else if t.phase == Done && s.state == P.Unsolved then
      var typed := s.(currentInput := edited);
      if enterPressed then
        (SubmitKeepsValidIfValid(typed);
         var o := SubmitAnswer(typed);
         Frame(t, o.session, o.requests + escape))
      else Frame(t, typed, escape)
    else Frame(t, s, escape)
  }

  lemma SubmitKeepsValidIfValid(s: P.Session)
    requires s.currentLine < |P.PUZZLE_LINES| && s.state == P.Unsolved
    ensures P.ValidSession(s) ==> P.ValidSession(SubmitAnswer(s).session)
  {
    if P.ValidSession(s) { SubmitKeepsValid(s); }
  }

  /** The session changes only on the answer line, and its line only moves
      forward, by one, on a correct answer. */
  lemma SessionChangesOnlyOnAnswerLine(t: Typewriter, s: P.Session, edited: string, enterPressed: bool, escapePressed: bool)
    requires t.phase == Warning ==> t.charsRevealed <= WARNING_LENGTH
    requires t.phase == Done && s.state == P.Unsolved ==> s.currentLine < |P.PUZZLE_LINES|
    ensures var f := RenderFrame(t, s, edited, enterPressed, escapePressed);
      && (f.session != s ==> t.phase == Done && s.state == P.Unsolved)
      && (f.session.currentLine != s.currentLine ==>
            f.session.currentLine == s.currentLine + 1 && enterPressed && P.CheckAnswer(edited, s.currentLine))
      && (f.typewriter != t ==> t.phase == Warning)
  {
  }

  /** The win screen is requested only when the last line is answered
      correctly, which solves the puzzle. */
  lemma WinOnlyOnSolving(t: Typewriter, s: P.Session, edited: string, enterPressed: bool, escapePressed: bool)
    requires t.phase == Warning ==> t.charsRevealed <= WARNING_LENGTH
    requires t.phase == Done && s.state == P.Unsolved ==> s.currentLine < |P.PUZZLE_LINES|
    requires S.Win in RenderFrame(t, s, edited, enterPressed, escapePressed).requests
    ensures t.phase == Done && s.state == P.Unsolved && enterPressed
    ensures s.currentLine == |P.PUZZLE_LINES| - 1 && P.CheckAnswer(edited, s.currentLine)
    ensures RenderFrame(t, s, edited, enterPressed, escapePressed).session.state == P.Solved
  {
  }

  /** ... and solving the last line does request it; the game moves to the
      win screen unless Escape is pressed in the same frame. */
  lemma SolvingRequestsWin(t: Typewriter, s: P.Session, edited: string, escapePressed: bool, current: S.GameState)
    requires t.phase == Done && s.state == P.Unsolved
    requires s.currentLine == |P.PUZZLE_LINES| - 1 && P.CheckAnswer(edited, s.currentLine)
    ensures var f := RenderFrame(t, s, edited, true, escapePressed);
      && S.Win in f.requests && f.session.state == P.Solved
      && S.Apply(current, f.requests) == (if escapePressed then S.Exploring else S.Win)
  {
  }

  /** Escape always wins: it is the last request of the frame. */
  lemma EscapeOverrides(t: Typewriter, s: P.Session, edited: string, enterPressed: bool, current: S.GameState)
    requires t.phase == Warning ==> t.charsRevealed <= WARNING_LENGTH
    requires t.phase == Done && s.state == P.Unsolved ==> s.currentLine < |P.PUZZLE_LINES|
    ensures S.Apply(current, RenderFrame(t, s, edited, enterPressed, true).requests) == S.Exploring
  {
  }

  /** A frame that leaves the puzzle failed asks for nothing beyond Escape. */
  lemma FailureRequestsNothing(t: Typewriter, s: P.Session, edited: string, enterPressed: bool)
    requires t.phase == Warning ==> t.charsRevealed <= WARNING_LENGTH
    requires t.phase == Done && s.state == P.Unsolved ==> s.currentLine < |P.PUZZLE_LINES|
    requires RenderFrame(t, s, edited, enterPressed, false).session.state == P.Failed
    ensures RenderFrame(t, s, edited, enterPressed, false).requests == []
  {
  }

  // ---------------------------------------------------------------------------
  // Runs of frames

  /** What can happen while the terminal screen is open: a typewriter tick, or
      a frame of the screen with the edited answer line and the keys pressed. */
  datatype Event = Tick(delta: real) | Render(edited: string, enterPressed: bool, escapePressed: bool)

  /** The effect of a sequence of events, with the requests of all frames in
      order. */
  function Run(t: Typewriter, s: P.Session, events: seq<Event>): (f: Frame)
    requires WellFormed(t) && Synchronised(t) && P.ValidSession(s)
    ensures WellFormed(f.typewriter) && Synchronised(f.typewriter) && P.ValidSession(f.session)
    decreases |events|
  {
    if events == [] then Frame(t, s, [])
    else match events[0]
      case Tick(delta) =>
        StepsKeepInvariants(t, delta, s.state, false);
        Run(TickTypewriter(t, delta, s.state), s, events[1..])
      case Render(edited, enterPressed, escapePressed) =>
        var f := RenderFrame(t, s, edited, enterPressed, escapePressed);
        var rest := Run(f.typewriter, f.session, events[1..]);
        Frame(rest.typewriter, rest.session, f.requests + rest.requests)
  }

  /** With the puzzle solved or failed and the warning not fully shown, the
      screen is stuck: the typewriter never moves, the session never changes
      and the only request ever made is Escape's. */
  lemma {:induction false} LockedAfterResolution(t: Typewriter, s: P.Session, events: seq<Event>)
    requires WellFormed(t) && Synchronised(t) && P.ValidSession(s)
    requires s.state != P.Unsolved && t.phase == Warning && t.charsRevealed < WARNING_LENGTH
    ensures Run(t, s, events).typewriter == t && Run(t, s, events).session == s
    ensures forall i :: 0 <= i < |Run(t, s, events).requests| ==> Run(t, s, events).requests[i] == S.Exploring
    decreases |events|
  {
    if events != [] {
      LockedAfterResolution(t, s, events[1..]);
    }
  }

  /** Re-entering the terminal after the puzzle was solved or failed resets
      only the typewriter; the screen then stays on an empty warning. */
  lemma ReentryAfterResolution(s: P.Session, events: seq<Event>)
    requires P.ValidSession(s) && s.state != P.Unsolved
    ensures Run(RESET_TYPEWRITER, s, events).typewriter == RESET_TYPEWRITER
    ensures Run(RESET_TYPEWRITER, s, events).session == s
    ensures forall i :: 0 <= i < |Run(RESET_TYPEWRITER, s, events).requests| ==> Run(RESET_TYPEWRITER, s, events).requests[i] == S.Exploring
  {
    LockedAfterResolution(RESET_TYPEWRITER, s, events);
  }

  /** Without a reset the speed is zero, so the typewriter never reveals a
      character and never leaves the warning. */
  lemma {:induction false} ZeroSpeedRevealsNothing(t: Typewriter, s: P.Session, events: seq<Event>)
    requires WellFormed(t) && Synchronised(t) && P.ValidSession(s)
    requires t.charsPerSecond == 0.0 && t.phase == Warning && t.charsRevealed == 0
    ensures Run(t, s, events).typewriter.phase == Warning
    ensures Run(t, s, events).typewriter.charsRevealed == 0
    decreases |events|
  {
    if events != [] {
      match events[0]
      case Tick(delta) =>
        var t' := TickTypewriter(t, delta, s.state);
        StepsKeepInvariants(t, delta, s.state, false);
        assert t'.charsPerSecond == 0.0 && t'.phase == Warning && t'.charsRevealed == 0;
        ZeroSpeedRevealsNothing(t', s, events[1..]);
      case Render(edited, enterPressed, escapePressed) =>
        var f := RenderFrame(t, s, edited, enterPressed, escapePressed);
        assert f.typewriter == t;
        ZeroSpeedRevealsNothing(f.typewriter, f.session, events[1..]);
    }
  }

  // ---------------------------------------------------------------------------
  // The state the screen mutates

  /** The typewriter resource. */
  class TypewriterState {
    var charsRevealed: nat
    var timer: real
    var charsPerSecond: real
    var phase: TypewriterPhase

    function Snapshot(): Typewriter
      reads this
    {
      Typewriter(charsRevealed, timer, charsPerSecond, phase)
    }

    constructor Default()
      ensures Snapshot() == DEFAULT_TYPEWRITER
    {
      charsRevealed := 0;
      timer := 0.0;
      charsPerSecond := 0.0;
      phase := Warning;
    }

    /** Back to the start of the warning, at full speed. */
    method Reset()
      modifies this
      ensures Snapshot() == RESET_TYPEWRITER
    {
      charsRevealed := 0;
      timer := 0.0;
      charsPerSecond := RESET_CHARS_PER_SECOND;
      phase := Warning;
    }

    /** One frame of the typewriter, given the frame time and the puzzle's state. */
    method Tick(delta: real, puzzleState: P.PuzzleState)
      modifies this
      ensures Snapshot() == TickTypewriter(old(Snapshot()), delta, puzzleState)
    {
      if phase == Done { return; }
      if puzzleState != P.Unsolved { return; }
      timer := timer + delta;
      var charsToShow := CharsToShow(Elapsed(timer, charsPerSecond));
      var length := TextLength(phase);
      charsRevealed := Min(charsToShow, length);
      if charsRevealed >= length && phase == Puzzle {
        phase := Done;
      }
    }
  }

  /** Enter on the answer line, applied to the puzzle resource. */
  method Submit(puzzle: P.TerminalPuzzle) returns (requests: seq<S.GameState>)
    requires puzzle.currentLine < |P.PUZZLE_LINES|
    modifies puzzle
    ensures Outcome(puzzle.Snapshot(), requests) == SubmitAnswer(old(puzzle.Snapshot()))
  {
    if P.CheckAnswer(puzzle.currentInput, puzzle.currentLine) {
      requests := Accept(puzzle);
    } else {
      Reject(puzzle);
      requests := [];
    }
  }

  /** The correct-answer branch of a submission. */
  method Accept(puzzle: P.TerminalPuzzle) returns (requests: seq<S.GameState>)
    modifies puzzle
    ensures Outcome(puzzle.Snapshot(), requests) == ApplyVerdict(old(puzzle.Snapshot()), true)
  {
    requests := [];
    puzzle.currentLine := puzzle.currentLine + 1;
    puzzle.currentInput := "";
    puzzle.attemptsOnLine := 0;
    puzzle.showHint := false;
    if puzzle.currentLine >= |P.PUZZLE_LINES| {
      puzzle.state := P.Solved;
      requests := requests + [S.Win];
    }
  }

  /** The wrong-answer branch of a submission, which requests nothing. */
  method Reject(puzzle: P.TerminalPuzzle)
    modifies puzzle
    ensures Outcome(puzzle.Snapshot(), []) == ApplyVerdict(old(puzzle.Snapshot()), false)
  {
    puzzle.attemptsOnLine := puzzle.attemptsOnLine + 1;
    puzzle.currentInput := "";
    if puzzle.attemptsOnLine >= 1 {
      puzzle.showHint := true;
    }
    if puzzle.attemptsOnLine >= puzzle.maxAttempts {
      puzzle.state := P.Failed;
    }
  }

  /** One frame of the terminal screen on the two resources. */
  method RenderTerminal(tw: TypewriterState, puzzle: P.TerminalPuzzle, edited: string,
                        enterPressed: bool, escapePressed: bool) returns (requests: seq<S.GameState>)
    requires tw.phase == Warning ==> tw.charsRevealed <= WARNING_LENGTH
    requires tw.phase == Done && puzzle.state == P.Unsolved ==> puzzle.currentLine < |P.PUZZLE_LINES|
    modifies tw, puzzle
    ensures Frame(tw.Snapshot(), puzzle.Snapshot(), requests)
            == RenderFrame(old(tw.Snapshot()), old(puzzle.Snapshot()), edited, enterPressed, escapePressed)
  {
    requests := [];
    match tw.phase {
      case Warning =>
        if tw.charsRevealed >= WARNING_LENGTH && enterPressed {
          tw.charsRevealed := 0;
          tw.timer := 0.0;
          tw.phase := Puzzle;
        }
      case Puzzle =>
      case Done =>
        if puzzle.state == P.Unsolved {
          puzzle.currentInput := edited;
          if enterPressed {
            requests := Submit(puzzle);
          }
        }
    }
    if escapePressed {
      requests := requests + [S.Exploring];
    }
  }

  // ---------------------------------------------------------------------------
  // Opening the terminal from the maze

  /** The number of terminals the player is close enough to. */
  function CountInRange(inRange: seq<bool>): (n: nat)
    ensures n <= |inRange|
    ensures n == 0 <==> forall i :: 0 <= i < |inRange| ==> !inRange[i]
  {
    if inRange == [] then 0 else (if inRange[0] then 1 else 0) + CountInRange(inRange[1..])
  }

  /** E pressed near a terminal, with exactly one player: each terminal in
      range resets the typewriter and asks for the terminal screen. With no
      player, several players or no key, nothing happens. */
  function Interact(t: Typewriter, players: nat, inRange: seq<bool>, ePressed: bool): (o: (Typewriter, seq<S.GameState>))
    ensures |o.1| <= |inRange| && forall i :: 0 <= i < |o.1| ==> o.1[i] == S.AtTerminal
    ensures o.1 == [] ==> o.0 == t
    ensures o.1 != [] ==> o.0 == RESET_TYPEWRITER && players == 1 && ePressed
  {
    var k := if players == 1 && ePressed then CountInRange(inRange) else 0;
    (if k > 0 then RESET_TYPEWRITER else t, seq(k, _ => S.AtTerminal))
  }

  /** Pressing E near a terminal moves the game to the terminal screen and
      starts the typewriter afresh; otherwise the state stays. */
  lemma InteractOpensTerminal(t: Typewriter, players: nat, inRange: seq<bool>, ePressed: bool, current: S.GameState)
    ensures var o := Interact(t, players, inRange, ePressed);
      && ((players == 1 && ePressed && exists i :: 0 <= i < |inRange| && inRange[i]) ==>
            S.Apply(current, o.1) == S.AtTerminal && o.0 == RESET_TYPEWRITER)
      && (!(players == 1 && ePressed && exists i :: 0 <= i < |inRange| && inRange[i]) ==>
            S.Apply(current, o.1) == current && o.0 == t)
  {
  }

  /** The interaction on the typewriter resource: a loop over the terminals. */
  method InteractTerminal(tw: TypewriterState, players: nat, inRange: seq<bool>, ePressed: bool)
    returns (requests: seq<S.GameState>)
    modifies tw
    ensures (tw.Snapshot(), requests) == Interact(old(tw.Snapshot()), players, inRange, ePressed)
  {
    requests := [];
    if players != 1 { return; }
    var i := 0;
    while i < |inRange|
      invariant 0 <= i <= |inRange|
      invariant var k := if ePressed then CountInRange(inRange[..i]) else 0;
        && requests == seq(k, _ => S.AtTerminal)
        && tw.Snapshot() == (if k > 0 then RESET_TYPEWRITER else old(tw.Snapshot()))
    {
      CountInRangeSnoc(inRange[..i], inRange[i]);
      assert inRange[..i + 1] == inRange[..i] + [inRange[i]];
      if inRange[i] && ePressed {
        tw.Reset();
        requests := requests + [S.AtTerminal];
      }
      i := i + 1;
    }
    assert inRange[..i] == inRange;
  }

  lemma {:induction false} CountInRangeSnoc(bs: seq<bool>, b: bool)
    ensures CountInRange(bs + [b]) == CountInRange(bs) + (if b then 1 else 0)
    decreases |bs|
  {
    if bs == [] {
      assert bs + [b] == [b];
    } else {
      assert (bs + [b])[1..] == bs[1..] + [b];
      CountInRangeSnoc(bs[1..], b);
    }
  }

  // ---------------------------------------------------------------------------
  // All requests together

  /** No place in the game asks for combat: the terminal screen, the
      interaction, the end screens and the countdown only ask for the maze,
      the terminal, the win screen or game over. */
  lemma NoSiteRequestsCombat(t: Typewriter, s: P.Session, edited: string, enterPressed: bool, escapePressed: bool,
                             players: nat, inRange: seq<bool>, ePressed: bool)
    requires t.phase == Warning ==> t.charsRevealed <= WARNING_LENGTH
    requires t.phase == Done && s.state == P.Unsolved ==> s.currentLine < |P.PUZZLE_LINES|
    ensures S.Combat !in RenderFrame(t, s, edited, enterPressed, escapePressed).requests
    ensures S.Combat !in Interact(t, players, inRange, ePressed).1
    ensures S.Combat !in S.GameOverScreen(enterPressed) && S.Combat !in S.WinScreen(enterPressed)
  {
  }
}
