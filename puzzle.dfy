/** The terminal puzzle: three broken pseudocode lines, the answer check that
    compares a typed line with the correct one up to surrounding whitespace and
    letter case, and the session record the terminal screen updates. */
module Puzzle {

  /** One line to fix: the text shown, the answer expected, the hint. */
  datatype PuzzleLine = PuzzleLine(broken: string, correct: string, hint: string)

  const PUZZLE_LINES: seq<PuzzleLine> := [
    PuzzleLine("    stored_yeer = year % 100", "stored_year = year % 100", "HINT: CHECK THE VARIABLE NAME"),
    PuzzleLine("        RETRUN stored_year", "RETURN stored_year", "HINT: CHECK THE KEYWORD SPELLING"),
    PuzzleLine("    RETURN stored_year + 190", "RETURN stored_year + 1900", "HINT: CHECK THE CONSTANT VALUE")
  ]

  datatype PuzzleState = Unsolved | Solved | Failed

  /** The pseudocode block revealed above the input line. Every source line of
      the literal ends in a backslash continuation, which also drops the next
      line's leading whitespace, so the indentation of the three code lines is
      not part of the text. */
  const PUZZLE_PROMPT: string :=
    "PATCH FILE: y2k_fix.pseudo\n"
    + "-----------------------------------------\n"
    + "FUNCTION get_full_year(year):\n"
    + "stored_yeer = year % 100\n"
    + "RETRUN stored_year\n"
    + "RETURN stored_year + 190\n"
    + "-----------------------------------------\n"

  // ---------------------------------------------------------------------------
  // Normalisation: trim, then lower-case

  /** The characters with the Unicode White_Space property, which is what
      `char::is_whitespace` and hence `str::trim` strip. */
  predicate IsWhitespace(c: char) {
    || ('\t' <= c <= '\r') || c == ' ' || c == '\U{85}' || c == '\U{A0}' || c == '\U{1680}'
    || ('\U{2000}' <= c <= '\U{200A}') || c == '\U{2028}' || c == '\U{2029}' || c == '\U{202F}'
    || c == '\U{205F}' || c == '\U{3000}'
  }

  predicate AllWhitespace(s: string) {
    forall i :: 0 <= i < |s| ==> IsWhitespace(s[i])
  }

  /** The number of whitespace characters at the front of s. */
  function LeadingWhitespace(s: string): (n: nat)
    ensures n <= |s|
  {
    if |s| > 0 && IsWhitespace(s[0]) then 1 + LeadingWhitespace(s[1..]) else 0
  }

  /** The number of whitespace characters at the end of s. */
  function TrailingWhitespace(s: string): (n: nat)
    ensures n <= |s|
  {
    if |s| > 0 && IsWhitespace(s[|s| - 1]) then 1 + TrailingWhitespace(s[..|s| - 1]) else 0
  }

  function TrimStart(s: string): string {
    s[LeadingWhitespace(s)..]
  }

  function TrimEnd(s: string): string {
    s[..|s| - TrailingWhitespace(s)]
  }

  /** `str::trim`: both ends stripped. */
  function Trim(s: string): (r: string)
    ensures |r| <= |s|
  {
    TrimEnd(TrimStart(s))
  }

  predicate IsUpper(c: char) {
    'A' <= c <= 'Z'
  }

  /** ASCII lower-casing of one character: A-Z move to a-z, everything else
      is kept. */
  function ToLowerChar(c: char): (l: char)
    ensures !IsUpper(l)
    ensures IsUpper(c) ==> l as int == c as int + 32
    ensures !IsUpper(c) ==> l == c
  {
    if IsUpper(c) then (c as int - 'A' as int + 'a' as int) as char else c
  }

  /** ASCII lower-casing of a text: same length, no upper-case letter left,
      every other character kept in place. */
  function ToLower(s: string): (r: string)
    ensures |r| == |s|
    ensures forall i :: 0 <= i < |r| ==> !IsUpper(r[i])
    ensures forall i :: 0 <= i < |s| && !IsUpper(s[i]) ==> r[i] == s[i]
  {
    seq(|s|, i requires 0 <= i < |s| => ToLowerChar(s[i]))
  }

  /** The form in which answers are compared: never longer than the input
      and free of upper-case letters. */
  function Normalize(s: string): (r: string)
    ensures |r| <= |s|
    ensures forall i :: 0 <= i < |r| ==> !IsUpper(r[i])
  {
    ToLower(Trim(s))
  }

  /** Whether the typed input is the answer for line `lineIndex`. The index
      must name one of the three lines; a larger one is out of bounds. */
  function CheckAnswer(input: string, lineIndex: nat): (r: bool)
    requires lineIndex < |PUZZLE_LINES|
    ensures r <==> Normalize(input) == ToLower(PUZZLE_LINES[lineIndex].correct)
    ensures r ==> Normalize(input) != []
  {
    AnswerNormalForm(lineIndex);
    Normalize(input) == Normalize(PUZZLE_LINES[lineIndex].correct)
  }

  // ---------------------------------------------------------------------------
  // Properties of the normalisation

  /** The leading count is exactly the whitespace run at the front: all of it
      is whitespace and the next character, if any, is not. */
  lemma {:induction false} LeadingWhitespaceSpec(s: string)
    ensures AllWhitespace(s[..LeadingWhitespace(s)])
    ensures LeadingWhitespace(s) < |s| ==> !IsWhitespace(s[LeadingWhitespace(s)])
  {
    if |s| > 0 && IsWhitespace(s[0]) {
      LeadingWhitespaceSpec(s[1..]);
      var n := LeadingWhitespace(s[1..]);
      assert s[..n + 1] == [s[0]] + s[1..][..n];
    }
  }

  /** ... and it is the only count with that property. */
  lemma {:induction false} LeadingWhitespaceUnique(s: string, k: nat)
    requires k <= |s| && AllWhitespace(s[..k]) && (k < |s| ==> !IsWhitespace(s[k]))
    ensures LeadingWhitespace(s) == k
  {
    if k > 0 {
      assert s[0] == s[..k][0];
      assert s[1..][..k - 1] == s[..k][1..];
      assert k - 1 < |s[1..]| ==> s[1..][k - 1] == s[k];
      LeadingWhitespaceUnique(s[1..], k - 1);
    }
  }

  /** The trailing count is exactly the whitespace run at the end. */
  lemma {:induction false} TrailingWhitespaceSpec(s: string)
    ensures AllWhitespace(s[|s| - TrailingWhitespace(s)..])
    ensures TrailingWhitespace(s) < |s| ==> !IsWhitespace(s[|s| - TrailingWhitespace(s) - 1])
  {
    if |s| > 0 && IsWhitespace(s[|s| - 1]) {
      var t := s[..|s| - 1];
      TrailingWhitespaceSpec(t);
      var n := TrailingWhitespace(t);
      assert s[|s| - (n + 1)..] == t[|t| - n..] + [s[|s| - 1]];
      assert n < |t| ==> s[|s| - (n + 1) - 1] == t[|t| - n - 1];
    }
  }

  lemma {:induction false} TrailingWhitespaceUnique(s: string, k: nat)
    requires k <= |s| && AllWhitespace(s[|s| - k..]) && (k < |s| ==> !IsWhitespace(s[|s| - k - 1]))
    ensures TrailingWhitespace(s) == k
  {
    if k > 0 {
      var t := s[..|s| - 1];
      assert s[|s| - 1] == s[|s| - k..][k - 1];
      assert t[|t| - (k - 1)..] == s[|s| - k..][..k - 1];
      assert k - 1 < |t| ==> t[|t| - (k - 1) - 1] == s[|s| - k - 1];
      TrailingWhitespaceUnique(t, k - 1);
    }
  }

  /** A whitespace prefix adds its length to the leading count. */
  lemma LeadingAfterPadding(w: string, x: string)
    requires AllWhitespace(w)
    ensures LeadingWhitespace(w + x) == |w| + LeadingWhitespace(x)
  {
    LeadingWhitespaceSpec(x);
    var n := LeadingWhitespace(x);
    var u := w + x;
    assert u[..|w| + n] == w + x[..n];
    assert |w| + n < |u| ==> u[|w| + n] == x[n];
    LeadingWhitespaceUnique(u, |w| + n);
  }

  /** A whitespace suffix adds its length to the trailing count. */
  lemma TrailingBeforePadding(x: string, w: string)
    requires AllWhitespace(w)
    ensures TrailingWhitespace(x + w) == TrailingWhitespace(x) + |w|
  {
    TrailingWhitespaceSpec(x);
    var n := TrailingWhitespace(x);
    var u := x + w;
    assert u[|u| - (n + |w|)..] == x[|x| - n..] + w;
    assert n + |w| < |u| ==> u[|u| - (n + |w|) - 1] == x[|x| - n - 1];
    TrailingWhitespaceUnique(u, n + |w|);
  }

  /** Anything after a non-whitespace character leaves the leading count alone. */
  lemma LeadingBeforeSuffix(x: string, w: string)
    requires LeadingWhitespace(x) < |x|
    ensures LeadingWhitespace(x + w) == LeadingWhitespace(x)
  {
    LeadingWhitespaceSpec(x);
    var n := LeadingWhitespace(x);
    assert (x + w)[..n] == x[..n];
    assert (x + w)[n] == x[n];
    LeadingWhitespaceUnique(x + w, n);
  }

  lemma AllWhitespaceConcat(a: string, b: string)
    requires AllWhitespace(a) && AllWhitespace(b)
    ensures AllWhitespace(a + b)
  {
    forall i | 0 <= i < |a + b| ensures IsWhitespace((a + b)[i]) {
      if i >= |a| { assert (a + b)[i] == b[i - |a|]; }
    }
  }

  /** Trimming yields the infix between the two whitespace runs; it is empty
      exactly when the text is all whitespace, otherwise it starts and ends
      with a non-whitespace character. */
  lemma TrimSpec(s: string)
    ensures Trim(s) == [] <==> AllWhitespace(s)
    ensures Trim(s) != [] ==> !IsWhitespace(Trim(s)[0]) && !IsWhitespace(Trim(s)[|Trim(s)| - 1])
    ensures exists a, b :: 0 <= a <= b <= |s| && Trim(s) == s[a..b] && AllWhitespace(s[..a]) && AllWhitespace(s[b..])
  {
    var a := LeadingWhitespace(s);
    var t := s[a..];
    var m := TrailingWhitespace(t);
    var b := a + (|t| - m);
    LeadingWhitespaceSpec(s);
    TrailingWhitespaceSpec(t);
    assert Trim(s) == s[a..b];
    assert s[b..] == t[|t| - m..];
    if a < |s| {
      assert t[0] == s[a];
      assert m < |t|;
      assert Trim(s)[0] == s[a];
      assert Trim(s)[|Trim(s)| - 1] == t[|t| - m - 1];
      assert !AllWhitespace(s) by { assert !IsWhitespace(s[a]); }
    } else {
      assert s == s[..a];
    }
  }

  /** Surrounding whitespace never changes the trimmed text. */
  lemma TrimIgnoresPadding(w1: string, s: string, w2: string)
    requires AllWhitespace(w1) && AllWhitespace(w2)
    ensures Trim(w1 + s + w2) == Trim(s)
  {
    var u := w1 + s + w2;
    assert u == w1 + (s + w2);
    LeadingAfterPadding(w1, s + w2);
    assert TrimStart(u) == TrimStart(s + w2);
    LeadingWhitespaceSpec(s);
    if LeadingWhitespace(s) < |s| {
      LeadingBeforeSuffix(s, w2);
      assert TrimStart(s + w2) == TrimStart(s) + w2;
      TrailingBeforePadding(TrimStart(s), w2);
    } else {
      assert s == s[..LeadingWhitespace(s)];
      AllWhitespaceConcat(s, w2);
      assert (s + w2)[..|s + w2|] == s + w2;
      LeadingWhitespaceUnique(s + w2, |s + w2|);
    }
  }

  /** A text already without whitespace at its ends is its own trim. */
  lemma TrimOfTrimmed(s: string)
    requires |s| > 0 ==> !IsWhitespace(s[0]) && !IsWhitespace(s[|s| - 1])
    ensures Trim(s) == s
  {
  }

  /** Lower-casing keeps every character's whitespace status. */
  lemma ToLowerCharKeepsWhitespace(c: char)
    ensures IsWhitespace(ToLowerChar(c)) == IsWhitespace(c)
  {
  }

  /** Two texts whose characters are whitespace at the same positions have
      the same leading and trailing counts. */
  lemma {:induction false} SameWhitespaceCounts(s: string, t: string)
    requires |s| == |t| && forall i :: 0 <= i < |s| ==> IsWhitespace(s[i]) == IsWhitespace(t[i])
    ensures LeadingWhitespace(s) == LeadingWhitespace(t)
    ensures TrailingWhitespace(s) == TrailingWhitespace(t)
  {
    if |s| > 0 {
      assert forall i :: 0 <= i < |s| - 1 ==> s[1..][i] == s[i + 1] && t[1..][i] == t[i + 1];
      assert forall i :: 0 <= i < |s| - 1 ==> s[..|s| - 1][i] == s[i] && t[..|t| - 1][i] == t[i];
      SameWhitespaceCounts(s[1..], t[1..]);
      SameWhitespaceCounts(s[..|s| - 1], t[..|t| - 1]);
    }
  }

  /** Lower-casing moves no whitespace, so both counts are unchanged. */
  lemma ToLowerKeepsWhitespaceCounts(s: string)
    ensures LeadingWhitespace(ToLower(s)) == LeadingWhitespace(s)
    ensures TrailingWhitespace(ToLower(s)) == TrailingWhitespace(s)
  {
    var l := ToLower(s);
    forall i | 0 <= i < |s| ensures IsWhitespace(l[i]) == IsWhitespace(s[i]) {
      ToLowerCharKeepsWhitespace(s[i]);
    }
    SameWhitespaceCounts(l, s);
  }

  /** Trimming and lower-casing commute, so the normal form depends only on
      the lower-cased input. */
  lemma NormalizeIsTrimOfLower(s: string)
    ensures Normalize(s) == Trim(ToLower(s))
  {
    ToLowerKeepsWhitespaceCounts(s);
    var a := LeadingWhitespace(s);
    assert TrimStart(ToLower(s)) == ToLower(TrimStart(s));
    ToLowerKeepsWhitespaceCounts(TrimStart(s));
  }

  // ---------------------------------------------------------------------------
  // Properties of the answer check

  /** Equal lengths and a character-wise lower-casing give the lower-cased text. */
  lemma ToLowerIs(s: string, t: string)
    requires |s| == |t| && forall k :: 0 <= k < |s| ==> ToLowerChar(s[k]) == t[k]
    ensures ToLower(s) == t
  {
  }

  /** The correct texts have no whitespace at their ends, so their normal
      form is their lower-cased text. */
  lemma AnswerNormalForm(i: nat)
    requires i < |PUZZLE_LINES|
    ensures Normalize(PUZZLE_LINES[i].correct) == ToLower(PUZZLE_LINES[i].correct)
    ensures |Normalize(PUZZLE_LINES[i].correct)| == |PUZZLE_LINES[i].correct| > 0
  {
    var s := PUZZLE_LINES[i].correct;
    assert !IsWhitespace(s[0]) && !IsWhitespace(s[|s| - 1]) by {
      if i == 0 {} else if i == 1 {} else {}
    }
    TrimOfTrimmed(s);
  }

  /** The check in plain terms: the typed text, lower-cased and trimmed, is
      the lower-cased answer. */
  lemma CheckAnswerMeans(input: string, i: nat)
    requires i < |PUZZLE_LINES|
    ensures CheckAnswer(input, i) <==> Trim(ToLower(input)) == ToLower(PUZZLE_LINES[i].correct)
  {
    NormalizeIsTrimOfLower(input);
    AnswerNormalForm(i);
  }

  /** Typing the correct text of a line is accepted on that line. */
  lemma CorrectAnswerAccepted(i: nat)
    requires i < |PUZZLE_LINES|
    ensures CheckAnswer(PUZZLE_LINES[i].correct, i)
  {
  }

  /** Leading or trailing whitespace never changes the verdict. */
  lemma PaddingIgnored(w1: string, input: string, w2: string, i: nat)
    requires AllWhitespace(w1) && AllWhitespace(w2) && i < |PUZZLE_LINES|
    ensures CheckAnswer(w1 + input + w2, i) == CheckAnswer(input, i)
  {
    TrimIgnoresPadding(w1, input, w2);
  }

  /** Inputs that agree after lower-casing get the same verdict. */
  lemma CaseIgnored(s: string, t: string, i: nat)
    requires ToLower(s) == ToLower(t) && i < |PUZZLE_LINES|
    ensures CheckAnswer(s, i) == CheckAnswer(t, i)
  {
    NormalizeIsTrimOfLower(s);
    NormalizeIsTrimOfLower(t);
  }

  /** The empty input, and any input of whitespace only, is rejected on
      every line. */
  lemma BlankRejected(input: string, i: nat)
    requires AllWhitespace(input) && i < |PUZZLE_LINES|
    ensures !CheckAnswer(input, i)
  {
    TrimSpec(input);
    AnswerNormalForm(i);
  }

  /** A text that is whitespace followed by a core without whitespace at its
      ends is rejected for an answer whose lower-cased form differs from the
      lower-cased core. */
  lemma RejectedWhenCoreDiffers(input: string, k: nat, answer: string)
    requires k < |input| && AllWhitespace(input[..k])
    requires !IsWhitespace(input[k]) && !IsWhitespace(input[|input| - 1])
    requires |answer| > 0 && !IsWhitespace(answer[0]) && !IsWhitespace(answer[|answer| - 1])
    requires ToLower(input[k..]) != ToLower(answer)
    ensures Normalize(input) != Normalize(answer)
  {
    var core := input[k..];
    assert input == input[..k] + core + "";
    TrimIgnoresPadding(input[..k], core, "");
    assert core[0] == input[k] && core[|core| - 1] == input[|input| - 1];
    TrimOfTrimmed(core);
    TrimOfTrimmed(answer);
  }

  /** Line 1: the broken text has an 'e' where the answer has an 'a'. */
  lemma BrokenRejectedFirst()
    ensures !CheckAnswer(PUZZLE_LINES[0].broken, 0)
  {
    var b, c := PUZZLE_LINES[0].broken, PUZZLE_LINES[0].correct;
    assert ToLower(b[4..])[9] == 'e' != 'a' == ToLower(c)[9];
    RejectedWhenCoreDiffers(b, 4, c);
  }

  /** Line 2: the broken text misspells "RETURN" as "RETRUN". */
  lemma BrokenRejectedSecond()
    ensures !CheckAnswer(PUZZLE_LINES[1].broken, 1)
  {
    var b, c := PUZZLE_LINES[1].broken, PUZZLE_LINES[1].correct;
    assert ToLower(b[8..])[3] == 'r' != 'u' == ToLower(c)[3];
    RejectedWhenCoreDiffers(b, 8, c);
  }

  /** Line 3: the broken text is the answer without its final digit. */
  lemma BrokenRejectedThird()
    ensures !CheckAnswer(PUZZLE_LINES[2].broken, 2)
  {
    var b, c := PUZZLE_LINES[2].broken, PUZZLE_LINES[2].correct;
    assert |ToLower(b[4..])| == 24 != 25 == |ToLower(c)|;
    RejectedWhenCoreDiffers(b, 4, c);
  }

  /** Retyping the broken text of any line is rejected on that line. */
  lemma BrokenRejected(i: nat)
    requires i < |PUZZLE_LINES|
    ensures !CheckAnswer(PUZZLE_LINES[i].broken, i)
  {
    if i == 0 { BrokenRejectedFirst(); }
    else if i == 1 { BrokenRejectedSecond(); }
    else { BrokenRejectedThird(); }
  }

  /** "  Stored_Year" normalises to "stored_year". */
  lemma NormalizeLeadingSpaces()
    ensures Normalize("  Stored_Year") == "stored_year"
  {
    assert "  Stored_Year" == "  " + "Stored_Year" + "";
    TrimIgnoresPadding("  ", "Stored_Year", "");
    TrimOfTrimmed("Stored_Year");
    ToLowerIs("Stored_Year", "stored_year");
  }

  /** "STORED_YEAR " normalises to "stored_year". */
  lemma NormalizeTrailingSpace()
    ensures Normalize("STORED_YEAR ") == "stored_year"
  {
    assert "STORED_YEAR " == "" + "STORED_YEAR" + " ";
    TrimIgnoresPadding("", "STORED_YEAR", " ");
    TrimOfTrimmed("STORED_YEAR");
    ToLowerIs("STORED_YEAR", "stored_year");
  }

  // ---------------------------------------------------------------------------
  // The session record

  /** The puzzle session's fields as a value. */
  datatype Session = Session(state: PuzzleState, currentLine: nat, currentInput: string,
                             attemptsOnLine: nat, maxAttempts: nat, showHint: bool)

  /** A fresh session: unsolved, on the first line, nothing typed, no attempts,
      three attempts allowed per line and no hint. */
  const DEFAULT_SESSION: Session := Session(Unsolved, 0, "", 0, 3, false)

  /** The session invariant the terminal screen keeps: an unsolved session is
      on one of the three lines with attempts left; a solved one is past the
      last line; a failed one used up its attempts on a line; the hint shows
      exactly after a wrong attempt on the current line. */
  predicate ValidSession(s: Session) {
    && s.maxAttempts > 0
    && s.currentLine <= |PUZZLE_LINES|
    && (s.state == Unsolved ==> s.currentLine < |PUZZLE_LINES| && s.attemptsOnLine < s.maxAttempts)
    && (s.state == Solved <==> s.currentLine == |PUZZLE_LINES|)
    && (s.state == Solved ==> s.attemptsOnLine == 0)
    && (s.state == Failed ==> s.currentLine < |PUZZLE_LINES| && s.attemptsOnLine == s.maxAttempts)
    && s.showHint == (s.attemptsOnLine > 0)
  }

  lemma DefaultSessionValid()
    ensures ValidSession(DEFAULT_SESSION)
    ensures DEFAULT_SESSION.state == Unsolved && DEFAULT_SESSION.currentLine == 0
  {
  }

  /** The puzzle resource. It is created once, with the default session, and
      only the terminal screen changes it afterwards. */
  class TerminalPuzzle {
    var state: PuzzleState
    var currentLine: nat
    var currentInput: string
    var attemptsOnLine: nat
    var maxAttempts: nat
    var showHint: bool

    function Snapshot(): Session
      reads this
    {
      Session(state, currentLine, currentInput, attemptsOnLine, maxAttempts, showHint)
    }

    constructor Default()
      ensures Snapshot() == DEFAULT_SESSION
    {
      state := Unsolved;
      currentLine := 0;
      currentInput := "";
      attemptsOnLine := 0;
      maxAttempts := 3;
      showHint := false;
    }
  }
}
