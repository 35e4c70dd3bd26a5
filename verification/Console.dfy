/**
 The line editor of console.c, one input byte at a time: what it does to the line, the saved draft and the
 place in the history, and what it sends to the terminal.
 */
module Console {

  const LINE_CAPACITY: nat := 80
  const HISTORY_DEPTH: nat := 8
  const ESC: char := '\U{1b}'
  const BACKSPACE: char := '\U{8}'
  const DELETE: char := '\U{7f}'

  datatype EscapeState = Normal | Seen | Csi | Ss3

  /** offset 0 is the line being written; offset k is the k-th newest line of the history. */
  datatype Editor = Editor(
    buffer: string,
    draft: string,
    offset: nat,
    escape: EscapeState,
    submitted: bool)

  const FRESH := Editor([], [], 0, Normal, false)

  predicate IsPrintable(c: char) {
    ' ' <= c <= '~'
  }

  predicate AllPrintable(s: string) {
    forall i :: 0 <= i < |s| ==> IsPrintable(s[i])
  }

  /** What copy_string keeps of a string. */
  function Truncate(s: string, capacity: nat): string
    requires capacity > 0
  {
    if |s| < capacity then s else s[..capacity - 1]
  }

  /** The k-th newest line of a history kept oldest first. */
  function Newest(history: seq<string>, k: nat): string
    requires 1 <= k <= |history|
  {
    history[|history| - k]
  }

  function Rubout(n: nat): string {
    if n == 0 then [] else [BACKSPACE, ' ', BACKSPACE] + Rubout(n - 1)
  }

  /** replace_line: rub the old line out, show as much of the new one as fits. */
  function Replace(e: Editor, capacity: nat, replacement: string): (Editor, string)
    requires capacity > 0
  {
    var line := Truncate(replacement, capacity);
    (e.(buffer := line), Rubout(|e.buffer|) + line)
  }

  function Up(e: Editor, capacity: nat, history: seq<string>): (Editor, string)
    requires capacity > 0
  {
    if history == [] then (e, [])
    else
      var e := if e.offset == 0 then e.(draft := e.buffer) else e;
      if e.offset < |history| then
        Replace(e.(offset := e.offset + 1), capacity, Newest(history, e.offset + 1))
      else (e, [])
  }

  function Down(e: Editor, capacity: nat, history: seq<string>): (Editor, string)
    requires capacity > 0 && e.offset <= |history|
  {
    if e.offset == 0 then (e, [])
    else
      var e := e.(offset := e.offset - 1);
      Replace(e, capacity, if e.offset == 0 then e.draft else Newest(history, e.offset))
  }

  /** A byte outside an escape sequence. */
  function Plain(e: Editor, capacity: nat, c: char): (Editor, string) {
    if c == '\r' || c == '\n' then (e.(submitted := true), ['\r', '\n'])
    else if c == ESC then (e.(escape := Seen), [])
    else if c == BACKSPACE || c == DELETE then
      if e.buffer == [] then (e, []) else (e.(buffer := e.buffer[..|e.buffer| - 1]), [BACKSPACE, ' ', BACKSPACE])
    else if IsPrintable(c) && |e.buffer| + 1 < capacity then (e.(buffer := e.buffer + [c]), [c])
    else (e, [])
  }

  /** One byte: the editor afterwards, and what was echoed. */
  function Key(e: Editor, capacity: nat, history: seq<string>, c: char): (Editor, string)
    requires capacity > 0 && e.offset <= |history|
  {
    match e.escape
    case Normal => Plain(e, capacity, c)
    case Seen =>
      if c == '[' then (e.(escape := Csi), [])
      else if c == 'O' then (e.(escape := Ss3), [])
      else Plain(e.(escape := Normal), capacity, c)
    case _ =>
      var e := e.(escape := Normal);
      if c == 'A' then Up(e, capacity, history)
      else if c == 'B' then Down(e, capacity, history)
      else (e, [])
  }

  // ---- The invariant ----

  predicate GoodHistory(history: seq<string>) {
    forall i :: 0 <= i < |history| ==> AllPrintable(history[i]) && |history[i]| < LINE_CAPACITY
  }

  /** The line and the draft are printable and leave room for their NUL. */
  predicate Inv(e: Editor, capacity: nat, history: seq<string>) {
    && 1 <= capacity <= LINE_CAPACITY && GoodHistory(history)
    && AllPrintable(e.buffer) && |e.buffer| < capacity
    && AllPrintable(e.draft) && |e.draft| < capacity
    && e.offset <= |history|
  }

  lemma PlainKeepsInv(e: Editor, capacity: nat, history: seq<string>, c: char)
    requires Inv(e, capacity, history)
    ensures Inv(Plain(e, capacity, c).0, capacity, history)
  {
  }

  lemma ReplaceKeepsInv(e: Editor, capacity: nat, history: seq<string>, replacement: string)
    requires Inv(e, capacity, history) && AllPrintable(replacement)
    ensures Inv(Replace(e, capacity, replacement).0, capacity, history)
  {
  }

  lemma UpKeepsInv(e: Editor, capacity: nat, history: seq<string>)
    requires Inv(e, capacity, history)
    ensures Inv(Up(e, capacity, history).0, capacity, history)
  {
    var saved := if e.offset == 0 then e.(draft := e.buffer) else e;
    if e.offset < |history| {
      ReplaceKeepsInv(saved.(offset := e.offset + 1), capacity, history, Newest(history, e.offset + 1));
    }
  }

  lemma DownKeepsInv(e: Editor, capacity: nat, history: seq<string>)
    requires Inv(e, capacity, history)
    ensures Inv(Down(e, capacity, history).0, capacity, history)
  {
    if e.offset > 0 {
      var down := e.(offset := e.offset - 1);
      ReplaceKeepsInv(down, capacity, history, if down.offset == 0 then e.draft else Newest(history, down.offset));
    }
  }

  lemma KeyKeepsInv(e: Editor, capacity: nat, history: seq<string>, c: char)
    requires Inv(e, capacity, history)
    ensures Inv(Key(e, capacity, history, c).0, capacity, history)
  {
    hide Plain, Up, Down;
    var normal := e.(escape := Normal);
    PlainKeepsInv(normal, capacity, history, c);
    UpKeepsInv(normal, capacity, history);
    DownKeepsInv(normal, capacity, history);
  }

  function After(e: Editor, capacity: nat, history: seq<string>, c: char): (after: Editor)
    requires Inv(e, capacity, history)
    ensures Inv(after, capacity, history)
  {
    KeyKeepsInv(e, capacity, history, c);
    Key(e, capacity, history, c).0
  }

  /** The editor after a whole input; nothing is read after Enter. */
  function Keys(e: Editor, capacity: nat, history: seq<string>, input: string): (last: Editor)
    requires Inv(e, capacity, history)
    ensures Inv(last, capacity, history)
    decreases |input|
  {
    if input == [] || e.submitted then e
    else Keys(After(e, capacity, history, input[0]), capacity, history, input[1..])
  }

  function Echo(e: Editor, capacity: nat, history: seq<string>, input: string): string
    requires Inv(e, capacity, history)
    decreases |input|
  {
    if input == [] || e.submitted then []
    else
      Key(e, capacity, history, input[0]).1 +
      Echo(After(e, capacity, history, input[0]), capacity, history, input[1..])
  }

  // ---- Drafts ----

  lemma KeyKeepsDraft(e: Editor, capacity: nat, history: seq<string>, c: char)
    requires Inv(e, capacity, history) && e.offset != 0
    ensures var after := Key(e, capacity, history, c).0;
      && after.draft == e.draft
      && (after.offset == 0 ==> after.buffer == e.draft)
  {
  }

  lemma LeavingSavesDraft(e: Editor, capacity: nat, history: seq<string>, c: char)
    requires Inv(e, capacity, history) && e.offset == 0 && Key(e, capacity, history, c).0.offset != 0
    ensures Key(e, capacity, history, c).0.draft == e.buffer
  {
  }

  /** All the way through the input, up to its last byte, some line of the history is being shown. */
  predicate Away(e: Editor, capacity: nat, history: seq<string>, input: string)
    requires Inv(e, capacity, history)
    decreases |input|
  {
    input != [] && !e.submitted ==>
      e.offset != 0 && Away(After(e, capacity, history, input[0]), capacity, history, input[1..])
  }

  lemma {:induction false} AwayKeepsDraft(e: Editor, capacity: nat, history: seq<string>, input: string)
    requires Inv(e, capacity, history) && Away(e, capacity, history, input) && e.offset != 0
    ensures var last := Keys(e, capacity, history, input);
      && last.draft == e.draft
      && (last.offset == 0 ==> last.buffer == e.draft)
    decreases |input|
  {
    if input != [] && !e.submitted {
      KeyKeepsDraft(e, capacity, history, input[0]);
      var after := After(e, capacity, history, input[0]);
      if after.offset != 0 {
        AwayKeepsDraft(after, capacity, history, input[1..]);
      }
    }
  }

  /** Leave the line being written for the history, move and edit there as you like, and come back: the line
      is again exactly what it was when it was left. */
  lemma DraftRestored(e: Editor, capacity: nat, history: seq<string>, c: char, input: string)
    requires Inv(e, capacity, history) && e.offset == 0
    requires var left := After(e, capacity, history, c);
      && left.offset != 0 && Away(left, capacity, history, input)
      && Keys(left, capacity, history, input).offset == 0
    ensures Keys(After(e, capacity, history, c), capacity, history, input).buffer == e.buffer
  {
    LeavingSavesDraft(e, capacity, history, c);
    AwayKeepsDraft(After(e, capacity, history, c), capacity, history, input);
  }

  // ---- The terminal ----

  /** One row of unbounded width; \b moves left, other characters overwrite. */
  datatype Screen = Screen(row: string, cursor: nat)

  function Put(screen: Screen, c: char): Screen {
    var Screen(row, cursor) := screen;
    if c == BACKSPACE then Screen(row, if cursor > 0 then cursor - 1 else 0)
    else if cursor < |row| then Screen(row[cursor := c], cursor + 1)
    else Screen(row + [c], |row| + 1)
  }

  function Draw(screen: Screen, text: string): Screen
    decreases |text|
  {
    if text == [] then screen else Draw(Put(screen, text[0]), text[1..])
  }

  lemma {:induction false} DrawConcat(screen: Screen, s: string, t: string)
    ensures Draw(screen, s + t) == Draw(Draw(screen, s), t)
    decreases |s|
  {
    if s == [] {
      assert s + t == t;
    } else {
      assert (s + t)[0] == s[0] && (s + t)[1..] == s[1..] + t;
      DrawConcat(Put(screen, s[0]), s[1..], t);
    }
  }

  /** Left of the cursor stand exactly the prompt and the line; right of it, nothing but blanks. */
  ghost predicate Shows(screen: Screen, prompt: string, line: string) {
    && screen.cursor == |prompt| + |line| <= |screen.row|
    && screen.row[..screen.cursor] == prompt + line
    && forall i :: screen.cursor <= i < |screen.row| ==> screen.row[i] == ' '
  }

  /** The prompt is still on the screen, and the cursor is not inside it. */
  predicate PromptSafe(screen: Screen, prompt: string) {
    |prompt| <= screen.cursor <= |screen.row| && screen.row[..|prompt|] == prompt
  }

  /** ... after every single character of the text. */
  predicate SafeThroughout(screen: Screen, prompt: string, text: string)
    decreases |text|
  {
    PromptSafe(screen, prompt) && (text != [] ==> SafeThroughout(Put(screen, text[0]), prompt, text[1..]))
  }

  lemma {:induction false} SafeConcat(screen: Screen, prompt: string, s: string, t: string)
    requires SafeThroughout(screen, prompt, s) && SafeThroughout(Draw(screen, s), prompt, t)
    ensures SafeThroughout(screen, prompt, s + t)
    decreases |s|
  {
    if s == [] {
      assert s + t == t;
    } else {
      assert (s + t)[0] == s[0] && (s + t)[1..] == s[1..] + t;
      SafeConcat(Put(screen, s[0]), prompt, s[1..], t);
    }
  }

  lemma ShowsIsSafe(screen: Screen, prompt: string, line: string)
    requires Shows(screen, prompt, line)
    ensures PromptSafe(screen, prompt)
  {
    assert screen.row[..|prompt|] == screen.row[..screen.cursor][..|prompt|];
  }

  lemma PutShows(screen: Screen, prompt: string, line: string, c: char)
    requires Shows(screen, prompt, line) && IsPrintable(c)
    ensures Shows(Put(screen, c), prompt, line + [c])
  {
    var after := Put(screen, c);
    assert after.row[..after.cursor] == screen.row[..screen.cursor] + [c];
  }

  lemma {:induction false} TextShows(screen: Screen, prompt: string, line: string, text: string)
    requires Shows(screen, prompt, line) && AllPrintable(text)
    ensures Shows(Draw(screen, text), prompt, line + text)
    ensures SafeThroughout(screen, prompt, text)
    decreases |text|
  {
    ShowsIsSafe(screen, prompt, line);
    if text == [] {
      assert line + text == line;
    } else {
      PutShows(screen, prompt, line, text[0]);
      TextShows(Put(screen, text[0]), prompt, line + [text[0]], text[1..]);
      assert line + [text[0]] + text[1..] == line + text;
    }
  }

  /** "\b \b" takes the last character off the screen. */
  lemma RuboutOneShows(screen: Screen, prompt: string, line: string)
    requires Shows(screen, prompt, line) && line != []
    ensures Shows(Draw(screen, [BACKSPACE, ' ', BACKSPACE]), prompt, line[..|line| - 1])
    ensures SafeThroughout(screen, prompt, [BACKSPACE, ' ', BACKSPACE])
  {
    var text := [BACKSPACE, ' ', BACKSPACE];
    var s1 := Put(screen, BACKSPACE);
    var s2 := Put(s1, ' ');
    var s3 := Put(s2, BACKSPACE);
    assert text[1..] == [' ', BACKSPACE] && text[1..][1..] == [BACKSPACE] && text[1..][1..][1..] == [];
    assert Draw(s2, [BACKSPACE]) == Draw(s3, []) == s3;
    assert Draw(s1, [' ', BACKSPACE]) == s3;
    var shorter := line[..|line| - 1];
    assert s3.row[..s3.cursor] == screen.row[..screen.cursor][..s3.cursor] == prompt + shorter;
    ShowsIsSafe(screen, prompt, line);
    ShowsIsSafe(s3, prompt, shorter);
    assert s1.row[..|prompt|] == s2.row[..|prompt|] == prompt;
    assert SafeThroughout(s3, prompt, []);
    assert SafeThroughout(s2, prompt, [BACKSPACE]);
    assert SafeThroughout(s1, prompt, [' ', BACKSPACE]);
  }

  lemma {:induction false} RuboutShows(screen: Screen, prompt: string, line: string, n: nat)
    requires Shows(screen, prompt, line) && n <= |line|
    ensures Shows(Draw(screen, Rubout(n)), prompt, line[..|line| - n])
    ensures SafeThroughout(screen, prompt, Rubout(n))
    decreases n
  {
    ShowsIsSafe(screen, prompt, line);
    if n == 0 {
      assert line[..|line|] == line;
    } else {
      var one := [BACKSPACE, ' ', BACKSPACE];
      RuboutOneShows(screen, prompt, line);
      RuboutShows(Draw(screen, one), prompt, line[..|line| - 1], n - 1);
      DrawConcat(screen, one, Rubout(n - 1));
      SafeConcat(screen, prompt, one, Rubout(n - 1));
      assert line[..|line| - 1][..|line| - n] == line[..|line| - n];
    }
  }

  lemma ReplaceShows(screen: Screen, prompt: string, e: Editor, capacity: nat, replacement: string)
    requires capacity > 0 && Shows(screen, prompt, e.buffer) && AllPrintable(replacement)
    ensures var (after, echo) := Replace(e, capacity, replacement);
      && Shows(Draw(screen, echo), prompt, after.buffer)
      && SafeThroughout(screen, prompt, echo)
  {
    var line := Truncate(replacement, capacity);
    RuboutShows(screen, prompt, e.buffer, |e.buffer|);
    TextShows(Draw(screen, Rubout(|e.buffer|)), prompt, [], line);
    assert [] + line == line;
    DrawConcat(screen, Rubout(|e.buffer|), line);
    SafeConcat(screen, prompt, Rubout(|e.buffer|), line);
  }

  /** The screen agrees with the editor after an echo, having kept the prompt all along. */
  ghost predicate Agrees(screen: Screen, prompt: string, step: (Editor, string)) {
    Shows(Draw(screen, step.1), prompt, step.0.buffer) && SafeThroughout(screen, prompt, step.1)
  }

  lemma UpShows(screen: Screen, prompt: string, e: Editor, capacity: nat, history: seq<string>)
    requires Inv(e, capacity, history) && Shows(screen, prompt, e.buffer)
    ensures Agrees(screen, prompt, Up(e, capacity, history))
  {
    hide Shows, SafeThroughout;
    ShowsIsSafe(screen, prompt, e.buffer);
    NoEcho(screen, prompt);
    if e.offset < |history| {
      var saved := if e.offset == 0 then e.(draft := e.buffer) else e;
      ReplaceShows(screen, prompt, saved.(offset := e.offset + 1), capacity, Newest(history, e.offset + 1));
    }
  }

  lemma DownShows(screen: Screen, prompt: string, e: Editor, capacity: nat, history: seq<string>)
    requires Inv(e, capacity, history) && Shows(screen, prompt, e.buffer)
    ensures Agrees(screen, prompt, Down(e, capacity, history))
  {
    hide Shows, SafeThroughout;
    ShowsIsSafe(screen, prompt, e.buffer);
    NoEcho(screen, prompt);
    if e.offset > 0 {
      var down := e.(offset := e.offset - 1);
      ReplaceShows(screen, prompt, down, capacity, if down.offset == 0 then e.draft else Newest(history, down.offset));
    }
  }

  lemma NoEcho(screen: Screen, prompt: string)
    requires PromptSafe(screen, prompt)
    ensures Draw(screen, []) == screen && SafeThroughout(screen, prompt, [])
  {
  }

  lemma PlainShows(screen: Screen, prompt: string, e: Editor, capacity: nat, history: seq<string>, c: char)
    requires Inv(e, capacity, history) && Shows(screen, prompt, e.buffer) && !Plain(e, capacity, c).0.submitted
    ensures Agrees(screen, prompt, Plain(e, capacity, c))
  {
    hide Shows, SafeThroughout;
    ShowsIsSafe(screen, prompt, e.buffer);
    NoEcho(screen, prompt);
    if IsPrintable(c) {
      TextShows(screen, prompt, e.buffer, [c]);
    }
    if e.buffer != [] {
      RuboutOneShows(screen, prompt, e.buffer);
    }
  }

  /** One byte keeps the screen in agreement with the line, and never lets the prompt be touched. */
  lemma KeyShows(screen: Screen, prompt: string, e: Editor, capacity: nat, history: seq<string>, c: char)
    requires Inv(e, capacity, history) && Shows(screen, prompt, e.buffer)
    requires !Key(e, capacity, history, c).0.submitted
    ensures Agrees(screen, prompt, Key(e, capacity, history, c))
  {
    hide Plain, Up, Down, Shows, SafeThroughout;
    ShowsIsSafe(screen, prompt, e.buffer);
    NoEcho(screen, prompt);
    var normal := e.(escape := Normal);
    if (e.escape.Normal? || e.escape.Seen?) && !Plain(normal, capacity, c).0.submitted {
      PlainShows(screen, prompt, normal, capacity, history, c);
    }
    UpShows(screen, prompt, normal, capacity, history);
    DownShows(screen, prompt, normal, capacity, history);
  }

  /** On a terminal that shows the prompt, after every input byte short of Enter the text left of the cursor
      is exactly the prompt and the edit buffer, and the prompt was never touched on the way. */
  lemma {:induction false} ScreenAgrees(screen: Screen, prompt: string, e: Editor, capacity: nat,
                                        history: seq<string>, input: string)
    requires Inv(e, capacity, history) && Shows(screen, prompt, e.buffer)
    requires !Keys(e, capacity, history, input).submitted
    ensures Shows(Draw(screen, Echo(e, capacity, history, input)), prompt, Keys(e, capacity, history, input).buffer)
    ensures SafeThroughout(screen, prompt, Echo(e, capacity, history, input))
    decreases |input|
  {
    ShowsIsSafe(screen, prompt, e.buffer);
    if input != [] {
      var after, echo := After(e, capacity, history, input[0]), Key(e, capacity, history, input[0]).1;
      KeyShows(screen, prompt, e, capacity, history, input[0]);
      var rest := Echo(after, capacity, history, input[1..]);
      ScreenAgrees(Draw(screen, echo), prompt, after, capacity, history, input[1..]);
      DrawConcat(screen, echo, rest);
      SafeConcat(screen, prompt, echo, rest);
    }
  }
}
