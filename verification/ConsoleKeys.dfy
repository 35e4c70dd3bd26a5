/**
 What the user's keys come to in the line editor, one key and many at a time, whatever way the editor takes to
 get there.
 */
module ConsoleKeys {
  import opened Console

  const UP: string := ['\U{1b}', '[', 'A']
  const DOWN: string := ['\U{1b}', '[', 'B']

  /** As much of a line as fits beside its NUL. */
  function Cut(s: string, capacity: nat): string
    requires capacity > 0
  {
    if |s| <= capacity - 1 then s else s[..capacity - 1]
  }

  /** The editor waits for a key, no escape sequence begun. */
  predicate Waiting(e: Editor, capacity: nat, history: seq<string>) {
    Inv(e, capacity, history) && e.escape == Normal && !e.submitted
  }

  // ---- Inputs, byte by byte ----

  lemma KeysOne(e: Editor, capacity: nat, history: seq<string>, c: char)
    requires Inv(e, capacity, history) && !e.submitted
    ensures Keys(e, capacity, history, [c]) == Key(e, capacity, history, c).0
    ensures Echo(e, capacity, history, [c]) == Key(e, capacity, history, c).1
  {
    assert [c][1..] == [];
    var after := After(e, capacity, history, c);
    assert Keys(after, capacity, history, []) == after;
    assert Echo(after, capacity, history, []) == [];
  }

  lemma {:induction false} KeysConcat(e: Editor, capacity: nat, history: seq<string>, s: string, t: string)
    requires Inv(e, capacity, history)
    ensures Keys(e, capacity, history, s + t) == Keys(Keys(e, capacity, history, s), capacity, history, t)
    decreases |s|
  {
    hide Key, Inv;
    if s == [] {
      assert s + t == t;
    } else if !e.submitted {
      assert (s + t)[0] == s[0] && (s + t)[1..] == s[1..] + t;
      KeysConcat(After(e, capacity, history, s[0]), capacity, history, s[1..], t);
    }
  }

  lemma KeysThree(e: Editor, capacity: nat, history: seq<string>, a: char, b: char, c: char)
    requires Inv(e, capacity, history) && !e.submitted
    requires var one := Key(e, capacity, history, a).0;
      && Inv(one, capacity, history) && !one.submitted
      && var two := Key(one, capacity, history, b).0;
         Inv(two, capacity, history) && !two.submitted
    ensures Keys(e, capacity, history, [a, b, c]) ==
      Key(Key(Key(e, capacity, history, a).0, capacity, history, b).0, capacity, history, c).0
  {
    hide Key;
    assert [a, b, c] == [a] + [b] + [c];
    KeysConcat(e, capacity, history, [a] + [b], [c]);
    KeysConcat(e, capacity, history, [a], [b]);
    KeysOne(e, capacity, history, a);
    KeysOne(Key(e, capacity, history, a).0, capacity, history, b);
    KeysOne(Key(Key(e, capacity, history, a).0, capacity, history, b).0, capacity, history, c);
  }

  // ---- Characters, Backspace, Enter ----

  /** A printable character is added at the end if there is room; Backspace and Delete take the last one away;
      Enter submits the line; any other control character but ESC does nothing. */
  lemma OneByte(e: Editor, capacity: nat, history: seq<string>, c: char)
    requires Waiting(e, capacity, history) && c != '\U{1b}'
    ensures Keys(e, capacity, history, [c]) ==
      if ' ' <= c <= '~' then e.(buffer := Cut(e.buffer + [c], capacity))
      else if c == '\U{8}' || c == '\U{7f}' then
        e.(buffer := if e.buffer == [] then [] else e.buffer[..|e.buffer| - 1])
      else if c == '\r' || c == '\n' then e.(submitted := true)
      else e
    ensures c == '\r' || c == '\n' ==> Echo(e, capacity, history, [c]) == ['\r', '\n']
  {
    KeysOne(e, capacity, history, c);
    assert (e.buffer + [c])[..|e.buffer|] == e.buffer;
  }

  /** Typing adds what was typed, as far as there is room. */
  lemma {:induction false} Typing(e: Editor, capacity: nat, history: seq<string>, s: string)
    requires Waiting(e, capacity, history) && AllPrintable(s)
    ensures Keys(e, capacity, history, s) == e.(buffer := Cut(e.buffer + s, capacity))
    decreases |s|
  {
    hide Key;
    if s == [] {
      assert e.buffer + s == e.buffer;
    } else {
      var front, last := s[..|s| - 1], s[|s| - 1];
      Typing(e, capacity, history, front);
      KeysConcat(e, capacity, history, front, [last]);
      assert s == front + [last];
      OneByte(Keys(e, capacity, history, front), capacity, history, last);
      CutMore(e.buffer + front, last, capacity);
      assert e.buffer + s == e.buffer + front + [last];
    }
  }

  lemma CutMore(s: string, c: char, capacity: nat)
    requires capacity > 0
    ensures Cut(Cut(s, capacity) + [c], capacity) == Cut(s + [c], capacity)
  {
    if |s| >= capacity - 1 {
      assert (Cut(s, capacity) + [c])[..capacity - 1] == (s + [c])[..capacity - 1];
    }
  }

  /** A line that fits, typed at an empty prompt and ended with Enter, is the line submitted. */
  lemma TypedLineIsSubmitted(capacity: nat, history: seq<string>, s: string, enter: char)
    requires 1 <= capacity <= 80 && GoodHistory(history) && AllPrintable(s) && |s| < capacity
    requires enter == '\r' || enter == '\n'
    ensures Inv(FRESH, capacity, history)
    ensures Keys(FRESH, capacity, history, s + [enter]) == Editor(s, [], 0, Normal, true)
  {
    hide Key;
    Typing(FRESH, capacity, history, s);
    assert [] + s == s;
    KeysConcat(FRESH, capacity, history, s, [enter]);
    OneByte(FRESH.(buffer := s), capacity, history, enter);
  }

  /** Backspace or Delete after typing takes back the last character typed. */
  lemma ErasingTakesBack(e: Editor, capacity: nat, history: seq<string>, s: string, erase: char)
    requires Waiting(e, capacity, history) && AllPrintable(s) && s != [] && |e.buffer| + |s| < capacity
    requires erase == '\U{8}' || erase == '\U{7f}'
    ensures Keys(e, capacity, history, s + [erase]) == Keys(e, capacity, history, s[..|s| - 1])
  {
    hide Key;
    Typing(e, capacity, history, s);
    Typing(e, capacity, history, s[..|s| - 1]);
    KeysConcat(e, capacity, history, s, [erase]);
    OneByte(e.(buffer := e.buffer + s), capacity, history, erase);
    assert (e.buffer + s)[..|e.buffer + s| - 1] == e.buffer + s[..|s| - 1];
  }

  // ---- Escape sequences ----

  /** ESC [ and ESC O introduce the same keys; what neither an up nor a down arrow ends does nothing; and ESC
      before any other byte is as if it were not there. */
  lemma EscapeSequences(e: Editor, capacity: nat, history: seq<string>, c: char)
    requires Waiting(e, capacity, history)
    ensures Keys(e, capacity, history, ['\U{1b}', 'O', c]) == Keys(e, capacity, history, ['\U{1b}', '[', c])
    ensures c != 'A' && c != 'B' ==> Keys(e, capacity, history, ['\U{1b}', '[', c]) == e
    ensures c != '[' && c != 'O' ==>
      Keys(e, capacity, history, ['\U{1b}', c]) == Keys(e, capacity, history, [c])
  {
    hide Plain, Up, Down;
    ArrowBytes(e, capacity, history, '[', c);
    ArrowBytes(e, capacity, history, 'O', c);
    if c != '[' && c != 'O' {
      assert ['\U{1b}', c] == ['\U{1b}'] + [c];
      KeysConcat(e, capacity, history, ['\U{1b}'], [c]);
      EscBegins(e, capacity, history);
      KeysOne(e.(escape := Seen), capacity, history, c);
      KeysOne(e, capacity, history, c);
      assert e.(escape := Seen).(escape := Normal) == e;
    }
  }

  lemma EscBegins(e: Editor, capacity: nat, history: seq<string>)
    requires Waiting(e, capacity, history)
    ensures Keys(e, capacity, history, ['\U{1b}']) == e.(escape := Seen)
    ensures Key(e, capacity, history, '\U{1b}').0 == e.(escape := Seen)
  {
    KeysOne(e, capacity, history, '\U{1b}');
  }

  lemma ArrowBytes(e: Editor, capacity: nat, history: seq<string>, intro: char, c: char)
    requires Waiting(e, capacity, history) && (intro == '[' || intro == 'O')
    ensures Keys(e, capacity, history, ['\U{1b}', intro, c]) ==
      if c == 'A' then Up(e, capacity, history).0
      else if c == 'B' then Down(e, capacity, history).0
      else e
  {
    hide Plain, Up, Down;
    EscBegins(e, capacity, history);
    var inside := e.(escape := if intro == '[' then Csi else Ss3);
    assert Key(e.(escape := Seen), capacity, history, intro).0 == inside;
    KeysThree(e, capacity, history, '\U{1b}', intro, c);
    assert inside.(escape := Normal) == e;
  }

  // ---- The history ----

  /** The up arrow shows the next older line, saving the line being written if it leaves that; at the oldest
      line it does nothing. */
  lemma UpArrow(e: Editor, capacity: nat, history: seq<string>)
    requires Waiting(e, capacity, history)
    ensures Keys(e, capacity, history, UP) ==
      if e.offset == |history| then e
      else
        e.(offset := e.offset + 1, buffer := Cut(history[|history| - (e.offset + 1)], capacity),
           draft := if e.offset == 0 then e.buffer else e.draft)
  {
    ArrowBytes(e, capacity, history, '[', 'A');
  }

  /** The down arrow shows the next newer line, or after the newest the line that was being written; on that it
      does nothing. */
  lemma DownArrow(e: Editor, capacity: nat, history: seq<string>)
    requires Waiting(e, capacity, history)
    ensures Keys(e, capacity, history, DOWN) ==
      if e.offset == 0 then e
      else
        e.(offset := e.offset - 1,
           buffer := if e.offset == 1 then e.draft else Cut(history[|history| - (e.offset - 1)], capacity))
  {
    ArrowBytes(e, capacity, history, '[', 'B');
  }

  function Times(key: string, n: nat): string {
    if n == 0 then [] else Times(key, n - 1) + key
  }

  /** k times up from the line being written is the k-th newest line - or the oldest, if there are fewer. */
  lemma {:induction false} UpArrows(e: Editor, capacity: nat, history: seq<string>, k: nat)
    requires Waiting(e, capacity, history) && e.offset == 0
    ensures Keys(e, capacity, history, Times(UP, k)) ==
      var offset := if k <= |history| then k else |history|;
      if offset == 0 then e
      else e.(offset := offset, buffer := Cut(history[|history| - offset], capacity), draft := e.buffer)
  {
    hide Key;
    if k > 0 {
      UpArrows(e, capacity, history, k - 1);
      KeysConcat(e, capacity, history, Times(UP, k - 1), UP);
      UpArrow(Keys(e, capacity, history, Times(UP, k - 1)), capacity, history);
    }
  }

  /** And m times down from there is the (k - m)-th newest, or when m is k the line being written again. */
  lemma {:induction false} UpAndDown(e: Editor, capacity: nat, history: seq<string>, k: nat, m: nat)
    requires Waiting(e, capacity, history) && e.offset == 0 && m <= k <= |history|
    ensures Keys(e, capacity, history, Times(UP, k) + Times(DOWN, m)) ==
      e.(offset := k - m, draft := if k == 0 then e.draft else e.buffer,
         buffer := if m == k then e.buffer else Cut(history[|history| - (k - m)], capacity))
  {
    hide Key;
    if m == 0 {
      assert Times(UP, k) + Times(DOWN, 0) == Times(UP, k);
      UpArrows(e, capacity, history, k);
    } else {
      var before := Times(UP, k) + Times(DOWN, m - 1);
      assert Times(UP, k) + Times(DOWN, m) == before + DOWN;
      UpAndDown(e, capacity, history, k, m - 1);
      KeysConcat(e, capacity, history, before, DOWN);
      DownArrow(Keys(e, capacity, history, before), capacity, history);
    }
  }
}
