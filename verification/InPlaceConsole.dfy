/**
 console.c as it runs: character buffers with their NULs, a history of eight fixed rows, and the reading
 loop, each against the editor and the ring they implement.
 */
module InPlaceConsole {
  import opened CStrings
  import opened Console
  import opened ConsoleHistory

  method StringsEqual(left: array<char>, l: nat, right: array<char>, r: nat, ghost s: string, ghost t: string)
      returns (equal: bool)
    requires Holds(left[..], l, s) && Holds(right[..], r, t)
    ensures equal <==> s == t
  {
    var i := 0;
    HoldsCharacter(left[..], l, s, 0);
    HoldsCharacter(right[..], r, t, 0);
    while left[l + i] != NUL && right[r + i] != NUL
      invariant i <= |s| && i <= |t|
      invariant l + i < left.Length && r + i < right.Length
      invariant s[..i] == t[..i]
      invariant (left[l + i] == NUL <==> i == |s|) && (right[r + i] == NUL <==> i == |t|)
      invariant (i < |s| ==> left[l + i] == s[i]) && (i < |t| ==> right[r + i] == t[i])
      decreases |s| - i
    {
      if left[l + i] != right[r + i] {
        return false;
      }
      i := i + 1;
      HoldsCharacter(left[..], l, s, i);
      HoldsCharacter(right[..], r, t, i);
    }
    assert i == |s| ==> s[..i] == s;
    assert i == |t| ==> t[..i] == t;
    return left[l + i] == right[r + i];
  }

  method IsBlankLine(line: array<char>, ghost s: string) returns (blank: bool)
    requires Holds(line[..], 0, s)
    ensures blank <==> IsBlank(s)
  {
    var i := 0;
    HoldsCharacter(line[..], 0, s, 0);
    while line[i] != NUL
      invariant i <= |s| && i < line.Length
      invariant line[i] == NUL <==> i == |s|
      invariant i < |s| ==> line[i] == s[i]
      invariant forall j :: 0 <= j < i ==> s[j] == ' '
      decreases |s| - i
    {
      if line[i] != ' ' {
        return false;
      }
      i := i + 1;
      HoldsCharacter(line[..], 0, s, i);
    }
    return true;
  }

  /** Copies a string, or as much of it as leaves room for the NUL. */
  method CopyString(destination: array<char>, at: nat, capacity: nat, source: array<char>, from: nat, ghost s: string)
      returns (length: nat)
    requires destination != source && at + capacity <= destination.Length && Holds(source[..], from, s)
    modifies destination
    ensures capacity == 0 ==> length == 0 && destination[..] == old(destination[..])
    ensures capacity > 0 ==> length == |Truncate(s, capacity)| && Holds(destination[..], at, Truncate(s, capacity))
    ensures forall i :: 0 <= i < destination.Length && !(at <= i < at + capacity) ==>
              destination[i] == old(destination[i])
  {
    length := 0;
    if capacity == 0 {
      return;
    }
    HoldsCharacter(source[..], from, s, 0);
    while source[from + length] != NUL && length + 1 < capacity
      invariant length <= |s| && length < capacity && from + length < source.Length
      invariant source[from + length] == NUL <==> length == |s|
      invariant length < |s| ==> source[from + length] == s[length]
      invariant destination[at..at + length] == s[..length]
      invariant forall i :: 0 <= i < destination.Length && !(at <= i < at + capacity) ==>
                  destination[i] == old(destination[i])
      decreases |s| - length
    {
      destination[at + length] := source[from + length];
      length := length + 1;
      HoldsCharacter(source[..], from, s, length);
    }
    destination[at + length] := NUL;
    assert Truncate(s, capacity) == s[..length];
    assert destination[..][at..at + length] == s[..length];
    Held(destination[..], at, s[..length]);
  }

  /** Keeps a line for later: its first `length` characters, as far as there is room. */
  method SaveLine(destination: array<char>, capacity: nat, source: array<char>, length: nat, ghost s: string)
    requires destination != source && capacity <= destination.Length && Holds(source[..], 0, s) && length == |s|
    modifies destination
    ensures capacity > 0 ==> Holds(destination[..], 0, Truncate(s, capacity))
  {
    if capacity == 0 {
      return;
    }
    var copied := 0;
    while copied < length && copied + 1 < capacity
      invariant copied <= length && copied < capacity
      invariant destination[..copied] == s[..copied]
    {
      HoldsCharacter(source[..], 0, s, copied);
      destination[copied] := source[copied];
      copied := copied + 1;
    }
    destination[copied] := NUL;
    assert Truncate(s, capacity) == s[..copied];
    assert destination[..][0..copied] == s[..copied];
    Held(destination[..], 0, s[..copied]);
  }

  /** The variables of console_readline stand for an editor state. */
  ghost predicate Represents(buffer: seq<char>, draft: seq<char>, capacity: nat, length: nat, offset: nat,
                             escape: EscapeState, e: Editor) {
    && capacity <= |buffer| && |draft| == LINE_CAPACITY
    && Holds(buffer, 0, e.buffer) && length == |e.buffer|
    && Holds(draft, 0, e.draft)
    && offset == e.offset && escape == e.escape
  }

  class LineConsole {
    const history: array<char>
    var historyCount: nat
    var historyNext: nat
    ghost var rows: seq<string>

    ghost function State(): Ring
      reads this
    {
      Ring(rows, historyCount, historyNext)
    }

    ghost predicate Valid()
      reads this, history
    {
      && history.Length == HISTORY_DEPTH * LINE_CAPACITY
      && IsRing(State())
      && forall i :: 0 <= i < HISTORY_DEPTH ==>
           |rows[i]| < LINE_CAPACITY && Holds(history[..], LINE_CAPACITY * i, rows[i])
    }

    constructor ()
      ensures Valid() && historyCount == 0
    {
      history := new char[HISTORY_DEPTH * LINE_CAPACITY](_ => NUL);
      historyCount, historyNext := 0, 0;
      rows := seq(HISTORY_DEPTH, _ => []);
    }

    method HistoryEntry(offset: nat) returns (row: nat)
      requires Valid() && offset <= HISTORY_DEPTH
      ensures Holds(history[..], row, Entry(State(), offset))
    {
      hide Holds;
      var index := (historyNext + HISTORY_DEPTH - offset) % HISTORY_DEPTH;
      row := LINE_CAPACITY * index;
    }

    method HistoryAdd(line: array<char>, ghost s: string)
      requires Valid() && line != history && Holds(line[..], 0, s)
      modifies this, history
      ensures Valid() && State() == Add(old(State()), s)
    {
      hide Holds, IsBlank;
      var blank := IsBlankLine(line, s);
      if blank {
        return;
      }
      if historyCount != 0 {
        var newest := HistoryEntry(1);
        var equal := StringsEqual(line, 0, history, newest, s, Entry(State(), 1));
        if equal {
          return;
        }
      }
      WriteRow(line, s);
      historyNext := (historyNext + 1) % HISTORY_DEPTH;
      if historyCount < HISTORY_DEPTH {
        historyCount := historyCount + 1;
      }
    }

    /** Overwrites the oldest row, and no other. */
    method WriteRow(line: array<char>, ghost s: string)
      requires Valid() && line != history && Holds(line[..], 0, s)
      modifies history, `rows
      ensures Valid() && rows == old(rows)[historyNext := Truncate(s, LINE_CAPACITY)]
    {
      hide Holds;
      ghost var before := history[..];
      ghost var kept := Truncate(s, LINE_CAPACITY);
      var _ := CopyString(history, LINE_CAPACITY * historyNext, LINE_CAPACITY, line, 0, s);
      forall i | 0 <= i < HISTORY_DEPTH && i != historyNext
        ensures Holds(history[..], LINE_CAPACITY * i, rows[i])
      {
        HoldsStays(before, history[..], LINE_CAPACITY * i, rows[i]);
      }
      rows := rows[historyNext := kept];
    }

    /** replace_line: rubs the old line out character by character and shows the new one. */
    method ReplaceLine(buffer: array<char>, capacity: nat, length: nat, source: array<char>, from: nat, ghost s: string)
        returns (newLength: nat, echo: string)
      requires buffer != source && 0 < capacity <= buffer.Length && Holds(source[..], from, s)
      modifies buffer
      ensures Holds(buffer[..], 0, Truncate(s, capacity)) && newLength == |Truncate(s, capacity)|
      ensures echo == Rubout(length) + Truncate(s, capacity)
    {
      echo := [];
      var left: nat := length;
      while left != 0
        invariant left <= length
        invariant echo + Rubout(left) == Rubout(length)
        invariant Holds(source[..], from, s)
        decreases left
      {
        echo := echo + [BACKSPACE, ' ', BACKSPACE];
        left := left - 1;
      }
      newLength := CopyString(buffer, 0, capacity, source, from, s);
      ghost var line := Truncate(s, capacity);
      var index := 0;
      while index < newLength
        invariant index <= newLength
        invariant Holds(buffer[..], 0, line)
        invariant echo == Rubout(length) + line[..index]
      {
        HoldsCharacter(buffer[..], 0, line, index);
        echo := echo + [buffer[index]];
        index := index + 1;
      }
      assert line[..index] == line;
    }

    method HandleUp(buffer: array<char>, draft: array<char>, capacity: nat, length: nat, offset: nat, ghost e: Editor)
        returns (newLength: nat, newOffset: nat, echo: string)
      requires Valid() && buffer != history && draft != history && buffer != draft && historyCount != 0
      requires Inv(e, capacity, Recents(State()))
      requires Represents(buffer[..], draft[..], capacity, length, offset, Normal, e)
      modifies buffer, draft
      ensures Valid()
      ensures var (after, sent) := Up(e, capacity, Recents(State()));
        Represents(buffer[..], draft[..], capacity, newLength, newOffset, Normal, after) && echo == sent
    {
      hide Holds, Entry, Recents, GoodHistory;
      newLength, newOffset, echo := length, offset, [];
      if offset == 0 {
        SaveLine(draft, LINE_CAPACITY, buffer, length, e.buffer);
      }
      if offset < historyCount {
        newOffset := offset + 1;
        EntryIsNewest(State(), newOffset);
        var row := HistoryEntry(newOffset);
        newLength, echo := ReplaceLine(buffer, capacity, length, history, row, Entry(State(), newOffset));
      }
    }

    method HandleDown(buffer: array<char>, draft: array<char>, capacity: nat, length: nat, offset: nat, ghost e: Editor)
        returns (newLength: nat, newOffset: nat, echo: string)
      requires Valid() && buffer != history && draft != history && buffer != draft && offset != 0
      requires Inv(e, capacity, Recents(State()))
      requires Represents(buffer[..], draft[..], capacity, length, offset, Normal, e)
      modifies buffer
      ensures Valid()
      ensures var (after, sent) := Down(e, capacity, Recents(State()));
        Represents(buffer[..], draft[..], capacity, newLength, newOffset, Normal, after) && echo == sent
    {
      hide Holds, Entry, Recents, GoodHistory;
      newOffset := offset - 1;
      if newOffset == 0 {
        newLength, echo := ReplaceLine(buffer, capacity, length, draft, 0, e.draft);
      } else {
        EntryIsNewest(State(), newOffset);
        var row := HistoryEntry(newOffset);
        newLength, echo := ReplaceLine(buffer, capacity, length, history, row, Entry(State(), newOffset));
      }
    }

    /** A byte outside an escape sequence: Enter, ESC, Backspace or Delete, or a character to insert. */
    method HandlePlain(buffer: array<char>, capacity: nat, c: char, length: nat, ghost e: Editor)
        returns (newLength: nat, newEscape: EscapeState, echo: string, submitted: bool)
      requires AllPrintable(e.buffer) && |e.buffer| < capacity <= buffer.Length && e.escape == Normal && !e.submitted
      requires Holds(buffer[..], 0, e.buffer) && length == |e.buffer|
      modifies buffer
      ensures var (after, sent) := Plain(e, capacity, c);
        && Holds(buffer[..], 0, after.buffer) && newLength == |after.buffer|
        && newEscape == after.escape && echo == sent && submitted == after.submitted
        && after == e.(buffer := after.buffer, escape := after.escape, submitted := after.submitted)
    {
      ghost var before := buffer[..];
      newLength, newEscape, echo, submitted := length, Normal, [], false;
      if c == '\r' || c == '\n' {
        echo, submitted := ['\r', '\n'], true;
        return;
      }
      if c == ESC {
        newEscape := Seen;
        return;
      }
      if c == BACKSPACE || c == DELETE {
        if length > 0 {
          newLength := length - 1;
          buffer[newLength] := NUL;
          HoldsCharacter(before, 0, e.buffer, newLength);
          assert buffer[..][0..newLength] == before[0..|e.buffer|][..newLength];
          Held(buffer[..], 0, e.buffer[..newLength]);
          echo := [BACKSPACE, ' ', BACKSPACE];
        }
        return;
      }
      if IsPrintable(c) && length + 1 < capacity {
        buffer[length] := c;
        newLength := length + 1;
        buffer[newLength] := NUL;
        assert buffer[..][0..newLength] == before[0..|e.buffer|] + [c];
        Held(buffer[..], 0, e.buffer + [c]);
        echo := [c];
      }
    }

    /** One byte, in the source's variables; `escape` says which part of an escape sequence came before. */
    method HandleKey(buffer: array<char>, draft: array<char>, capacity: nat, c: char,
                     length: nat, offset: nat, escape: EscapeState, ghost e: Editor)
        returns (newLength: nat, newOffset: nat, newEscape: EscapeState, echo: string, submitted: bool)
      requires Valid() && buffer != history && draft != history && buffer != draft
      requires Inv(e, capacity, Recents(State())) && !e.submitted
      requires Represents(buffer[..], draft[..], capacity, length, offset, escape, e)
      modifies buffer, draft
      ensures Valid() && State() == old(State())
      ensures var (after, sent) := Key(e, capacity, Recents(State()), c);
        && Represents(buffer[..], draft[..], capacity, newLength, newOffset, newEscape, after)
        && echo == sent && submitted == after.submitted
    {
      hide Holds, Entry, Recents, GoodHistory;
      newLength, newOffset, newEscape, echo, submitted := length, offset, escape, [], false;
      if escape == Seen {
        newEscape := Normal;
        if c == '[' {
          newEscape := Csi;
          return;
        }
        if c == 'O' {
          newEscape := Ss3;
          return;
        }
      } else if escape == Csi || escape == Ss3 {
        newEscape := Normal;
        if c == 'A' && historyCount != 0 {
          newLength, newOffset, echo := HandleUp(buffer, draft, capacity, length, offset, e.(escape := Normal));
        } else if c == 'B' && offset != 0 {
          newLength, newOffset, echo := HandleDown(buffer, draft, capacity, length, offset, e.(escape := Normal));
        }
        return;
      }
      newLength, newEscape, echo, submitted := HandlePlain(buffer, capacity, c, length, e.(escape := Normal));
    }

    /** console_readline over the bytes that arrive, up to Enter; `finished` says whether Enter was among
        them, and if it was the line goes to the history. */
    method Readline(buffer: array<char>, capacity: nat, input: seq<char>)
        returns (length: nat, echo: string, finished: bool)
      requires Valid() && buffer != history && capacity <= buffer.Length
      requires GoodHistory(Recents(State()))
      modifies this, history, buffer
      ensures Valid() && GoodHistory(Recents(State()))
      ensures capacity == 0 ==> length == 0 && echo == [] && State() == old(State())
      ensures capacity > 0 ==>
        var limit := if capacity > LINE_CAPACITY then LINE_CAPACITY else capacity;
        var history := old(Recents(State()));
        var last := Keys(FRESH, limit, history, input);
        && Holds(buffer[..], 0, last.buffer) && length == |last.buffer|
        && finished == last.submitted && echo == Echo(FRESH, limit, history, input)
        && Recents(State()) == if finished then Remember(history, last.buffer) else history
    {
      hide Holds, Entry, Recents, GoodHistory, Key, Add, Remember;
      length, echo, finished := 0, [], false;
      if capacity == 0 {
        return;
      }
      var limit := if capacity > LINE_CAPACITY then LINE_CAPACITY else capacity;
      ghost var remembered := Recents(State());
      var draft := new char[LINE_CAPACITY](_ => NUL);
      var offset := 0;
      var escape := Normal;
      buffer[0] := NUL;
      draft[0] := NUL;
      EmptyString(buffer[..]);
      EmptyString(draft[..]);
      ghost var e := FRESH;
      var read := 0;
      while read < |input| && !finished
        invariant 0 <= read <= |input|
        invariant Valid() && State() == old(State())
        invariant Inv(e, limit, remembered) && Represents(buffer[..], draft[..], limit, length, offset, escape, e)
        invariant finished == e.submitted
        invariant Keys(FRESH, limit, remembered, input) == Keys(e, limit, remembered, input[read..])
        invariant Echo(FRESH, limit, remembered, input) == echo + Echo(e, limit, remembered, input[read..])
      {
        assert input[read..][1..] == input[read + 1..];
        var sent;
        length, offset, escape, sent, finished :=
          HandleKey(buffer, draft, limit, input[read], length, offset, escape, e);
        e := After(e, limit, remembered, input[read]);
        echo := echo + sent;
        read := read + 1;
      }
      assert finished || input[read..] == [];
      if finished {
        AddRemembers(State(), e.buffer);
        RememberKeepsGood(remembered, e.buffer);
        HistoryAdd(buffer, e.buffer);
      }
    }
  }

  lemma EmptyString(buffer: seq<char>)
    requires |buffer| > 0 && buffer[0] == NUL
    ensures Holds(buffer, 0, [])
  {
  }
}
