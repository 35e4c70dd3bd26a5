/**
 parse_arguments of the shell: a pure tokenizer that reads a line one character at a time, and the in-place
 one, which writes the arguments over the line it is still reading.
 */
module Tokenizer {
  import opened CStrings

  const MAX_ARGUMENTS: nat := 8
  const NULL_POINTER: int := -1

  datatype ParseResult =
    | ParseOk
    | TooManyArguments
    | UnterminatedSingleQuote
    | UnterminatedDoubleQuote
    | TrailingBackslash

  /** NUL stands for no quote, as in the source. */
  datatype Mode =
    | Between
    | InWord(quote: char)
    | Escaped(quote: char)

  datatype Lexer = Lexer(done: seq<string>, mode: Mode, current: string, overflow: bool)

  predicate IsQuote(c: char) {
    c == '\'' || c == '"'
  }

  // ---- The pure tokenizer ----

  function WordStep(done: seq<string>, quote: char, current: string, c: char): Lexer {
    if c == '\\' then Lexer(done, Escaped(quote), current, false)
    else if quote != NUL then
      if c == quote then Lexer(done, InWord(NUL), current, false)
      else Lexer(done, InWord(quote), current + [c], false)
    else if IsQuote(c) then Lexer(done, InWord(c), current, false)
    else if c == ' ' then Lexer(done + [current], Between, [], false)
    else Lexer(done, InWord(NUL), current + [c], false)
  }

  function Next(lexer: Lexer, c: char): Lexer {
    if lexer.overflow then lexer
    else
      match lexer.mode
      case Between =>
        if c == ' ' then lexer
        else if |lexer.done| == MAX_ARGUMENTS then lexer.(overflow := true)
        else WordStep(lexer.done, NUL, [], c)
      case InWord(quote) => WordStep(lexer.done, quote, lexer.current, c)
      case Escaped(quote) => Lexer(lexer.done, InWord(quote), lexer.current + [c], false)
  }

  function Scan(text: string): Lexer {
    if text == [] then Lexer([], Between, [], false)
    else Next(Scan(text[..|text| - 1]), text[|text| - 1])
  }

  /** The verdict on a line that ends with this quote open. */
  function Verdict(quote: char): ParseResult {
    if quote == '\'' then UnterminatedSingleQuote
    else if quote == '"' then UnterminatedDoubleQuote
    else ParseOk
  }

  function Finish(lexer: Lexer): (ParseResult, seq<string>) {
    if lexer.overflow then (TooManyArguments, lexer.done)
    else
      match lexer.mode
      case Between => (ParseOk, lexer.done)
      case InWord(quote) =>
        (Verdict(quote), lexer.done + [lexer.current])
      case Escaped(_) => (TrailingBackslash, lexer.done + [lexer.current])
  }

  /** The verdict on a line and the arguments it leaves behind - on an error, those up to the error. */
  function Tokenize(text: string): (ParseResult, seq<string>) {
    Finish(Scan(text))
  }

  lemma ScanNext(text: string, r: nat)
    requires r < |text|
    ensures Scan(text[..r + 1]) == Next(Scan(text[..r]), text[r])
  {
    assert text[..r + 1][..r] == text[..r];
  }

  /** Once there are too many arguments, the rest of the line does not matter. */
  lemma {:induction false} OverflowIsFinal(text: string, r: nat)
    requires r <= |text| && Scan(text[..r]).overflow
    ensures Scan(text) == Scan(text[..r])
    decreases |text| - r
  {
    if r == |text| {
      assert text[..r] == text;
    } else {
      ScanNext(text, r);
      OverflowIsFinal(text, r + 1);
    }
  }

  ghost predicate NoNul(lexer: Lexer) {
    (forall i :: 0 <= i < |lexer.done| ==> NUL !in lexer.done[i]) && NUL !in lexer.current
  }

  lemma {:induction false} ScanNoNul(text: string)
    requires NUL !in text
    ensures NoNul(Scan(text)) && |Scan(text).done| <= MAX_ARGUMENTS
    ensures Scan(text).mode != Between ==> |Scan(text).done| < MAX_ARGUMENTS
    ensures Scan(text).overflow ==> Scan(text).mode == Between
  {
    if text != [] {
      ScanNoNul(text[..|text| - 1]);
    }
  }

  // ---- Arguments in memory ----

  /** The strings one after another, each with its NUL. */
  function Packed(strings: seq<string>): string {
    if strings == [] then [] else Packed(strings[..|strings| - 1]) + strings[|strings| - 1] + [NUL]
  }

  lemma PackedAppend(strings: seq<string>, s: string)
    ensures Packed(strings + [s]) == Packed(strings) + s + [NUL]
  {
    assert (strings + [s])[..|strings|] == strings;
  }

  /** Where the k-th string starts. */
  function Offset(strings: seq<string>, k: nat): nat
    requires k <= |strings|
  {
    |Packed(strings[..k])|
  }

  lemma {:induction false} PackedString(buffer: seq<char>, strings: seq<string>, k: nat)
    requires k < |strings| && NUL !in strings[k]
    requires |Packed(strings)| <= |buffer| && buffer[..|Packed(strings)|] == Packed(strings)
    ensures Offset(strings, k) + |strings[k]| < |buffer|
    ensures StringAt(buffer, Offset(strings, k)) == strings[k]
  {
    var last := |strings| - 1;
    var front := strings[..last];
    assert strings == front + [strings[last]];
    PackedAppend(front, strings[last]);
    if k == last {
      var start := |Packed(front)|;
      assert buffer[start..start + |strings[k]|] == strings[k] by {
        assert Packed(strings)[start..start + |strings[k]|] == strings[k];
      }
      assert buffer[start + |strings[k]|] == Packed(strings)[start + |strings[k]|];
      StringAtIs(buffer, start, strings[k]);
    } else {
      assert front[..k] == strings[..k];
      assert buffer[..|Packed(front)|] == Packed(strings)[..|Packed(front)|] == Packed(front);
      PackedString(buffer, front, k);
    }
  }

  /** Each argument starts after the NUL of the one before. */
  lemma OffsetsIncrease(strings: seq<string>, k: nat)
    requires k < |strings|
    ensures Offset(strings, k + 1) == Offset(strings, k) + |strings[k]| + 1
  {
    assert strings[..k + 1] == strings[..k] + [strings[k]];
    PackedAppend(strings[..k], strings[k]);
  }

  // ---- The tokenizer in place ----

  /** What the buffer holds while a word is being read: finished arguments, the word so far, then whatever,
      and from the read cursor on the line as it was. */
  ghost predicate Written(line: seq<char>, original: seq<char>, read: nat, write: nat, done: seq<string>, current: string) {
    && |line| == |original| && write <= read <= |line|
    && line[..write] == Packed(done) + current
    && line[read..] == original[read..]
  }

  /** Copying one character down to the write cursor; no unread character is lost. */
  lemma WriteCharacter(line: seq<char>, original: seq<char>, read: nat, write: nat,
                       done: seq<string>, current: string, c: char)
    requires Written(line, original, read, write, done, current) && write < read
    ensures Written(line[write := c], original, read, write + 1, done, current + [c])
  {
    assert line[write := c][..write + 1] == line[..write] + [c];
    assert line[write := c][read..] == line[read..];
  }

  lemma ReadOn(line: seq<char>, original: seq<char>, read: nat, write: nat, done: seq<string>, current: string)
    requires Written(line, original, read, write, done, current) && read < |line|
    ensures Written(line, original, read + 1, write, done, current) && line[read] == original[read]
  {
    assert line[read..][0] == original[read..][0];
    assert line[read + 1..] == line[read..][1..] == original[read..][1..];
  }

  lemma CloseWord(line: seq<char>, original: seq<char>, read: nat, write: nat,
                  done: seq<string>, current: string, next: nat)
    requires Written(line, original, read, write, done, current) && read < next <= |line|
    ensures Written(line[write := NUL], original, next, write + 1, done + [current], [])
    ensures write + 1 == |Packed(done + [current])|
  {
    var after := line[write := NUL];
    assert after[..write + 1] == line[..write] + [NUL];
    PackedAppend(done, current);
    assert after[next..] == line[read..][next - read..] == original[next..];
  }

  /** The whole outcome of parse_arguments: the verdict and the arguments are those of the pure tokenizer
      on the line as it was, every pointer is at its argument, and the pointers end in NULL. */
  ghost predicate Parsed(original: seq<char>, line: seq<char>, arguments: seq<int>, count: nat, result: ParseResult) {
    var (verdict, strings) := Tokenize(StringAt(original, 0));
    && result == verdict && count == |strings| <= MAX_ARGUMENTS
    && |line| == |original| && |arguments| == MAX_ARGUMENTS + 1
    && arguments[count] == NULL_POINTER
    && (forall k :: 0 <= k < count ==>
          && 0 <= arguments[k] < |line|
          && arguments[k] == Offset(strings, k)
          && Holds(line, arguments[k], strings[k]))
    && (forall i :: |StringAt(original, 0)| < i < |line| ==> line[i] == original[i])
  }

  /** On any line the argument pointers are strictly increasing, each past the NUL of the one before. */
  lemma PointersIncrease(original: seq<char>, line: seq<char>, arguments: seq<int>, count: nat,
                         result: ParseResult, k: nat)
    requires Parsed(original, line, arguments, count, result) && k + 1 < count
    ensures 0 <= arguments[k] < |line| && arguments[k] < arguments[k + 1]
    ensures arguments[k + 1] == arguments[k] + |StringAt(line, arguments[k])| + 1
  {
    hide StringAt, Tokenize, Packed;
    OffsetsIncrease(Tokenize(StringAt(original, 0)).1, k);
  }

  lemma Conclude(original: seq<char>, line: seq<char>, arguments: seq<int>, strings: seq<string>, read: nat)
    requires NUL !in StringAt(original, 0) && |StringAt(original, 0)| < |original|
    requires Tokenize(StringAt(original, 0)).1 == strings
    requires Written(line, original, read, |Packed(strings)|, strings, [])
    requires read <= |StringAt(original, 0)| + 1
    requires |arguments| == MAX_ARGUMENTS + 1 && |strings| <= MAX_ARGUMENTS && arguments[|strings|] == NULL_POINTER
    requires forall k :: 0 <= k < |strings| ==> arguments[k] == Offset(strings, k)
    ensures Parsed(original, line, arguments, |strings|, Tokenize(StringAt(original, 0)).0)
  {
    ScanNoNul(StringAt(original, 0));
    forall k | 0 <= k < |strings|
      ensures 0 <= arguments[k] < |line| && Holds(line, arguments[k], strings[k])
    {
      PackedString(line, strings, k);
    }
    forall i | |StringAt(original, 0)| < i < |line|
      ensures line[i] == original[i]
    {
      assert line[read..][i - read] == original[read..][i - read];
    }
  }

  /** Reading a word, with the given quote open: or about to start one, with its first character next. */
  ghost predicate AtWord(text: string, read: nat, done: seq<string>, quote: char, current: string) {
    && read <= |text|
    && (Scan(text[..read]) == Lexer(done, InWord(quote), current, false)
        || (Scan(text[..read]) == Lexer(done, Between, [], false) && quote == NUL && current == [] &&
            read < |text| && text[read] != ' ' && |done| < MAX_ARGUMENTS))
  }

  lemma StepWord(text: string, read: nat, done: seq<string>, quote: char, current: string)
    requires AtWord(text, read, done, quote, current) && read < |text|
    ensures var next := WordStep(done, quote, current, text[read]);
      && Scan(text[..read + 1]) == next
      && (next.mode.InWord? ==> AtWord(text, read + 1, done, next.mode.quote, next.current))
  {
    ScanNext(text, read);
  }

  lemma StepEscape(text: string, read: nat, done: seq<string>, quote: char, current: string)
    requires read < |text| && Scan(text[..read]) == Lexer(done, Escaped(quote), current, false)
    ensures AtWord(text, read + 1, done, quote, current + [text[read]])
  {
    ScanNext(text, read);
  }

  lemma EndInWord(text: string, done: seq<string>, quote: char, current: string)
    requires AtWord(text, |text|, done, quote, current)
    ensures Tokenize(text) == (Verdict(quote), done + [current])
  {
    assert text[..|text|] == text;
  }

  lemma EndAfterBackslash(text: string, done: seq<string>, quote: char, current: string)
    requires Scan(text[..|text|]) == Lexer(done, Escaped(quote), current, false)
    ensures Tokenize(text) == (TrailingBackslash, done + [current])
  {
    assert text[..|text|] == text;
  }

  /** The cursor is on the line's NUL exactly when the text is used up. */
  lemma ReadCursor(line: seq<char>, original: seq<char>, read: nat, write: nat, done: seq<string>, current: string)
    requires Written(line, original, read, write, done, current)
    requires |StringAt(original, 0)| < |original| && read <= |StringAt(original, 0)|
    ensures write <= read < |line| && (line[read] == NUL <==> read == |StringAt(original, 0)|)
    ensures read < |StringAt(original, 0)| ==> line[read] == StringAt(original, 0)[read]
  {
    assert line[read..][0] == original[read..][0];
  }

  /** Copies a character down, the read cursor having moved past it. */
  method Put(line: array<char>, c: char, read: nat, write: nat, ghost original: seq<char>,
             ghost done: seq<string>, ghost current: string)
    requires Written(line[..], original, read, write, done, current) && write < read
    modifies line
    ensures Written(line[..], original, read, write + 1, done, current + [c])
  {
    WriteCharacter(line[..], original, read, write, done, current, c);
    ghost var before := line[..];
    line[write] := c;
    assert line[..] == before[write := c];
  }

  method Terminate(line: array<char>, read: nat, write: nat, ghost original: seq<char>,
                   ghost done: seq<string>, ghost current: string)
    requires Written(line[..], original, read, write, done, current) && read < line.Length
    modifies line
    ensures Written(line[..], original, read + 1, write + 1, done + [current], [])
    ensures write + 1 == |Packed(done + [current])|
  {
    CloseWord(line[..], original, read, write, done, current, read + 1);
    ghost var before := line[..];
    line[write] := NUL;
    assert line[..] == before[write := NUL];
  }

  datatype WordEnd = SpaceFollows | LineEnds(result: ParseResult)

  /** The inner loop: one word, up to the space after it or the end of the line. */
  method ReadWord(line: array<char>, from: nat, to: nat, ghost original: seq<char>, ghost done: seq<string>)
      returns (read: nat, write: nat, end: WordEnd, ghost word: string)
    requires from < |StringAt(original, 0)| < |original|
    requires AtWord(StringAt(original, 0), from, done, NUL, [])
    requires Written(line[..], original, from, to, done, [])
    modifies line
    ensures write == |Packed(done + [word])|
    ensures Written(line[..], original, read, write, done + [word], [])
    ensures var text := StringAt(original, 0);
      match end
      case SpaceFollows => from < read <= |text| && Scan(text[..read]) == Lexer(done + [word], Between, [], false)
      case LineEnds(result) => read == |text| + 1 && Tokenize(text) == (result, done + [word])
  {
    hide StringAt, Packed, Scan, Written, AtWord, Tokenize;
    ghost var text := StringAt(original, 0);
    read, write := from, to;
    var quote := NUL;
    word := [];
    while true
      invariant from <= read <= |text|
      invariant AtWord(text, read, done, quote, word)
      invariant Written(line[..], original, read, write, done, word)
      decreases |text| - read
    {
      ReadCursor(line[..], original, read, write, done, word);
      var current := line[read];
      if current == NUL {
        EndInWord(text, done, quote, word);
        Terminate(line, read, write, original, done, word);
        write, read := write + 1, read + 1;
        return read, write,
          LineEnds(if quote == '\'' then UnterminatedSingleQuote
                   else if quote == '"' then UnterminatedDoubleQuote
                   else ParseOk), word;
      }
      StepWord(text, read, done, quote, word);
      ReadOn(line[..], original, read, write, done, word);
      if current == '\\' {
        read := read + 1;
        ReadCursor(line[..], original, read, write, done, word);
        if line[read] == NUL {
          EndAfterBackslash(text, done, quote, word);
          Terminate(line, read, write, original, done, word);
          write, read := write + 1, read + 1;
          return read, write, LineEnds(TrailingBackslash), word;
        }
        StepEscape(text, read, done, quote, word);
        ReadOn(line[..], original, read, write, done, word);
        var literal := line[read];
        Put(line, literal, read + 1, write, original, done, word);
        word := word + [literal];
        write, read := write + 1, read + 1;
        continue;
      }
      if quote != NUL {
        read := read + 1;
        if current == quote {
          quote := NUL;
        } else {
          Put(line, current, read, write, original, done, word);
          word := word + [current];
          write := write + 1;
        }
        continue;
      }
      if current == '\'' || current == '"' {
        quote := current;
        read := read + 1;
        continue;
      }
      if current == ' ' {
        Terminate(line, read, write, original, done, word);
        read := read + 1;
        write := write + 1;
        return read, write, SpaceFollows, word;
      }
      Put(line, current, read + 1, write, original, done, word);
      word := word + [current];
      write := write + 1;
      read := read + 1;
    }
  }

  /** The outer loop's skip over spaces. */
  method SkipSpaces(line: array<char>, from: nat, ghost write: nat, ghost original: seq<char>, ghost done: seq<string>)
      returns (read: nat)
    requires from <= |StringAt(original, 0)| < |original|
    requires Scan(StringAt(original, 0)[..from]) == Lexer(done, Between, [], false)
    requires Written(line[..], original, from, write, done, [])
    ensures from <= read <= |StringAt(original, 0)|
    ensures Scan(StringAt(original, 0)[..read]) == Lexer(done, Between, [], false)
    ensures Written(line[..], original, read, write, done, [])
    ensures read < |StringAt(original, 0)| ==> StringAt(original, 0)[read] != ' '
    ensures read < line.Length && (line[read] == NUL <==> read == |StringAt(original, 0)|)
  {
    hide StringAt, Packed, Scan, Written;
    ghost var text := StringAt(original, 0);
    read := from;
    ReadCursor(line[..], original, read, write, done, []);
    while line[read] == ' '
      invariant from <= read <= |text| && read < line.Length
      invariant Scan(text[..read]) == Lexer(done, Between, [], false)
      invariant Written(line[..], original, read, write, done, [])
      invariant line[read] == NUL <==> read == |text|
      invariant read < |text| ==> line[read] == text[read]
      decreases |text| - read
    {
      ScanNext(text, read);
      ReadOn(line[..], original, read, write, done, []);
      read := read + 1;
      ReadCursor(line[..], original, read, write, done, []);
    }
  }

  lemma StartLine(original: seq<char>)
    ensures Written(original, original, 0, 0, [], [])
    ensures Scan(StringAt(original, 0)[..0]) == Lexer([], Between, [], false)
  {
  }

  lemma StartWord(text: string, read: nat, done: seq<string>)
    requires read < |text| && Scan(text[..read]) == Lexer(done, Between, [], false) && text[read] != ' '
    ensures if |done| < MAX_ARGUMENTS then AtWord(text, read, done, NUL, [])
            else |done| == MAX_ARGUMENTS ==> Tokenize(text) == (TooManyArguments, done)
  {
    if |done| == MAX_ARGUMENTS {
      ScanNext(text, read);
      OverflowIsFinal(text, read + 1);
    }
  }

  lemma EndBetween(text: string, done: seq<string>)
    requires Scan(text[..|text|]) == Lexer(done, Between, [], false)
    ensures Tokenize(text) == (ParseOk, done)
  {
    assert text[..|text|] == text;
  }

  lemma OffsetsStay(done: seq<string>, word: string, k: nat)
    requires k <= |done|
    ensures Offset(done + [word], k) == Offset(done, k) && Offset(done, |done|) == |Packed(done)|
  {
    assert (done + [word])[..k] == done[..k] && done[..|done|] == done;
  }

  method ParseArguments(line: array<char>, arguments: array<int>) returns (result: ParseResult, argumentCount: nat)
    requires arguments.Length == MAX_ARGUMENTS + 1 && Terminated(line[..], 0)
    modifies line, arguments
    ensures Parsed(old(line[..]), line[..], arguments[..], argumentCount, result)
  {
    hide StringAt, Packed, Scan, Parsed, Written, AtWord, Tokenize, Offset;
    ghost var original := line[..];
    ghost var text := StringAt(original, 0);
    TerminatedString(original, 0);
    ScanNoNul(text);
    StartLine(original);
    var read, write := 0, 0;
    ghost var done: seq<string> := [];
    argumentCount := 0;
    while true
      invariant 0 <= read <= |text|
      invariant Scan(text[..read]) == Lexer(done, Between, [], false)
      invariant write == |Packed(done)| && Written(line[..], original, read, write, done, [])
      invariant argumentCount == |done| <= MAX_ARGUMENTS
      invariant forall k :: 0 <= k < argumentCount ==> arguments[k] == Offset(done, k)
      decreases |text| - read
    {
      read := SkipSpaces(line, read, write, original, done);
      if line[read] == NUL {
        EndBetween(text, done);
        break;
      }
      StartWord(text, read, done);
      if argumentCount == MAX_ARGUMENTS {
        arguments[argumentCount] := NULL_POINTER;
        Conclude(original, line[..], arguments[..], done, read);
        return TooManyArguments, argumentCount;
      }
      arguments[argumentCount] := write;
      argumentCount := argumentCount + 1;
      var end;
      ghost var word;
      ghost var before := done;
      read, write, end, word := ReadWord(line, read, write, original, done);
      done := done + [word];
      forall k | 0 <= k < argumentCount
        ensures arguments[k] == Offset(done, k)
      {
        OffsetsStay(before, word, k);
      }
      match end
      case SpaceFollows =>
      case LineEnds(verdict) =>
        arguments[argumentCount] := NULL_POINTER;
        Conclude(original, line[..], arguments[..], done, read);
        return verdict, argumentCount;
    }
    arguments[argumentCount] := NULL_POINTER;
    Conclude(original, line[..], arguments[..], done, read);
    return ParseOk, argumentCount;
  }
}
