/**
 The command-line grammar as a tree, independent of any cursor: a line is words between spaces, a word is
 plain characters, backslash escapes and quotations in any mix. Every line has exactly one such tree, and
 the tokenizer's verdict and arguments are read off it.
 */
module CommandGrammar {
  import opened CStrings
  import opened Tokenizer

  /** Inside a quotation: a character, or one taken literally after a backslash. */
  datatype Item = Char(c: char) | EscapedChar(c: char)

  datatype Piece =
    | Plain(c: char)
    | Escape(c: char)
    | Quotation(quote: char, items: seq<Item>)

  /** A finished word, the spaces before it, and the one space that ends it. */
  datatype Word = Word(gap: nat, pieces: seq<Piece>)

  /** What the end of the line is in the middle of. */
  datatype Open =
    | Nothing
    | OpenWord(pieces: seq<Piece>)
    | OpenQuote(pieces: seq<Piece>, quote: char, items: seq<Item>)
    | Backslash(pieces: seq<Piece>)
    | BackslashInQuote(pieces: seq<Piece>, quote: char, items: seq<Item>)

  datatype Line = Line(words: seq<Word>, gap: nat, open: Open)

  predicate WellItem(item: Item, quote: char) {
    item.Char? ==> item.c != quote && item.c != '\\'
  }

  predicate WellPiece(piece: Piece) {
    match piece
    case Plain(c) => c != ' ' && c != '\\' && !IsQuote(c)
    case Escape(_) => true
    case Quotation(quote, items) => IsQuote(quote) && forall i :: 0 <= i < |items| ==> WellItem(items[i], quote)
  }

  predicate WellPieces(pieces: seq<Piece>) {
    forall i :: 0 <= i < |pieces| ==> WellPiece(pieces[i])
  }

  predicate WellOpen(open: Open) {
    match open
    case Nothing => true
    case OpenWord(pieces) => pieces != [] && WellPieces(pieces)
    case OpenQuote(pieces, quote, items) => WellPieces(pieces) && WellPiece(Quotation(quote, items))
    case Backslash(pieces) => WellPieces(pieces)
    case BackslashInQuote(pieces, quote, items) => WellPieces(pieces) && WellPiece(Quotation(quote, items))
  }

  predicate WellFormed(line: Line) {
    && (forall i :: 0 <= i < |line.words| ==> line.words[i].pieces != [] && WellPieces(line.words[i].pieces))
    && WellOpen(line.open)
  }

  // ---- How a line is written ----

  function Spaces(n: nat): (s: string)
    ensures |s| == n
  {
    if n == 0 then [] else Spaces(n - 1) + [' ']
  }

  function RenderItems(items: seq<Item>): string {
    if items == [] then []
    else
      var last := items[|items| - 1];
      RenderItems(items[..|items| - 1]) + (if last.Char? then [last.c] else ['\\', last.c])
  }

  function RenderPiece(piece: Piece): string {
    match piece
    case Plain(c) => [c]
    case Escape(c) => ['\\', c]
    case Quotation(quote, items) => [quote] + RenderItems(items) + [quote]
  }

  function RenderPieces(pieces: seq<Piece>): string {
    if pieces == [] then [] else RenderPieces(pieces[..|pieces| - 1]) + RenderPiece(pieces[|pieces| - 1])
  }

  function RenderWords(words: seq<Word>): string {
    if words == [] then []
    else
      var last := words[|words| - 1];
      RenderWords(words[..|words| - 1]) + Spaces(last.gap) + RenderPieces(last.pieces) + [' ']
  }

  function RenderOpen(open: Open): string {
    match open
    case Nothing => []
    case OpenWord(pieces) => RenderPieces(pieces)
    case OpenQuote(pieces, quote, items) => RenderPieces(pieces) + [quote] + RenderItems(items)
    case Backslash(pieces) => RenderPieces(pieces) + ['\\']
    case BackslashInQuote(pieces, quote, items) => RenderPieces(pieces) + [quote] + RenderItems(items) + ['\\']
  }

  function Render(line: Line): string {
    RenderWords(line.words) + Spaces(line.gap) + RenderOpen(line.open)
  }

  // ---- What a line means ----

  function ItemsValue(items: seq<Item>): string {
    seq(|items|, i requires 0 <= i < |items| => items[i].c)
  }

  function PieceValue(piece: Piece): string {
    match piece
    case Plain(c) => [c]
    case Escape(c) => [c]
    case Quotation(_, items) => ItemsValue(items)
  }

  function PiecesValue(pieces: seq<Piece>): string {
    if pieces == [] then [] else PiecesValue(pieces[..|pieces| - 1]) + PieceValue(pieces[|pieces| - 1])
  }

  function Values(words: seq<Word>): (values: seq<string>)
    ensures |values| == |words|
  {
    seq(|words|, i requires 0 <= i < |words| => PiecesValue(words[i].pieces))
  }

  function OpenValue(open: Open): string {
    match open
    case Nothing => []
    case OpenWord(pieces) => PiecesValue(pieces)
    case OpenQuote(pieces, _, items) => PiecesValue(pieces) + ItemsValue(items)
    case Backslash(pieces) => PiecesValue(pieces)
    case BackslashInQuote(pieces, _, items) => PiecesValue(pieces) + ItemsValue(items)
  }

  function OpenMode(open: Open): Mode {
    match open
    case Nothing => Between
    case OpenWord(_) => InWord(NUL)
    case OpenQuote(_, quote, _) => InWord(quote)
    case Backslash(_) => Escaped(NUL)
    case BackslashInQuote(_, quote, _) => Escaped(quote)
  }

  /** All the words begun, the open one included. */
  function AllValues(line: Line): seq<string> {
    Values(line.words) + (if line.open == Nothing then [] else [OpenValue(line.open)])
  }

  /** The verdict on a line: more than eight words, or whatever its end is in the middle of. */
  function Meaning(line: Line): (ParseResult, seq<string>) {
    var values := AllValues(line);
    if |values| > MAX_ARGUMENTS then (TooManyArguments, values[..MAX_ARGUMENTS])
    else
      (match line.open
       case Nothing => ParseOk
       case OpenWord(_) => ParseOk
       case OpenQuote(_, quote, _) => if quote == '\'' then UnterminatedSingleQuote else UnterminatedDoubleQuote
       case Backslash(_) => TrailingBackslash
       case BackslashInQuote(_, _, _) => TrailingBackslash,
       values)
  }

  // ---- One more character ----

  function StartOpen(pieces: seq<Piece>, c: char): Open {
    if c == '\\' then Backslash(pieces)
    else if IsQuote(c) then OpenQuote(pieces, c, [])
    else OpenWord(pieces + [Plain(c)])
  }

  /** A character that does not end the word. */
  function ExtendOpen(open: Open, c: char): Open {
    match open
    case Nothing => StartOpen([], c)
    case OpenWord(pieces) => StartOpen(pieces, c)
    case OpenQuote(pieces, quote, items) =>
      if c == '\\' then BackslashInQuote(pieces, quote, items)
      else if c == quote then OpenWord(pieces + [Quotation(quote, items)])
      else OpenQuote(pieces, quote, items + [Char(c)])
    case Backslash(pieces) => OpenWord(pieces + [Escape(c)])
    case BackslashInQuote(pieces, quote, items) => OpenQuote(pieces, quote, items + [EscapedChar(c)])
  }

  function Extend(line: Line, c: char): Line {
    if c == ' ' && line.open.Nothing? then line.(gap := line.gap + 1)
    else if c == ' ' && line.open.OpenWord? then Line(line.words + [Word(line.gap, line.open.pieces)], 0, Nothing)
    else line.(open := ExtendOpen(line.open, c))
  }

  /** The tree of a text. */
  function Parse(text: string): Line {
    if text == [] then Line([], 0, Nothing)
    else Extend(Parse(text[..|text| - 1]), text[|text| - 1])
  }

  lemma Snoc<T>(s: seq<T>, x: T)
    ensures (s + [x])[..|s + [x]| - 1] == s && (s + [x])[|s + [x]| - 1] == x
  {
  }

  lemma ExtendIsWellFormed(line: Line, c: char)
    requires WellFormed(line)
    ensures WellFormed(Extend(line, c))
  {
  }

  lemma RenderItemsSnoc(items: seq<Item>, item: Item)
    ensures RenderItems(items + [item]) == RenderItems(items) + (if item.Char? then [item.c] else ['\\', item.c])
  {
    Snoc(items, item);
  }

  lemma RenderPiecesSnoc(pieces: seq<Piece>, piece: Piece)
    ensures RenderPieces(pieces + [piece]) == RenderPieces(pieces) + RenderPiece(piece)
  {
    Snoc(pieces, piece);
  }

  lemma ExtendOpenRenders(open: Open, c: char)
    requires c == ' ' ==> !open.Nothing? && !open.OpenWord?
    ensures RenderOpen(ExtendOpen(open, c)) == RenderOpen(open) + [c]
  {
    hide RenderItems, RenderPieces;
    match open
    case Nothing =>
      RenderPiecesSnoc([], Plain(c));
      NoPieces();
    case OpenWord(pieces) =>
      RenderPiecesSnoc(pieces, Plain(c));
      NoPieces();
    case OpenQuote(pieces, quote, items) =>
      RenderItemsSnoc(items, Char(c));
      RenderPiecesSnoc(pieces, Quotation(quote, items));
    case Backslash(pieces) =>
      RenderPiecesSnoc(pieces, Escape(c));
    case BackslashInQuote(pieces, quote, items) =>
      RenderItemsSnoc(items, EscapedChar(c));
  }

  lemma NoPieces()
    ensures RenderPieces([]) == [] && RenderItems([]) == []
  {
  }

  lemma ExtendRenders(line: Line, c: char)
    ensures Render(Extend(line, c)) == Render(line) + [c]
  {
    hide RenderPieces, ExtendOpen, RenderItems;
    if c == ' ' && line.open.OpenWord? {
      Snoc(line.words, Word(line.gap, line.open.pieces));
    } else if c != ' ' || !line.open.Nothing? {
      ExtendOpenRenders(line.open, c);
    }
  }

  /** Every text is the rendering of its tree. */
  lemma {:induction false} ParseRenders(text: string)
    ensures WellFormed(Parse(text)) && Render(Parse(text)) == text
  {
    hide WellFormed, Render, Extend;
    if text == [] {
      EmptyLine();
    } else {
      ParseRenders(text[..|text| - 1]);
      ExtendIsWellFormed(Parse(text[..|text| - 1]), text[|text| - 1]);
      ExtendRenders(Parse(text[..|text| - 1]), text[|text| - 1]);
    }
  }

  lemma EmptyLine()
    ensures WellFormed(Line([], 0, Nothing)) && Render(Line([], 0, Nothing)) == []
  {
  }

  // ---- One character less ----

  function ReopenPieces(pieces: seq<Piece>): Open {
    if pieces == [] then Nothing else OpenWord(pieces)
  }

  /** The tree before the last character, and that character. */
  function ShrinkOpen(open: Open): (Open, char)
    requires !open.Nothing? && WellOpen(open)
  {
    match open
    case OpenWord(pieces) =>
      var front, last := pieces[..|pieces| - 1], pieces[|pieces| - 1];
      (match last
       case Plain(c) => (ReopenPieces(front), c)
       case Escape(c) => (Backslash(front), c)
       case Quotation(quote, items) => (OpenQuote(front, quote, items), quote))
    case OpenQuote(pieces, quote, items) =>
      if items == [] then (ReopenPieces(pieces), quote)
      else
        var front, last := items[..|items| - 1], items[|items| - 1];
        if last.Char? then (OpenQuote(pieces, quote, front), last.c)
        else (BackslashInQuote(pieces, quote, front), last.c)
    case Backslash(pieces) => (ReopenPieces(pieces), '\\')
    case BackslashInQuote(pieces, quote, items) => (OpenQuote(pieces, quote, items), '\\')
  }

  function Shrink(line: Line): (Line, char)
    requires WellFormed(line) && line != Line([], 0, Nothing)
  {
    if !line.open.Nothing? then (line.(open := ShrinkOpen(line.open).0), ShrinkOpen(line.open).1)
    else if line.gap > 0 then (line.(gap := line.gap - 1), ' ')
    else
      var front, last := line.words[..|line.words| - 1], line.words[|line.words| - 1];
      (Line(front, last.gap, OpenWord(last.pieces)), ' ')
  }

  lemma ShrinkOpenExtends(open: Open)
    requires !open.Nothing? && WellOpen(open)
    ensures var (before, c) := ShrinkOpen(open);
      && WellOpen(before) && ExtendOpen(before, c) == open
      && (c == ' ' ==> !before.Nothing? && !before.OpenWord?)
  {
    match open
    case OpenWord(pieces) =>
      assert pieces == pieces[..|pieces| - 1] + [pieces[|pieces| - 1]];
    case OpenQuote(pieces, quote, items) =>
      if items != [] {
        assert items == items[..|items| - 1] + [items[|items| - 1]];
        assert WellItem(items[|items| - 1], quote);
      }
    case _ =>
  }

  lemma ShrinkExtends(line: Line)
    requires WellFormed(line) && line != Line([], 0, Nothing)
    ensures WellFormed(Shrink(line).0) && Extend(Shrink(line).0, Shrink(line).1) == line
  {
    hide WellPieces, ExtendOpen, ShrinkOpen;
    if !line.open.Nothing? {
      ShrinkOpenExtends(line.open);
    } else if line.gap == 0 {
      var words := line.words;
      assert words == words[..|words| - 1] + [words[|words| - 1]];
    }
  }

  /** ... and it is the only tree with that rendering: parsing a rendering gives the tree back. */
  lemma {:induction false} ParseOfRender(line: Line)
    requires WellFormed(line)
    ensures Parse(Render(line)) == line
    decreases |Render(line)|
  {
    hide WellFormed, Render, Extend, Shrink;
    if line == Line([], 0, Nothing) {
      EmptyLine();
    } else {
      var (before, c) := Shrink(line);
      ShrinkExtends(line);
      ExtendRenders(before, c);
      ParseOfRender(before);
      Snoc(Render(before), c);
    }
  }

  // ---- The tokenizer computes the meaning of the tree ----

  function LexerOf(line: Line): Lexer {
    Lexer(Values(line.words), OpenMode(line.open), OpenValue(line.open), false)
  }

  lemma PiecesValueSnoc(pieces: seq<Piece>, piece: Piece)
    ensures PiecesValue(pieces + [piece]) == PiecesValue(pieces) + PieceValue(piece)
  {
    Snoc(pieces, piece);
  }

  lemma ItemsValueSnoc(items: seq<Item>, item: Item)
    ensures ItemsValue(items + [item]) == ItemsValue(items) + [item.c]
  {
  }

  lemma StartOpenMeans(done: seq<string>, pieces: seq<Piece>, c: char)
    requires c != ' '
    ensures var open := StartOpen(pieces, c);
      Lexer(done, OpenMode(open), OpenValue(open), false) == WordStep(done, NUL, PiecesValue(pieces), c)
  {
    hide PiecesValue;
    PiecesValueSnoc(pieces, Plain(c));
    assert ItemsValue([]) == [];
  }

  lemma ExtendOpenMeans(line: Line, c: char)
    requires WellFormed(line) && !line.open.Nothing? && (c == ' ' ==> !line.open.OpenWord?)
    ensures LexerOf(line.(open := ExtendOpen(line.open, c))) == Next(LexerOf(line), c)
  {
    hide PiecesValue, ItemsValue, WellPieces;
    match line.open
    case OpenWord(pieces) =>
      StartOpenMeans(Values(line.words), pieces, c);
    case OpenQuote(pieces, quote, items) =>
      ItemsValueSnoc(items, Char(c));
      PiecesValueSnoc(pieces, Quotation(quote, items));
    case Backslash(pieces) =>
      PiecesValueSnoc(pieces, Escape(c));
    case BackslashInQuote(pieces, quote, items) =>
      ItemsValueSnoc(items, EscapedChar(c));
  }

  lemma ValuesSnoc(words: seq<Word>, word: Word)
    ensures Values(words + [word]) == Values(words) + [PiecesValue(word.pieces)]
  {
  }

  lemma ExtendMeans(line: Line, c: char)
    requires WellFormed(line) && (line.open.Nothing? && c != ' ' ==> |line.words| < MAX_ARGUMENTS)
    ensures LexerOf(Extend(line, c)) == Next(LexerOf(line), c)
  {
    hide WellPieces, PiecesValue, Values;
    if c == ' ' && line.open.OpenWord? {
      ValuesSnoc(line.words, Word(line.gap, line.open.pieces));
    } else if !line.open.Nothing? {
      ExtendOpenMeans(line, c);
    } else if c != ' ' {
      StartOpenMeans(Values(line.words), [], c);
      NoValue();
    }
  }

  lemma NoValue()
    ensures PiecesValue([]) == []
  {
  }

  /** A ninth word, once begun, stays, and the first eight do not change. */
  lemma ExtendKeepsFirst(line: Line, c: char)
    ensures |AllValues(line)| <= |AllValues(Extend(line, c))|
    ensures |AllValues(line)| > MAX_ARGUMENTS ==>
      AllValues(Extend(line, c))[..MAX_ARGUMENTS] == AllValues(line)[..MAX_ARGUMENTS]
  {
    hide PiecesValue;
  }

  lemma {:induction false} ScanIsParse(text: string)
    ensures var line := Parse(text);
      if |AllValues(line)| <= MAX_ARGUMENTS then Scan(text) == LexerOf(line)
      else Scan(text).overflow && Scan(text).done == AllValues(line)[..MAX_ARGUMENTS]
  {
    hide WellFormed, OpenValue, Render;
    if text != [] {
      var before, c := Parse(text[..|text| - 1]), text[|text| - 1];
      ScanIsParse(text[..|text| - 1]);
      ParseRenders(text[..|text| - 1]);
      ExtendKeepsFirst(before, c);
      if |AllValues(before)| <= MAX_ARGUMENTS && !(before.open.Nothing? && c != ' ' && |before.words| == MAX_ARGUMENTS) {
        ExtendMeans(before, c);
      }
    } else {
      EmptyLexer();
    }
  }

  lemma EmptyLexer()
    ensures AllValues(Line([], 0, Nothing)) == [] && LexerOf(Line([], 0, Nothing)) == Scan([])
  {
  }

  lemma FinishMeans(line: Line)
    requires WellFormed(line) && |AllValues(line)| <= MAX_ARGUMENTS
    ensures Finish(LexerOf(line)) == Meaning(line)
  {
    assert Values(line.words) + [] == Values(line.words);
  }

  /** The tokenizer's five verdicts, and the arguments it leaves, are those of the line's one tree: too many
      words, an open quotation of either kind, a backslash with nothing after it, or a line that is fine. */
  lemma TokenizeIsMeaning(text: string)
    ensures WellFormed(Parse(text)) && Render(Parse(text)) == text
    ensures Tokenize(text) == Meaning(Parse(text))
  {
    hide WellFormed, Render, AllValues, LexerOf;
    ParseRenders(text);
    ScanIsParse(text);
    if |AllValues(Parse(text))| <= MAX_ARGUMENTS {
      FinishMeans(Parse(text));
    }
  }

  /** Whatever mix of plain characters, escapes and quotations a line is written with, the tokenizer gets
      back what it means. */
  lemma TokenizeOfRender(line: Line)
    requires WellFormed(line)
    ensures Tokenize(Render(line)) == Meaning(line)
  {
    ParseOfRender(line);
    TokenizeIsMeaning(Render(line));
  }

  // ---- Round trip through a quoting printer ----

  /** How an argument is printed: in quotes of either kind, with a backslash before every character, or as it is. */
  datatype Style = InQuotes(quote: char) | Backslashed | Bare

  function QuoteItem(quote: char, c: char): Item {
    if c == quote || c == '\\' then EscapedChar(c) else Char(c)
  }

  function QuotePiece(quote: char, argument: string): Piece {
    Quotation(quote, seq(|argument|, i requires 0 <= i < |argument| => QuoteItem(quote, argument[i])))
  }

  /** The pieces of an argument printed that way. */
  function StyledPieces(style: Style, argument: string): seq<Piece> {
    match style
    case InQuotes(quote) => [QuotePiece(quote, argument)]
    case Backslashed => seq(|argument|, i requires 0 <= i < |argument| => Escape(argument[i]))
    case Bare => seq(|argument|, i requires 0 <= i < |argument| => Plain(argument[i]))
  }

  /** In quotes, with every backslash and every quote of that kind escaped; with everything escaped; or bare. */
  function PrintArgument(style: Style, argument: string): string {
    match style
    case InQuotes(quote) => [quote] + EscapeAll(quote, argument) + [quote]
    case Backslashed => BackslashAll(argument)
    case Bare => argument
  }

  function EscapeAll(quote: char, argument: string): string {
    if argument == [] then []
    else
      var c := argument[|argument| - 1];
      EscapeAll(quote, argument[..|argument| - 1]) + (if c == quote || c == '\\' then ['\\', c] else [c])
  }

  function BackslashAll(argument: string): string {
    if argument == [] then []
    else BackslashAll(argument[..|argument| - 1]) + ['\\', argument[|argument| - 1]]
  }

  predicate CanPrint(style: Style, argument: string) {
    match style
    case InQuotes(quote) => IsQuote(quote)
    case Backslashed => argument != []
    case Bare => argument != [] && forall i :: 0 <= i < |argument| ==> argument[i] !in {' ', '\\', '\'', '"'}
  }

  /** A style that suits every argument - an empty one needs quotes - and spaces between them. */
  predicate Fit(arguments: seq<string>, styles: seq<Style>, gaps: seq<nat>) {
    && |styles| == |gaps| == |arguments|
    && (forall i :: 0 <= i < |arguments| ==> CanPrint(styles[i], arguments[i]))
    && (forall i :: 1 <= i < |gaps| ==> gaps[i] >= 1)
  }

  /** Spaces before each argument, then the argument. */
  function PrintLine(arguments: seq<string>, styles: seq<Style>, gaps: seq<nat>): string
    requires |styles| == |gaps| == |arguments|
  {
    if arguments == [] then []
    else
      var last := |arguments| - 1;
      PrintLine(arguments[..last], styles[..last], gaps[..last]) + Spaces(gaps[last]) + PrintArgument(styles[last], arguments[last])
  }

  function PrintedWords(arguments: seq<string>, styles: seq<Style>, gaps: seq<nat>): (words: seq<Word>)
    requires Fit(arguments, styles, gaps)
  {
    seq(|arguments|, i requires 0 <= i < |arguments| =>
      Word(if i == 0 then gaps[i] else gaps[i] - 1, StyledPieces(styles[i], arguments[i])))
  }

  lemma {:induction false} EscapeAllRenders(quote: char, argument: string)
    ensures RenderItems(QuotePiece(quote, argument).items) == EscapeAll(quote, argument)
  {
    var items := QuotePiece(quote, argument).items;
    if argument != [] {
      var shorter := argument[..|argument| - 1];
      EscapeAllRenders(quote, shorter);
      assert items[..|items| - 1] == QuotePiece(quote, shorter).items;
    }
  }

  lemma {:induction false} BackslashAllRenders(argument: string)
    ensures RenderPieces(StyledPieces(Backslashed, argument)) == BackslashAll(argument)
    ensures PiecesValue(StyledPieces(Backslashed, argument)) == argument
  {
    var pieces := StyledPieces(Backslashed, argument);
    if argument != [] {
      var shorter := argument[..|argument| - 1];
      BackslashAllRenders(shorter);
      assert pieces[..|pieces| - 1] == StyledPieces(Backslashed, shorter);
    }
  }

  lemma {:induction false} BareRenders(argument: string)
    ensures RenderPieces(StyledPieces(Bare, argument)) == argument
    ensures PiecesValue(StyledPieces(Bare, argument)) == argument
  {
    var pieces := StyledPieces(Bare, argument);
    if argument != [] {
      var shorter := argument[..|argument| - 1];
      BareRenders(shorter);
      assert pieces[..|pieces| - 1] == StyledPieces(Bare, shorter);
    }
  }

  lemma QuotedPieceIs(quote: char, argument: string)
    requires IsQuote(quote)
    ensures RenderPieces([QuotePiece(quote, argument)]) == PrintArgument(InQuotes(quote), argument)
    ensures PiecesValue([QuotePiece(quote, argument)]) == argument
    ensures WellPieces([QuotePiece(quote, argument)])
  {
    hide RenderItems, EscapeAll;
    var piece := QuotePiece(quote, argument);
    EscapeAllRenders(quote, argument);
    Snoc([], piece);
    assert RenderPieces([piece]) == RenderPieces([]) + RenderPiece(piece);
    assert PiecesValue([piece]) == PiecesValue([]) + PieceValue(piece);
  }

  lemma StyledPiecesAre(style: Style, argument: string)
    requires CanPrint(style, argument)
    ensures RenderPieces(StyledPieces(style, argument)) == PrintArgument(style, argument)
    ensures PiecesValue(StyledPieces(style, argument)) == argument
    ensures StyledPieces(style, argument) != [] && WellPieces(StyledPieces(style, argument))
  {
    hide RenderPieces, PiecesValue;
    match style
    case InQuotes(quote) => QuotedPieceIs(quote, argument);
    case Backslashed => BackslashAllRenders(argument);
    case Bare => BareRenders(argument);
  }

  lemma SpacesAdd(n: nat)
    ensures [' '] + Spaces(n) == Spaces(n + 1)
  {
    if n > 0 {
      SpacesAdd(n - 1);
    }
  }

  lemma {:induction false} PrintedRenders(arguments: seq<string>, styles: seq<Style>, gaps: seq<nat>)
    requires Fit(arguments, styles, gaps) && arguments != []
    ensures RenderWords(PrintedWords(arguments, styles, gaps)) == PrintLine(arguments, styles, gaps) + [' ']
  {
    hide Spaces, PrintArgument, RenderPieces, StyledPieces;
    var last := |arguments| - 1;
    var words := PrintedWords(arguments, styles, gaps);
    StyledPiecesAre(styles[last], arguments[last]);
    assert words[..last] == PrintedWords(arguments[..last], styles[..last], gaps[..last]);
    if last > 0 {
      PrintedRenders(arguments[..last], styles[..last], gaps[..last]);
      SpacesAdd(gaps[last] - 1);
    }
  }

  /** The tree of a printed line: the last argument is still open unless spaces follow it. */
  function PrintedLine(arguments: seq<string>, styles: seq<Style>, gaps: seq<nat>, trailing: nat): Line
    requires Fit(arguments, styles, gaps)
  {
    if arguments == [] then Line([], trailing, Nothing)
    else
      var words := PrintedWords(arguments, styles, gaps);
      if trailing > 0 then Line(words, trailing - 1, Nothing)
      else
        var last := |words| - 1;
        Line(words[..last], words[last].gap, OpenWord(words[last].pieces))
  }

  /** With the last argument still open. */
  lemma PrintedOpenRenders(arguments: seq<string>, styles: seq<Style>, gaps: seq<nat>)
    requires Fit(arguments, styles, gaps) && arguments != []
    ensures var last := |arguments| - 1;
      var words := PrintedWords(arguments, styles, gaps);
      RenderWords(words[..last]) + Spaces(words[last].gap) + PrintArgument(styles[last], arguments[last]) == PrintLine(arguments, styles, gaps)
  {
    hide Spaces, PrintArgument, RenderPieces, StyledPieces, PrintLine;
    var last := |arguments| - 1;
    var words := PrintedWords(arguments, styles, gaps);
    StyledPiecesAre(styles[last], arguments[last]);
    PrintedRenders(arguments, styles, gaps);
    CancelSpace(RenderWords(words[..last]) + Spaces(words[last].gap) + PrintArgument(styles[last], arguments[last]),
                PrintLine(arguments, styles, gaps));
  }

  lemma CancelSpace(s: string, t: string)
    requires s + [' '] == t + [' ']
    ensures s == t
  {
    Snoc(s, ' ');
    Snoc(t, ' ');
  }

  lemma PrintedLineRenders(arguments: seq<string>, styles: seq<Style>, gaps: seq<nat>, trailing: nat)
    requires Fit(arguments, styles, gaps)
    ensures Render(PrintedLine(arguments, styles, gaps, trailing)) == PrintLine(arguments, styles, gaps) + Spaces(trailing)
  {
    hide PrintArgument, RenderPieces, StyledPieces, RenderWords, PrintLine, Spaces;
    if arguments == [] {
      NothingPrinted();
    } else if trailing > 0 {
      PrintedRenders(arguments, styles, gaps);
      SpacesAdd(trailing - 1);
    } else {
      StyledPiecesAre(styles[|styles| - 1], arguments[|arguments| - 1]);
      PrintedOpenRenders(arguments, styles, gaps);
    }
  }

  lemma NothingPrinted()
    ensures PrintLine([], [], []) == [] && RenderWords([]) == []
  {
  }

  lemma PrintedLineMeans(arguments: seq<string>, styles: seq<Style>, gaps: seq<nat>, trailing: nat)
    requires Fit(arguments, styles, gaps)
    ensures WellFormed(PrintedLine(arguments, styles, gaps, trailing))
    ensures AllValues(PrintedLine(arguments, styles, gaps, trailing)) == arguments
    ensures PrintedLine(arguments, styles, gaps, trailing).open.Nothing? || PrintedLine(arguments, styles, gaps, trailing).open.OpenWord?
  {
    hide StyledPieces, PiecesValue, WellPieces;
    forall i | 0 <= i < |arguments|
      ensures StyledPieces(styles[i], arguments[i]) != [] && WellPieces(StyledPieces(styles[i], arguments[i]))
      ensures PiecesValue(StyledPieces(styles[i], arguments[i])) == arguments[i]
    {
      StyledPiecesAre(styles[i], arguments[i]);
    }
    assert Values(PrintedWords(arguments, styles, gaps)) == arguments;
  }

  /** Printing any list of arguments, each in a style that suits it, with any positive number of spaces between
      them, and tokenizing the line gives back the list - or, if it has more than eight members, the first
      eight and the verdict that there are too many. Double quotes suit every argument. */
  lemma RoundTrip(arguments: seq<string>, styles: seq<Style>, gaps: seq<nat>, trailing: nat)
    requires Fit(arguments, styles, gaps)
    ensures Tokenize(PrintLine(arguments, styles, gaps) + Spaces(trailing)) ==
      if |arguments| <= 8 then (ParseOk, arguments) else (TooManyArguments, arguments[..8])
  {
    hide Render, WellFormed, PrintLine, PrintedLine, AllValues, Tokenize;
    PrintedLineRenders(arguments, styles, gaps, trailing);
    PrintedLineMeans(arguments, styles, gaps, trailing);
    TokenizeOfRender(PrintedLine(arguments, styles, gaps, trailing));
  }

  /** The same, in memory: after parse_arguments has run over a printed line, the pointers lead to the
      arguments, each after the end of the one before, and end in NULL. */
  lemma PrintedLineParses(arguments: seq<string>, styles: seq<Style>, gaps: seq<nat>, trailing: nat,
                          original: seq<char>, line: seq<char>, pointers: seq<int>, count: nat, result: ParseResult)
    requires Fit(arguments, styles, gaps) && |arguments| <= 8
    requires Parsed(original, line, pointers, count, result)
    ensures StringAt(original, 0) == PrintLine(arguments, styles, gaps) + Spaces(trailing) ==>
      && result == ParseOk && count == |arguments| && pointers[count] == NULL_POINTER
      && (forall k :: 0 <= k < count ==> 0 <= pointers[k] < |line| && StringAt(line, pointers[k]) == arguments[k])
      && (forall k :: 0 <= k < count - 1 ==> pointers[k + 1] == pointers[k] + |arguments[k]| + 1)
  {
    hide Tokenize, PrintLine, Offset;
    RoundTrip(arguments, styles, gaps, trailing);
    if StringAt(original, 0) == PrintLine(arguments, styles, gaps) + Spaces(trailing) {
      forall k | 0 <= k < count - 1
        ensures pointers[k + 1] == pointers[k] + |arguments[k]| + 1
      {
        OffsetsIncrease(arguments, k);
      }
    }
  }
}
