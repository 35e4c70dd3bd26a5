/**
 Decimal numbers in and out: parse_uint64 of the shell and uart_put_uint64, against the value a numeral has.
 */
module Decimal {
  import opened Bits
  import opened CStrings

  const UINT64_MAX: nat := TWO_64 - 1
  const DIGITS: nat := 20

  predicate IsDigit(c: char) {
    '0' <= c <= '9'
  }

  function DigitValue(c: char): nat
    requires IsDigit(c)
  {
    c as nat - '0' as nat
  }

  function DigitChar(d: nat): (c: char)
    requires d < 10
    ensures IsDigit(c) && DigitValue(c) == d
  {
    ('0' as nat + d) as char
  }

  predicate AllDigits(text: string) {
    forall i :: 0 <= i < |text| ==> IsDigit(text[i])
  }

  /** What a numeral denotes. */
  function ValueOf(text: string): nat
    requires AllDigits(text)
  {
    if text == [] then 0 else 10 * ValueOf(text[..|text| - 1]) + DigitValue(text[|text| - 1])
  }

  function Pow10(n: nat): (p: nat)
    ensures p >= 1
  {
    if n == 0 then 1 else 10 * Pow10(n - 1)
  }

  /** More digits never denote less. */
  lemma {:induction false} ValueGrows(text: string, n: nat)
    requires AllDigits(text) && n <= |text|
    ensures ValueOf(text[..n]) <= ValueOf(text)
  {
    if n == |text| {
      assert text[..n] == text;
    } else {
      ValueGrows(text[..|text| - 1], n);
      assert text[..|text| - 1][..n] == text[..n];
    }
  }

  lemma TenTimes(d: nat, p: nat)
    ensures 10 * (d * p) == d * (10 * p)
  {
  }

  lemma {:induction false} ValueOfPrepend(c: char, text: string)
    requires IsDigit(c) && AllDigits(text)
    ensures ValueOf([c] + text) == DigitValue(c) * Pow10(|text|) + ValueOf(text)
  {
    var all := [c] + text;
    if text == [] {
      assert all[..0] == [];
    } else {
      var shorter := text[..|text| - 1];
      assert all[..|all| - 1] == [c] + shorter;
      ValueOfPrepend(c, shorter);
      TenTimes(DigitValue(c), Pow10(|shorter|));
    }
  }

  lemma NextDigit(text: string, i: nat)
    requires i < |text| && AllDigits(text[..i]) && IsDigit(text[i])
    ensures AllDigits(text[..i + 1])
    ensures ValueOf(text[..i + 1]) == 10 * ValueOf(text[..i]) + DigitValue(text[i])
  {
    assert text[..i + 1][..i] == text[..i];
  }

  /** Accepts exactly the non-empty strings of digits that denote a number below 2^64, and yields it. */
  method ParseUint64(buffer: array<char>, start: nat) returns (ok: bool, value: Word)
    requires start < buffer.Length && Terminated(buffer[..], start)
    ensures var text := StringAt(buffer[..], start);
      && (ok <==> text != [] && AllDigits(text) && ValueOf(text) <= UINT64_MAX)
      && (ok ==> value == ValueOf(text))
  {
    hide StringAt, ValueOf;
    ghost var text := StringAt(buffer[..], start);
    TerminatedString(buffer[..], start);
    assert forall k :: 0 <= k < |text| ==> text[k] == buffer[start + k];
    value := 0;
    if buffer[start] == NUL {
      return false, 0;
    }
    var result: Word := 0;
    var i := 0;
    NoDigits(text);
    while buffer[start + i] != NUL
      invariant 0 <= i <= |text|
      invariant AllDigits(text[..i]) && result == ValueOf(text[..i])
      decreases |text| - i
    {
      var c := buffer[start + i];
      assert c == text[i];
      if c < '0' || c > '9' {
        return false, 0;
      }
      NextDigit(text, i);
      var digit := DigitValue(c);
      if result > (UINT64_MAX - digit) / 10 {
        if AllDigits(text) {
          ValueGrows(text, i + 1);
        }
        return false, 0;
      }
      result := result * 10 + digit;
      i := i + 1;
    }
    assert text[..i] == text;
    return true, result;
  }

  lemma NoDigits(text: string)
    ensures ValueOf(text[..0]) == 0
  {
  }

  function Reversed(s: seq<char>): (r: seq<char>)
    ensures |r| == |s|
  {
    if s == [] then [] else [s[|s| - 1]] + Reversed(s[..|s| - 1])
  }

  /** The shortest numeral: no leading zero, but for zero itself. */
  predicate Canonical(text: string) {
    text != [] && AllDigits(text) && (text[0] == '0' ==> |text| == 1)
  }

  lemma TwentyDigitsAreEnough()
    ensures Pow10(DIGITS) > UINT64_MAX
  {
    assert Pow10(7) == 1_000_0000;
    assert Pow10(14) == 100_000_000_000_000;
  }

  /** The value is the rest followed by the numeral, which has no leading zero once the rest is used up. */
  ghost predicate Splits(value: nat, rest: nat, numeral: string) {
    && AllDigits(numeral) && rest * Pow10(|numeral|) + ValueOf(numeral) == value
    && (rest == 0 && value != 0 ==> numeral != [] && numeral[0] != '0')
  }

  /** One more digit moves from the rest to the numeral. */
  lemma SplitOff(value: nat, rest: nat, numeral: string)
    requires rest > 0 && Splits(value, rest, numeral)
    ensures Splits(value, rest / 10, [DigitChar(rest % 10)] + numeral)
  {
    ValueOfPrepend(DigitChar(rest % 10), numeral);
    SplitDigit(rest, Pow10(|numeral|));
  }

  lemma SplitDone(value: nat, numeral: string)
    requires value != 0 && Splits(value, 0, numeral)
    ensures Canonical(numeral) && ValueOf(numeral) == value
  {
  }

  /** One step of the splitting loop, with room for it in the buffer. */
  lemma NextDigitOut(value: nat, rest: nat, digits: seq<char>, room: nat)
    requires Splits(value, rest, Reversed(digits)) && 0 < rest < Pow10(room)
    ensures Splits(value, rest / 10, Reversed(digits + [DigitChar(rest % 10)]))
    ensures room > 0 && rest / 10 < Pow10(room - 1)
  {
    SplitOff(value, rest, Reversed(digits));
    ReversedAppend(digits, DigitChar(rest % 10));
    RoomForDigit(rest, room);
  }

  lemma ReversedAppend(s: seq<char>, c: char)
    ensures Reversed(s + [c]) == [c] + Reversed(s)
  {
    assert (s + [c])[..|s|] == s;
  }

  /** The first loop: digits from the last one on. It never needs more than the 20-character buffer. */
  method SplitDigits(value: Word, digits: array<char>) returns (length: nat)
    requires value != 0 && digits.Length == DIGITS
    modifies digits
    ensures length <= DIGITS && Splits(value, 0, Reversed(digits[..length]))
  {
    hide ValueOf, Pow10, Reversed, Splits, DigitChar;
    length := 0;
    var rest: nat := value;
    TwentyDigitsAreEnough();
    Nothing(value, digits[..0]);
    while rest != 0
      invariant 0 <= length <= DIGITS
      invariant rest < Pow10(DIGITS - length)
      invariant Splits(value, rest, Reversed(digits[..length]))
      decreases rest
    {
      ghost var before := digits[..length];
      var digit := DigitChar(rest % 10);
      NextDigitOut(value, rest, before, DIGITS - length);
      digits[length] := digit;
      assert digits[..length + 1] == before + [digit];
      length := length + 1;
      rest := rest / 10;
    }
  }

  /** Prints the shortest numeral for the value. */
  method PutUint64(value: Word) returns (output: string)
    ensures Canonical(output) && ValueOf(output) == value
  {
    if value == 0 {
      output := ['0'];
      assert output[..0] == [];
      return;
    }
    hide ValueOf, Reversed, Splits, Canonical;
    var digits := new char[DIGITS];
    var length := SplitDigits(value, digits);
    output := [];
    ghost var all := Reversed(digits[..length]);
    while length != 0
      invariant 0 <= length <= DIGITS
      invariant output + Reversed(digits[..length]) == all
    {
      assert digits[..length] == digits[..length - 1] + [digits[length - 1]];
      ReversedAppend(digits[..length - 1], digits[length - 1]);
      length := length - 1;
      output := output + [digits[length]];
    }
    Nothing(value, digits[..0]);
    assert output == all;
    SplitDone(value, output);
  }

  lemma Nothing(value: nat, s: seq<char>)
    requires s == [] && value != 0
    ensures Reversed(s) == [] && Splits(value, value, [])
  {
  }

  lemma RoomForDigit(rest: nat, n: nat)
    requires 0 < rest < Pow10(n)
    ensures n > 0 && rest / 10 < Pow10(n - 1)
  {
  }

  lemma SplitDigit(rest: nat, p: nat)
    ensures rest * p == (rest / 10) * (10 * p) + (rest % 10) * p
  {
    assert rest == 10 * (rest / 10) + rest % 10;
  }

  /** There is only one shortest numeral for a number, so printing and parsing undo each other: what
      PutUint64 prints is what ParseUint64 maps to the value, and no other shortest numeral is. */
  lemma {:induction false} CanonicalIsUnique(s: string, t: string)
    requires Canonical(s) && Canonical(t) && ValueOf(s) == ValueOf(t)
    ensures s == t
  {
    var m, n := |s| - 1, |t| - 1;
    assert DigitValue(s[m]) == DigitValue(t[n]) && ValueOf(s[..m]) == ValueOf(t[..n]);
    if m > 0 && n > 0 {
      CanonicalIsUnique(s[..m], t[..n]);
    } else if m > 0 {
      CanonicalIsPositive(s[..m]);
    } else if n > 0 {
      CanonicalIsPositive(t[..n]);
    }
    assert s == s[..m] + [s[m]] && t == t[..n] + [t[n]];
  }

  lemma {:induction false} CanonicalIsPositive(s: string)
    requires AllDigits(s) && s != [] && s[0] != '0'
    ensures ValueOf(s) > 0
  {
    if |s| > 1 {
      CanonicalIsPositive(s[..|s| - 1]);
    }
  }

  /** The round trip over one buffer: a printed number parses back to itself. */
  method PrintThenParse(value: Word) returns (ok: bool, back: Word)
    ensures ok && back == value
  {
    var output := PutUint64(value);
    var buffer := new char[|output| + 1](i requires 0 <= i => if i < |output| then output[i] else NUL);
    assert buffer[..][0..|output|] == output && buffer[..][|output|] == NUL;
    assert forall i :: 0 <= i < |output| ==> output[i] != NUL;
    StringAtIs(buffer[..], 0, output);
    ok, back := ParseUint64(buffer, 0);
  }
}
