/** Strings as C has them: characters in a buffer, up to a NUL. */
module CStrings {

  const NUL: char := '\0'

  /** The string that starts at an index: everything up to the first NUL, or the end of the buffer. */
  function StringAt(buffer: seq<char>, start: nat): (s: string)
    requires start <= |buffer|
    ensures NUL !in s && start + |s| <= |buffer| && buffer[start..start + |s|] == s
    ensures start + |s| < |buffer| ==> buffer[start + |s|] == NUL
    decreases |buffer| - start
  {
    if start == |buffer| || buffer[start] == NUL then []
    else
      var rest := StringAt(buffer, start + 1);
      assert buffer[start..start + 1 + |rest|] == [buffer[start]] + rest;
      [buffer[start]] + rest
  }

  ghost predicate Terminated(buffer: seq<char>, start: nat) {
    exists i :: start <= i < |buffer| && buffer[i] == NUL
  }

  lemma {:induction false} TerminatedString(buffer: seq<char>, start: nat)
    requires start <= |buffer| && Terminated(buffer, start)
    ensures start + |StringAt(buffer, start)| < |buffer|
    decreases |buffer| - start
  {
    if start < |buffer| && buffer[start] != NUL {
      TerminatedString(buffer, start + 1);
    }
  }

  /** A string is recognised by its characters and its NUL. */
  lemma {:induction false} StringAtIs(buffer: seq<char>, start: nat, s: string)
    requires NUL !in s && start + |s| < |buffer|
    requires buffer[start..start + |s|] == s && buffer[start + |s|] == NUL
    ensures StringAt(buffer, start) == s
    decreases |s|
  {
    if s != [] {
      assert buffer[start] == s[0];
      StringAtIs(buffer, start + 1, s[1..]);
    }
  }

  /** A buffer holds the string at an index: with its NUL. */
  ghost predicate Holds(buffer: seq<char>, at: nat, s: string) {
    at + |s| < |buffer| && StringAt(buffer, at) == s
  }

  lemma Held(buffer: seq<char>, at: nat, s: string)
    requires NUL !in s && at + |s| < |buffer|
    requires buffer[at..at + |s|] == s && buffer[at + |s|] == NUL
    ensures Holds(buffer, at, s)
  {
    StringAtIs(buffer, at, s);
  }

  lemma HoldsCharacter(buffer: seq<char>, at: nat, s: string, i: nat)
    requires Holds(buffer, at, s) && i <= |s|
    ensures at + i < |buffer| && (buffer[at + i] == NUL <==> i == |s|)
    ensures i < |s| ==> buffer[at + i] == s[i]
  {
    if i < |s| {
      assert buffer[at..at + |s|][i] == s[i];
    }
  }

  lemma HoldsStays(before: seq<char>, after: seq<char>, at: nat, s: string)
    requires Holds(before, at, s) && |after| == |before|
    requires forall i :: at <= i <= at + |s| ==> after[i] == before[i]
    ensures Holds(after, at, s)
  {
    assert after[at..at + |s|] == before[at..at + |s|];
    Held(after, at, s);
  }
}
