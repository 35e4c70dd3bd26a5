/**
 The command history: a ring of eight rows, against the list of lines it stands for.
 */
module ConsoleHistory {
  import opened Console

  predicate IsBlank(line: string) {
    forall i :: 0 <= i < |line| ==> line[i] == ' '
  }

  // ---- What is remembered ----

  function NonBlank(lines: seq<string>): seq<string> {
    if lines == [] then []
    else
      var last := lines[|lines| - 1];
      NonBlank(lines[..|lines| - 1]) + (if IsBlank(last) then [] else [last])
  }

  /** Of every run of equal neighbours, one. */
  function Collapse(lines: seq<string>): (c: seq<string>)
    ensures lines == [] <==> c == []
    ensures lines != [] ==> c[|c| - 1] == lines[|lines| - 1]
  {
    if lines == [] then []
    else
      var front, last := Collapse(lines[..|lines| - 1]), lines[|lines| - 1];
      if front != [] && front[|front| - 1] == last then front else front + [last]
  }

  function LastFew(lines: seq<string>): seq<string> {
    if |lines| <= HISTORY_DEPTH then lines else lines[|lines| - HISTORY_DEPTH..]
  }

  function Remember(history: seq<string>, line: string): seq<string> {
    if IsBlank(line) || (history != [] && history[|history| - 1] == line) then history
    else LastFew(history + [line])
  }

  function RememberAll(lines: seq<string>): seq<string> {
    if lines == [] then [] else Remember(RememberAll(lines[..|lines| - 1]), lines[|lines| - 1])
  }

  lemma RememberOne(kept: seq<string>, line: string)
    requires !IsBlank(line)
    ensures Remember(LastFew(kept), line) ==
      LastFew(if kept != [] && kept[|kept| - 1] == line then kept else kept + [line])
  {
  }

  lemma NothingYet()
    ensures LastFew([]) == []
  {
  }

  /** Remembering line after line keeps the last eight non-blank lines, consecutive duplicates dropped. */
  lemma {:induction false} RememberAllIs(lines: seq<string>)
    ensures RememberAll(lines) == LastFew(Collapse(NonBlank(lines)))
  {
    hide LastFew, IsBlank;
    NothingYet();
    if lines != [] {
      var front, last := lines[..|lines| - 1], lines[|lines| - 1];
      RememberAllIs(front);
      if !IsBlank(last) {
        assert NonBlank(lines) == NonBlank(front) + [last];
        assert NonBlank(lines)[..|NonBlank(lines)| - 1] == NonBlank(front);
        RememberOne(Collapse(NonBlank(front)), last);
      } else {
        assert NonBlank(lines) == NonBlank(front);
      }
    }
  }

  // ---- The ring ----

  datatype Ring = Ring(rows: seq<string>, count: nat, next: nat)

  predicate IsRing(ring: Ring) {
    |ring.rows| == HISTORY_DEPTH && ring.count <= HISTORY_DEPTH && ring.next < HISTORY_DEPTH
  }

  /** history_entry: the row so many places back from the next one to be written. */
  function Entry(ring: Ring, offset: nat): string
    requires IsRing(ring) && offset <= HISTORY_DEPTH
  {
    ring.rows[(ring.next + HISTORY_DEPTH - offset) % HISTORY_DEPTH]
  }

  function Add(ring: Ring, line: string): Ring
    requires IsRing(ring)
  {
    if IsBlank(line) || (ring.count != 0 && line == Entry(ring, 1)) then ring
    else
      Ring(ring.rows[ring.next := Truncate(line, LINE_CAPACITY)],
           if ring.count < HISTORY_DEPTH then ring.count + 1 else ring.count,
           (ring.next + 1) % HISTORY_DEPTH)
  }

  /** The remembered lines, oldest first. */
  function Recents(ring: Ring): (lines: seq<string>)
    requires IsRing(ring)
    ensures |lines| == ring.count
  {
    seq(ring.count, i requires 0 <= i < ring.count => Entry(ring, ring.count - i))
  }

  /** Recents lists the entries of the ring. */
  lemma EntryIsNewest(ring: Ring, k: nat)
    requires IsRing(ring) && 1 <= k <= ring.count
    ensures Entry(ring, k) == Newest(Recents(ring), k)
  {
  }

  /** history_add, on lines the editor can produce, is remembering. */
  lemma AddRemembers(ring: Ring, line: string)
    requires IsRing(ring) && |line| < LINE_CAPACITY
    ensures IsRing(Add(ring, line)) && Recents(Add(ring, line)) == Remember(Recents(ring), line)
  {
    hide Entry, IsBlank;
    var after := Add(ring, line);
    if ring.count > 0 {
      EntryIsNewest(ring, 1);
    }
    if !IsBlank(line) && !(ring.count != 0 && line == Entry(ring, 1)) {
      var before, now := Recents(ring), Recents(after);
      forall i | 0 <= i < |now|
        ensures now[i] == LastFew(before + [line])[i]
      {
        AddedEntry(ring, line, after.count - i);
      }
    }
  }

  lemma AddedEntry(ring: Ring, line: string, k: nat)
    requires IsRing(ring) && |line| < LINE_CAPACITY && 1 <= k <= HISTORY_DEPTH && k <= ring.count + 1
    requires !IsBlank(line) && !(ring.count != 0 && line == Entry(ring, 1))
    ensures Entry(Add(ring, line), k) == if k == 1 then line else Entry(ring, k - 1)
  {
  }

  ghost function AddAll(ring: Ring, lines: seq<string>): (after: Ring)
    requires IsRing(ring)
    ensures IsRing(after)
  {
    if lines == [] then ring else Add(AddAll(ring, lines[..|lines| - 1]), lines[|lines| - 1])
  }

  /** Over any number of submitted lines, the ring holds the last eight non-blank ones with consecutive
      duplicates dropped. */
  lemma {:induction false} HistoryIsRecent(ring: Ring, lines: seq<string>)
    requires IsRing(ring) && ring.count == 0
    requires forall i :: 0 <= i < |lines| ==> |lines[i]| < LINE_CAPACITY
    ensures Recents(AddAll(ring, lines)) == LastFew(Collapse(NonBlank(lines)))
    ensures |Collapse(NonBlank(lines))| >= 8 ==> |Recents(AddAll(ring, lines))| == 8
  {
    RememberAllIs(lines);
    AddAllRemembers(ring, lines);
  }

  /** So history_entry(k) is the k-th newest of those, and there is one for every k up to the count. */
  lemma EntryIsRecent(ring: Ring, lines: seq<string>, k: nat)
    requires IsRing(ring) && ring.count == 0
    requires forall i :: 0 <= i < |lines| ==> |lines[i]| < LINE_CAPACITY
    requires 1 <= k <= AddAll(ring, lines).count
    ensures var recent := LastFew(Collapse(NonBlank(lines)));
      && |recent| == AddAll(ring, lines).count
      && Entry(AddAll(ring, lines), k) == Newest(recent, k)
  {
    HistoryIsRecent(ring, lines);
    EntryIsNewest(AddAll(ring, lines), k);
  }

  lemma {:induction false} AddAllRemembers(ring: Ring, lines: seq<string>)
    requires IsRing(ring) && ring.count == 0
    requires forall i :: 0 <= i < |lines| ==> |lines[i]| < LINE_CAPACITY
    ensures Recents(AddAll(ring, lines)) == RememberAll(lines)
  {
    if lines != [] {
      AddAllRemembers(ring, lines[..|lines| - 1]);
      AddRemembers(AddAll(ring, lines[..|lines| - 1]), lines[|lines| - 1]);
    }
  }

  /** What is remembered can be recalled safely: it is printable and fits a line. */
  lemma RememberKeepsGood(history: seq<string>, line: string)
    requires GoodHistory(history) && AllPrintable(line) && |line| < LINE_CAPACITY
    ensures GoodHistory(Remember(history, line))
  {
  }
}
