/**
 The memtest shell command, run against the real allocator: it passes exactly when three pages are free,
 and whatever happens it gives back every page it took.
 */
module MemTest {
  import opened Bits
  import opened PageAlloc
  import opened InPlaceAllocator

  const PAGE_COUNT: nat := 3

  /** The live pages of a are those of before and the pages held by the test. */
  ghost predicate Holding(a: Allocator, before: Allocator, pages: seq<Word>) {
    && Inv(a)
    && a.totalPages == before.totalPages
    && a.usedPages == before.usedPages + |pages|
    && (forall i :: 0 <= i < |pages| ==> IsPage(pages[i]) && !Live(before, pages[i]))
    && (forall i, j :: 0 <= i < j < |pages| ==> pages[i] != pages[j])
    && (forall p: nat :: Live(a, p) <==> Live(before, p) || p in pages)
  }

  predicate IsZero(memory: seq<Word>, page: nat)
    requires |memory| == RAM_WORDS && IsPage(page)
  {
    PageIndices(page);
    forall w :: 0 <= w < PAGE_WORDS ==> PageWord(memory, page, w) == 0
  }

  method PageIsZero(allocator: PageAllocator, page: Word) returns (zero: bool)
    requires allocator.Valid() && IsPage(page)
    ensures zero <==> IsZero(allocator.memory[..], page)
  {
    PageIndices(page);
    var index := 0;
    while index < PAGE_WORDS
      invariant 0 <= index <= PAGE_WORDS
      invariant forall w :: 0 <= w < index ==> PageWord(allocator.memory[..], page, w) == 0
    {
      if allocator.memory[WordAt(page) + index] != 0 {
        assert PageWord(allocator.memory[..], page, index) != 0;
        return false;
      }
      index := index + 1;
    }
    return true;
  }

  lemma ExtendHeld(a: Allocator, b: Allocator, before: Allocator, pages: seq<Word>, page: Word)
    requires Holding(a, before, pages)
    requires Inv(b) && b.totalPages == before.totalPages && b.usedPages == a.usedPages + 1
    requires IsPage(page) && !Live(a, page)
    requires forall p: nat :: Live(b, p) <==> Live(a, p) || p == page
    ensures Holding(b, before, pages + [page])
  {
    hide Inv, Live;
    var more := pages + [page];
    forall p: nat
      ensures p in more <==> p in pages || p == page
    {
    }
    forall i | 0 <= i < |pages|
      ensures more[i] != page
    {
      assert pages[i] in pages;
    }
  }

  lemma AllocateHeld(a: Allocator, before: Allocator, pages: seq<Word>)
    requires Inv(before) && Holding(a, before, pages)
    ensures var (b, page) := Allocate(a);
      if page == NULL then b == a && FreePages(before) == |pages|
      else
        && FreePages(before) > |pages|
        && Holding(b, before, pages + [page])
        && IsPage(page) && IsZero(b.memory, page)
  {
    hide Inv, Live;
    AllocateIsFresh(a);
    var (b, page) := Allocate(a);
    if page != NULL {
      AllocateCounts(a);
      ExtendHeld(a, b, before, pages, page);
    }
  }

  lemma ReleaseHeld(a: Allocator, before: Allocator, pages: seq<Word>)
    requires Inv(before) && Holding(a, before, pages) && pages != []
    ensures var (b, ok) := Release(a, pages[0]);
      && ok && Holding(b, before, pages[1..]) && b.freeList == pages[0]
      && Release(b, pages[0]) == (b, false)
  {
    hide Inv, Live;
    var page, rest := pages[0], pages[1..];
    assert pages == [page] + rest;
    assert page in pages;
    ReleaseTakesBack(a, page);
    var b := Release(a, page).0;
    ReleaseTakesBack(b, page);
    forall p: nat
      ensures Live(b, p) <==> Live(before, p) || p in rest
    {
      assert p in pages <==> p == page || p in rest;
    }
  }

  lemma StoreHeld(a: Allocator, before: Allocator, pages: seq<Word>, i: nat, w: nat, value: Word)
    requires Holding(a, before, pages) && i < |pages| && w < PAGE_WORDS
    ensures WordAt(pages[i]) + w < RAM_WORDS
    ensures Holding(Store(a, WordAt(pages[i]) + w, value), before, pages)
  {
    PageIndices(pages[i]);
    assert pages[i] in pages;
    StoreKeepsLinks(a, WordAt(pages[i]) + w, value);
  }

  /** Page i carries the pattern in its first, middle and last word. */
  ghost predicate Marked(memory: seq<Word>, page: nat, i: nat) {
    && |memory| == RAM_WORDS && IsPage(page)
    && PageWord(memory, page, 0) == 0xa000 + i
    && PageWord(memory, page, PAGE_WORDS / 2) == 0xb000 + i
    && PageWord(memory, page, PAGE_WORDS - 1) == 0xc000 + i
  }

  lemma StoreMissesOtherPages(memory: seq<Word>, page: nat, w: nat, value: Word, other: nat, i: nat)
    requires |memory| == RAM_WORDS && IsPage(page) && w < PAGE_WORDS && other != page
    requires Marked(memory, other, i)
    ensures WordAt(page) + w < RAM_WORDS
    ensures Marked(memory[WordAt(page) + w := value], other, i)
  {
    PagesApart(page, other);
  }

  /** One of the stores of the pattern loop. */
  method Mark(allocator: PageAllocator, ghost before: Allocator, pages: seq<Word>, index: nat, w: nat, value: Word)
    requires index < |pages| && w < PAGE_WORDS
    requires Holding(allocator.State(), before, pages)
    modifies allocator.memory
    ensures Holding(allocator.State(), before, pages) && allocator.memory.Length == RAM_WORDS
    ensures allocator.State() == old(Store(allocator.State(), WordAt(pages[index]) + w, value))
    ensures forall j :: 0 <= j < index && old(Marked(allocator.memory[..], pages[j], j)) ==>
              Marked(allocator.memory[..], pages[j], j)
  {
    ghost var a := allocator.State();
    StoreHeld(a, before, pages, index, w, value);
    forall j | 0 <= j < index && Marked(a.memory, pages[j], j)
      ensures Marked(a.memory[WordAt(pages[index]) + w := value], pages[j], j)
    {
      StoreMissesOtherPages(a.memory, pages[index], w, value, pages[j], j);
    }
    allocator.memory[WordAt(pages[index]) + w] := value;
    assert allocator.memory[..] == a.memory[WordAt(pages[index]) + w := value];
  }

  /** Writes the pattern to every page, then reads it back: each page still holds its own. */
  method WriteAndCheck(allocator: PageAllocator, ghost before: Allocator, pages: seq<Word>) returns (intact: bool)
    requires |pages| == PAGE_COUNT && Holding(allocator.State(), before, pages)
    modifies allocator.memory
    ensures Holding(allocator.State(), before, pages)
    ensures intact && forall j :: 0 <= j < PAGE_COUNT ==> Marked(allocator.memory[..], pages[j], j)
  {
    hide Inv, Live;
    var index := 0;
    while index < |pages|
      invariant 0 <= index <= |pages|
      invariant Holding(allocator.State(), before, pages)
      invariant forall j :: 0 <= j < index ==> Marked(allocator.memory[..], pages[j], j)
    {
      Mark(allocator, before, pages, index, 0, 0xa000 + index);
      Mark(allocator, before, pages, index, PAGE_WORDS / 2, 0xb000 + index);
      Mark(allocator, before, pages, index, PAGE_WORDS - 1, 0xc000 + index);
      assert Marked(allocator.memory[..], pages[index], index);
      index := index + 1;
    }
    intact := true;
    ghost var marked := allocator.State();
    index := 0;
    while index < |pages|
      invariant 0 <= index <= |pages|
      invariant allocator.State() == marked
      invariant intact
    {
      PageIndices(pages[index]);
      var base := WordAt(pages[index]);
      assert Marked(marked.memory, pages[index], index);
      if allocator.memory[base] != 0xa000 + index || allocator.memory[base + PAGE_WORDS / 2] != 0xb000 + index ||
         allocator.memory[base + PAGE_WORDS - 1] != 0xc000 + index {
        intact := false;
      }
      index := index + 1;
    }
  }

  /** Up to three pages, each checked to be zero; fails exactly when fewer are free. */
  method TakePages(allocator: PageAllocator, ghost before: Allocator) returns (pages: seq<Word>, passed: bool)
    requires allocator.Valid() && allocator.State() == before
    modifies allocator, allocator.memory
    ensures Holding(allocator.State(), before, pages)
    ensures passed <==> FreePages(before) >= PAGE_COUNT
    ensures passed ==> |pages| == PAGE_COUNT
  {
    passed := true;
    pages := [];
    while |pages| < PAGE_COUNT && passed
      invariant |pages| <= PAGE_COUNT
      invariant Holding(allocator.State(), before, pages)
      invariant if passed then FreePages(before) >= |pages| else FreePages(before) == |pages| < PAGE_COUNT
      decreases passed, PAGE_COUNT - |pages|
    {
      AllocateHeld(allocator.State(), before, pages);
      var page := allocator.Alloc();
      if page == NULL {
        passed := false;
      } else {
        var zero := PageIsZero(allocator, page);
        passed := page % PAGE_SIZE == 0 && zero;
        pages := pages + [page];
      }
    }
  }

  /** Frees every page held; the last one ends up at the head of the free list. */
  method GiveBack(allocator: PageAllocator, ghost before: Allocator, pages: seq<Word>) returns (passed: bool)
    requires Inv(before) && Holding(allocator.State(), before, pages)
    modifies allocator, allocator.memory
    ensures Holding(allocator.State(), before, [])
    ensures passed
    ensures pages != [] ==> allocator.freeList == pages[|pages| - 1]
  {
    hide Inv, Live;
    passed := true;
    var index := 0;
    while index < |pages|
      invariant 0 <= index <= |pages|
      invariant Holding(allocator.State(), before, pages[index..])
      invariant passed
      invariant index > 0 ==> allocator.freeList == pages[index - 1]
    {
      ReleaseHeld(allocator.State(), before, pages[index..]);
      assert pages[index..][1..] == pages[index + 1..];
      var freed := allocator.Free(pages[index]);
      if !freed {
        passed := false;
      }
      index := index + 1;
    }
  }

  /** One more allocation must reuse the page at the head of the free list; it is given back at once. */
  method Reuse(allocator: PageAllocator, ghost before: Allocator, originals: seq<Word>) returns (passed: bool)
    requires Inv(before) && Holding(allocator.State(), before, [])
    requires FreePages(before) > 0 && allocator.freeList in originals && allocator.freeList != NULL
    modifies allocator, allocator.memory
    ensures Holding(allocator.State(), before, [])
    ensures passed
  {
    hide Inv, Live;
    AllocateHeld(allocator.State(), before, []);
    HeadIsReused(allocator.State());
    var reused := allocator.Alloc();
    var zero := PageIsZero(allocator, reused);
    passed := zero && reused in originals;
    assert [] + [reused] == [reused];
    ReleaseHeld(allocator.State(), before, [reused]);
    var freed := allocator.Free(reused);
    passed := passed && freed;
  }

  lemma HeadIsReused(a: Allocator)
    requires Inv(a) && a.freeList != NULL
    ensures Allocate(a).1 == a.freeList
  {
  }

  method MemoryTest(allocator: PageAllocator) returns (passed: bool)
    requires allocator.Valid()
    modifies allocator, allocator.memory
    ensures allocator.Valid()
    ensures passed <==> old(FreePages(allocator.State())) >= PAGE_COUNT
    ensures forall p: nat :: Live(allocator.State(), p) <==> old(Live(allocator.State(), p))
  {
    hide Inv, Live;
    ghost var before := allocator.State();
    var freeBefore := allocator.FreePageCount();
    var pages, taken := TakePages(allocator, before);
    passed := taken;
    var originals := pages;
    if passed {
      passed := WriteAndCheck(allocator, before, pages);
    }
    if passed {
      ReleaseHeld(allocator.State(), before, pages);
      var freed := allocator.Free(pages[0]);
      if !freed {
        passed := false;
      } else {
        var freedAgain := allocator.Free(pages[0]);
        if freedAgain {
          return false;
        }
        pages := pages[1..];
      }
    }
    var returned := GiveBack(allocator, before, pages);
    passed := passed && returned;
    var freeNow := allocator.FreePageCount();
    if passed && freeNow == freeBefore {
      assert originals[2] == pages[1];
      passed := Reuse(allocator, before, originals);
    } else {
      passed := false;
    }
    freeNow := allocator.FreePageCount();
    if freeNow != freeBefore {
      passed := false;
    }
  }
}
