/**
 page_alloc.c as it runs: the static variables and RAM, updated in place, with every operation tied to
 the function of PageAlloc that says what it does to the whole state.
 */
module InPlaceAllocator {
  import opened Bits
  import opened PageAlloc

  class PageAllocator {
    var initialized: bool
    var managedStart: Word
    var bumpNext: Word
    var freeList: Word
    var totalPages: Word
    var usedPages: Word
    const memory: array<Word>
    ghost var free: seq<Word>

    ghost function State(): Allocator
      reads this, memory
    {
      Allocator(initialized, managedStart, bumpNext, freeList, totalPages, usedPages, memory[..], free)
    }

    ghost predicate Valid()
      reads this, memory
    {
      Inv(State())
    }

    /** Before page_alloc_init: cleared static variables and whatever RAM happens to hold. */
    constructor (ram: array<Word>)
      requires ram.Length == RAM_WORDS
      ensures Valid() && !initialized && memory == ram
    {
      initialized := false;
      managedStart, bumpNext, freeList, totalPages, usedPages := 0, 0, NULL, 0, 0;
      memory := ram;
      free := [];
    }

    method ZeroPage(page: Word)
      requires memory.Length == RAM_WORDS && IsPage(page)
      modifies memory
      ensures memory[..] == Zeroed(old(memory[..]), page)
    {
      PageIndices(page);
      var base := WordAt(page);
      var index := 0;
      while index < PAGE_WORDS
        invariant 0 <= index <= PAGE_WORDS
        invariant forall i :: base <= i < base + index ==> memory[i] == 0
        invariant forall i :: 0 <= i < RAM_WORDS && !(base <= i < base + index) ==> memory[i] == old(memory[i])
      {
        memory[base + index] := 0;
        index := index + 1;
      }
      assert memory[..] == Zeroed(old(memory[..]), page);
    }

    static method AlignUpToPage(address: Word) returns (aligned: Word)
      ensures aligned == AlignUp(address)
    {
      aligned := And(Wrap64(address + PAGE_SIZE - 1), TWO_64 - PAGE_SIZE);
      PowersOfTwo();
      AndFieldMask(Wrap64(address + PAGE_SIZE - 1), 12, 52);
    }

    method Init(kernelEnd: Word)
      requires Valid()
      modifies this
      ensures Valid() && State() == Initialize(old(State()), kernelEnd)
    {
      InitializeManagesTheRest(State(), kernelEnd);
      var start := AlignUpToPage(kernelEnd);
      if initialized {
        return;
      }
      freeList := NULL;
      free := [];
      usedPages := 0;
      initialized := true;
      if start < RAM_START || start > RAM_END {
        managedStart := RAM_END;
        bumpNext := RAM_END;
        totalPages := 0;
        return;
      }
      managedStart := start;
      bumpNext := start;
      totalPages := (RAM_END - start) / PAGE_SIZE;
    }

    method Alloc() returns (page: Word)
      requires Valid()
      modifies this, memory
      ensures Valid()
      ensures (State(), page) == Allocate(old(State()))
    {
      hide Linked;
      ghost var before := State();
      AllocateIsFresh(before);
      if !initialized {
        return NULL;
      }
      if freeList != NULL {
        page := freeList;
        PageIndices(page);
        freeList := memory[WordAt(page)];
        free := free[1..];
      } else {
        if bumpNext >= RAM_END {
          return NULL;
        }
        page := bumpNext;
        bumpNext := bumpNext + PAGE_SIZE;
      }
      usedPages := Wrap64(usedPages + 1);
      assert memory[..] == before.memory;
      ZeroPage(page);
      assert State() == Allocate(before).0;
    }

    static lemma AlignmentMask(address: Word)
      ensures And(address, PAGE_SIZE - 1) == address % PAGE_SIZE
    {
      PowersOfTwo();
      AndLowMask(address, 12);
    }

    /** The walk along the links that page_free makes to refuse a double free. */
    method OnFreeList(page: Word) returns (found: bool)
      requires Valid()
      ensures found <==> page in free
    {
      var current := freeList;
      ghost var walked := 0;
      while current != NULL
        invariant 0 <= walked <= |free|
        invariant current == Nth(free, walked)
        invariant page !in free[..walked]
        decreases |free| - walked
      {
        NextLink(State(), walked);
        if current == page {
          return true;
        }
        current := memory[WordAt(current)];
        walked := walked + 1;
      }
      assert free[..walked] == free;
      return false;
    }

    static ghost function Nth(free: seq<Word>, n: nat): Word {
      if n < |free| then free[n] else NULL
    }

    static lemma NextLink(a: Allocator, walked: nat)
      requires Inv(a) && walked <= |a.free| && Nth(a.free, walked) != NULL
      ensures walked < |a.free| && IsPage(a.free[walked]) && WordAt(a.free[walked]) < RAM_WORDS
      ensures a.memory[WordAt(a.free[walked])] == Nth(a.free, walked + 1)
    {
      PageIndices(a.free[walked]);
    }

    method Free(page: Word) returns (ok: bool)
      requires Valid()
      modifies this, memory
      ensures Valid()
      ensures (State(), ok) == Release(old(State()), page)
    {
      ghost var before := State();
      ReleaseTakesBack(before, page);
      AlignmentMask(page);
      if !initialized || page == NULL || And(page, PAGE_SIZE - 1) != 0 ||
         page < managedStart || page >= bumpNext || page >= RAM_END || usedPages == 0 {
        return false;
      }
      var found := OnFreeList(page);
      if found {
        return false;
      }
      memory[WordAt(page)] := freeList;
      freeList := page;
      free := [page] + free;
      usedPages := usedPages - 1;
      assert State() == Release(before, page).0;
      return true;
    }

    method FreePageCount() returns (count: Word)
      requires Valid()
      ensures count == FreePages(State())
    {
      count := Wrap64(totalPages - usedPages);
    }
  }
}
