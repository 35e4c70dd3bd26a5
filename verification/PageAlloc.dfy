/**
 The physical page allocator: a bump pointer and an intrusive free list whose links live in word 0 of
 the freed pages. The state is RAM itself, word by word; `free` is the sequence that the links spell out.
 */
module PageAlloc {
  import opened Bits

  const NULL: Word := 0
  const PAGE_SIZE: Word := 4096
  const PAGE_WORDS: nat := 512
  const RAM_START: Word := 0x4000_0000
  const RAM_END: Word := 0x4800_0000
  const RAM_WORDS: nat := 0x100_0000

  datatype Allocator = Allocator(
    initialized: bool,
    managedStart: Word,
    bumpNext: Word,
    freeList: Word,
    totalPages: Word,
    usedPages: Word,
    memory: seq<Word>,
    free: seq<Word>)

  /** A page frame of RAM. */
  predicate IsPage(page: nat) {
    RAM_START <= page < RAM_END && page % PAGE_SIZE == 0
  }

  /** The index in RAM of the 64-bit word at a physical address. */
  function WordAt(address: nat): nat
    requires RAM_START <= address
  {
    (address - RAM_START) / 8
  }

  /** The page frame an index in RAM belongs to. */
  function PageOf(index: nat): nat {
    RAM_START + index / PAGE_WORDS * PAGE_SIZE
  }

  /** The links stored in memory, followed from head, visit exactly the pages of free and end in NULL. */
  ghost predicate Linked(memory: seq<Word>, head: Word, free: seq<Word>)
    requires |memory| == RAM_WORDS
  {
    && head == (if free == [] then NULL else free[0])
    && (forall i :: 0 <= i < |free| ==> IsPage(free[i]))
    && (forall i, j :: 0 <= i < j == i + 1 < |free| ==> memory[WordAt(free[i])] == free[j])
    && (free != [] ==> memory[WordAt(free[|free| - 1])] == NULL)
  }

  ghost predicate Inv(a: Allocator) {
    && |a.memory| == RAM_WORDS
    && (!a.initialized ==>
          a.managedStart == a.bumpNext == a.freeList == a.totalPages == a.usedPages == 0 && a.free == [])
    && (a.initialized ==>
          && RAM_START <= a.managedStart <= a.bumpNext <= RAM_END
          && a.managedStart % PAGE_SIZE == 0 && a.bumpNext % PAGE_SIZE == 0
          && a.totalPages * PAGE_SIZE == RAM_END - a.managedStart
          && (a.usedPages + |a.free|) * PAGE_SIZE == a.bumpNext - a.managedStart)
    && (forall i :: 0 <= i < |a.free| ==> a.managedStart <= a.free[i] < a.bumpNext)
    && (forall i, j :: 0 <= i < j < |a.free| ==> a.free[i] != a.free[j])
    && Linked(a.memory, a.freeList, a.free)
  }

  /** A page that has been handed out and not yet taken back. */
  predicate Live(a: Allocator, page: nat) {
    a.managedStart <= page < a.bumpNext && page % PAGE_SIZE == 0 && page !in a.free
  }

  function FreePages(a: Allocator): Word {
    Wrap64(a.totalPages - a.usedPages)
  }

  /** Word w of a page. */
  function PageWord(memory: seq<Word>, page: nat, w: nat): Word
    requires |memory| == RAM_WORDS && IsPage(page) && w < PAGE_WORDS
  {
    memory[WordAt(page) + w]
  }

  // ---- The operations, as functions of the whole state ----

  function Zeroed(memory: seq<Word>, page: nat): (zeroed: seq<Word>)
    requires |memory| == RAM_WORDS && IsPage(page)
    ensures |zeroed| == RAM_WORDS
  {
    seq(RAM_WORDS, i requires 0 <= i < RAM_WORDS =>
      if WordAt(page) <= i < WordAt(page) + PAGE_WORDS then 0 else memory[i])
  }

  function AlignUp(address: Word): Word {
    Wrap64(address + PAGE_SIZE - 1) / PAGE_SIZE * PAGE_SIZE
  }

  function Initialize(a: Allocator, kernelEnd: Word): Allocator {
    var start := AlignUp(kernelEnd);
    if a.initialized then a
    else
      var b := a.(initialized := true, freeList := NULL, free := [], usedPages := 0);
      if start < RAM_START || start > RAM_END then
        b.(managedStart := RAM_END, bumpNext := RAM_END, totalPages := 0)
      else
        b.(managedStart := start, bumpNext := start, totalPages := (RAM_END - start) / PAGE_SIZE)
  }

  function Allocate(a: Allocator): (Allocator, Word)
    requires Inv(a)
  {
    if !a.initialized then (a, NULL)
    else if a.freeList != NULL then
      (HandOut(a.(freeList := a.memory[WordAt(a.freeList)], free := a.free[1..]), a.freeList), a.freeList)
    else if a.bumpNext >= RAM_END then (a, NULL)
    else (HandOut(a.(bumpNext := a.bumpNext + PAGE_SIZE), a.bumpNext), a.bumpNext)
  }

  function HandOut(a: Allocator, page: Word): Allocator
    requires |a.memory| == RAM_WORDS && IsPage(page)
  {
    a.(usedPages := Wrap64(a.usedPages + 1), memory := Zeroed(a.memory, page))
  }

  function Release(a: Allocator, page: Word): (Allocator, bool)
    requires Inv(a)
  {
    if !a.initialized || page == NULL || page % PAGE_SIZE != 0 ||
       page < a.managedStart || page >= a.bumpNext || page >= RAM_END || a.usedPages == 0 ||
       page in a.free
    then (a, false)
    else
      (a.(memory := a.memory[WordAt(page) := a.freeList],
          freeList := page,
          free := [page] + a.free,
          usedPages := a.usedPages - 1), true)
  }

  /** A client's store of one word. */
  function Store(a: Allocator, index: nat, value: Word): Allocator
    requires index < |a.memory|
  {
    a.(memory := a.memory[index := value])
  }

  // ---- Facts about addresses ----

  lemma PageIndices(page: nat)
    requires IsPage(page)
    ensures WordAt(page) % PAGE_WORDS == 0 && WordAt(page) + PAGE_WORDS <= RAM_WORDS
    ensures forall i: nat :: WordAt(page) <= i < WordAt(page) + PAGE_WORDS <==> PageOf(i) == page
  {
    assert WordAt(page) == (page - RAM_START) / PAGE_SIZE * PAGE_WORDS;
  }

  /** The words of different pages do not overlap. */
  lemma PagesApart(p: nat, q: nat)
    requires IsPage(p) && IsPage(q) && p != q
    ensures WordAt(p) + PAGE_WORDS <= RAM_WORDS
    ensures WordAt(p) + PAGE_WORDS <= WordAt(q) || WordAt(q) + PAGE_WORDS <= WordAt(p)
  {
    var i, j := (p - RAM_START) / PAGE_SIZE, (q - RAM_START) / PAGE_SIZE;
    assert p == RAM_START + i * PAGE_SIZE && q == RAM_START + j * PAGE_SIZE;
    assert WordAt(p) == i * PAGE_WORDS && WordAt(q) == j * PAGE_WORDS;
  }

  lemma ZeroedTouchesOnePage(memory: seq<Word>, page: nat)
    requires |memory| == RAM_WORDS && IsPage(page)
    ensures WordAt(page) + PAGE_WORDS <= RAM_WORDS
    ensures forall w :: 0 <= w < PAGE_WORDS ==> PageWord(Zeroed(memory, page), page, w) == 0
    ensures forall i :: 0 <= i < RAM_WORDS && PageOf(i) != page ==> Zeroed(memory, page)[i] == memory[i]
  {
    PageIndices(page);
  }

  /** The list is still there after a store that misses every free page. */
  lemma LinksSurvive(before: seq<Word>, after: seq<Word>, head: Word, free: seq<Word>)
    requires |before| == |after| == RAM_WORDS
    requires Linked(before, head, free)
    requires forall i :: 0 <= i < RAM_WORDS && PageOf(i) in free ==> after[i] == before[i]
    ensures Linked(after, head, free)
  {
    forall i | 0 <= i < |free|
      ensures after[WordAt(free[i])] == before[WordAt(free[i])]
    {
      PageIndices(free[i]);
      assert PageOf(WordAt(free[i])) == free[i];
    }
  }

  lemma PopLinks(memory: seq<Word>, head: Word, free: seq<Word>)
    requires |memory| == RAM_WORDS && Linked(memory, head, free) && head != NULL
    ensures free != [] && head == free[0] && IsPage(head) && WordAt(head) < RAM_WORDS
    ensures Linked(memory, memory[WordAt(head)], free[1..])
  {
    if |free| > 1 {
      assert memory[WordAt(free[0])] == free[1];
    }
  }

  lemma PushLinks(memory: seq<Word>, head: Word, free: seq<Word>, page: Word)
    requires |memory| == RAM_WORDS && Linked(memory, head, free) && IsPage(page) && page !in free
    ensures Linked(memory[WordAt(page) := head], page, [page] + free)
  {
    PageIndices(page);
    LinksSurvive(memory, memory[WordAt(page) := head], head, free);
  }

  // ---- What each operation does to the live pages, the free list and memory ----

  lemma AllocateFailsWhenFull(a: Allocator)
    requires Inv(a)
    ensures Allocate(a).1 == NULL <==> FreePages(a) == 0
    ensures Allocate(a).1 == NULL ==> Allocate(a).0 == a
  {
    assert a.freeList == NULL ==> a.free == [];
  }

  /** The used count stays far below the wrap of its 64 bits. */
  lemma AllocateCounts(a: Allocator)
    requires Inv(a) && Allocate(a).1 != NULL
    ensures Allocate(a).0.usedPages == a.usedPages + 1 && Allocate(a).0.totalPages == a.totalPages
    ensures a.usedPages < a.totalPages && FreePages(Allocate(a).0) == FreePages(a) - 1
  {
    AllocateFailsWhenFull(a);
    FreePagesIs(a);
  }

  lemma FreePagesIs(a: Allocator)
    requires Inv(a)
    ensures a.usedPages <= a.totalPages && FreePages(a) == a.totalPages - a.usedPages
  {
  }

  lemma ReuseKeepsInv(a: Allocator)
    requires Inv(a) && a.initialized && a.freeList != NULL
    ensures var (b, page) := Allocate(a);
      && Inv(b) && IsPage(page) && a.free == [page] + b.free && page !in b.free
      && a.managedStart <= page < a.bumpNext
      && b.managedStart == a.managedStart && b.bumpNext == a.bumpNext
  {
    hide Linked;
    var (b, page) := Allocate(a);
    PopLinks(a.memory, a.freeList, a.free);
    assert a.free == [page] + b.free;
    ZeroedTouchesOnePage(a.memory, page);
    AllocateCounts(a);
    LinksSurvive(a.memory, b.memory, b.freeList, b.free);
  }

  lemma BumpKeepsInv(a: Allocator)
    requires Inv(a) && a.initialized && a.freeList == NULL && a.bumpNext < RAM_END
    ensures var (b, page) := Allocate(a);
      && Inv(b) && IsPage(page) && a.free == b.free == []
      && page == a.bumpNext >= a.managedStart == b.managedStart && b.bumpNext == page + PAGE_SIZE
  {
    assert a.free == [];
  }

  /** page_alloc keeps the invariant; it fails exactly when page_free_pages() is 0; and what it hands
      out is a fresh page of zeros, with every page that was live still live and word for word the same. */
  lemma AllocateIsFresh(a: Allocator)
    requires Inv(a)
    ensures var (b, page) := Allocate(a);
      && Inv(b) && |b.memory| == RAM_WORDS
      && (page == NULL <==> FreePages(a) == 0)
      && (page == NULL ==> b == a)
      && (page != NULL ==>
            && IsPage(page) && !Live(a, page)
            && (forall w :: 0 <= w < PAGE_WORDS ==> PageWord(b.memory, page, w) == 0)
            && (forall p :: Live(b, p) <==> Live(a, p) || p == page)
            && (forall i :: 0 <= i < RAM_WORDS && PageOf(i) != page ==> b.memory[i] == a.memory[i]))
  {
    var (b, page) := Allocate(a);
    AllocateFailsWhenFull(a);
    if page != NULL {
      if a.freeList != NULL {
        ReuseKeepsInv(a);
      } else {
        BumpKeepsInv(a);
      }
      AllocateLiveness(a);
      ZeroedTouchesOnePage(a.memory, page);
    }
  }

  lemma AllocateLiveness(a: Allocator)
    requires Inv(a) && Allocate(a).1 != NULL
    ensures var (b, page) := Allocate(a);
      !Live(a, page) && forall p :: Live(b, p) <==> Live(a, p) || p == page
  {
    hide Inv;
    var (b, page) := Allocate(a);
    if a.freeList != NULL {
      ReuseKeepsInv(a);
      forall p
        ensures p in a.free <==> p == page || p in b.free
      {
      }
    } else {
      BumpKeepsInv(a);
    }
  }

  /** page_free succeeds exactly on a live page - so its used_pages == 0 guard never decides anything -
      and then only that page stops being live and only its word 0 changes. */
  lemma ReleaseTakesBack(a: Allocator, page: Word)
    requires Inv(a)
    ensures var (b, ok) := Release(a, page);
      && Inv(b)
      && (ok <==> Live(a, page))
      && (!ok ==> b == a)
      && (ok ==>
            && IsPage(page)
            && (forall p :: Live(b, p) <==> Live(a, p) && p != page)
            && (forall i :: 0 <= i < RAM_WORDS && i != WordAt(page) ==> b.memory[i] == a.memory[i]))
  {
    var (b, ok) := Release(a, page);
    if Live(a, page) {
      LivePageIsCounted(a, page);
    }
    if ok {
      PushLinks(a.memory, a.freeList, a.free, page);
    }
  }

  /** The page freed last is handed out first, and then the allocator is back where it was, but for the contents
      of that page. */
  lemma FreedPageComesBackFirst(a: Allocator, page: Word)
    requires Inv(a) && Live(a, page)
    ensures var b := Release(a, page).0;
      && Inv(b) && IsPage(page) && Allocate(b).1 == page
      && Allocate(b).0 == a.(memory := Zeroed(a.memory, page))
  {
    hide Linked;
    LivePageIsCounted(a, page);
    ReleaseTakesBack(a, page);
    PageIndices(page);
    var b := Release(a, page).0;
    assert Zeroed(b.memory, page) == Zeroed(a.memory, page);
    assert b.free[1..] == a.free;
  }

  /** With nothing to reuse, pages are handed out in the order of their addresses. */
  lemma FreshPagesComeInOrder(a: Allocator)
    requires Inv(a) && a.free == [] && FreePages(a) != 0
    ensures var (b, page) := Allocate(a);
      page == a.bumpNext && b.bumpNext == page + PAGE_SIZE && b.free == []
  {
    FreePagesIs(a);
    AllocateFailsWhenFull(a);
  }

  /** A client that writes only a live page leaves the links alone. */
  lemma StoreKeepsLinks(a: Allocator, index: nat, value: Word)
    requires Inv(a) && index < RAM_WORDS && Live(a, PageOf(index))
    ensures Inv(Store(a, index, value))
    ensures forall p :: Live(Store(a, index, value), p) <==> Live(a, p)
  {
    LinksSurvive(a.memory, Store(a, index, value).memory, a.freeList, a.free);
  }

  /** Rounding up to the next page boundary, where the addition does not wrap. */
  lemma AlignUpIs(address: Word)
    requires address < TWO_64 - PAGE_SIZE
    ensures AlignUp(address) % PAGE_SIZE == 0 && address <= AlignUp(address) < address + PAGE_SIZE
  {
  }

  /** The allocator starts with every page from the first boundary after the kernel to the end of RAM free,
      and none live. Which kernel ends leave it no pages is decided after rounding: one less than a page below
      RAM still rounds up to its start. A second call changes nothing. */
  lemma InitializeManagesTheRest(a: Allocator, kernelEnd: Word)
    requires Inv(a)
    ensures var b := Initialize(a, kernelEnd);
      && Inv(b) && b.initialized && b.memory == a.memory
      && (forall p :: Live(b, p) <==> Live(a, p))
      && (a.initialized ==> b == a)
      && (!a.initialized ==>
            && (FreePages(b) == 0 <==> !(RAM_START - PAGE_SIZE < kernelEnd <= RAM_END - PAGE_SIZE))
            && FreePages(b) * PAGE_SIZE == RAM_END - b.managedStart
            && (RAM_START - PAGE_SIZE < kernelEnd <= RAM_END ==>
                  kernelEnd <= b.managedStart < kernelEnd + PAGE_SIZE))
  {
    var start := AlignUp(kernelEnd);
    if kernelEnd < TWO_64 - PAGE_SIZE {
      AlignUpIs(kernelEnd);
    }
    AlignedEnd(start);
    FreePagesIs(Initialize(a, kernelEnd));
  }

  /** A kernel that ends just below RAM gets all of it: the guard looks at the rounded address. */
  lemma KernelBelowRamGetsAllPages(a: Allocator)
    requires Inv(a) && !a.initialized
    ensures var b := Initialize(a, RAM_START - 1);
      b.managedStart == RAM_START && FreePages(b) == b.totalPages == 32768
  {
    InitializeManagesTheRest(a, RAM_START - 1);
  }

  lemma AlignedEnd(start: nat)
    requires start % PAGE_SIZE == 0
    ensures start <= RAM_END ==> (RAM_END - start) / PAGE_SIZE * PAGE_SIZE == RAM_END - start
  {
  }

  // ---- used_pages is the number of live pages ----

  /** The first n page frames from start on. */
  ghost function PageRange(start: nat, n: nat): (pages: set<nat>)
    requires start % PAGE_SIZE == 0
    ensures forall p :: p in pages <==> start <= p < start + n * PAGE_SIZE && p % PAGE_SIZE == 0
    ensures |pages| == n
  {
    if n == 0 then {}
    else
      OnePage(start / PAGE_SIZE + n - 1);
      PageRange(start, n - 1) + {start + (n - 1) * PAGE_SIZE}
  }

  lemma OnePage(k: nat)
    ensures k * PAGE_SIZE % PAGE_SIZE == 0
    ensures forall p :: k * PAGE_SIZE <= p < (k + 1) * PAGE_SIZE && p % PAGE_SIZE == 0 ==> p == k * PAGE_SIZE
  {
  }

  ghost function Elements(s: seq<Word>): (elements: set<nat>)
    requires forall i, j :: 0 <= i < j < |s| ==> s[i] != s[j]
    ensures forall p :: p in elements <==> p in s
    ensures |elements| == |s|
  {
    if s == [] then {}
    else
      var front, last := s[..|s| - 1], s[|s| - 1];
      assert s == front + [last] && last !in front;
      Elements(front) + {last}
  }

  ghost function LivePages(a: Allocator): (pages: set<nat>)
    requires Inv(a)
    ensures forall p :: p in pages <==> Live(a, p)
  {
    PageRange(a.managedStart, a.usedPages + |a.free|) - Elements(a.free)
  }

  /** used_pages is exactly the number of live pages. */
  lemma UsedPagesCountsLivePages(a: Allocator)
    requires Inv(a)
    ensures |LivePages(a)| == a.usedPages
  {
    FreePagesInRange(a);
    DifferenceSize(PageRange(a.managedStart, a.usedPages + |a.free|), Elements(a.free));
  }

  lemma FreePagesInRange(a: Allocator)
    requires Inv(a)
    ensures Elements(a.free) <= PageRange(a.managedStart, a.usedPages + |a.free|)
  {
    forall p | p in Elements(a.free)
      ensures p in PageRange(a.managedStart, a.usedPages + |a.free|)
    {
      FreePageIsPage(a, p);
    }
  }

  lemma FreePageIsPage(a: Allocator, page: nat)
    requires Inv(a) && page in a.free
    ensures IsPage(page) && a.managedStart <= page < a.bumpNext
  {
    var i :| 0 <= i < |a.free| && a.free[i] == page;
  }

  lemma DifferenceSize(all: set<nat>, some: set<nat>)
    requires some <= all
    ensures |all - some| == |all| - |some|
  {
    assert all == (all - some) + some;
  }

  lemma LivePageIsCounted(a: Allocator, page: nat)
    requires Inv(a) && Live(a, page)
    ensures a.initialized && a.usedPages > 0
  {
    UsedPagesCountsLivePages(a);
    assert page in LivePages(a);
  }

  // ---- Runs ----

  datatype Request =
    | AllocateRequest
    | ReleaseRequest(page: Word)
    | StoreRequest(index: nat, value: Word)

  /** Clients may release anything at all, but write only to live pages. */
  predicate MayServe(a: Allocator, request: Request) {
    request.StoreRequest? ==> request.index < RAM_WORDS && Live(a, PageOf(request.index))
  }

  function Serve(a: Allocator, request: Request): Allocator
    requires Inv(a) && MayServe(a, request)
  {
    match request
    case AllocateRequest => Allocate(a).0
    case ReleaseRequest(page) => Release(a, page).0
    case StoreRequest(index, value) => Store(a, index, value)
  }

  lemma ServeKeepsInv(a: Allocator, request: Request)
    requires Inv(a) && MayServe(a, request)
    ensures Inv(Serve(a, request))
  {
    match request
    case AllocateRequest => AllocateIsFresh(a);
    case ReleaseRequest(page) => ReleaseTakesBack(a, page);
    case StoreRequest(index, value) => StoreKeepsLinks(a, index, value);
  }

  ghost predicate MayServeAll(a: Allocator, requests: seq<Request>)
    requires Inv(a)
    decreases |requests|
  {
    requests != [] ==>
      MayServe(a, requests[0]) &&
      (ServeKeepsInv(a, requests[0]); MayServeAll(Serve(a, requests[0]), requests[1..]))
  }

  ghost function ServeAll(a: Allocator, requests: seq<Request>): (b: Allocator)
    requires Inv(a) && MayServeAll(a, requests)
    ensures Inv(b)
    decreases |requests|
  {
    if requests == [] then a
    else
      ServeKeepsInv(a, requests[0]);
      ServeAll(Serve(a, requests[0]), requests[1..])
  }
}
