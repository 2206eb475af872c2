/**
  Which pointers are ours.  The replaced malloc recognises its own blocks at their release by the
  range of its heap and, outside it, by a count of blocks starting on each page.
  */
module MallocOwnership {
  import opened Bytes

  type Pointer = nat

  const NULL: Pointer := 0
  const UNSET: Pointer := 0xFFFF_FFFF_FFFF_FFFF

  /** The part of the hook state that decides ownership. */
  datatype Hook = Hook(page: nat, start: Pointer, end: Pointer, pages: map<Pointer, nat>)

  /** A call of sbrk() by the allocator: its result and the break after it. */
  datatype Break = Break(result: Pointer, brk: Pointer)

  predicate InHeap(h: Hook, p: Pointer) { h.start <= p < h.end }

  function PageOf(h: Hook, p: Pointer): Pointer
    requires h.page > 0
  {
    p - p % h.page
  }

  // ----- what each operation does -----

  function AfterBreak(h: Hook, e: Break): Hook {
    h.(start := if h.start == UNSET then e.result else h.start, end := e.brk)
  }

  function AfterBreaks(h: Hook, events: seq<Break>): (h': Hook)
    ensures h'.pages == h.pages && h'.page == h.page
    decreases |events|
  {
    if events == [] then h else AfterBreaks(AfterBreak(h, events[0]), events[1..])
  }

  function Allocated(h: Hook, p: Pointer): (h': Hook)
    requires h.page > 0
    ensures h'.start == h.start && h'.end == h.end && h'.page == h.page
  {
    var page := PageOf(h, p);
    if InHeap(h, p) then h
    else h.(pages := h.pages[page := if page in h.pages then h.pages[page] + 1 else 1])
  }

  predicate Recognised(h: Hook, p: Pointer)
    requires h.page > 0
  {
    InHeap(h, p) || PageOf(h, p) in h.pages
  }

  function Removed(h: Hook, p: Pointer): (h': Hook)
    requires h.page > 0
    ensures h'.start == h.start && h'.end == h.end && h'.page == h.page
  {
    var page := PageOf(h, p);
    if InHeap(h, p) || page !in h.pages then h
    else if h.pages[page] <= 1 then h.(pages := h.pages - {page})
    else h.(pages := h.pages[page := h.pages[page] - 1])
  }

  // ----- the truth the page counts must agree with -----

  /** Outside the heap, on that page. */
  predicate Here(h: Hook, p: Pointer, page: Pointer)
    requires h.page > 0
  {
    !InHeap(h, p) && PageOf(h, p) == page
  }

  /** The live own blocks outside the heap that start on a page. */
  ghost function BlocksOn(h: Hook, live: set<Pointer>, page: Pointer): set<Pointer>
    requires h.page > 0
  {
    set p | p in live && Here(h, p, page)
  }

  function Count(h: Hook, page: Pointer): nat { if page in h.pages then h.pages[page] else 0 }

  /** A page whose count reaches 0 has no entry. */
  ghost predicate Positive(h: Hook) { forall page :: page in h.pages ==> h.pages[page] > 0 }

  /** How many blocks too many are counted on a page; negative if too few. */
  ghost function Drift(h: Hook, live: set<Pointer>, page: Pointer): int
    requires h.page > 0
  {
    Count(h, page) - |BlocksOn(h, live, page)|
  }

  /** The counts are exact. */
  ghost predicate Agrees(h: Hook, live: set<Pointer>) {
    h.page > 0 && Positive(h) && forall page :: Drift(h, live, page) == 0
  }

  lemma AddedOn(h: Hook, h': Hook, live: set<Pointer>, p: Pointer, page: Pointer)
    requires h.page > 0 && p !in live && h' == h.(pages := h'.pages)
    ensures |BlocksOn(h', live + {p}, page)| == |BlocksOn(h, live, page)| + One(Here(h, p, page))
    ensures BlocksOn(h', live, page) == BlocksOn(h, live, page)
  {
    hide Here;
    SameBlocks(h, h', live + {p}, page);
    SameBlocks(h, h', live, page);
    var was := BlocksOn(h, live, page);
    if Here(h, p, page) {
      assert BlocksOn(h, live + {p}, page) == was + {p};
    } else {
      assert BlocksOn(h, live + {p}, page) == was;
    }
  }

  lemma SameBlocks(h: Hook, h': Hook, live: set<Pointer>, page: Pointer)
    requires h.page > 0 && h' == h.(pages := h'.pages)
    ensures BlocksOn(h', live, page) == BlocksOn(h, live, page)
  {
    hide Here;
    forall q ensures Here(h', q, page) == Here(h, q, page) {
      SameHere(h, h', q, page);
    }
  }

  lemma SameHere(h: Hook, h': Hook, p: Pointer, page: Pointer)
    requires h.page > 0 && h' == h.(pages := h'.pages)
    ensures Here(h', p, page) == Here(h, p, page)
  {}

  lemma AllocatedCounts(h: Hook, p: Pointer, page: Pointer)
    requires h.page > 0 && Positive(h)
    ensures Positive(Allocated(h, p)) && Count(Allocated(h, p), page) == Count(h, page) + One(Here(h, p, page))
  {}

  lemma RemovedCounts(h: Hook, p: Pointer, page: Pointer)
    requires h.page > 0 && Positive(h)
    ensures Positive(Removed(h, p))
    ensures Count(Removed(h, p), page) == Count(h, page) - One(Here(h, p, page) && Count(h, page) > 0)
    ensures Recognised(h, p) <==> InHeap(h, p) || Count(h, PageOf(h, p)) > 0
  {}

  /** Moving the break gives no address 0 and does not carry a live block into the heap or out of it. */
  ghost predicate Keeps(h: Hook, live: set<Pointer>, events: seq<Break>)
    decreases |events|
  {
    events == [] ||
    (&& events[0].result != NULL
     && (forall p :: p in live ==> InHeap(AfterBreak(h, events[0]), p) == InHeap(h, p))
     && Keeps(AfterBreak(h, events[0]), live, events[1..]))
  }

  /** The heap ends at the last break, and starts where it did or, the first time, at the first result. */
  lemma {:induction false} HeapBounds(h: Hook, events: seq<Break>)
    ensures var h' := AfterBreaks(h, events);
            && h'.end == (if events == [] then h.end else events[|events| - 1].brk)
            && (h.start != UNSET || events == [] ==> h'.start == h.start)
            && (h.start == UNSET && events != [] && events[0].result != UNSET ==> h'.start == events[0].result)
    decreases |events|
  {
    if events != [] {
      HeapBounds(AfterBreak(h, events[0]), events[1..]);
    }
  }

  /** No count changes, and no block moves between heap and pages. */
  lemma {:induction false} BreaksAgree(h: Hook, live: set<Pointer>, events: seq<Break>)
    requires h.page > 0 && Keeps(h, live, events)
    ensures var h' := AfterBreaks(h, events);
            && (forall page :: BlocksOn(h', live, page) == BlocksOn(h, live, page))
            && (forall p :: p in live ==> InHeap(h', p) == InHeap(h, p))
            && (h.start != NULL ==> h'.start != NULL)
    decreases |events|
  {
    if events != [] {
      BreaksAgree(AfterBreak(h, events[0]), live, events[1..]);
    }
  }

  lemma AllocatedDrift(h: Hook, live: set<Pointer>, p: Pointer, page: Pointer)
    requires h.page > 0 && Positive(h) && p !in live
    ensures Drift(Allocated(h, p), live + {p}, page) == Drift(h, live, page)
    ensures Drift(Allocated(h, p), live, page) == Drift(h, live, page) + One(Here(h, p, page))
  {
    AllocatedCounts(h, p, page);
    AddedOn(h, Allocated(h, p), live, p, page);
  }

  /** Without its block, a count of 0 is one block nearer to the truth. */
  lemma RemovedDrift(h: Hook, live: set<Pointer>, p: Pointer, page: Pointer)
    requires h.page > 0 && Positive(h) && p in live
    ensures Drift(Removed(h, p), live - {p}, page) ==
            Drift(h, live, page) + One(Here(h, p, page) && Count(h, page) == 0)
    ensures Drift(Removed(h, p), live, page) ==
            Drift(h, live, page) - One(Here(h, p, page) && Count(h, page) > 0)
  {
    var h' := Removed(h, p);
    RemovedCounts(h, p, page);
    AddedOn(h', h, live - {p}, p, page);
    AddedOn(h, h', live - {p}, p, page);
    assert live - {p} + {p} == live;
  }

  lemma AllocatedAgrees(h: Hook, live: set<Pointer>, p: Pointer)
    requires Agrees(h, live) && p !in live
    ensures Agrees(Allocated(h, p), live + {p})
  {
    AllocatedCounts(h, p, 0);
    forall page ensures Drift(Allocated(h, p), live + {p}, page) == 0 {
      AllocatedDrift(h, live, p, page);
    }
  }

  lemma RemovedAgrees(h: Hook, live: set<Pointer>, p: Pointer)
    requires Agrees(h, live) && p in live
    ensures Recognised(h, p) && Agrees(Removed(h, p), live - {p})
  {
    RemovedCounts(h, p, 0);
    if !InHeap(h, p) {
      OneHere(h, live, p);
      assert Drift(h, live, PageOf(h, p)) == 0;
    }
    forall page ensures Drift(Removed(h, p), live - {p}, page) == 0 {
      RemovedDrift(h, live, p, page);
      assert Drift(h, live, page) == 0;
    }
  }

  lemma OneHere(h: Hook, live: set<Pointer>, p: Pointer)
    requires h.page > 0 && p in live && !InHeap(h, p)
    ensures p in BlocksOn(h, live, PageOf(h, p)) && |BlocksOn(h, live, PageOf(h, p))| > 0
  {
    assert p in BlocksOn(h, live, PageOf(h, p));
  }

  /** The verdict on any pointer: ours exactly if it is in the heap or shares a page with an own block. */
  lemma RecognisedExactly(h: Hook, live: set<Pointer>, p: Pointer)
    requires Agrees(h, live)
    ensures Recognised(h, p) <==>
            InHeap(h, p) || exists q :: q in live && !InHeap(h, q) && PageOf(h, q) == PageOf(h, p)
  {
    var page := PageOf(h, p);
    RemovedCounts(h, p, page);
    assert Drift(h, live, page) == 0;
    assert |BlocksOn(h, live, page)| == 0 <==> BlocksOn(h, live, page) == {};
    if BlocksOn(h, live, page) != {} {
      var q :| q in BlocksOn(h, live, page);
      assert q in live && !InHeap(h, q) && PageOf(h, q) == PageOf(h, p);
    }
    if q :| q in live && !InHeap(h, q) && PageOf(h, q) == page {
      OneHere(h, live, q);
    }
  }

  /** A foreign pointer: outside the heap, and no own block outside the heap starts on its page. */
  ghost predicate Foreign(h: Hook, live: set<Pointer>, p: Pointer)
    requires h.page > 0
  {
    !InHeap(h, p) && forall q :: q in live && !InHeap(h, q) ==> PageOf(h, q) != PageOf(h, p)
  }

  // ----- whole runs -----

  /**
    A request of the program, with the break calls made and the pointer chosen by the allocator,
    null if it fails.
    */
  datatype Call =
    | Malloc(events: seq<Break>, ptr: Pointer)
    | Free(prev: Pointer, events: seq<Break>)
    | Realloc(prev: Pointer, events: seq<Break>, ptr: Pointer)

  datatype State = State(hook: Hook, live: set<Pointer>)

  /** Allocation after the break calls it makes, none of which crosses a live block. */
  ghost predicate Allocates(h: Hook, live: set<Pointer>, events: seq<Break>, ptr: Pointer) {
    Keeps(h, live, events) && ptr !in live
  }

  /**
    What is not ours may be released too: the null pointer, and blocks of others, never on the
    page of address 0 while something is counted there.
    */
  ghost predicate NotOurs(s: State, p: Pointer)
    requires s.hook.page > 0
  {
    var page, zero := PageOf(s.hook, p), PageOf(s.hook, NULL);
    p == NULL || (Foreign(s.hook, s.live, p) && (page == zero ==> zero !in s.hook.pages))
  }

  /**
    The program releases only what it owns or a foreign pointer; the allocator gives unused
    blocks.  A block that is copied is copied somewhere.
    */
  ghost predicate Legal(s: State, c: Call)
    requires s.hook.page > 0
  {
    match c
    case Malloc(events, ptr) => Allocates(s.hook, s.live, events, ptr)
    case Free(prev, events) =>
      if prev in s.live then Keeps(Removed(s.hook, prev), s.live - {prev}, events)
      else NotOurs(s, prev)
    case Realloc(prev, events, ptr) =>
      && (prev in s.live || NotOurs(s, prev))
      && if prev in s.live && ptr != NULL && Recognised(s.hook, prev)
         then Allocates(Removed(s.hook, prev), s.live - {prev}, events, ptr)
         else Allocates(Removed(s.hook, prev), s.live, events, ptr) &&
              (prev != NULL && !Recognised(s.hook, prev) ==> ptr != NULL)
  }

  function Obtain(h: Hook, events: seq<Break>, ptr: Pointer): (h': Hook)
    requires h.page > 0
    ensures h'.page == h.page
  {
    Allocated(AfterBreaks(h, events), ptr)
  }

  /** What the code does: it knows only the hook state. */
  function HookAfter(h: Hook, c: Call): (h': Hook)
    requires h.page > 0
    ensures h'.page == h.page
  {
    match c
    case Malloc(events, ptr) => Obtain(h, events, ptr)
    case Free(prev, events) =>
      if prev == NULL || !Recognised(h, prev) then h else AfterBreaks(Removed(h, prev), events)
    case Realloc(prev, events, ptr) =>
      if prev == NULL || !Recognised(h, prev) then Obtain(h, events, ptr) else Obtain(Removed(h, prev), events, ptr)
  }

  /** What happens to the program's blocks: a call that fails changes nothing. */
  function LiveAfter(live: set<Pointer>, c: Call): set<Pointer> {
    match c
    case Malloc(_, ptr) => if ptr == NULL then live else live + {ptr}
    case Free(prev, _) => live - {prev}
    case Realloc(prev, _, ptr) => if ptr == NULL then live else live - {prev} + {ptr}
  }

  function Next(s: State, c: Call): (t: State)
    requires s.hook.page > 0
    ensures t.hook.page == s.hook.page
  {
    State(HookAfter(s.hook, c), LiveAfter(s.live, c))
  }

  /**
    Whatever has failed so far: too many blocks may be counted on the page of the null pointer,
    and too few on others.  The null pointer is never an own block.
    */
  ghost predicate Sound(s: State) {
    && s.hook.page > 0 && s.hook.start != NULL && Positive(s.hook) && NULL !in s.live
    && forall page :: if page == PageOf(s.hook, NULL) then Drift(s.hook, s.live, page) >= 0
                      else Drift(s.hook, s.live, page) <= 0
  }

  /**
    A failure that leaves the counts wrong: any but that of reallocating an own block outside the
    heap that is itself on the page of the null pointer.
    */
  predicate Harms(s: State, c: Call)
    requires s.hook.page > 0
  {
    match c
    case Malloc(_, ptr) => ptr == NULL
    case Free(_, _) => false
    case Realloc(prev, _, ptr) => ptr == NULL && !(prev in s.live && Here(s.hook, prev, PageOf(s.hook, NULL)))
  }

  /** What a call does to the drift d of a page. */
  ghost predicate Moves(s: State, c: Call, page: Pointer, d: int, d': int)
    requires s.hook.page > 0
  {
    if page == PageOf(s.hook, NULL) then d >= 0 ==> d' == d + One(Harms(s, c))
    else d <= 0 ==> d' <= 0 && (d == 0 && !Harms(s, c) ==> d' == 0)
  }

  lemma ObtainDrift(h: Hook, live: set<Pointer>, events: seq<Break>, ptr: Pointer, page: Pointer)
    requires h.page > 0 && Positive(h) && h.start != NULL && NULL !in live && Allocates(h, live, events, ptr)
    ensures var h' := Obtain(h, events, ptr);
            && Positive(h') && h'.start != NULL
            && (ptr != NULL ==> Drift(h', live + {ptr}, page) == Drift(h, live, page))
            && (ptr == NULL ==> Drift(h', live, page) == Drift(h, live, page) + One(page == PageOf(h, NULL)))
  {
    BreaksAgree(h, live, events);
    var h1 := AfterBreaks(h, events);
    AllocatedCounts(h1, ptr, page);
    AllocatedDrift(h1, live, ptr, page);
    assert Drift(h1, live, page) == Drift(h, live, page);
  }

  /** A pointer that is not ours is not taken for ours. */
  lemma NotOursIgnored(s: State, p: Pointer)
    requires Sound(s) && p != NULL && NotOurs(s, p)
    ensures !Recognised(s.hook, p) && p !in s.live
  {
    var page := PageOf(s.hook, p);
    RemovedCounts(s.hook, p, page);
    assert BlocksOn(s.hook, s.live, page) == {};
    assert page != PageOf(s.hook, NULL) ==> Drift(s.hook, s.live, page) <= 0;
  }

  /** One call, page by page. */
  lemma StepMalloc(s: State, c: Call, page: Pointer)
    requires Sound(s) && c.Malloc? && Legal(s, c)
    ensures Positive(Next(s, c).hook) && Next(s, c).hook.start != NULL
    ensures Moves(s, c, page, Drift(s.hook, s.live, page), Drift(Next(s, c).hook, Next(s, c).live, page))
  {
    hide Allocates, Drift, Positive, AfterBreaks, Allocated;
    SoundParts(s);
    ObtainDrift(s.hook, s.live, c.events, c.ptr, page);
  }

  lemma SoundParts(s: State)
    requires Sound(s)
    ensures s.hook.page > 0 && s.hook.start != NULL && Positive(s.hook) && NULL !in s.live
  {}

  /** An own block: it is counted on the page of the null pointer, and on others unless too few are. */
  lemma OwnCounts(s: State, p: Pointer, page: Pointer)
    requires Sound(s) && p in s.live
    ensures Here(s.hook, p, page) && page == PageOf(s.hook, NULL) ==> Count(s.hook, page) > 0
    ensures Here(s.hook, p, page) && Count(s.hook, page) == 0 ==> Drift(s.hook, s.live, page) < 0
  {
    if Here(s.hook, p, page) {
      OneHere(s.hook, s.live, p);
      assert page == PageOf(s.hook, NULL) ==> Drift(s.hook, s.live, page) >= 0;
    }
  }

  /** What is left once a released block has been looked up. */
  lemma ReleasedDrift(s: State, p: Pointer, page: Pointer)
    requires Sound(s) && p in s.live
    ensures var h' := Removed(s.hook, p);
            && Positive(h') && h'.start != NULL && (!Recognised(s.hook, p) ==> h' == s.hook)
            && Moves(s, Free(p, []), page, Drift(s.hook, s.live, page), Drift(h', s.live - {p}, page))
  {
    hide Drift, BlocksOn;
    RemovedCounts(s.hook, p, page);
    RemovedDrift(s.hook, s.live, p, page);
    OwnCounts(s, p, page);
  }

  lemma StepFree(s: State, c: Call, page: Pointer)
    requires Sound(s) && c.Free? && Legal(s, c)
    ensures Positive(Next(s, c).hook) && Next(s, c).hook.start != NULL
    ensures Moves(s, c, page, Drift(s.hook, s.live, page), Drift(Next(s, c).hook, Next(s, c).live, page))
  {
    hide Removed, Recognised, Keeps, NotOurs, AfterBreaks, BlocksOn;
    SoundParts(s);
    var h, p := s.hook, c.prev;
    if p in s.live {
      ReleasedDrift(s, p, page);
      BreaksAgree(Removed(h, p), s.live - {p}, c.events);
      SameDrift(Removed(h, p), AfterBreaks(Removed(h, p), c.events), s.live - {p}, page);
    } else {
      assert s.live - {p} == s.live;
      if p != NULL {
        NotOursIgnored(s, p);
      }
    }
  }

  lemma SameDrift(h: Hook, h': Hook, live: set<Pointer>, page: Pointer)
    requires h.page > 0 && h'.pages == h.pages && h'.page == h.page
    requires BlocksOn(h', live, page) == BlocksOn(h, live, page)
    ensures Drift(h', live, page) == Drift(h, live, page) && (Positive(h) ==> Positive(h'))
  {}

  /** Reallocating a block that is looked up: it goes and another comes, or it stays and is no longer counted. */
  lemma StepRealloc(s: State, c: Call, page: Pointer)
    requires Sound(s) && c.Realloc? && Legal(s, c)
    ensures Positive(Next(s, c).hook) && Next(s, c).hook.start != NULL
    ensures Moves(s, c, page, Drift(s.hook, s.live, page), Drift(Next(s, c).hook, Next(s, c).live, page))
  {
    hide Removed, Recognised, Keeps, NotOurs, AfterBreaks, BlocksOn, Drift, Positive, Obtain, Allocates;
    SoundParts(s);
    if c.prev !in s.live {
      StepCopy(s, c, page);
    } else if c.ptr == NULL {
      StepFails(s, c, page);
    } else {
      StepMoved(s, c, page);
    }
  }

  lemma StepCopy(s: State, c: Call, page: Pointer)
    requires Sound(s) && c.Realloc? && Legal(s, c) && c.prev !in s.live
    ensures Positive(Next(s, c).hook) && Next(s, c).hook.start != NULL
    ensures Moves(s, c, page, Drift(s.hook, s.live, page), Drift(Next(s, c).hook, Next(s, c).live, page))
  {
    hide Keeps, NotOurs, AfterBreaks, BlocksOn, Drift, Positive, Obtain, Allocates;
    SoundParts(s);
    if c.prev != NULL {
      NotOursIgnored(s, c.prev);
    }
    SamePlaces(s.hook, Removed(s.hook, c.prev), s.live, c.events, c.ptr);
    ObtainDrift(s.hook, s.live, c.events, c.ptr, page);
    assert s.live - {c.prev} == s.live;
  }

  /** What the allocator may do depends on the heap only. */
  lemma SamePlaces(h: Hook, h': Hook, live: set<Pointer>, events: seq<Break>, ptr: Pointer)
    requires h'.start == h.start && h'.end == h.end
    ensures Allocates(h', live, events, ptr) <==> Allocates(h, live, events, ptr)
  {
    SameKeeps(h, h', live, events);
  }

  lemma {:induction false} SameKeeps(h: Hook, h': Hook, live: set<Pointer>, events: seq<Break>)
    requires h'.start == h.start && h'.end == h.end
    ensures Keeps(h', live, events) <==> Keeps(h, live, events)
    decreases |events|
  {
    if events != [] {
      SameKeeps(AfterBreak(h, events[0]), AfterBreak(h', events[0]), live, events[1..]);
    }
  }

  lemma StepFails(s: State, c: Call, page: Pointer)
    requires Sound(s) && c.Realloc? && Legal(s, c) && c.prev in s.live && c.ptr == NULL
    ensures Positive(Next(s, c).hook) && Next(s, c).hook.start != NULL
    ensures Moves(s, c, page, Drift(s.hook, s.live, page), Drift(Next(s, c).hook, Next(s, c).live, page))
  {
    hide Removed, Keeps, NotOurs, AfterBreaks, BlocksOn, Drift, Positive, Obtain, Allocates;
    SoundParts(s);
    var h := Removed(s.hook, c.prev);
    RemovedCounts(s.hook, c.prev, page);
    RemovedDrift(s.hook, s.live, c.prev, page);
    OwnCounts(s, c.prev, page);
    ObtainDrift(h, s.live, c.events, NULL, page);
  }

  lemma StepMoved(s: State, c: Call, page: Pointer)
    requires Sound(s) && c.Realloc? && Legal(s, c) && c.prev in s.live && c.ptr != NULL
    ensures Positive(Next(s, c).hook) && Next(s, c).hook.start != NULL
    ensures Moves(s, c, page, Drift(s.hook, s.live, page), Drift(Next(s, c).hook, Next(s, c).live, page))
  {
    hide Removed, Keeps, NotOurs, AfterBreaks, BlocksOn, Drift, Positive, Obtain, Recognised;
    SoundParts(s);
    var h, rest := Removed(s.hook, c.prev), s.live - {c.prev};
    ReleasedDrift(s, c.prev, page);
    FewerKeeps(h, s.live, rest, c.events);
    ObtainDrift(h, rest, c.events, c.ptr, page);
  }

  lemma {:induction false} FewerKeeps(h: Hook, live: set<Pointer>, fewer: set<Pointer>, events: seq<Break>)
    requires fewer <= live
    ensures Keeps(h, live, events) ==> Keeps(h, fewer, events)
    decreases |events|
  {
    if events != [] {
      FewerKeeps(AfterBreak(h, events[0]), live, fewer, events[1..]);
    }
  }

  lemma StepPage(s: State, c: Call, page: Pointer)
    requires Sound(s) && Legal(s, c)
    ensures Positive(Next(s, c).hook) && Next(s, c).hook.start != NULL
    ensures Moves(s, c, page, Drift(s.hook, s.live, page), Drift(Next(s, c).hook, Next(s, c).live, page))
  {
    hide Legal, Drift, Moves, Positive, Sound, Next;
    match c
    case Malloc(_, _) => StepMalloc(s, c, page);
    case Free(_, _) => StepFree(s, c, page);
    case Realloc(_, _, _) => StepRealloc(s, c, page);
  }

  /**
    One call of any kind and any outcome.  A failure adds one to the count of the null page, for
    ever; without it, exact counts stay exact.
    */
  lemma CallDrift(s: State, c: Call)
    requires Sound(s) && Legal(s, c)
    ensures var t, zero := Next(s, c), PageOf(s.hook, NULL);
            && Sound(t) && Drift(t.hook, t.live, zero) == Drift(s.hook, s.live, zero) + One(Harms(s, c))
            && (Agrees(s.hook, s.live) && !Harms(s, c) ==> Agrees(t.hook, t.live))
  {
    hide Legal, Drift, Positive, HookAfter, LiveAfter, Harms;
    var t := Next(s, c);
    NullStays(s, c);
    forall page
      ensures Moves(s, c, page, Drift(s.hook, s.live, page), Drift(t.hook, t.live, page)) && Positive(t.hook)
    {
      StepPage(s, c, page);
    }
    StepPage(s, c, 0);
  }

  lemma NullStays(s: State, c: Call)
    requires Sound(s) && Legal(s, c)
    ensures NULL !in LiveAfter(s.live, c)
  {}

  /** A run is legal if every call is, in the state the earlier calls lead to. */
  ghost predicate LegalRun(s: State, calls: seq<Call>)
    requires s.hook.page > 0
    decreases |calls|
  {
    calls == [] || (Legal(s, calls[0]) && LegalRun(Next(s, calls[0]), calls[1..]))
  }

  function AfterRun(s: State, calls: seq<Call>): (t: State)
    requires s.hook.page > 0
    ensures t.hook.page == s.hook.page
    decreases |calls|
  {
    if calls == [] then s else AfterRun(Next(s, calls[0]), calls[1..])
  }

  /** How many calls of a run failed and leave the counts wrong. */
  function Failures(s: State, calls: seq<Call>): nat
    requires s.hook.page > 0
    decreases |calls|
  {
    if calls == [] then 0 else One(Harms(s, calls[0])) + Failures(Next(s, calls[0]), calls[1..])
  }

  lemma {:induction false} RunDrift(s: State, calls: seq<Call>)
    requires Sound(s) && LegalRun(s, calls)
    ensures var t, zero := AfterRun(s, calls), PageOf(s.hook, NULL);
            && Sound(t) && Drift(t.hook, t.live, zero) == Drift(s.hook, s.live, zero) + Failures(s, calls)
            && (Agrees(s.hook, s.live) && Failures(s, calls) == 0 ==> Agrees(t.hook, t.live))
    decreases |calls|
  {
    hide Legal, Drift, Next, Harms, Agrees;
    if calls != [] {
      CallDrift(s, calls[0]);
      RunDrift(Next(s, calls[0]), calls[1..]);
    }
  }

  /**
    Over every run, with any failures: the counts are exact at the end if and only if no call
    failed but for reallocations of own blocks on the null page.  The null page counts as many
    blocks too many as calls failed otherwise.
    */
  lemma RunExact(s: State, calls: seq<Call>)
    requires Sound(s) && Agrees(s.hook, s.live) && LegalRun(s, calls)
    ensures var t := AfterRun(s, calls);
            && (Agrees(t.hook, t.live) <==> Failures(s, calls) == 0)
            && Drift(t.hook, t.live, PageOf(t.hook, NULL)) == Failures(s, calls)
  {
    hide AfterRun, LegalRun, Failures, Drift;
    RunDrift(s, calls);
    assert Drift(s.hook, s.live, PageOf(s.hook, NULL)) == 0;
    SameNull(s.hook, AfterRun(s, calls).hook);
  }

  lemma SameNull(h: Hook, h': Hook)
    requires h.page > 0 && h'.page == h.page
    ensures PageOf(h', NULL) == PageOf(h, NULL) == 0
  {}

  /** Over every run without failures every block is recognised when it is released, and no foreign pointer is. */
  lemma RunKeepsCounts(s: State, calls: seq<Call>)
    requires Sound(s) && Agrees(s.hook, s.live) && LegalRun(s, calls) && Failures(s, calls) == 0
    ensures var t := AfterRun(s, calls);
            && Agrees(t.hook, t.live)
            && (forall p :: p in t.live ==> Recognised(t.hook, p))
            && (forall p :: Foreign(t.hook, t.live, p) ==> !Recognised(t.hook, p))
  {
    hide AfterRun, LegalRun;
    RunDrift(s, calls);
    var t := AfterRun(s, calls);
    forall p | p in t.live ensures Recognised(t.hook, p) { RemovedAgrees(t.hook, t.live, p); }
    forall p | Foreign(t.hook, t.live, p) ensures !Recognised(t.hook, p) { RecognisedExactly(t.hook, t.live, p); }
  }

  /** The pointer a call releases is taken for ours exactly if it is. */
  lemma ReleaseRecognised(s: State, p: Pointer)
    requires Sound(s) && Agrees(s.hook, s.live) && p != NULL && (p in s.live || NotOurs(s, p))
    ensures Recognised(s.hook, p) <==> p in s.live
  {
    if p in s.live {
      RemovedAgrees(s.hook, s.live, p);
    } else {
      NotOursIgnored(s, p);
    }
  }

  /** One call, from exact counts. */
  lemma CallExact(s: State, c: Call)
    requires Sound(s) && Legal(s, c)
    ensures Sound(Next(s, c))
    ensures Agrees(s.hook, s.live) ==> (Agrees(Next(s, c).hook, Next(s, c).live) <==> !Harms(s, c))
  {
    hide Legal, Drift, Next, Harms, Sound;
    CallDrift(s, c);
    SoundParts(s);
    SameNull(s.hook, Next(s, c).hook);
  }

  lemma ReleaseExact(s: State, p: Pointer)
    requires Sound(s) && (p in s.live || NotOurs(s, p))
    ensures Agrees(s.hook, s.live) ==> (p != NULL && Recognised(s.hook, p) <==> p in s.live)
  {
    if p != NULL && Agrees(s.hook, s.live) {
      ReleaseRecognised(s, p);
    }
  }

  // ----- where the assumptions are needed -----

  /** Releasing a pointer that is not ours but shares a page with an own block breaks the counts. */
  lemma SharedPageMiscounts(h: Hook, live: set<Pointer>, p: Pointer)
    requires Agrees(h, live) && p !in live && !InHeap(h, p) && !Foreign(h, live, p)
    ensures Recognised(h, p) && !Agrees(Removed(h, p), live)
  {
    RecognisedExactly(h, live, p);
    var page := PageOf(h, p);
    assert Drift(h, live, page) == 0;
    assert BlocksOn(Removed(h, p), live, page) == BlocksOn(h, live, page);
    RemovedCounts(h, p, page);
    assert Drift(Removed(h, p), live, page) < 0;
  }

  /**
    A block whose reallocation has failed is still taken for ours if and only if it is in the
    heap, on the null page, or another own block starts on its page.
    */
  lemma FailedReallocForgets(s: State, p: Pointer, events: seq<Break>)
    requires Sound(s) && Agrees(s.hook, s.live) && p in s.live && Legal(s, Realloc(p, events, NULL))
    ensures var t := Next(s, Realloc(p, events, NULL));
            && p in t.live
            && (Recognised(t.hook, p) <==>
                InHeap(s.hook, p) || PageOf(s.hook, p) == PageOf(s.hook, NULL) ||
                exists q :: q in s.live && q != p && Here(s.hook, q, PageOf(s.hook, p)))
  {
    hide Keeps, NotOurs, Drift, AfterBreaks, Removed;
    var h, page := Removed(s.hook, p), PageOf(s.hook, p);
    RemovedAgrees(s.hook, s.live, p);
    BreaksAgree(h, s.live, events);
    var h1 := AfterBreaks(h, events);
    RemovedCounts(s.hook, p, page);
    AllocatedCounts(h1, NULL, page);
    RemovedCounts(Allocated(h1, NULL), p, page);
    if !InHeap(s.hook, p) {
      OneLess(s.hook, s.live, p);
    }
  }

  lemma OneLess(h: Hook, live: set<Pointer>, p: Pointer)
    requires Agrees(h, live) && p in live && !InHeap(h, p)
    ensures Count(h, PageOf(h, p)) > 1 <==> exists q :: q in live && q != p && Here(h, q, PageOf(h, p))
  {
    var blocks := BlocksOn(h, live, PageOf(h, p));
    assert Drift(h, live, PageOf(h, p)) == 0 && p in blocks;
    assert |blocks - {p}| == |blocks| - 1;
    if blocks - {p} != {} {
      var q :| q in blocks - {p};
      assert q in live && Here(h, q, PageOf(h, p));
    }
    if q :| q in live && q != p && Here(h, q, PageOf(h, p)) {
      assert q in blocks - {p};
    }
  }

  // ----- inputs -----

  /** No heap, nothing allocated. */
  const FRESH: State := State(Hook(4096, UNSET, UNSET, map[]), {})

  lemma FreshSound()
    ensures Sound(FRESH) && Agrees(FRESH.hook, FRESH.live)
  {
    assert forall page :: BlocksOn(FRESH.hook, {}, page) == {};
  }

  /** With one block outside the heap, and after its reallocation has failed. */
  const ONE_BLOCK: State := State(Hook(4096, UNSET, UNSET, map[0x5000 := 1]), {0x5000})
  const ONE_LOST: State := State(Hook(4096, UNSET, UNSET, map[0 := 1]), {0x5000})

  lemma BlockMade()
    ensures Legal(FRESH, Malloc([], 0x5000)) && Next(FRESH, Malloc([], 0x5000)) == ONE_BLOCK
  {}

  lemma BlockLost()
    ensures Legal(ONE_BLOCK, Realloc(0x5000, [], NULL)) && Next(ONE_BLOCK, Realloc(0x5000, [], NULL)) == ONE_LOST
  {
    assert PageOf(ONE_BLOCK.hook, 0x5000) == 0x5000;
    assert Removed(ONE_BLOCK.hook, 0x5000).pages == map[];
  }

  lemma LostIgnored()
    ensures Legal(ONE_LOST, Free(0x5000, [])) && !Recognised(ONE_LOST.hook, 0x5000)
    ensures Next(ONE_LOST, Free(0x5000, [])) == ONE_LOST.(live := {}) && !Agrees(ONE_LOST.hook, {})
  {
    assert PageOf(ONE_LOST.hook, 0x5000) == 0x5000;
    assert BlocksOn(ONE_LOST.hook, {}, 0) == {} && Drift(ONE_LOST.hook, {}, 0) == 1;
  }

  /** A block outside the heap, its reallocation fails, and it is released: the release is ignored. */
  lemma LostBlock()
    ensures var calls := [Malloc([], 0x5000), Realloc(0x5000, [], NULL), Free(0x5000, [])];
            && Sound(FRESH) && Agrees(FRESH.hook, FRESH.live) && LegalRun(FRESH, calls)
            && AfterRun(FRESH, calls[..2]) == ONE_LOST && !Recognised(ONE_LOST.hook, 0x5000)
            && AfterRun(FRESH, calls) == ONE_LOST.(live := {}) && !Agrees(ONE_LOST.hook, {})
  {
    hide Legal, Next, Recognised, Agrees, Sound;
    FreshSound();
    BlockMade();
    BlockLost();
    LostIgnored();
    var c0, c1, c2 := Malloc([], 0x5000), Realloc(0x5000, [], NULL), Free(0x5000, []);
    var calls := [c0, c1, c2];
    assert calls[1..] == [c1, c2] && [c1, c2][1..] == [c2] && [c2][1..] == [];
    assert LegalRun(ONE_LOST, [c2]) && AfterRun(ONE_LOST, [c2]) == ONE_LOST.(live := {});
    assert calls[..2] == [c0, c1] && [c0, c1][1..] == [c1] && [c1][1..] == [];
    assert AfterRun(ONE_BLOCK, [c1]) == ONE_LOST;
  }

  /** A failed allocation is counted. */
  lemma FailedMalloc()
    ensures Legal(FRESH, Malloc([], NULL)) && Next(FRESH, Malloc([], NULL)).hook.pages == map[0 := 1]
    ensures !Agrees(Next(FRESH, Malloc([], NULL)).hook, {})
  {
    var s := Next(FRESH, Malloc([], NULL));
    assert BlocksOn(s.hook, {}, 0) == {} && Drift(s.hook, {}, 0) == 1;
  }

  /** Pointers of others that are taken for ours: on the page of an own block, and in the heap range. */
  lemma ForeignTaken()
    ensures var h := Hook(4096, UNSET, UNSET, map[0x5000 := 1]);
            Agrees(h, {0x5010}) && Recognised(h, 0x5800) && !Recognised(Removed(h, 0x5800), 0x5010)
    ensures var h := Hook(4096, 0x10_0000, 0x20_0000, map[]);
            Agrees(h, {}) && Recognised(h, 0x18_0000)
  {
    var h, g := Hook(4096, UNSET, UNSET, map[0x5000 := 1]), Hook(4096, 0x10_0000, 0x20_0000, map[]);
    forall page ensures Drift(h, {0x5010}, page) == 0 {
      assert BlocksOn(h, {0x5010}, page) == if page == 0x5000 then {0x5010} else {};
    }
    assert forall page :: BlocksOn(g, {}, page) == {};
  }

  // ----- the code -----

  class MallocHook {
    const page: nat
    var heapStart: Pointer
    var heapEnd: Pointer
    var pages: map<Pointer, nat>
    ghost var live: set<Pointer>

    ghost function Hooks(): Hook
      reads this
    {
      Hook(page, heapStart, heapEnd, pages)
    }

    ghost function Truth(): State
      reads this
    {
      State(Hooks(), live)
    }

    ghost predicate Valid()
      reads this
    {
      Sound(Truth())
    }

    constructor (pageSize: nat)
      requires pageSize > 0
      ensures Valid() && live == {} && page == pageSize && Agrees(Hooks(), live)
    {
      page, heapStart, heapEnd, pages, live := pageSize, UNSET, UNSET, map[], {};
      new;
      assert forall p :: BlocksOn(Hooks(), {}, p) == {};
    }

    method MmapedPtrAdd(p: Pointer)
      requires page > 0 && !InHeap(Hooks(), p)
      modifies this`pages
      ensures Hooks() == Allocated(old(Hooks()), p)
    {
      var key := p - p % page;
      if key in pages {
        pages := pages[key := pages[key] + 1];
      } else {
        pages := pages[key := 1];
      }
    }

    method MmapedPtrRemoveIfExists(p: Pointer) returns (exists': bool)
      requires page > 0 && !InHeap(Hooks(), p) && Positive(Hooks())
      modifies this`pages
      ensures Hooks() == Removed(old(Hooks()), p) && exists' == old(Recognised(Hooks(), p))
    {
      var key := p - p % page;
      if key !in pages {
        return false;
      }
      assert Hooks().pages[key] > 0;
      if pages[key] == 1 {
        pages := pages - {key};
      } else {
        pages := pages[key := pages[key] - 1];
      }
      return true;
    }

    method AddressRemoveIfManaged(p: Pointer) returns (managed: bool)
      requires page > 0 && Positive(Hooks())
      modifies this`pages
      ensures Hooks() == Removed(old(Hooks()), p) && managed == old(Recognised(Hooks(), p))
    {
      if heapStart <= p < heapEnd {
        managed := true;
      } else {
        managed := MmapedPtrRemoveIfExists(p);
      }
    }

    method TrackAllocated(p: Pointer)
      requires page > 0
      modifies this`pages
      ensures Hooks() == Allocated(old(Hooks()), p)
    {
      if !(heapStart <= p < heapEnd) {
        MmapedPtrAdd(p);
      }
    }

    /** The allocator at work: it may move the break several times. */
    method MoveBreaks(events: seq<Break>)
      modifies this`heapStart, this`heapEnd
      ensures Hooks() == AfterBreaks(old(Hooks()), events)
    {
      for i := 0 to |events|
        invariant AfterBreaks(Hooks(), events[i..]) == AfterBreaks(old(Hooks()), events)
      {
        if heapStart == UNSET {
          heapStart := events[i].result;
        }
        heapEnd := events[i].brk;
        assert events[i..][1..] == events[i + 1..];
      }
    }

    /** Whatever the allocator gives, also the null pointer, is tracked. */
    method MallocImpl(events: seq<Break>, ptr: Pointer)
      requires Valid() && Legal(Truth(), Malloc(events, ptr))
      modifies this
      ensures Valid() && Truth() == Next(old(Truth()), Malloc(events, ptr))
      ensures old(Agrees(Hooks(), live)) ==> (Agrees(Hooks(), live) <==> ptr != NULL)
    {
      hide Legal, Allocated, AfterBreaks, Sound, Agrees;
      SoundParts(Truth());
      CallExact(Truth(), Malloc(events, ptr));
      MoveBreaks(events);
      TrackAllocated(ptr);
      live := if ptr == NULL then live else live + {ptr};
    }

    /** Gives the block back to the allocator exactly if it is taken for ours. */
    method FreeImpl(ptr: Pointer, events: seq<Break>) returns (freed: bool)
      requires Valid() && Legal(Truth(), Free(ptr, events))
      modifies this
      ensures Valid() && Truth() == Next(old(Truth()), Free(ptr, events))
      ensures freed <==> ptr != NULL && old(Recognised(Hooks(), ptr))
      ensures old(Agrees(Hooks(), live)) ==> Agrees(Hooks(), live) && (freed <==> ptr in old(live))
    {
      hide Keeps, NotOurs, Removed, Recognised, AfterBreaks, Sound, Agrees, Positive;
      SoundParts(Truth());
      CallExact(Truth(), Free(ptr, events));
      ReleaseExact(Truth(), ptr);
      freed := false;
      if ptr != NULL {
        RemovedUnknown(Hooks(), ptr);
        freed := AddressRemoveIfManaged(ptr);
        if freed {
          MoveBreaks(events);
        }
      }
      live := live - {ptr};
    }

    /**
      Untracks the old block before the allocator may reuse its address, and before the allocator
      may fail.  What is not taken for ours is copied out.
      */
    method ReallocImpl(oldptr: Pointer, events: seq<Break>, newptr: Pointer) returns (copied: bool)
      requires Valid() && Legal(Truth(), Realloc(oldptr, events, newptr))
      modifies this
      ensures Valid() && Truth() == Next(old(Truth()), Realloc(oldptr, events, newptr))
      ensures copied <==> oldptr != NULL && !old(Recognised(Hooks(), oldptr))
      ensures old(Agrees(Hooks(), live)) ==>
                && (copied <==> oldptr != NULL && oldptr !in old(live))
                && (Agrees(Hooks(), live) <==> !Harms(old(Truth()), Realloc(oldptr, events, newptr)))
    {
      hide Keeps, NotOurs, Removed, Recognised, AfterBreaks, Allocated, Sound, Agrees, Positive, Harms;
      SoundParts(Truth());
      CallExact(Truth(), Realloc(oldptr, events, newptr));
      ReleaseExact(Truth(), oldptr);
      copied := false;
      if oldptr != NULL {
        RemovedUnknown(Hooks(), oldptr);
        var managed := AddressRemoveIfManaged(oldptr);
        copied := !managed;
      }
      MoveBreaks(events);
      TrackAllocated(newptr);
      live := if newptr == NULL then live else live - {oldptr} + {newptr};
    }
  }

  lemma RemovedUnknown(h: Hook, p: Pointer)
    requires h.page > 0
    ensures !Recognised(h, p) ==> Removed(h, p) == h
  {}
}
