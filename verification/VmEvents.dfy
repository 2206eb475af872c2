/**
  Memory-mapping notifications.  The wrappers around mmap, munmap, mremap, shmat, shmdt, sbrk,
  brk and madvise tell an observer about address ranges: VM_UNMAPPED before the system call,
  VM_MAPPED after it.  The observer (a registration cache, say) must never hold an address
  whose backing the operating system has already released or replaced.
  */
module VmEvents {

  const PAGE: int := 4096
  const SHMLBA: int := 4096
  const NULL: int := 0

  function RoundUp(n: int): int { (n + PAGE - 1) / PAGE * PAGE }

  /** The addresses from a up to a + n. */
  function Span(a: int, n: int): set<int> { set x {:trigger Within(x, a, n)} | a <= x < a + n && Within(x, a, n) }

  predicate Within(x: int, a: int, n: int) { a <= x < a + n }

  /** A shared segment attached by the operating system: its size and its backing. */
  datatype Attachment = Attachment(size: int, id: int)

  /**
    mapped, brk, attached: the operating system's view; every mapped address has the identity
    of what backs it.  held: what the observer believes.  sizes: the wrapper's table of
    attached segment sizes.
    */
  datatype World = World(
    mapped: map<int, int>, brk: int, attached: map<int, Attachment>,
    held: map<int, int>, sizes: map<int, int>)

  datatype Call =
    | Mmap(addr: int, len: int, fixed: bool)
    | Munmap(addr: int, len: int)
    | Mremap(addr: int, oldLen: int, newLen: int, fixed: bool, newAddr: int)
    | Shmat(size: int, addr: int, remap: bool, rnd: bool)
    | Shmdt(addr: int)
    | Sbrk(increment: int)
    | Brk(addr: int)
    | Madvise(addr: int, len: int, advice: Advice)

  /** Values of madvise(2). */
  datatype Advice = DontNeed | Remove | Free | DontNeedLocked | OtherAdvice

  /** Advice after which the system drops the pages; the last value is newer than the wrapper. */
  predicate Releases(advice: Advice) { !advice.OtherAdvice? }

  /** Advice the wrapper announces. */
  predicate IsAnnounced(advice: Advice) { advice.DontNeed? || advice.Remove? || advice.Free? }

  /** What the operating system did: success, resulting address, new backing, addresses let go. */
  datatype Outcome = Outcome(ok: bool, result: int, id: int, released: set<int>)

  /** The observer holds only addresses that are still backed by what it thinks backs them. */
  ghost predicate Safe(w: World) {
    forall a :: a in w.held ==> a in w.mapped && w.mapped[a] == w.held[a]
  }

  // ----- the operating system -----

  /** Pages are the unit: a range request covers whole pages and must start on one. */
  function Pages(a: int, n: int): set<int> {
    if a % PAGE == 0 then Span(a, RoundUp(n)) else {}
  }

  function AttachAddr(c: Call): int
    requires c.Shmat?
  {
    if c.rnd then c.addr - c.addr % SHMLBA else c.addr
  }

  function NewBrk(w: World, c: Call): int
    requires c.Sbrk? || c.Brk?
  {
    if c.Sbrk? then w.brk + c.increment else c.addr
  }

  /** The addresses whose backing a call may release or replace. */
  function Affected(w: World, c: Call): set<int> {
    match c
    case Mmap(a, n, fixed) => if fixed then Pages(a, n) else {}
    case Munmap(a, n) => Pages(a, n)
    case Mremap(a, n, m, fixed, b) => Pages(a, n) + if fixed then Pages(b, m) else {}
    case Shmat(n, _, remap, _) => if remap && c.addr != NULL then Pages(AttachAddr(c), n) else {}
    case Shmdt(a) =>
      if a in w.attached
      then set x | x in Span(a, w.attached[a].size) && x in w.mapped && w.mapped[x] == w.attached[a].id
      else {}
    case Sbrk(d) => Span(RoundUp(w.brk + d), RoundUp(w.brk) - RoundUp(w.brk + d))
    case Brk(a) => if a == NULL then {} else Span(RoundUp(a), RoundUp(w.brk) - RoundUp(a))
    case Madvise(a, n, advice) => if Releases(advice) then Pages(a, n) else {}
  }

  /** The addresses a successful call maps. */
  function Placed(w: World, c: Call, result: int): set<int> {
    match c
    case Mmap(_, n, _) => Pages(result, n)
    case Mremap(_, _, m, _, _) => Pages(result, m)
    case Shmat(n, _, _, _) => Span(result, n)
    case Sbrk(d) => Span(RoundUp(w.brk), RoundUp(w.brk + d) - RoundUp(w.brk))
    case Brk(a) => Span(RoundUp(w.brk), RoundUp(a) - RoundUp(w.brk))
    case _ => {}
  }

  /** New mappings start on a page; requests for a given place are put there. */
  predicate ResultAllowed(c: Call, result: int) {
    match c
    case Mmap(a, n, fixed) => result % PAGE == 0 && (fixed ==> result == a)
    case Mremap(_, _, _, fixed, b) => result % PAGE == 0 && (fixed ==> result == b)
    case Shmat(n, a, remap, _) => result % PAGE == 0 && (remap && a != NULL ==> result == AttachAddr(c))
    case Brk(a) => a != NULL
    case _ => true
  }

  /** The kernel maps nothing over existing memory except where the call says so. */
  ghost predicate OsAllows(w: World, c: Call, o: Outcome) {
    && o.released <= Affected(w, c)
    && (o.ok ==>
          && ResultAllowed(c, o.result) && o.id !in w.mapped.Values && o.id >= 0
          && Placed(w, c, o.result) * w.mapped.Keys <= Affected(w, c))
  }

  /** The system call itself. */
  function OsStep(w: World, c: Call, o: Outcome): World {
    var kept := w.mapped - o.released;
    if !o.ok then w.(mapped := kept)
    else w.(mapped := kept + map x | x in Placed(w, c, o.result) :: o.id,
            brk := if c.Sbrk? || c.Brk? then NewBrk(w, c) else w.brk,
            attached := if c.Shmat? then w.attached[o.result := Attachment(c.size, o.id)]
                        else if c.Shmdt? then w.attached - {c.addr}
                        else w.attached)
  }

  // ----- the wrappers -----

  /** Size of the segment to be detached: from the table, else by asking the system. */
  function DetachSize(w: World, a: int): int {
    if a in w.sizes then w.sizes[a] else if a in w.attached then w.attached[a].size else 0
  }

  /** The range announced as VM_UNMAPPED before the system call. */
  function Unmapped(w: World, c: Call): set<int> {
    match c
    case Mmap(a, n, fixed) => if fixed && a != NULL then Span(a, n) else {}
    case Munmap(a, n) => Span(a, n)
    case Mremap(a, n, _, _, _) => Span(a, n)
    case Shmat(n, a, remap, _) => if remap && a != NULL then Span(AttachAddr(c), n) else {}
    case Shmdt(a) => Span(a, DetachSize(w, a))
    case Sbrk(d) => Span(w.brk + d, -d)
    case Brk(a) => if a == NULL then {} else Span(a, w.brk - a)
    case Madvise(a, n, advice) => if IsAnnounced(advice) then Span(a, n) else {}
  }

  /** The range announced as VM_MAPPED after a successful system call. */
  function Announced(w: World, c: Call, result: int): set<int> {
    match c
    case Mmap(_, n, _) => Span(result, n)
    case Mremap(_, _, m, _, _) => Span(result, m)
    case Shmat(n, _, _, _) => Span(result, n)
    case Sbrk(d) => Span(w.brk, d)
    case Brk(a) => if a == NULL then {} else Span(w.brk, a - w.brk)
    case _ => {}
  }

  function BeforeCall(w: World, c: Call): World {
    w.(held := w.held - Unmapped(w, c),
       sizes := if c.Shmdt? then w.sizes - {c.addr}
                else if c.Shmat? && c.remap && c.addr != NULL then w.sizes - {AttachAddr(c)}
                else w.sizes)
  }

  const UNBACKED: int := -1

  /** The observer takes note of a range, with whatever backs it now. */
  function Note(w: World, range: set<int>): World {
    w.(held := w.held + map x | x in range :: if x in w.mapped then w.mapped[x] else UNBACKED)
  }

  /** The world before the call, just after the first notification, just after the system call, and at return. */
  function Instants(w: World, c: Call, o: Outcome): seq<World> {
    var w1 := BeforeCall(w, c);
    var w2 := OsStep(w1, c, o);
    var w3 := if !o.ok then w2
              else Note(w2, Announced(w, c, o.result))
                   .(sizes := if c.Shmat? then w2.sizes[o.result := c.size] else w2.sizes);
    [w, w1, w2, w3]
  }

  function Final(w: World, c: Call, o: Outcome): World { Instants(w, c, o)[3] }

  // ----- when one call is safe -----

  /** Addresses whose backing may go without the observer being told first. */
  function Unannounced(w: World, c: Call): set<int> { Affected(w, c) - Unmapped(w, c) }

  /** Announced addresses that a growing break does not itself map: the rest of its first page. */
  function Overhang(w: World, c: Call): set<int> {
    if c.Sbrk? || (c.Brk? && c.addr != NULL)
    then Span(w.brk, (if NewBrk(w, c) < RoundUp(w.brk) then NewBrk(w, c) else RoundUp(w.brk)) - w.brk)
    else {}
  }

  /** Nothing is in the way of the break. */
  predicate CanGrow(w: World, c: Call) { Placed(w, c, 0) !! w.mapped.Keys }

  /**
    The observer holds nothing that may go unannounced, and if the break can grow, the rest of
    its page is there.  Both can be checked before the call.
    */
  ghost predicate Guarded(w: World, c: Call) {
    w.held.Keys !! Unannounced(w, c) && (CanGrow(w, c) ==> Overhang(w, c) <= w.mapped.Keys)
  }

  /** Holds between calls: safety, and the size table agrees with what is attached. */
  ghost predicate Valid(w: World) {
    && Safe(w)
    && (forall a :: a in w.mapped ==> w.mapped[a] >= 0)
    && (forall a :: a in w.sizes && a in w.attached ==> w.sizes[a] == w.attached[a].size)
  }

  lemma RoundUpBounds(n: int)
    ensures n <= RoundUp(n) < n + PAGE && RoundUp(n) % PAGE == 0
  {}

  lemma RoundUpMonotone(m: int, n: int)
    requires m <= n
    ensures RoundUp(m) <= RoundUp(n)
  {}

  /** What is announced as mapped is mapped, up to the overhang of a growing break. */
  lemma AnnouncedIsPlaced(w: World, c: Call, o: Outcome)
    requires o.ok && ResultAllowed(c, o.result)
    ensures Announced(w, c, o.result) <= Placed(w, c, o.result) + Overhang(w, c)
  {
    match c
    case Mmap(_, n, _) => RoundUpBounds(n);
    case Mremap(_, _, m, _, _) => RoundUpBounds(m);
    case Sbrk(d) => RoundUpBounds(w.brk + d);
    case Brk(a) => RoundUpBounds(a);
    case _ =>
  }

  /** Growing the break releases nothing of its first page. */
  lemma OverhangKept(w: World, c: Call)
    ensures Overhang(w, c) * Affected(w, c) == {}
  {
    if c.Sbrk? || (c.Brk? && c.addr != NULL) {
      var n := NewBrk(w, c);
      if n > w.brk {
        RoundUpMonotone(w.brk, n);
      }
    }
  }

  /** A growing break only replaces free memory. */
  lemma GrowthIsFree(w: World, c: Call, o: Outcome)
    requires OsAllows(w, c, o) && o.ok && Overhang(w, c) != {}
    ensures CanGrow(w, c)
  {
    var n := NewBrk(w, c);
    assert n > w.brk by {
      var x :| x in Overhang(w, c);
    }
    RoundUpMonotone(w.brk, n);
    assert Affected(w, c) == {};
    assert Placed(w, c, 0) == Placed(w, c, o.result);
    forall x | x in Placed(w, c, o.result)
      ensures x !in w.mapped
    {
      assert x in w.mapped.Keys ==> x in Placed(w, c, o.result) * w.mapped.Keys;
    }
  }

  /** What the observer still holds when the system call is made, the call leaves in place. */
  lemma HeldStays(w: World, c: Call, o: Outcome)
    requires Safe(w) && OsAllows(w, c, o) && w.held.Keys !! Unannounced(w, c)
    ensures Safe(BeforeCall(w, c)) && Safe(OsStep(BeforeCall(w, c), c, o))
  {
    var w1 := BeforeCall(w, c);
    assert Placed(w1, c, o.result) == Placed(w, c, o.result);
    hide Affected, Placed, Unmapped;
    forall a | a in w1.held
      ensures a !in o.released && (o.ok ==> a !in Placed(w, c, o.result))
    {
      assert a in w.held.Keys && a !in Unannounced(w, c);
      assert a !in Affected(w, c);
      assert o.ok && a in Placed(w, c, o.result) ==> a in Placed(w, c, o.result) * w.mapped.Keys;
    }
  }

  /** What the observer takes note of after the call is there. */
  lemma NotedIsMapped(w: World, c: Call, o: Outcome)
    requires OsAllows(w, c, o) && o.ok && (CanGrow(w, c) ==> Overhang(w, c) <= w.mapped.Keys)
    ensures Announced(w, c, o.result) <= OsStep(BeforeCall(w, c), c, o).mapped.Keys
  {
    var w1 := BeforeCall(w, c);
    assert Placed(w1, c, o.result) == Placed(w, c, o.result);
    AnnouncedIsPlaced(w, c, o);
    OverhangKept(w, c);
    if Overhang(w, c) != {} {
      GrowthIsFree(w, c, o);
    }
    hide Affected, Placed, Unmapped, Announced, Overhang;
    forall x | x in Announced(w, c, o.result)
      ensures x in OsStep(w1, c, o).mapped
    {
      assert x in Overhang(w, c) && x in o.released ==> x in Overhang(w, c) * Affected(w, c);
    }
  }

  /** The new backings are proper, and the size table still agrees with what is attached. */
  lemma TablesAgree(w: World, c: Call, o: Outcome)
    requires Valid(w) && OsAllows(w, c, o)
    ensures var w3 := Final(w, c, o);
            && (forall a :: a in w3.mapped ==> w3.mapped[a] >= 0)
            && (forall a :: a in w3.sizes && a in w3.attached ==> w3.sizes[a] == w3.attached[a].size)
  {
    hide Affected, Placed, Unmapped, Announced, ResultAllowed;
  }

  /** A guarded call is safe at every instant and keeps the wrapper's table right. */
  lemma CallSafe(w: World, c: Call, o: Outcome)
    requires Valid(w) && OsAllows(w, c, o) && Guarded(w, c)
    ensures forall i :: 0 <= i < 4 ==> Safe(Instants(w, c, o)[i])
    ensures Valid(Final(w, c, o))
  {
    hide Affected, Placed, Unmapped, Announced, Overhang, OsStep, BeforeCall, OsAllows;
    HeldStays(w, c, o);
    TablesAgree(w, c, o);
    if o.ok {
      NotedIsMapped(w, c, o);
    }
  }

  // ----- and when it is not -----

  lemma Beyond(s: set<int>) returns (r: int)
    ensures r % PAGE == 0 && r >= 0 && forall x :: x in s ==> x < r
    decreases s
  {
    if y :| y in s {
      var q := Beyond(s - {y});
      RoundUpBounds(y + 1);
      assert s == (s - {y}) + {y};
      r := if y < q then q else RoundUp(y + 1);
    } else {
      r := 0;
    }
  }

  /** The outcome that lets go of everything affected, and succeeds where it can. */
  lemma ThoroughOutcome(w: World, c: Call) returns (o: Outcome)
    ensures OsAllows(w, c, o) && o.released == Affected(w, c)
    ensures (c.Sbrk? || (c.Brk? && c.addr != NULL)) && CanGrow(w, c) ==> o.ok
    ensures c.Munmap? || c.Shmdt? || c.Madvise? ==> o.ok
    ensures c.Mremap? && (c.fixed ==> c.newAddr % PAGE == 0) ==> o.ok
    ensures c.Mmap? && (c.fixed ==> c.addr % PAGE == 0) ==> o.ok
  {
    var far := Beyond(w.mapped.Keys);
    var id := Beyond(w.mapped.Values);
    var result := if c.Mmap? && c.fixed then c.addr
                  else if c.Mremap? && c.fixed then c.newAddr
                  else if c.Shmat? && c.remap && c.addr != NULL then AttachAddr(c)
                  else far;
    var ok := ResultAllowed(c, result) && (c.Sbrk? || c.Brk? ==> CanGrow(w, c));
    o := Outcome(ok, result, id, Affected(w, c));
    if c.Shmat? {
      RoundUpBounds(c.size);
    }
  }

  /** An unguarded call has an outcome after which the observer holds a stale address. */
  lemma UnguardedFails(w: World, c: Call) returns (o: Outcome)
    requires Valid(w) && !Guarded(w, c)
    ensures OsAllows(w, c, o) && (!Safe(Instants(w, c, o)[2]) || !Safe(Instants(w, c, o)[3]))
  {
    o := ThoroughOutcome(w, c);
    var w1, w2, w3 := Instants(w, c, o)[1], Instants(w, c, o)[2], Instants(w, c, o)[3];
    if !(w.held.Keys !! Unannounced(w, c)) {
      var x :| x in w.held && x in Unannounced(w, c);
      assert x in w1.held && w1.held[x] == w.mapped[x];
      assert w2.held == w1.held;
      assert w.mapped[x] in w.mapped.Values;
      assert x in w2.mapped ==> w2.mapped[x] == o.id;
    } else {
      var x :| x in Overhang(w, c) && x !in w.mapped;
      var n := NewBrk(w, c);
      RoundUpBounds(w.brk);
      assert x in Announced(w, c, o.result) && x !in Placed(w, c, o.result);
      assert x in w3.held && x !in w3.mapped;
    }
  }

  /** The exact condition: every outcome of the call is safe throughout if and only if it is guarded. */
  lemma GuardExact(w: World, c: Call)
    requires Valid(w)
    ensures Guarded(w, c) <==>
            forall o, i :: OsAllows(w, c, o) && 0 <= i < 4 ==> Safe(Instants(w, c, o)[i])
  {
    if Guarded(w, c) {
      forall o, i | OsAllows(w, c, o) && 0 <= i < 4
        ensures Safe(Instants(w, c, o)[i])
      {
        CallSafe(w, c, o);
      }
    } else {
      var o := UnguardedFails(w, c);
    }
  }

  /** Sizes are whole pages, and no fixed-address request names NULL or moves onto other memory. */
  predicate Plain(c: Call) {
    match c
    case Mmap(a, n, fixed) => n % PAGE == 0 && !(fixed && a == NULL)
    case Munmap(_, n) => n % PAGE == 0
    case Mremap(_, n, _, fixed, _) => n % PAGE == 0 && !fixed
    case Shmat(n, _, _, _) => n % PAGE == 0
    case Shmdt(_) => true
    case Sbrk(d) => d % PAGE == 0
    case Brk(a) => a % PAGE == 0
    case Madvise(_, n, advice) => n % PAGE == 0 && !advice.DontNeedLocked?
  }

  lemma RoundUpExact(n: int)
    requires n % PAGE == 0
    ensures RoundUp(n) == n
  {}

  lemma PlainGuarded(w: World, c: Call)
    requires Valid(w) && Plain(c) && w.brk % PAGE == 0
    ensures Guarded(w, c) && Unannounced(w, c) == {}
  {
    hide RoundUp;
    RoundUpExact(w.brk);
    match c
    case Mmap(_, n, _) => RoundUpExact(n);
    case Munmap(_, n) => RoundUpExact(n);
    case Mremap(_, n, _, _, _) => RoundUpExact(n);
    case Shmat(n, _, _, _) => RoundUpExact(n);
    case Shmdt(_) =>
    case Sbrk(d) => RoundUpExact(w.brk + d);
    case Brk(a) => RoundUpExact(a);
    case Madvise(_, n, _) => RoundUpExact(n);
  }

  lemma PlainBrk(w: World, c: Call, o: Outcome)
    requires Plain(c) && w.brk % PAGE == 0
    ensures Final(w, c, o).brk % PAGE == 0
  {}

  /** A held address that may go untold makes a call unguarded. */
  lemma UntoldIsUnguarded(w: World, c: Call, x: int)
    requires x in w.held && x in Unannounced(w, c)
    ensures !Guarded(w, c)
  {
    hide Unannounced;
    assert x in w.held.Keys;
  }

  /** A world in which the observer holds one page, and another one is mapped as well. */
  function OnePageHeld(held: int, other: int): World {
    World(map x | x in Span(held, PAGE) + Span(other, PAGE) :: 1, 0, map[], map x | x in Span(held, PAGE) :: 1, map[])
  }

  /** Moving a mapping onto an address the observer holds: the old memory there goes untold. */
  lemma FixedRemapUnsafe()
    ensures var w := OnePageHeld(0x20000, 0x10000);
            Valid(w) && !Guarded(w, Mremap(0x10000, PAGE, PAGE, true, 0x20000))
  {
    var w, c := OnePageHeld(0x20000, 0x10000), Mremap(0x10000, PAGE, PAGE, true, 0x20000);
    assert Within(0x20000, 0x20000, PAGE) && !Within(0x20000, 0x10000, PAGE);
    UntoldIsUnguarded(w, c, 0x20000);
  }

  /** Mapping over address 0, which the wrapper takes for no address given. */
  lemma FixedAtNullUnsafe()
    ensures var w := OnePageHeld(0, 0x10000); Valid(w) && !Guarded(w, Mmap(0, PAGE, true))
  {
    var w, c := OnePageHeld(0, 0x10000), Mmap(0, PAGE, true);
    assert Within(0, 0, PAGE);
    UntoldIsUnguarded(w, c, 0);
  }

  /** Unmapping one byte: the system drops the page, the observer is told about the byte. */
  lemma PageTailUnsafe()
    ensures var w := OnePageHeld(0x10000, 0x20000); Valid(w) && !Guarded(w, Munmap(0x10000, 1))
  {
    var w, c := OnePageHeld(0x10000, 0x20000), Munmap(0x10000, 1);
    assert RoundUp(1) == PAGE;
    assert Within(0x10001, 0x10000, PAGE) && !Within(0x10001, 0x10000, 1);
    UntoldIsUnguarded(w, c, 0x10001);
  }

  /** Advice the wrapper does not know. */
  lemma UnknownAdviceUnsafe()
    ensures var w := OnePageHeld(0x10000, 0x20000); Valid(w) && !Guarded(w, Madvise(0x10000, PAGE, DontNeedLocked))
  {
    var w, c := OnePageHeld(0x10000, 0x20000), Madvise(0x10000, PAGE, DontNeedLocked);
    assert RoundUp(PAGE) == PAGE;
    assert Within(0x10000, 0x10000, PAGE);
    UntoldIsUnguarded(w, c, 0x10000);
  }

  // ----- whole runs -----

  ghost predicate Legal(w: World, run: seq<(Call, Outcome)>)
    decreases |run|
  {
    run == [] ||
    (OsAllows(w, run[0].0, run[0].1) && Legal(Final(w, run[0].0, run[0].1), run[1..]))
  }

  ghost predicate AllGuarded(w: World, run: seq<(Call, Outcome)>)
    decreases |run|
  {
    run == [] ||
    (Guarded(w, run[0].0) && AllGuarded(Final(w, run[0].0, run[0].1), run[1..]))
  }

  /** Every instant of a run. */
  function History(w: World, run: seq<(Call, Outcome)>): seq<World>
    decreases |run|
  {
    if run == [] then [w] else Instants(w, run[0].0, run[0].1) + History(Final(w, run[0].0, run[0].1), run[1..])
  }

  /** Over a whole run of guarded calls, succeeding or failing, no instant is unsafe. */
  lemma {:induction false} RunSafe(w: World, run: seq<(Call, Outcome)>)
    requires Valid(w) && Legal(w, run) && AllGuarded(w, run)
    ensures forall i :: 0 <= i < |History(w, run)| ==> Safe(History(w, run)[i])
    decreases |run|
  {
    hide Guarded, OsAllows, Instants, Safe;
    if run != [] {
      var (c, o) := run[0];
      CallSafe(w, c, o);
      RunSafe(Final(w, c, o), run[1..]);
      FourInstants(w, c, o);
    } else {
      assert Safe(w);
    }
  }

  lemma FourInstants(w: World, c: Call, o: Outcome)
    ensures |Instants(w, c, o)| == 4
  {}

  lemma {:induction false} PlainRunGuarded(w: World, run: seq<(Call, Outcome)>)
    requires Valid(w) && Legal(w, run) && w.brk % PAGE == 0
    requires forall i :: 0 <= i < |run| ==> Plain(run[i].0)
    ensures AllGuarded(w, run)
    decreases |run|
  {
    hide Guarded, OsAllows, Safe, Instants, Plain;
    if run != [] {
      var (c, o) := run[0];
      PlainGuarded(w, c);
      CallSafe(w, c, o);
      PlainBrk(w, c, o);
      PlainRunGuarded(Final(w, c, o), run[1..]);
    }
  }

  /**
    For every run of page-sized calls that never names a fixed destination over other memory,
    whatever the operating system answers, the observer never holds a released address.
    */
  lemma PlainRunSafe(w: World, run: seq<(Call, Outcome)>)
    requires Valid(w) && Legal(w, run) && w.brk % PAGE == 0
    requires forall i :: 0 <= i < |run| ==> Plain(run[i].0)
    ensures forall i :: 0 <= i < |History(w, run)| ==> Safe(History(w, run)[i])
  {
    hide Legal, AllGuarded, Valid, History;
    PlainRunGuarded(w, run);
    RunSafe(w, run);
  }

  // ----- what the observer knows -----

  /** From lo up to hi. */
  datatype Bounds = Bounds(lo: int, hi: int)
  {
    predicate Has(x: int) { lo <= x < hi }
  }

  /** The memory a successful call gives the program, as far as it was asked for. */
  function Fresh(w: World, c: Call, result: int): Bounds {
    match c
    case Mmap(_, n, _) => Bounds(result, result + n)
    case Mremap(_, _, m, _, _) => Bounds(result, result + m)
    case Shmat(n, _, _, _) => Bounds(result, result + n)
    case Sbrk(d) => Bounds(w.brk, w.brk + d)
    case Brk(a) => if a == NULL then Bounds(0, 0) else Bounds(w.brk, a)
    case _ => Bounds(0, 0)
  }

  /** The range a call itself names as going away. */
  function Gone(w: World, c: Call): Bounds {
    match c
    case Mmap(a, n, fixed) => if fixed && a != NULL then Bounds(a, a + n) else Bounds(0, 0)
    case Munmap(a, n) => Bounds(a, a + n)
    case Mremap(a, n, _, _, _) => Bounds(a, a + n)
    case Shmat(n, a, remap, rnd) =>
      var at := if rnd then a - a % SHMLBA else a;
      if remap && a != NULL then Bounds(at, at + n) else Bounds(0, 0)
    case Shmdt(a) =>
      Bounds(a, a + if a in w.sizes then w.sizes[a] else if a in w.attached then w.attached[a].size else 0)
    case Sbrk(d) => Bounds(w.brk + d, w.brk)
    case Brk(a) => if a == NULL then Bounds(0, 0) else Bounds(a, w.brk)
    case Madvise(a, n, advice) =>
      if advice.DontNeed? || advice.Remove? || advice.Free? then Bounds(a, a + n) else Bounds(0, 0)
  }

  lemma SpanHas(a: int, n: int, x: int)
    ensures x in Span(a, n) <==> a <= x < a + n
  {
    assert Within(x, a, n) <==> a <= x < a + n;
  }

  lemma GoneIsUnmapped(w: World, c: Call, x: int)
    ensures x in Unmapped(w, c) <==> Gone(w, c).Has(x)
  {
    hide Span;
    match c
    case Mmap(a, n, _) => SpanHas(a, n, x);
    case Munmap(a, n) => SpanHas(a, n, x);
    case Mremap(a, n, _, _, _) => SpanHas(a, n, x);
    case Shmat(n, _, _, _) => SpanHas(AttachAddr(c), n, x);
    case Shmdt(a) => SpanHas(a, DetachSize(w, a), x);
    case Sbrk(d) => SpanHas(w.brk + d, -d, x);
    case Brk(a) => SpanHas(a, w.brk - a, x);
    case Madvise(a, n, _) => SpanHas(a, n, x);
  }

  lemma FreshIsAnnounced(w: World, c: Call, result: int, x: int)
    ensures x in Announced(w, c, result) <==> Fresh(w, c, result).Has(x)
  {
    hide Span;
    match c
    case Mmap(_, n, _) => SpanHas(result, n, x);
    case Mremap(_, _, m, _, _) => SpanHas(result, m, x);
    case Shmat(n, _, _, _) => SpanHas(result, n, x);
    case Sbrk(d) => SpanHas(w.brk, d, x);
    case Brk(a) => SpanHas(w.brk, a - w.brk, x);
    case _ =>
  }

  /**
    After any call with any outcome, the observer holds exactly what the call gave the program, as
    it is backed now, and what it held before outside the range the call named as going away.
    */
  lemma HeldExactly(w: World, c: Call, o: Outcome, x: int)
    ensures var t := Final(w, c, o);
            && (x in t.held <==> (o.ok && Fresh(w, c, o.result).Has(x)) || (x in w.held && !Gone(w, c).Has(x)))
            && (x in t.held && o.ok && Fresh(w, c, o.result).Has(x) ==>
                  t.held[x] == if x in t.mapped then t.mapped[x] else UNBACKED)
            && (x in t.held && !(o.ok && Fresh(w, c, o.result).Has(x)) ==> t.held[x] == w.held[x])
  {
    hide Unmapped, Announced, Fresh, Gone, OsStep;
    GoneIsUnmapped(w, c, x);
    FreshIsAnnounced(w, c, o.result, x);
    OsKeepsBeliefs(BeforeCall(w, c), c, o);
  }

  lemma OsKeepsBeliefs(w: World, c: Call, o: Outcome)
    ensures OsStep(w, c, o).held == w.held
  {}

  /** A successful mmap, mremap or shmat: every address asked for is held, with its new backing. */
  lemma ToldOfNew(w: World, c: Call, o: Outcome, x: int)
    requires OsAllows(w, c, o) && o.ok && (c.Mmap? || c.Mremap? || c.Shmat?)
    requires o.result <= x < o.result + if c.Mmap? then c.len else if c.Mremap? then c.newLen else c.size
    ensures var t := Final(w, c, o);
            x in t.held && x in t.mapped && t.held[x] == t.mapped[x] == o.id
  {
    HeldExactly(w, c, o, x);
    FreshIsAnnounced(w, c, o.result, x);
    AnnouncedIsPlaced(w, c, o);
    hide Unmapped, Announced, Gone, Placed, Affected;
    assert x in Placed(w, c, o.result);
    assert Placed(BeforeCall(w, c), c, o.result) == Placed(w, c, o.result);
  }

  /** A break that grows, past memory that is there: every address up to the new break is held, as it is backed. */
  lemma ToldOfGrowth(w: World, c: Call, o: Outcome, x: int)
    requires OsAllows(w, c, o) && o.ok && (c.Sbrk? || (c.Brk? && c.addr != NULL)) && Guarded(w, c)
    requires w.brk <= x < if c.Sbrk? then w.brk + c.increment else c.addr
    ensures var t := Final(w, c, o);
            x in t.held && x in t.mapped && t.held[x] == t.mapped[x]
  {
    HeldExactly(w, c, o, x);
    FreshIsAnnounced(w, c, o.result, x);
    NotedIsMapped(w, c, o);
    hide Unmapped, Announced, Gone, Placed, Affected, OsStep, BeforeCall;
    assert Final(w, c, o).mapped == OsStep(BeforeCall(w, c), c, o).mapped;
  }

  /** None of the calls of a run names the address as going away. */
  ghost predicate Spared(w: World, run: seq<(Call, Outcome)>, x: int)
    decreases |run|
  {
    run == [] || (!Gone(w, run[0].0).Has(x) && Spared(Final(w, run[0].0, run[0].1), run[1..], x))
  }

  function AfterRun(w: World, run: seq<(Call, Outcome)>): World
    decreases |run|
  {
    if run == [] then w else AfterRun(Final(w, run[0].0, run[0].1), run[1..])
  }

  /** Over every run: what the observer holds it holds until a call names it. */
  lemma {:induction false} HeldUntilNamed(w: World, run: seq<(Call, Outcome)>, x: int)
    requires x in w.held && Spared(w, run, x)
    ensures x in AfterRun(w, run).held
    decreases |run|
  {
    hide Final, Gone;
    if run != [] {
      HeldExactly(w, run[0].0, run[0].1, x);
      HeldUntilNamed(Final(w, run[0].0, run[0].1), run[1..], x);
    }
  }

  // ----- the wrappers as code -----

  /** Empty notifications change nothing. */
  lemma EmptyNotice(w: World)
    ensures Note(w, {}) == w && w.(held := w.held - {}) == w
  {
    assert w.held - {} == w.held;
    assert Note(w, {}).held == w.held;
  }

  /** Notes and the size table are independent. */
  lemma NoteAndSizes(w: World, range: set<int>, sizes: map<int, int>)
    ensures Note(w, range).(sizes := sizes) == Note(w.(sizes := sizes), range)
  {
    assert Note(w, range).held == Note(w.(sizes := sizes), range).held;
  }

  lemma ShmatBefore(w: World, c: Call)
    requires c.Shmat?
    ensures BeforeCall(w, c) ==
            if c.remap && c.addr != NULL
            then w.(held := w.held - Span(AttachAddr(c), c.size), sizes := w.sizes - {AttachAddr(c)})
            else w
  {
    hide Span;
    EmptyNotice(w);
  }

  lemma ShmatAfter(w: World, c: Call, o: Outcome)
    requires c.Shmat?
    ensures var w2 := OsStep(BeforeCall(w, c), c, o);
            Final(w, c, o) == if !o.ok then w2
                              else Note(w2, Span(o.result, c.size)).(sizes := w2.sizes[o.result := c.size])
  {
    hide Span, OsStep, Note, BeforeCall;
  }

  lemma EmptySpan(a: int, n: int)
    requires n <= 0
    ensures Span(a, n) == {}
  {}

  /** The hook layer: its size table is real, the world around it and the log are for the proof. */
  class MemoryHooks {
    var sizes: map<int, int>
    ghost var world: World
    ghost var log: seq<World>

    ghost predicate Ready()
      reads this
    {
      sizes == world.sizes
    }

    /** VM_UNMAPPED: the observer lets go of a range. */
    method DispatchVmMunmap(addr: int, len: int)
      modifies this`world
      ensures world == old(world).(held := old(world.held) - Span(addr, len))
    {
      world := world.(held := world.held - Span(addr, len));
    }

    /** VM_MAPPED: the observer takes note of a range. */
    method DispatchVmMmap(addr: int, len: int)
      modifies this`world
      ensures world == Note(old(world), Span(addr, len))
    {
      world := Note(world, Span(addr, len));
    }

    method SetSize(addr: int, size: int)
      requires Ready()
      modifies this`sizes, this`world
      ensures Ready() && world == old(world).(sizes := old(world.sizes)[addr := size])
    {
      sizes := sizes[addr := size];
      world := world.(sizes := sizes);
    }

    /** Removes a table entry and returns its size, if there is one. */
    method DelEntry(addr: int) returns (found: bool, size: int)
      requires Ready()
      modifies this`sizes, this`world
      ensures Ready() && world == old(world).(sizes := old(world.sizes) - {addr})
      ensures found == (addr in old(sizes)) && (found ==> size == old(sizes)[addr])
    {
      found := addr in sizes;
      size := if found then sizes[addr] else 0;
      sizes := sizes - {addr};
      world := world.(sizes := sizes);
    }

    /** The original system call, with the outcome it happens to have. */
    ghost method CallOrig(c: Call, o: Outcome)
      modifies this`world, this`log
      ensures world == OsStep(old(world), c, o) && log == old(log) + [old(world), world]
      ensures world.sizes == old(world.sizes)
    {
      log := log + [world];
      world := OsStep(world, c, o);
      log := log + [world];
    }

    twostate predicate Followed(c: Call, o: Outcome)
      reads this
    {
      log == old(log) + Instants(old(world), c, o) && world == Final(old(world), c, o)
    }

    /** The end of every wrapper: the last notification and the log. */
    ghost method Finish(c: Call, o: Outcome, w0: World, log0: seq<World>)
      requires log == log0 + [w0, BeforeCall(w0, c), OsStep(BeforeCall(w0, c), c, o)]
      requires world == Final(w0, c, o)
      modifies this`log
      ensures log == log0 + Instants(w0, c, o)
    {
      log := log + [world];
    }

    method MmapHook(addr: int, len: int, fixed: bool, o: Outcome) returns (result: int)
      requires Ready()
      modifies this
      ensures Ready() && Followed(Mmap(addr, len, fixed), o) && (o.ok ==> result == o.result)
    {
      hide Span, OsStep, Note;
      ghost var c := Mmap(addr, len, fixed);
      EmptyNotice(world);
      log := log + [world];
      if fixed && addr != NULL {
        DispatchVmMunmap(addr, len);
      }
      CallOrig(c, o);
      if o.ok {
        NoteAndSizes(world, Span(o.result, len), world.sizes);
        DispatchVmMmap(o.result, len);
      }
      result := if o.ok then o.result else -1;
      Finish(c, o, old(world), old(log));
    }

    method MunmapHook(addr: int, len: int, o: Outcome) returns (ok: bool)
      requires Ready()
      modifies this
      ensures Ready() && Followed(Munmap(addr, len), o) && ok == o.ok
    {
      ghost var c := Munmap(addr, len);
      log := log + [world];
      DispatchVmMunmap(addr, len);
      CallOrig(c, o);
      EmptyNotice(world);
      ok := o.ok;
      Finish(c, o, old(world), old(log));
    }

    method MremapHook(addr: int, oldLen: int, newLen: int, fixed: bool, newAddr: int, o: Outcome)
      returns (result: int)
      requires Ready()
      modifies this
      ensures Ready() && Followed(Mremap(addr, oldLen, newLen, fixed, newAddr), o) && (o.ok ==> result == o.result)
    {
      ghost var c := Mremap(addr, oldLen, newLen, fixed, newAddr);
      log := log + [world];
      DispatchVmMunmap(addr, oldLen);
      CallOrig(c, o);
      if o.ok {
        DispatchVmMmap(o.result, newLen);
      }
      result := if o.ok then o.result else -1;
      Finish(c, o, old(world), old(log));
    }

    method ShmatHook(size: int, addr: int, remap: bool, rnd: bool, o: Outcome) returns (result: int)
      requires Ready()
      modifies this
      ensures Ready() && Followed(Shmat(size, addr, remap, rnd), o) && (o.ok ==> result == o.result)
    {
      hide Span, OsStep, Note, BeforeCall, Instants, Final;
      ghost var c := Shmat(size, addr, remap, rnd);
      ShmatBefore(world, c);
      ShmatAfter(world, c, o);
      log := log + [world];
      if remap && addr != NULL {
        var attach := addr;
        if rnd {
          attach := attach - attach % SHMLBA;
        }
        DispatchVmMunmap(attach, size);
        var _, _ := DelEntry(attach);
      }
      CallOrig(c, o);
      if o.ok {
        NoteAndSizes(world, Span(o.result, size), world.sizes[o.result := size]);
        SetSize(o.result, size);
        DispatchVmMmap(o.result, size);
      }
      result := if o.ok then o.result else -1;
      Finish(c, o, old(world), old(log));
    }

    /** segSize is what the system reports for the segment when the table has no entry. */
    method ShmdtHook(addr: int, segSize: int, o: Outcome) returns (ok: bool)
      requires Ready()
      requires segSize == if addr in world.attached then world.attached[addr].size else 0
      modifies this
      ensures Ready() && Followed(Shmdt(addr), o) && ok == o.ok
    {
      hide Span, OsStep;
      ghost var c := Shmdt(addr);
      log := log + [world];
      var found, size := DelEntry(addr);
      if !found {
        size := segSize;
      }
      DispatchVmMunmap(addr, size);
      CallOrig(c, o);
      EmptyNotice(world);
      ok := o.ok;
      Finish(c, o, old(world), old(log));
    }

    method SbrkHook(increment: int, currentBrk: int, o: Outcome) returns (ok: bool)
      requires Ready() && currentBrk == world.brk
      modifies this
      ensures Ready() && Followed(Sbrk(increment), o) && ok == o.ok
    {
      hide RoundUp, Span, OsStep;
      ghost var c := Sbrk(increment);
      EmptyNotice(world);
      log := log + [world];
      if increment < 0 {
        DispatchVmMunmap(currentBrk + increment, -increment);
      } else {
        EmptySpan(currentBrk + increment, -increment);
      }
      CallOrig(c, o);
      EmptyNotice(world);
      if increment > 0 && o.ok {
        var newBrk := currentBrk + increment;
        DispatchVmMmap(newBrk - increment, increment);
      } else if increment <= 0 {
        EmptySpan(currentBrk, increment);
      }
      ok := o.ok;
      Finish(c, o, old(world), old(log));
    }

    method BrkHook(addr: int, currentBrk: int, o: Outcome) returns (ok: bool)
      requires Ready() && currentBrk == world.brk
      modifies this
      ensures Ready() && Followed(Brk(addr), o) && ok == o.ok
    {
      hide RoundUp, Span, OsStep;
      ghost var c := Brk(addr);
      EmptyNotice(world);
      log := log + [world];
      var increment := if addr == NULL then 0 else addr - currentBrk;
      if increment < 0 {
        DispatchVmMunmap(addr, -increment);
      } else {
        EmptySpan(addr, -increment);
      }
      CallOrig(c, o);
      EmptyNotice(world);
      if increment > 0 && o.ok {
        DispatchVmMmap(currentBrk, increment);
      } else if increment <= 0 {
        EmptySpan(currentBrk, increment);
      }
      ok := o.ok;
      Finish(c, o, old(world), old(log));
    }

    method MadviseHook(addr: int, len: int, advice: Advice, o: Outcome) returns (ok: bool)
      requires Ready()
      modifies this
      ensures Ready() && Followed(Madvise(addr, len, advice), o) && ok == o.ok
    {
      hide Span, OsStep;
      ghost var c := Madvise(addr, len, advice);
      EmptyNotice(world);
      log := log + [world];
      if advice == DontNeed || advice == Remove || advice == Free {
        DispatchVmMunmap(addr, len);
      }
      CallOrig(c, o);
      EmptyNotice(world);
      ok := o.ok;
      Finish(c, o, old(world), old(log));
    }
  }
}
