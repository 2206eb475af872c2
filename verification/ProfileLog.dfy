/**
  The profile log reader.  A first pass matches scope ends to scope begins with a stack that is
  never cleared; a second pass prints the records, indented by their nesting, and numbers requests.
  */
module ProfileLog {

  const STACK_MAX: int := 64

  datatype Kind = ScopeBegin | ScopeEnd | Sample | RequestNew | RequestEvent | RequestFree | Other

  datatype Record = Record(kind: Kind, name: string, timestamp: int, param: int)

  // ----- scopes -----

  function Change(kind: Kind): int {
    if kind.ScopeBegin? then 1 else if kind.ScopeEnd? then -1 else 0
  }

  /** How many scopes were entered and not left by the first k records; negative if more were left. */
  function Depth(r: seq<Record>, k: nat): int
    requires k <= |r|
  {
    if k == 0 then 0 else Depth(r, k - 1) + Change(r[k - 1].kind)
  }

  /** Record i enters a scope at depth s. */
  ghost predicate BeginAt(r: seq<Record>, i: nat, s: int) {
    i < |r| && r[i].kind.ScopeBegin? && Depth(r, i) == s
  }

  /** Record j is a later end that returns to the depth before record i. */
  ghost predicate Closes(r: seq<Record>, i: nat, j: nat) {
    i < j < |r| && r[j].kind.ScopeEnd? && Depth(r, j + 1) == Depth(r, i)
  }

  /** Record j is the end of the scope that record i begins. */
  ghost predicate Matches(r: seq<Record>, i: nat, j: nat) {
    && Closes(r, i, j) && r[i].kind.ScopeBegin?
    && forall m: nat :: i < m < j ==> !Closes(r, i, m)
  }

  /** What is known about the end of record i after k records; -1 stands for no end. */
  ghost predicate EndUpTo(r: seq<Record>, i: nat, k: nat, e: int)
    requires i < |r|
  {
    if e == -1 then r[i].kind.ScopeBegin? ==> forall j: nat :: i < j < k ==> !Closes(r, i, j)
    else 0 <= e < k && Matches(r, i, e)
  }

  /** The stack slot for depth s after k records: the latest begin at that depth, even if it has ended. */
  ghost predicate SlotUpTo(r: seq<Record>, s: int, k: nat, e: int) {
    if e == -1 then forall i: nat :: i < k ==> !BeginAt(r, i, s)
    else 0 <= e < k && BeginAt(r, e, s) && forall m: nat :: e < m < k ==> !BeginAt(r, m, s)
  }

  /** The nesting bound: every depth that is entered or returned to has a slot. */
  ghost predicate Bounded(r: seq<Record>) {
    forall k: nat :: k <= |r| ==> -STACK_MAX <= Depth(r, k) <= STACK_MAX
  }

  /** Depth cannot rise above s without a begin at s, nor fall to s without an end that returns to s. */
  lemma {:induction false} Crossing(r: seq<Record>, a: nat, b: nat, s: int) returns (m: nat)
    requires a < b <= |r| && (Depth(r, a) <= s < Depth(r, b) || Depth(r, b) <= s < Depth(r, a))
    ensures a <= m < b
    ensures Depth(r, a) <= s ==> BeginAt(r, m, s)
    ensures s < Depth(r, a) ==> r[m].kind.ScopeEnd? && Depth(r, m + 1) == s
  {
    m := b - 1;
    if a < b - 1 && (Depth(r, a) <= s) != (Depth(r, b - 1) <= s) {
      m := Crossing(r, a, b - 1, s);
    }
  }

  /** At an end that returns to depth s, the slot's begin is the only one at that depth still open. */
  lemma SlotIsOpen(r: seq<Record>, k: nat, s: int, slot: int, i: nat)
    requires k < |r| && r[k].kind.ScopeEnd? && Depth(r, k + 1) == s && SlotUpTo(r, s, k, slot)
    requires i < k && BeginAt(r, i, s)
    ensures slot != -1
    ensures i == slot <==> forall j: nat :: i < j < k ==> !Closes(r, i, j)
  {
    if i == slot {
      forall j: nat | i < j < k ensures !Closes(r, i, j) {
        if Closes(r, i, j) && j + 1 < k {
          var _ := Crossing(r, j + 1, k, s);
        }
      }
    } else if slot != -1 {
      assert i < slot;
      assert Depth(r, i + 1) == s + 1;
      var m := Crossing(r, i + 1, slot, s);
      assert Closes(r, i, m);
    }
  }

  lemma EndsAfter(r: seq<Record>, k: nat, slot: int, i: nat, e: int)
    requires i < k < |r| && EndUpTo(r, i, k, e)
    requires r[k].kind.ScopeEnd? ==> SlotUpTo(r, Depth(r, k + 1), k, slot)
    ensures EndUpTo(r, i, k + 1, if r[k].kind.ScopeEnd? && i == slot then k else e)
  {
    if r[k].kind.ScopeEnd? && BeginAt(r, i, Depth(r, k + 1)) {
      SlotIsOpen(r, k, Depth(r, k + 1), slot, i);
    }
  }

  lemma SlotAfter(r: seq<Record>, k: nat, s: int, e: int)
    requires k < |r| && SlotUpTo(r, s, k, e)
    ensures SlotUpTo(r, s, k + 1, if BeginAt(r, k, s) then k else e)
  {}

  /** The lowest depth after any number of the first k records. */
  function MinDepth(r: seq<Record>, k: nat): int
    requires k <= |r|
  {
    if k == 0 then 0
    else
      var d := MinDepth(r, k - 1);
      if Depth(r, k) < d then Depth(r, k) else d
  }

  /** It is a lower bound of all depths, and one of them. */
  lemma {:induction false} MinDepthLeast(r: seq<Record>, k: nat, m: nat)
    requires m <= k <= |r|
    ensures MinDepth(r, k) <= Depth(r, m)
    ensures exists x: nat :: x <= k && MinDepth(r, k) == Depth(r, x)
  {
    if k == 0 {
      assert Depth(r, 0) == 0;
    } else if m < k {
      MinDepthLeast(r, k - 1, m);
    } else {
      MinDepthLeast(r, k - 1, k - 1);
    }
  }

  ghost predicate EndsKnown(r: seq<Record>, k: nat, ends: seq<int>) {
    && |ends| == |r| && k <= |r|
    && forall i :: 0 <= i < |r| ==> if i < k then EndUpTo(r, i, k, ends[i]) else ends[i] == -1
  }

  ghost predicate SlotsKnown(r: seq<Record>, k: nat, stack: seq<int>) {
    && |stack| == 2 * STACK_MAX
    && forall p :: 0 <= p < |stack| ==> SlotUpTo(r, p - STACK_MAX, k, stack[p])
  }

  /** One record: an end completes the scope in its slot, a begin takes over its slot. */
  lemma ScopesAfter(r: seq<Record>, k: nat, ends: seq<int>, stack: seq<int>, p: nat)
    requires k < |r| && EndsKnown(r, k, ends) && SlotsKnown(r, k, stack) && p < |stack|
    ensures stack[p] < k && (stack[p] != -1 ==> stack[p] >= 0)
    ensures r[k].kind.ScopeBegin? && p - STACK_MAX == Depth(r, k) ==>
              EndsKnown(r, k + 1, ends) && SlotsKnown(r, k + 1, stack[p := k])
    ensures r[k].kind.ScopeEnd? && p - STACK_MAX == Depth(r, k + 1) ==>
              && SlotsKnown(r, k + 1, stack)
              && EndsKnown(r, k + 1, if stack[p] == -1 then ends else ends[stack[p] := k])
    ensures !r[k].kind.ScopeBegin? && !r[k].kind.ScopeEnd? ==> EndsKnown(r, k + 1, ends) && SlotsKnown(r, k + 1, stack)
  {
    hide EndUpTo, SlotUpTo, Closes, Depth;
    SlotRange(r, p - STACK_MAX, k, stack[p]);
    NewEnd(r, k);
    forall q | 0 <= q < |stack|
      ensures SlotUpTo(r, q - STACK_MAX, k + 1, if BeginAt(r, k, q - STACK_MAX) then k else stack[q])
    {
      SlotAfter(r, k, q - STACK_MAX, stack[q]);
    }
    if r[k].kind.ScopeEnd? ==> p - STACK_MAX == Depth(r, k + 1) {
      var ends' := if r[k].kind.ScopeEnd? && stack[p] != -1 then ends[stack[p] := k] else ends;
      forall i | 0 <= i < k ensures EndUpTo(r, i, k + 1, ends'[i]) {
        EndsAfter(r, k, stack[p], i, ends[i]);
      }
    }
  }

  /** Every begin is matched with its end, if it has one; the base of the call stack is found. */
  method FindScopes(r: seq<Record>) returns (ends: array<int>, minNesting: int)
    requires Bounded(r)
    ensures fresh(ends) && EndsKnown(r, |r|, ends[..])
    ensures minNesting == MinDepth(r, |r|)
  {
    hide EndsKnown, SlotsKnown, Depth, MinDepth;
    ends := new int[|r|](_ => -1);
    var stack := new int[2 * STACK_MAX](_ => -1);
    var nesting := 0;
    minNesting := 0;
    ScopesStart(r, ends[..], stack[..]);
    for k := 0 to |r|
      invariant nesting == Depth(r, k) && minNesting == MinDepth(r, k)
      invariant EndsKnown(r, k, ends[..]) && SlotsKnown(r, k, stack[..])
    {
      DepthStep(r, k);
      assert -STACK_MAX <= Depth(r, k) <= STACK_MAX && -STACK_MAX <= Depth(r, k + 1) <= STACK_MAX;
      Sizes(r, k, ends[..], stack[..]);
      match r[k].kind {
        case ScopeBegin =>
          ScopesAfter(r, k, ends[..], stack[..], nesting + STACK_MAX);
          stack[nesting + STACK_MAX] := k;
          nesting := nesting + 1;
        case ScopeEnd =>
          nesting := nesting - 1;
          if nesting < minNesting {
            minNesting := nesting;
          }
          ScopesAfter(r, k, ends[..], stack[..], nesting + STACK_MAX);
          var sep := stack[nesting + STACK_MAX];
          if sep != -1 {
            ends[sep] := k;
          }
        case _ =>
          ScopesAfter(r, k, ends[..], stack[..], 0);
      }
    }
  }

  lemma DepthStep(r: seq<Record>, k: nat)
    requires k < |r|
    ensures Depth(r, k + 1) == Depth(r, k) + Change(r[k].kind)
    ensures MinDepth(r, k + 1) == if Depth(r, k + 1) < MinDepth(r, k) then Depth(r, k + 1) else MinDepth(r, k)
    ensures Change(r[k].kind) >= 0 ==> MinDepth(r, k + 1) == MinDepth(r, k)
  {
    MinDepthLeast(r, k, k);
  }

  lemma ScopesStart(r: seq<Record>, ends: seq<int>, stack: seq<int>)
    requires |ends| == |r| && |stack| == 2 * STACK_MAX
    requires (forall i :: 0 <= i < |ends| ==> ends[i] == -1) && (forall p :: 0 <= p < |stack| ==> stack[p] == -1)
    ensures EndsKnown(r, 0, ends) && SlotsKnown(r, 0, stack) && Depth(r, 0) == MinDepth(r, 0) == 0
  {}

  lemma Sizes(r: seq<Record>, k: nat, ends: seq<int>, stack: seq<int>)
    requires EndsKnown(r, k, ends) && SlotsKnown(r, k, stack)
    ensures |ends| == |r| && |stack| == 2 * STACK_MAX
  {}

  lemma SlotRange(r: seq<Record>, s: int, k: nat, e: int)
    requires SlotUpTo(r, s, k, e)
    ensures -1 <= e < k
  {}

  lemma NewEnd(r: seq<Record>, k: nat)
    requires k < |r|
    ensures EndUpTo(r, k, k + 1, -1)
  {}

  /** Between a begin and its end the depth stays above the one before the begin. */
  lemma InsideDeeper(r: seq<Record>, i: nat, j: nat, m: nat)
    requires Matches(r, i, j) && i < m <= j
    ensures Depth(r, i) < Depth(r, m)
  {
    if Depth(r, m) <= Depth(r, i) {
      assert Depth(r, i + 1) == Depth(r, i) + 1;
      var x := Crossing(r, i + 1, m, Depth(r, i));
      assert Closes(r, i, x);
    }
  }

  /** Scopes nest: two matched pairs are disjoint or one lies inside the other, and no end is shared. */
  lemma ScopesNest(r: seq<Record>, i: nat, j: nat, i': nat, j': nat)
    requires Matches(r, i, j) && Matches(r, i', j') && i < i'
    ensures j' < j || j < i'
  {
    if i' < j <= j' {
      InsideDeeper(r, i, j, i');
      InsideDeeper(r, i', j', j);
    }
  }

  /** A begin has an end exactly when some later depth is not above the one before it. */
  lemma UnfinishedExactly(r: seq<Record>, i: nat, e: int)
    requires i < |r| && r[i].kind.ScopeBegin? && EndUpTo(r, i, |r|, e)
    ensures e == -1 <==> forall m: nat :: i < m <= |r| ==> Depth(r, i) < Depth(r, m)
  {
    if e == -1 {
      forall m: nat | i < m <= |r| ensures Depth(r, i) < Depth(r, m) {
        if Depth(r, m) <= Depth(r, i) {
          assert Depth(r, i + 1) == Depth(r, i) + 1;
          var x := Crossing(r, i + 1, m, Depth(r, i));
          assert Closes(r, i, x);
        }
      }
    } else {
      assert Depth(r, e + 1) == Depth(r, i);
    }
  }

  // ----- request numbers -----

  /** How many requests the first k records create. */
  function News(r: seq<Record>, k: nat): nat
    requires k <= |r|
  {
    if k == 0 then 0 else News(r, k - 1) + (if r[k - 1].kind.RequestNew? then 1 else 0)
  }

  /** Record m creates request `key`, and it is the latest not to be freed or replaced by record k. */
  ghost predicate Current(r: seq<Record>, key: int, m: nat, k: nat) {
    && m < k <= |r| && r[m].kind.RequestNew? && r[m].param == key
    && forall x: nat :: m < x < k ==> !Ends(r, key, x)
  }

  /** Record x creates a request with the same key anew, or frees it. */
  ghost predicate Ends(r: seq<Record>, key: int, x: nat) {
    x < |r| && (r[x].kind.RequestNew? || r[x].kind.RequestFree?) && r[x].param == key
  }

  /** The number of the current request with that key before record k, or 0 if there is none. */
  ghost predicate IdOf(r: seq<Record>, key: int, k: nat, id: nat)
    requires k <= |r|
  {
    if id == 0 then forall m: nat :: !Current(r, key, m, k)
    else exists m: nat :: Current(r, key, m, k) && id == News(r, m) + 1
  }

  function Lookup(ids: map<int, nat>, key: int): nat { if key in ids then ids[key] else 0 }

  /** The map of request numbers holds exactly the current requests. */
  ghost predicate Tracks(r: seq<Record>, k: nat, ids: map<int, nat>)
    requires k <= |r|
  {
    forall key :: IdOf(r, key, k, Lookup(ids, key))
  }

  lemma IdAfter(r: seq<Record>, k: nat, key: int, id: nat)
    requires k < |r| && IdOf(r, key, k, id)
    ensures IdOf(r, key, k + 1, if !Ends(r, key, k) then id else if r[k].kind.RequestNew? then News(r, k) + 1 else 0)
  {
    hide Current, News;
    if !Ends(r, key, k) {
      CurrentKept(r, key, k, k + 1);
    } else {
      CurrentAnew(r, key, k, k + 1);
    }
  }

  lemma TracksAfter(r: seq<Record>, k: nat, ids: map<int, nat>, ids': map<int, nat>)
    requires k < |r| && Tracks(r, k, ids)
    requires ids' == match r[k].kind
                     case RequestNew => ids[r[k].param := News(r, k) + 1]
                     case RequestFree => ids - {r[k].param}
                     case _ => ids
    ensures Tracks(r, k + 1, ids')
  {
    hide IdOf, News;
    forall key ensures IdOf(r, key, k + 1, Lookup(ids', key)) {
      IdAfter(r, k, key, Lookup(ids, key));
    }
  }

  lemma CurrentKept(r: seq<Record>, key: int, k: nat, next: nat)
    requires k < |r| && next == k + 1 && !Ends(r, key, k)
    ensures forall m: nat :: Current(r, key, m, next) <==> Current(r, key, m, k)
  {}

  lemma CurrentAnew(r: seq<Record>, key: int, k: nat, next: nat)
    requires k < |r| && next == k + 1 && Ends(r, key, k)
    ensures forall m: nat :: Current(r, key, m, next) <==> m == k && r[k].kind.RequestNew?
  {}

  lemma {:induction false} NewsMonotone(r: seq<Record>, a: nat, b: nat)
    requires a <= b <= |r|
    ensures News(r, a) <= News(r, b)
  {
    if a < b {
      NewsMonotone(r, a, b - 1);
    }
  }

  lemma NewsGrow(r: seq<Record>, a: nat, b: nat)
    requires a < b <= |r| && r[a].kind.RequestNew?
    ensures News(r, a) < News(r, b)
  {
    NewsMonotone(r, a + 1, b);
  }

  /** Numbers are never reused: the same number for two records means the same request. */
  lemma IdsDistinct(r: seq<Record>, a: nat, b: nat)
    requires a < |r| && b < |r| && r[a].kind.RequestNew? && r[b].kind.RequestNew? && News(r, a) == News(r, b)
    ensures a == b
  {
    if a < b {
      NewsGrow(r, a, b);
    } else if b < a {
      NewsGrow(r, b, a);
    }
  }

  /** The request a printed number stands for is unique. */
  lemma IdNamesOne(r: seq<Record>, key: int, k: nat, key': int, k': nat, id: nat)
    requires k <= |r| && k' <= |r| && id != 0 && IdOf(r, key, k, id) && IdOf(r, key', k', id)
    ensures key == key'
    ensures exists m: nat :: Current(r, key, m, k) && Current(r, key, m, k') && id == News(r, m) + 1
  {
    var m: nat :| Current(r, key, m, k) && id == News(r, m) + 1;
    var m': nat :| Current(r, key', m', k') && id == News(r, m') + 1;
    IdsDistinct(r, m, m');
  }

  // ----- the listing -----

  datatype Action = NewRequest | RequestUpdate | FreeRequest

  /** A printed line; times are differences of 64-bit time stamps. */
  datatype Line =
    | Open(indent: nat, elapsed: nat, name: string, duration: nat)
    | Unfinished
    | Close(indent: nat, elapsed: nat)
    | Point(indent: nat, elapsed: nat, name: string)
    | Request(indent: nat, elapsed: nat, action: Action, name: string, id: nat)
    | Nothing

  function Elapsed(from: int, to: int): nat { (to - from) % 0x1_0000_0000_0000_0000 }

  /** The distance from the base of the call stack before record k. */
  ghost function Above(r: seq<Record>, k: nat): nat
    requires k <= |r|
  {
    MinDepthLeast(r, |r|, k);
    Depth(r, k) - MinDepth(r, |r|)
  }

  /** The line record k must give, with its distance from the base of the call stack as indentation. */
  ghost predicate Shows(r: seq<Record>, k: nat, line: Line)
    requires k < |r|
  {
    var elapsed := Elapsed(r[if k == 0 then 0 else k - 1].timestamp, r[k].timestamp);
    var above := Above(r, k);
    match r[k].kind
    case ScopeBegin =>
      if line.Unfinished? then forall j: nat :: !Matches(r, k, j)
      else exists j: nat :: Matches(r, k, j) &&
                            line == Open(above, elapsed, r[j].name, Elapsed(r[k].timestamp, r[j].timestamp))
    case ScopeEnd => line == Close(Above(r, k + 1), elapsed)
    case Sample => line == Point(above, elapsed, r[k].name)
    case RequestNew => line == Request(above, elapsed, NewRequest, r[k].name, News(r, k) + 1)
    case RequestEvent =>
      line.Request? && line == Request(above, elapsed, RequestUpdate, r[k].name, line.id) &&
      IdOf(r, r[k].param, k, line.id)
    case RequestFree =>
      line.Request? && line == Request(above, elapsed, FreeRequest, r[k].name, line.id) &&
      IdOf(r, r[k].param, k, line.id)
    case Other => line == Nothing
  }

  /** Prints one line for every record: matched scopes, indentation from the base, request numbers. */
  method ShowLog(r: seq<Record>) returns (lines: seq<Line>)
    requires Bounded(r)
    ensures |lines| == |r| && forall k :: 0 <= k < |r| ==> Shows(r, k, lines[k])
  {
    var ends, minNesting := FindScopes(r);
    var nesting := -minNesting;
    var prevTime := if |r| > 0 then r[0].timestamp else 0;
    var ids: map<int, nat> := map[];
    var counter := 1;
    lines := [];
    assert Tracks(r, 0, ids);
    for k := 0 to |r|
      invariant nesting == Depth(r, k) - minNesting && counter == News(r, k) + 1 && Tracks(r, k, ids)
      invariant prevTime == if |r| > 0 then r[if k == 0 then 0 else k - 1].timestamp else 0
      invariant EndsKnown(r, |r|, ends[..])
      invariant |lines| == k && forall i :: 0 <= i < k ==> Shows(r, i, lines[i])
    {
      hide EndUpTo, IdOf, Matches, Depth, MinDepth;
      ghost var ids0 := ids;
      DepthStep(r, k);
      MinDepthLeast(r, |r|, k);
      MinDepthLeast(r, |r|, k + 1);
      var rec := r[k];
      var elapsed := Elapsed(prevTime, rec.timestamp);
      var line := Nothing;
      match rec.kind {
        case ScopeBegin =>
          EndKnown(r, k, ends[k]);
          if ends[k] != -1 {
            var se := r[ends[k]];
            line := Open(nesting, elapsed, se.name, Elapsed(rec.timestamp, se.timestamp));
          } else {
            line := Unfinished;
          }
          nesting := nesting + 1;
        case ScopeEnd =>
          nesting := nesting - 1;
          line := Close(nesting, elapsed);
        case Sample =>
          line := Point(nesting, elapsed, rec.name);
        case RequestNew =>
          ids := ids[rec.param := counter];
          line := Request(nesting, elapsed, NewRequest, rec.name, counter);
          counter := counter + 1;
        case RequestEvent =>
          line := Request(nesting, elapsed, RequestUpdate, rec.name, Lookup(ids, rec.param));
        case RequestFree =>
          line := Request(nesting, elapsed, FreeRequest, rec.name, Lookup(ids, rec.param));
          ids := ids - {rec.param};
        case Other =>
      }
      TracksAfter(r, k, ids0, ids);
      lines := lines + [line];
      prevTime := rec.timestamp;
    }
  }

  lemma EndKnown(r: seq<Record>, i: nat, e: int)
    requires i < |r| && r[i].kind.ScopeBegin? && EndUpTo(r, i, |r|, e)
    ensures if e == -1 then forall j: nat :: !Matches(r, i, j) else 0 <= e < |r| && Matches(r, i, e)
  {}
}
