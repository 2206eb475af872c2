/**
  The list of event handlers.  It is kept in the order of priorities, handlers of the same priority
  in the order in which they were added, and it always holds the handler that makes the original
  call, with priority 0.  Callbacks are arbitrary functions of the event.
  */
module EventHandlers {
  import opened Bytes

  datatype Event = Mmap | Munmap | Mremap | Shmat | Shmdt | Brk | Sbrk | Madvise | VmMapped | VmUnmapped

  const SYSTEM_EVENTS: set<Event> := {Mmap, Munmap, Mremap, Shmat, Shmdt, Brk, Sbrk, Madvise}

  /** A registration; `stamp` is the order of addition, `cb` and `arg` identify the callback. */
  datatype Handler = Handler(stamp: nat, events: set<Event>, priority: int, cb: nat, arg: nat)

  const CALL_ORIG: nat := 0

  const ORIG: Handler := Handler(0, SYSTEM_EVENTS, 0, CALL_ORIG, 0)

  // ----- order -----

  /** Strictly before: lower priority, or same priority and added earlier. */
  predicate Before(a: Handler, b: Handler) {
    a.priority < b.priority || (a.priority == b.priority && a.stamp < b.stamp)
  }

  ghost predicate Ordered(s: seq<Handler>) {
    forall i, j :: 0 <= i < j < |s| ==> Before(s[i], s[j])
  }

  /** What every state of the list satisfies; `next` is the stamp of the next addition. */
  ghost predicate Sound(s: seq<Handler>, next: nat) {
    && Ordered(s) && ORIG in s
    && forall i :: 0 <= i < |s| ==> s[i].stamp < next && (s[i] == ORIG || (s[i].stamp > 0 && s[i].cb != CALL_ORIG))
  }

  /** The original handler comes after all negative priorities and before all others. */
  lemma OrigBetween(s: seq<Handler>, next: nat) returns (k: nat)
    requires Sound(s, next)
    ensures k < |s| && s[k] == ORIG
    ensures forall i :: 0 <= i < |s| && i != k ==> s[i] != ORIG && (i < k <==> s[i].priority < 0)
  {
    k :| 0 <= k < |s| && s[k] == ORIG;
    forall i | 0 <= i < |s| && i != k ensures s[i] != ORIG && (i < k <==> s[i].priority < 0) {
      if i < k {
        assert Before(s[i], s[k]);
      } else {
        assert Before(s[k], s[i]);
      }
    }
  }

  /** The order leaves no choice: lists of the same registrations are equal. */
  lemma {:induction false} OrderUnique(s: seq<Handler>, t: seq<Handler>)
    requires Ordered(s) && Ordered(t) && forall h :: h in s <==> h in t
    ensures s == t
    decreases |s|
  {
    assert t != [] ==> t[0] in t;
    if s != [] {
      assert s[0] in t;
      var i :| 0 <= i < |t| && t[i] == s[0];
      var j :| 0 <= j < |s| && s[j] == t[0];
      HeadFirst(t, i);
      HeadFirst(s, j);
      var s', t' := s[1..], t[1..];
      forall h ensures h in s' <==> h in t' {
        RestOf(s, h);
        RestOf(t, h);
      }
      OrderUnique(s', t');
      assert s == [s[0]] + s' && t == [t[0]] + t';
    }
  }

  lemma HeadFirst(s: seq<Handler>, i: nat)
    requires Ordered(s) && i < |s|
    ensures i == 0 || Before(s[0], s[i])
  {}

  lemma RestOf(s: seq<Handler>, h: Handler)
    requires s != [] && Ordered(s)
    ensures h in s[1..] <==> h in s && h != s[0]
  {
    assert s == [s[0]] + s[1..];
    if h in s[1..] {
      var i :| 0 <= i < |s[1..]| && s[1..][i] == h;
      assert Before(s[0], s[i + 1]);
    }
  }

  // ----- unsetting events -----

  predicate Concerns(h: Handler, cb: nat, arg: nat) { h.cb == cb && h.arg == arg }

  /** What becomes of a registration: unchanged, with fewer events, or gone. */
  function Reduced(h: Handler, events: set<Event>, cb: nat, arg: nat): seq<Handler> {
    if !Concerns(h, cb, arg) then [h]
    else if h.events - events == {} then []
    else [h.(events := h.events - events)]
  }

  function Unset(s: seq<Handler>, events: set<Event>, cb: nat, arg: nat): seq<Handler> {
    if s == [] then [] else Unset(s[..|s| - 1], events, cb, arg) + Reduced(s[|s| - 1], events, cb, arg)
  }

  lemma UnsetNone(events: set<Event>, cb: nat, arg: nat)
    ensures Unset([], events, cb, arg) == []
  {}

  lemma UnsetNext(s: seq<Handler>, k: nat, events: set<Event>, cb: nat, arg: nat)
    requires k < |s|
    ensures Unset(s[..k + 1], events, cb, arg) == Unset(s[..k], events, cb, arg) + Reduced(s[k], events, cb, arg)
    ensures s[k..][0] == s[k] && s[k..][1..] == s[k + 1..]
  {
    assert s[..k + 1][..k] == s[..k];
  }

  /** One element replaced by some others. */
  lemma Replaced(s: seq<Handler>, k: nat, rest: seq<Handler>, out: seq<Handler>)
    requires k < |s| && s[k..] == rest
    ensures s[k] == rest[0]
    ensures var t := s[..k] + out + s[k + 1..]; t[..k + |out|] == s[..k] + out && t[k + |out|..] == rest[1..]
    ensures out == [s[k]] ==> s == s[..k] + out + s[k + 1..]
  {
    assert s[k] == rest[0] && s[k + 1..] == rest[1..];
  }

  lemma {:induction false} UnsetMembers(s: seq<Handler>, events: set<Event>, cb: nat, arg: nat, h: Handler)
    ensures h in Unset(s, events, cb, arg) <==>
            exists i :: 0 <= i < |s| && h in Reduced(s[i], events, cb, arg)
  {
    if s != [] {
      var t := s[..|s| - 1];
      UnsetMembers(t, events, cb, arg, h);
      assert forall i :: 0 <= i < |t| ==> t[i] == s[i];
      if h in Unset(t, events, cb, arg) {
        var i :| 0 <= i < |t| && h in Reduced(t[i], events, cb, arg);
        assert h in Reduced(s[i], events, cb, arg);
      }
    }
  }

  /** Exactly the registrations of that callback lose exactly those events, and vanish when none is left. */
  lemma UnsetExactly(s: seq<Handler>, events: set<Event>, cb: nat, arg: nat, h: Handler)
    ensures h in Unset(s, events, cb, arg) <==>
            exists i :: && 0 <= i < |s|
                        && if s[i].cb == cb && s[i].arg == arg
                           then h == s[i].(events := s[i].events - events) && h.events != {} else h == s[i]
  {
    UnsetMembers(s, events, cb, arg, h);
    if i :| 0 <= i < |s| && h in Reduced(s[i], events, cb, arg) {
      assert if s[i].cb == cb && s[i].arg == arg
             then h == s[i].(events := s[i].events - events) && h.events != {} else h == s[i];
    }
    if i :| 0 <= i < |s| && if s[i].cb == cb && s[i].arg == arg
                            then h == s[i].(events := s[i].events - events) && h.events != {} else h == s[i] {
      assert h in Reduced(s[i], events, cb, arg);
    }
  }

  lemma {:induction false} UnsetOrdered(s: seq<Handler>, events: set<Event>, cb: nat, arg: nat)
    requires Ordered(s)
    ensures Ordered(Unset(s, events, cb, arg))
  {
    if s != [] {
      var t, last := s[..|s| - 1], s[|s| - 1];
      UnsetOrdered(t, events, cb, arg);
      var u := Unset(t, events, cb, arg);
      forall i | 0 <= i < |u| ensures Before(u[i], last) {
        UnsetMembers(t, events, cb, arg, u[i]);
        var j :| 0 <= j < |t| && u[i] in Reduced(t[j], events, cb, arg);
        assert Before(s[j], s[|s| - 1]);
      }
    }
  }

  lemma UnsetSound(s: seq<Handler>, next: nat, events: set<Event>, cb: nat, arg: nat)
    requires Sound(s, next) && cb != CALL_ORIG
    ensures Sound(Unset(s, events, cb, arg), next)
  {
    var u := Unset(s, events, cb, arg);
    UnsetOrdered(s, events, cb, arg);
    forall i | 0 <= i < |u| ensures u[i].stamp < next && (u[i] == ORIG || (u[i].stamp > 0 && u[i].cb != CALL_ORIG)) {
      UnsetMembers(s, events, cb, arg, u[i]);
    }
    var k :| 0 <= k < |s| && s[k] == ORIG;
    assert ORIG in Reduced(s[k], events, cb, arg);
    UnsetMembers(s, events, cb, arg, ORIG);
  }

  // ----- dispatch -----

  /** The result an event carries; None is the failure value with which every event starts. */
  type Result = Option<int>

  /** How callbacks, other than the original call, change the result. */
  type Reaction = (Handler, Event, Result) -> Result

  /** The result after the handlers, when the system call would answer `answer`. */
  function After(s: seq<Handler>, e: Event, react: Reaction, answer: Result, r: Result): Result {
    if s == [] then r
    else
      var h, r' := s[|s| - 1], After(s[..|s| - 1], e, react, answer, r);
      if e !in h.events then r'
      else if h == ORIG then (if r' == None then answer else r')
      else react(h, e, r')
  }

  /** Handlers that leave a failed event alone do not answer it. */
  lemma {:induction false} NobodyAnswers(s: seq<Handler>, e: Event, react: Reaction, answer: Result)
    requires ORIG !in s && forall i :: 0 <= i < |s| && e in s[i].events ==> react(s[i], e, None) == None
    ensures After(s, e, react, answer, None) == None
  {
    if s != [] {
      var t := s[..|s| - 1];
      assert forall i :: 0 <= i < |t| ==> t[i] == s[i];
      NobodyAnswers(t, e, react, answer);
    }
  }

  /** The handlers that see an event, in order. */
  function Subscribed(s: seq<Handler>, e: Event): seq<Handler> {
    if s == [] then [] else Subscribed(s[..|s| - 1], e) + (if e in s[|s| - 1].events then [s[|s| - 1]] else [])
  }

  lemma NoneYet(s: seq<Handler>, e: Event, react: Reaction, answer: Result)
    ensures Subscribed(s[..0], e) == [] && After(s[..0], e, react, answer, None) == None && s[..|s|] == s
  {}

  lemma OneMore(s: seq<Handler>, i: nat, e: Event, react: Reaction, answer: Result)
    requires i < |s|
    ensures Subscribed(s[..i + 1], e) == Subscribed(s[..i], e) + (if e in s[i].events then [s[i]] else [])
    ensures var r := After(s[..i], e, react, answer, None);
            After(s[..i + 1], e, react, answer, None) ==
            if e !in s[i].events then r
            else if s[i] == ORIG then (if r == None then answer else r)
            else react(s[i], e, r)
  {
    assert s[..i + 1][..i] == s[..i];
  }

  class HandlerList {
    var handlers: seq<Handler>
    var next: nat

    ghost predicate Valid()
      reads this
    {
      Sound(handlers, next)
    }

    /** Initially the original handler is the only one. */
    constructor ()
      ensures Valid() && handlers == [ORIG]
    {
      handlers, next := [ORIG], 1;
    }

    /** Inserts a handler before the first one of higher priority. */
    method Add(events: set<Event>, priority: int, cb: nat, arg: nat) returns (h: Handler)
      requires Valid() && cb != CALL_ORIG
      modifies this
      ensures Valid() && h == Handler(old(next), events, priority, cb, arg)
      ensures exists k :: 0 <= k <= |old(handlers)| && handlers == old(handlers)[..k] + [h] + old(handlers)[k..]
    {
      h := Handler(next, events, priority, cb, arg);
      next := next + 1;
      ghost var s := handlers;
      for k := 0 to |handlers|
        invariant handlers == s && next == old(next) + 1
        invariant forall i :: 0 <= i < k ==> s[i].priority <= priority
      {
        if priority < handlers[k].priority {
          InsertSound(s, k, h);
          handlers := handlers[..k] + [h] + handlers[k..];
          return;
        }
      }
      InsertSound(s, |s|, h);
      assert s[..|s|] + [h] + s[|s|..] == s + [h];
      handlers := handlers + [h];
    }

    /** Removes a handler that was added. */
    method Remove(h: Handler)
      requires Valid() && h in handlers && h != ORIG
      modifies this`handlers
      ensures Valid() && forall g :: g in handlers <==> g in old(handlers) && g != h
    {
      var k := 0;
      while handlers[k] != h
        invariant k < |handlers| && h in handlers[k..]
        decreases |handlers| - k
      {
        assert handlers[k..] == [handlers[k]] + handlers[k + 1..];
        k := k + 1;
      }
      RemoveSound(handlers, next, k);
      handlers := handlers[..k] + handlers[k + 1..];
    }

    /** Removes events from all registrations of a callback, and registrations left without events. */
    method UnsetEvents(events: set<Event>, cb: nat, arg: nat)
      requires Valid() && cb != CALL_ORIG
      modifies this`handlers
      ensures Valid() && handlers == Unset(old(handlers), events, cb, arg)
    {
      hide Unset;
      ghost var s := handlers;
      UnsetSound(s, next, events, cb, arg);
      UnsetNone(events, cb, arg);
      ghost var seen := 0;
      var k := 0;
      assert s[..0] == [];
      while k < |handlers|
        invariant seen <= |s| && k <= |handlers| && |handlers| - k == |s| - seen
        invariant handlers[..k] == Unset(s[..seen], events, cb, arg) && handlers[k..] == s[seen..]
        decreases |s| - seen
      {
        var elem := handlers[k];
        UnsetNext(s, seen, events, cb, arg);
        Replaced(handlers, k, s[seen..], Reduced(s[seen], events, cb, arg));
        if elem.cb == cb && elem.arg == arg {
          elem := elem.(events := elem.events - events);
          if elem.events == {} {
            handlers := handlers[..k] + [] + handlers[k + 1..];
          } else {
            handlers := handlers[..k] + [elem] + handlers[k + 1..];
            k := k + 1;
          }
        } else {
          k := k + 1;
        }
        seen := seen + 1;
      }
      assert s[..seen] == s && handlers[..k] == handlers;
    }

    /**
      Shows an event to its handlers in order.  The original call is made exactly if its handler
      finds the result still at the failure value, and then once.
      */
    method Dispatch(e: Event, react: Reaction, answer: Result)
      returns (result: Result, called: seq<Handler>, systemCalls: nat)
      requires Valid()
      ensures called == Subscribed(handlers, e) && result == After(handlers, e, react, answer, None)
      ensures forall k :: 0 <= k < |handlers| && handlers[k] == ORIG ==>
                systemCalls == One(e in SYSTEM_EVENTS && After(handlers[..k], e, react, answer, None) == None)
    {
      hide After, Subscribed;
      ghost var orig := OrigBetween(handlers, next);
      NoneYet(handlers, e, react, answer);
      result, called, systemCalls := None, [], 0;
      for i := 0 to |handlers|
        invariant called == Subscribed(handlers[..i], e) && result == After(handlers[..i], e, react, answer, None)
        invariant systemCalls == One(i > orig && e in SYSTEM_EVENTS &&
                                     After(handlers[..orig], e, react, answer, None) == None)
      {
        var h := handlers[i];
        OneMore(handlers, i, e, react, answer);
        if e in h.events {
          called := called + [h];
          if h == ORIG {
            if result == None {
              result := answer;
              systemCalls := systemCalls + 1;
            }
          } else {
            result := react(h, e, result);
          }
        }
      }
    }
  }

  lemma InsertSound(s: seq<Handler>, k: nat, h: Handler)
    requires Sound(s, h.stamp) && k <= |s| && h.cb != CALL_ORIG
    requires forall i :: 0 <= i < k ==> s[i].priority <= h.priority
    requires k < |s| ==> h.priority < s[k].priority
    ensures Sound(s[..k] + [h] + s[k..], h.stamp + 1)
  {
    hide Ordered, Before;
    var t := s[..k] + [h] + s[k..];
    forall g ensures g in t <==> g in s || g == h {
      assert s == s[..k] + s[k..];
    }
    assert forall i :: 0 <= i < |t| ==> t[i] in t;
    assert h.stamp > 0 by {
      var orig :| 0 <= orig < |s| && s[orig] == ORIG;
    }
    InsertOrdered(s, k, h);
  }

  lemma InsertOrdered(s: seq<Handler>, k: nat, h: Handler)
    requires Ordered(s) && k <= |s|
    requires forall i :: 0 <= i < k ==> s[i].priority <= h.priority && s[i].stamp < h.stamp
    requires k < |s| ==> h.priority < s[k].priority
    ensures Ordered(s[..k] + [h] + s[k..])
  {
    var t := s[..k] + [h] + s[k..];
    forall i, j | 0 <= i < j < |t| ensures Before(t[i], t[j]) {
      if j < k {
        assert Before(s[i], s[j]);
      } else if j > k && i != k {
        assert Before(s[if i < k then i else i - 1], s[j - 1]);
      } else if i == k && j - 1 > k {
        assert Before(s[k], s[j - 1]);
      }
    }
  }

  lemma RemoveSound(s: seq<Handler>, next: nat, k: nat)
    requires Sound(s, next) && k < |s| && s[k] != ORIG
    ensures Sound(s[..k] + s[k + 1..], next)
    ensures forall g :: g in s[..k] + s[k + 1..] <==> g in s && g != s[k]
  {
    hide Before, Ordered;
    var t := s[..k] + s[k + 1..];
    RemoveOrdered(s, k);
    forall g ensures g in t <==> g in s && g != s[k] {
      assert s == s[..k] + [s[k]] + s[k + 1..];
    }
    assert forall i :: 0 <= i < |t| ==> t[i] in t;
  }

  lemma RemoveOrdered(s: seq<Handler>, k: nat)
    requires Ordered(s) && k < |s|
    ensures Ordered(s[..k] + s[k + 1..]) && s[k] !in s[..k] + s[k + 1..]
  {
    var t := s[..k] + s[k + 1..];
    forall i, j | 0 <= i < j < |t| ensures Before(t[i], t[j]) {
      assert Before(s[if i < k then i else i + 1], s[if j < k then j else j + 1]);
    }
    forall i | 0 <= i < |t| ensures t[i] != s[k] {
      assert i < k ==> Before(s[i], s[k]);
      assert i >= k ==> t[i] == s[i + 1] && Before(s[k], s[i + 1]);
    }
  }
}
