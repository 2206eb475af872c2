/**
  Work requests and completions of the loopback device over whole runs.  The queues are the
  sequences that the ring lists represent.  Posted receives carry a number of their own, so that
  two requests with the same user identifier stay apart.
  */
module LoopbackQueues {
  import opened Bytes
  import opened ScatterGather
  import opened Rdma

  const GRH_SIZE: nat := 40

  datatype Status = Success | GeneralError

  /** A posted receive. */
  datatype RecvWr = RecvWr(uid: nat, wrId: int, sges: seq<nat>)

  /** A segment to be sent: its registration key and length. */
  datatype SendSge = SendSge(lkey: int, length: nat)

  /** A send request; `ours` tells whether the destination address belongs to this device. */
  datatype SendWr = SendWr(opcode: Opcode, wrId: int, sges: seq<SendSge>, inlined: bool, ours: bool,
                           remoteQpn: int, rkey: int)

  datatype Completion =
    | Received(uid: nat, wrId: int, qpNum: int, srcQp: int, byteLen: nat)
    | Sent(status: Status, opcode: Opcode, wrId: int, qpNum: int, srcQp: int, byteLen: nat)

  datatype Qp = Qp(datagram: bool, domain: int, sendCq: int, recvCq: int, pending: seq<RecvWr>)

  /** A receive that left its queue, and whether it was completed or dropped as too short. */
  datatype Outcome = Outcome(wr: RecvWr, completed: bool)

  // ----- views of the histories -----

  function Wrs(s: seq<Outcome>): (r: seq<RecvWr>)
    ensures |r| == |s|
  {
    if s == [] then [] else Wrs(s[..|s| - 1]) + [s[|s| - 1].wr]
  }

  /** The numbers of the completed ones. */
  function Completed(s: seq<Outcome>): seq<nat> {
    if s == [] then []
    else Completed(s[..|s| - 1]) + (if s[|s| - 1].completed then [s[|s| - 1].wr.uid] else [])
  }

  /** The receives of one queue pair among the completions. */
  function Recvs(s: seq<Completion>, qpn: int): seq<nat> {
    if s == [] then []
    else
      var c := s[|s| - 1];
      Recvs(s[..|s| - 1], qpn) + (if c.Received? && c.qpNum == qpn then [c.uid] else [])
  }

  /** The send completions, by user identifier. */
  function Sends(s: seq<Completion>): seq<int> {
    if s == [] then []
    else
      var c := s[|s| - 1];
      Sends(s[..|s| - 1]) + (if c.Sent? then [c.wrId] else [])
  }

  lemma AppendOutcome(s: seq<Outcome>, o: Outcome)
    ensures Wrs(s + [o]) == Wrs(s) + [o.wr]
    ensures Completed(s + [o]) == Completed(s) + (if o.completed then [o.wr.uid] else [])
  {
    assert (s + [o])[..|s|] == s;
  }

  lemma AppendCompletion(s: seq<Completion>, c: Completion, qpn: int)
    ensures Recvs(s + [c], qpn) == Recvs(s, qpn) + (if c.Received? && c.qpNum == qpn then [c.uid] else [])
    ensures Sends(s + [c]) == Sends(s) + (if c.Sent? then [c.wrId] else [])
  {
    assert (s + [c])[..|s|] == s;
  }

  /** Numbers grow in posting order. */
  ghost predicate Ascending(s: seq<RecvWr>, bound: nat) {
    && (forall i :: 0 <= i < |s| ==> s[i].uid < bound)
    && (forall i, j :: 0 <= i < j < |s| ==> s[i].uid < s[j].uid)
  }

  function TotalLength(sges: seq<SendSge>): nat {
    if sges == [] then 0 else sges[0].length + TotalLength(sges[1..])
  }

  function WrIds(wrs: seq<SendWr>): seq<int> {
    seq(|wrs|, i requires 0 <= i < |wrs| => wrs[i].wrId)
  }

  // ----- the books of one queue pair and one completion queue -----

  /**
    What has happened: receives posted and consumed on the queue pair, completions entered and
    polled on the completion queue, and sends that returned 0 and complete there.
    */
  datatype Books = Books(posted: seq<RecvWr>, consumed: seq<Outcome>, entered: seq<Completion>,
                         polled: seq<Completion>, sent: seq<int>)

  /**
    The books agree with the queues.  Receives leave in posting order and what is left is pending;
    completions leave in the order they were entered and what is left is queued; if receives of the
    queue pair complete on this queue, its receive completions are those consumed and not dropped;
    and its send completions are the sends that returned 0.
    */
  ghost predicate Balanced(b: Books, qpn: int, linked: bool, pending: seq<RecvWr>, queued: seq<Completion>,
                           counter: nat)
  {
    && b.posted == Wrs(b.consumed) + pending && Ascending(b.posted, counter)
    && b.entered == b.polled + queued
    && Recvs(b.entered, qpn) == (if linked then Completed(b.consumed) else [])
    && Sends(b.entered) == b.sent
  }

  lemma PostedOne(b: Books, qpn: int, linked: bool, pending: seq<RecvWr>, queued: seq<Completion>, counter: nat,
                  wr: RecvWr)
    requires Balanced(b, qpn, linked, pending, queued, counter) && wr.uid == counter
    ensures Balanced(b.(posted := b.posted + [wr]), qpn, linked, pending + [wr], queued, counter + 1)
    ensures Balanced(b, qpn, linked, pending, queued, counter + 1)
  {
    hide Wrs, Completed, Recvs, Sends;
    assert b.posted + [wr] == Wrs(b.consumed) + (pending + [wr]);
    assert Ascending(b.posted + [wr], counter + 1);
  }

  lemma ConsumedOne(b: Books, qpn: int, linked: bool, pending: seq<RecvWr>, queued: seq<Completion>, counter: nat,
                    c: Completion)
    requires Balanced(b, qpn, linked, pending, queued, counter) && pending != []
    requires c.Received? && c.uid == pending[0].uid && c.qpNum == qpn
    ensures Balanced(b.(consumed := b.consumed + [Outcome(pending[0], false)]), qpn, linked, pending[1..], queued,
                     counter)
    ensures var b' := b.(consumed := b.consumed + [Outcome(pending[0], true)]);
            if linked then Balanced(b'.(entered := b.entered + [c]), qpn, linked, pending[1..], queued + [c], counter)
            else Balanced(b', qpn, linked, pending[1..], queued, counter)
  {
    hide Wrs, Completed, Recvs, Sends;
    AppendOutcome(b.consumed, Outcome(pending[0], false));
    AppendOutcome(b.consumed, Outcome(pending[0], true));
    AppendCompletion(b.entered, c, qpn);
    assert pending == [pending[0]] + pending[1..];
  }

  lemma EnteredOne(b: Books, qpn: int, linked: bool, pending: seq<RecvWr>, queued: seq<Completion>, counter: nat,
                   c: Completion)
    requires Balanced(b, qpn, linked, pending, queued, counter) && (c.Received? ==> c.qpNum != qpn)
    ensures var sent := if c.Sent? then b.sent + [c.wrId] else b.sent;
            Balanced(b.(entered := b.entered + [c], sent := sent), qpn, linked, pending, queued + [c], counter)
  {
    hide Wrs, Completed, Recvs, Sends;
    AppendCompletion(b.entered, c, qpn);
  }

  lemma PolledOne(b: Books, qpn: int, linked: bool, pending: seq<RecvWr>, queued: seq<Completion>, counter: nat)
    requires Balanced(b, qpn, linked, pending, queued, counter) && queued != []
    ensures Balanced(b.(polled := b.polled + [queued[0]]), qpn, linked, pending, queued[1..], counter)
  {
    hide Wrs, Completed, Recvs, Sends;
    assert queued == [queued[0]] + queued[1..];
  }

  /** A receive with this number left the queue; it was completed or not. */
  ghost predicate Left(s: seq<Outcome>, uid: nat, completed: bool) {
    exists i :: 0 <= i < |s| && s[i].wr.uid == uid && s[i].completed == completed
  }

  /** Every posted receive is in exactly one place: pending, dropped, in a queued completion, or polled. */
  lemma ExactlyOnePlace(b: Books, qpn: int, pending: seq<RecvWr>, queued: seq<Completion>, counter: nat, r: RecvWr)
    requires Balanced(b, qpn, true, pending, queued, counter) && r in b.posted
    ensures One(r in pending) + One(Left(b.consumed, r.uid, false))
            + One(r.uid in Recvs(queued, qpn)) + One(r.uid in Recvs(b.polled, qpn)) == 1
  {
    hide Recvs, Sends, Completed, Wrs, Left, Ascending;
    RecvsConcat(b.polled, queued, qpn);
    PendingOrLeft(b.consumed, pending, r, counter);
    OutcomesAscend(b.consumed, pending, counter);
    CompletedDistinct(b.consumed);
    CompletedIff(b.consumed, r.uid);
    InOneHalf(Recvs(b.polled, qpn), Recvs(queued, qpn), r.uid);
  }

  lemma SameUid(s: seq<RecvWr>, counter: nat, i: nat, j: nat)
    requires Ascending(s, counter) && i < |s| && j < |s| && s[i].uid == s[j].uid
    ensures i == j
  {}

  lemma OutcomesAscend(s: seq<Outcome>, pending: seq<RecvWr>, counter: nat)
    requires Ascending(Wrs(s) + pending, counter)
    ensures forall i, j :: 0 <= i < j < |s| ==> s[i].wr.uid < s[j].wr.uid
  {
    hide Wrs, Ascending;
    WrsAt(s);
    forall i, j | 0 <= i < j < |s|
      ensures s[i].wr.uid < s[j].wr.uid
    {
      AscendingAt(Wrs(s) + pending, counter, i, j);
    }
  }

  lemma AscendingAt(s: seq<RecvWr>, bound: nat, i: nat, j: nat)
    requires Ascending(s, bound) && i < j < |s|
    ensures s[i].uid < s[j].uid
  {}

  lemma PendingOrLeft(s: seq<Outcome>, pending: seq<RecvWr>, r: RecvWr, counter: nat)
    requires Ascending(Wrs(s) + pending, counter) && r in Wrs(s) + pending
    ensures One(r in pending) + One(Left(s, r.uid, false)) + One(Left(s, r.uid, true)) == 1
  {
    hide Wrs, Ascending;
    WrsAt(s);
    var all := Wrs(s) + pending;
    var k :| 0 <= k < |all| && all[k] == r;
    forall i | 0 <= i < |s| && s[i].wr.uid == r.uid ensures i == k {
      assert all[i] == s[i].wr;
      SameUid(all, counter, i, k);
    }
    if r in pending {
      var j :| 0 <= j < |pending| && pending[j] == r;
      assert all[|s| + j] == r;
      SameUid(all, counter, |s| + j, k);
    }
    if k < |s| {
      assert s[k].wr == r;
    } else {
      assert r == pending[k - |s|];
    }
  }

  lemma InOneHalf(s: seq<nat>, t: seq<nat>, x: nat)
    requires forall i, j :: 0 <= i < j < |s + t| ==> (s + t)[i] < (s + t)[j]
    ensures One(x in s) + One(x in t) == One(x in s + t)
  {
    forall i, j | 0 <= i < |s| && 0 <= j < |t| ensures s[i] < t[j] {
      assert (s + t)[i] == s[i] && (s + t)[|s| + j] == t[j];
    }
  }

  lemma {:induction false} WrsAt(s: seq<Outcome>)
    ensures forall i :: 0 <= i < |s| ==> Wrs(s)[i] == s[i].wr
  {
    if s != [] {
      WrsAt(s[..|s| - 1]);
    }
  }

  lemma {:induction false} CompletedIff(s: seq<Outcome>, uid: nat)
    ensures uid in Completed(s) <==> Left(s, uid, true)
  {
    if s != [] {
      var t := s[..|s| - 1];
      CompletedIff(t, uid);
      assert forall i :: 0 <= i < |t| ==> t[i] == s[i];
      if uid in Completed(t) {
        var i :| 0 <= i < |t| && t[i].wr.uid == uid && t[i].completed;
        assert s[i].wr.uid == uid && s[i].completed;
      }
    }
  }

  /** Receives are completed in posting order, so no number occurs twice. */
  lemma {:induction false} CompletedDistinct(s: seq<Outcome>)
    requires forall i, j :: 0 <= i < j < |s| ==> s[i].wr.uid < s[j].wr.uid
    ensures forall i, j :: 0 <= i < j < |Completed(s)| ==> Completed(s)[i] < Completed(s)[j]
  {
    if s != [] {
      var t := s[..|s| - 1];
      CompletedDistinct(t);
      forall i | 0 <= i < |Completed(t)| ensures Completed(t)[i] < s[|s| - 1].wr.uid {
        CompletedIff(t, Completed(t)[i]);
      }
    }
  }

  lemma {:induction false} RecvsConcat(s: seq<Completion>, t: seq<Completion>, qpn: int)
    ensures Recvs(s + t, qpn) == Recvs(s, qpn) + Recvs(t, qpn)
  {
    if t == [] {
      assert s + t == s;
    } else {
      assert (s + t)[..|s + t| - 1] == s + t[..|t| - 1];
      RecvsConcat(s, t[..|t| - 1], qpn);
    }
  }

  // ----- the device -----

  function PendingOn(qps: map<int, Qp>, qpn: int): seq<RecvWr> { if qpn in qps then qps[qpn].pending else [] }

  function QueuedOn(cqs: map<int, seq<Completion>>, cqn: int): seq<Completion> { if cqn in cqs then cqs[cqn] else [] }

  lemma PollStep(all: seq<Completion>, i: nat, rest: seq<Completion>, c: Completion, rest': seq<Completion>)
    requires i < |all| && rest == all[i..] && rest == [c] + rest'
    ensures all[..i] + [c] == all[..i + 1] && rest' == all[i + 1..]
  {
    assert rest' == rest[1..];
  }

  function KeysOf(domains: map<int, seq<int>>, domain: int): seq<int> {
    if domain in domains then domains[domain] else []
  }

  /** Receives of the queue pair complete on the completion queue. */
  predicate Linked(qps: map<int, Qp>, qpn: int, cqn: int) { qpn in qps && qps[qpn].recvCq == cqn }

  ghost predicate Wired(qps: map<int, Qp>, cqs: map<int, seq<Completion>>) {
    forall q :: q in qps ==> qps[q].sendCq in cqs && qps[q].recvCq in cqs
  }

  // ----- what a message demands -----

  /** The queues of the device. */
  datatype Net = Net(qps: map<int, Qp>, cqs: map<int, seq<Completion>>)

  /** The oldest receive cannot hold the message. */
  predicate TooShort(n: Net, qpn: int, length: nat) {
    var pending := PendingOn(n.qps, qpn);
    pending != [] && length > Capacity(pending[0].sges)
  }

  /** A message arrives: the oldest receive leaves its queue and is completed if it can hold the message. */
  function Delivers(n: Net, qpn: int, srcQp: int, length: nat): Net {
    var pending := PendingOn(n.qps, qpn);
    if pending == [] then n
    else
      var qp, recv := n.qps[qpn], pending[0];
      var n' := n.(qps := n.qps[qpn := qp.(pending := pending[1..])]);
      if TooShort(n, qpn, length) then n'
      else Entered(n', qp.recvCq, Received(recv.uid, recv.wrId, qpn, srcQp, length))
  }

  function Entered(n: Net, cqn: int, c: Completion): Net { n.(cqs := n.cqs[cqn := QueuedOn(n.cqs, cqn) + [c]]) }

  /** Bytes on the wire: datagrams are preceded by a global routing header. */
  function WireLength(qp: Qp, wr: SendWr): nat { (if qp.datagram then GRH_SIZE else 0) + TotalLength(wr.sges) }

  /** One request that is not refused: the message arrives, and then the send is completed. */
  function SendsOne(n: Net, qpn: int, wr: SendWr): Net
    requires qpn in n.qps
  {
    var length := WireLength(n.qps[qpn], wr);
    var failed := wr.opcode.Send? && TooShort(n, wr.remoteQpn, length);
    Entered(if wr.opcode.Send? then Delivers(n, wr.remoteQpn, qpn, length) else n, n.qps[qpn].sendCq,
            Sent(if failed then GeneralError else Success, wr.opcode, wr.wrId, wr.remoteQpn, qpn, TotalLength(wr.sges)))
  }

  /** Requests one after the other. */
  ghost function SendsAll(n: Net, qpn: int, wrs: seq<SendWr>): (n': Net)
    requires qpn in n.qps
    ensures qpn in n'.qps && SameQueues(n.qps, n'.qps)
  {
    if wrs == [] then n
    else
      var front := SendsAll(n, qpn, wrs[..|wrs| - 1]);
      SendsOne(front, qpn, wrs[|wrs| - 1])
  }

  /**
    A send to a queue pair with a receive posted: the oldest receive is gone; if it is long enough,
    its completion, with its identifier, the sender and the length, is entered before that of the
    send; and nothing else changes.
    */
  lemma SendReaches(n: Net, qpn: int, wr: SendWr)
    requires qpn in n.qps && wr.opcode.Send? && wr.remoteQpn in n.qps && n.qps[wr.remoteQpn].pending != []
    ensures var qp, recv := n.qps[wr.remoteQpn], n.qps[wr.remoteQpn].pending[0];
            var n', length := SendsOne(n, qpn, wr), WireLength(n.qps[qpn], wr);
            var fits := length <= Capacity(recv.sges);
            var got := Received(recv.uid, recv.wrId, wr.remoteQpn, qpn, length);
            var done := Sent(if fits then Success else GeneralError, Send, wr.wrId, wr.remoteQpn, qpn,
                             TotalLength(wr.sges));
            && n'.qps == n.qps[wr.remoteQpn := qp.(pending := qp.pending[1..])]
            && (forall cqn :: cqn in n.cqs && cqn != qp.recvCq && cqn != n.qps[qpn].sendCq ==>
                  cqn in n'.cqs && n'.cqs[cqn] == n.cqs[cqn])
            && (qp.recvCq in n.cqs && n.qps[qpn].sendCq in n.cqs ==>
                  if qp.recvCq == n.qps[qpn].sendCq
                  then n'.cqs[qp.recvCq] == n.cqs[qp.recvCq] + (if fits then [got] else []) + [done]
                  else n'.cqs[qp.recvCq] == n.cqs[qp.recvCq] + (if fits then [got] else []) &&
                       n'.cqs[n.qps[qpn].sendCq] == n.cqs[n.qps[qpn].sendCq] + [done])
  {}

  class Device {
    var qps: map<int, Qp>
    var cqs: map<int, seq<Completion>>
    /** The keys of the regions registered in each protection domain. */
    var domains: map<int, seq<int>>
    var counter: nat

    // One queue pair and one completion queue, arbitrary but fixed, and what happened to them.
    ghost const someQp: int
    ghost const someCq: int
    ghost var books: Books

    ghost function View(): Net
      reads this
    {
      Net(qps, cqs)
    }

    ghost predicate Valid()
      reads this
    {
      && Wired(qps, cqs)
      && Balanced(books, someQp, Linked(qps, someQp, someCq), PendingOn(qps, someQp), QueuedOn(cqs, someCq), counter)
    }

    /** Creates a device whose queues are all empty. */
    constructor (pairs: map<int, Qp>, queues: set<int>, domains: map<int, seq<int>>, ghost qpn: int, ghost cqn: int)
      requires forall q :: q in pairs ==>
                 pairs[q].sendCq in queues && pairs[q].recvCq in queues && pairs[q].pending == []
      ensures Valid() && books == Books([], [], [], [], []) && someQp == qpn && someCq == cqn
    {
      qps, cqs, counter, someQp, someCq := pairs, (map c | c in queues :: []), 0, qpn, cqn;
      this.domains := domains;
      books := Books([], [], [], [], []);
    }

    /** Posts receives until memory runs out; those before the failing one are posted, in order. */
    method PostRecv(qpn: int, wrs: seq<(int, seq<nat>)>) returns (bad: Option<nat>)
      requires Valid() && qpn in qps && forall i :: 0 <= i < |wrs| ==> |wrs[i].1| >= 1
      modifies this`qps, this`books, this`counter
      ensures Valid() && (bad.Some? ==> bad.value < |wrs|)
      ensures qps == old(qps)[qpn := old(qps[qpn]).(pending := PendingOn(qps, qpn))]
      ensures PendingOn(qps, qpn) ==
              old(qps[qpn].pending) + NewWrs(wrs[..if bad.Some? then bad.value else |wrs|], old(counter))
    {
      hide Balanced, Wired;
      assert qps[qpn].(pending := PendingOn(qps, qpn)) == qps[qpn];
      for i := 0 to |wrs|
        invariant Valid() && counter == old(counter) + i
        invariant qps == old(qps)[qpn := old(qps[qpn]).(pending := PendingOn(qps, qpn))]
        invariant PendingOn(qps, qpn) == old(qps[qpn].pending) + NewWrs(wrs[..i], old(counter))
      {
        var memory: bool := *;
        if !memory {
          return Some(i);
        }
        AddReceive(qpn, wrs[i].0, wrs[i].1);
        assert NewWrs(wrs[..i + 1], old(counter)) ==
               NewWrs(wrs[..i], old(counter)) + [RecvWr(old(counter) + i, wrs[i].0, wrs[i].1)];
      }
      return None;
    }

    /** One receive goes to the tail of its queue. */
    method AddReceive(qpn: int, wrId: int, sges: seq<nat>)
      requires Valid() && qpn in qps
      modifies this`qps, this`books, this`counter
      ensures Valid() && counter == old(counter) + 1
      ensures qps == old(qps)[qpn := old(qps[qpn]).(pending := old(qps[qpn].pending) +
                                                               [RecvWr(old(counter), wrId, sges)])]
    {
      hide Balanced;
      var wr := RecvWr(counter, wrId, sges);
      PostedOne(books, someQp, Linked(qps, someQp, someCq), PendingOn(qps, someQp), QueuedOn(cqs, someCq), counter, wr);
      qps := qps[qpn := qps[qpn].(pending := qps[qpn].pending + [wr])];
      counter := counter + 1;
      if qpn == someQp {
        books := books.(posted := books.posted + [wr]);
      }
    }

    /**
      Delivers a message of `length` bytes to a queue pair: without a posted receive it is lost,
      into one that is too short it fails and the receive is dropped, otherwise the oldest receive
      is completed.
      */
    method RxSend(qpn: int, srcQp: int, length: nat) returns (ret: int)
      requires Valid() && qpn in qps
      modifies this`qps, this`cqs, this`books
      ensures Valid() && books.sent == old(books.sent)
      ensures var was := old(qps[qpn].pending);
              && ret == (if was != [] && length > Capacity(was[0].sges) then -1 else 1)
              && qps == old(qps)[qpn := old(qps[qpn]).(pending := if was == [] then [] else was[1..])]
              && cqs == if was == [] || ret == -1 then old(cqs) else
                          var cqn := old(qps[qpn].recvCq);
                          old(cqs)[cqn := QueuedOn(old(cqs), cqn) +
                                          [Received(was[0].uid, was[0].wrId, qpn, srcQp, length)]]
    {
      hide Balanced;
      if qps[qpn].pending == [] {
        assert qps[qpn].(pending := []) == qps[qpn];
        return 1;
      }
      var recv, cqn := qps[qpn].pending[0], qps[qpn].recvCq;
      var c := Received(recv.uid, recv.wrId, qpn, srcQp, length);
      ghost var linked, pending, queued := Linked(qps, someQp, someCq), PendingOn(qps, someQp), QueuedOn(cqs, someCq);
      if qpn == someQp {
        ConsumedOne(books, someQp, linked, pending, queued, counter, c);
      } else {
        EnteredOne(books, someQp, linked, pending, queued, counter, c);
      }
      qps := qps[qpn := qps[qpn].(pending := qps[qpn].pending[1..])];
      var fits := length <= Capacity(recv.sges);
      if qpn == someQp {
        books := books.(consumed := books.consumed + [Outcome(recv, fits)]);
      }
      if !fits {
        return -1;
      }
      cqs := cqs[cqn := cqs[cqn] + [c]];
      if cqn == someCq {
        books := books.(entered := books.entered + [c]);
      }
      ret := 1;
    }

    /** The device refuses a message for another device, and a remote operation with an unknown key. */
    ghost predicate Refuses(wr: SendWr)
      reads this
    {
      !wr.ours || (wr.remoteQpn in qps && (wr.opcode.RdmaRead? || wr.opcode.RdmaWrite?) &&
                   wr.rkey !in KeysOf(domains, qps[wr.remoteQpn].domain))
    }

    /**
      Sends one request through the device.  It returns 0 after the message has arrived and exactly
      one send completion, which tells whether the receive was too short, or -1 without any effect.
      */
    method SendSerialize(qpn: int, wr: SendWr, memory: bool) returns (ret: int)
      requires Valid() && qpn in qps
      modifies this`qps, this`cqs, this`books
      ensures Valid() && SameQueues(old(qps), qps) && qpn in qps
      ensures ret == if wr.opcode.Unsupported? || !memory || old(Refuses(wr)) then -1 else 0
      ensures View() == if ret == 0 then SendsOne(old(View()), qpn, wr) else old(View())
      ensures books.sent == old(books.sent) + if ret == 0 && qps[qpn].sendCq == someCq then [wr.wrId] else []
    {
      hide Balanced, Capacity;
      if wr.opcode.Unsupported? {
        return -1;
      }
      var total := TotalLength(wr.sges);
      if !memory {
        return -1;
      }
      var cqn := qps[qpn].sendCq;
      var result := RxCallback(wr, qpn, (if qps[qpn].datagram then GRH_SIZE else 0) + total);
      if result == 0 {
        return -1;
      }
      var c := Sent(if result < 0 then GeneralError else Success, wr.opcode, wr.wrId, wr.remoteQpn, qpn, total);
      EnteredOne(books, someQp, Linked(qps, someQp, someCq), PendingOn(qps, someQp), QueuedOn(cqs, someCq), counter, c);
      cqs := cqs[cqn := cqs[cqn] + [c]];
      if cqn == someCq {
        books := books.(entered := books.entered + [c], sent := books.sent + [wr.wrId]);
      }
      ret := 0;
    }

    /**
      Dispatches a message: 0 if it is refused.  A send to a queue pair of ours is delivered there; it
      fails exactly if the oldest receive is too short.
      */
    method RxCallback(wr: SendWr, srcQp: int, length: nat) returns (ret: int)
      requires Valid()
      modifies this`qps, this`cqs, this`books
      ensures Valid() && SameQueues(old(qps), qps) && books.sent == old(books.sent)
      ensures ret == 0 <==> old(Refuses(wr))
      ensures var arrives := wr.ours && wr.opcode.Send?;
              && View() == (if arrives then Delivers(old(View()), wr.remoteQpn, srcQp, length) else old(View()))
              && (ret == -1 <==> arrives && TooShort(old(View()), wr.remoteQpn, length))
      ensures ret == -1 || ret == 0 || ret == 1
    {
      hide Balanced, Wired, Capacity;
      if !wr.ours {
        return 0;
      }
      if wr.remoteQpn !in qps {
        return 1;
      }
      match wr.opcode
      case Send =>
        assert qps[wr.remoteQpn].pending == [] ==>
               qps[wr.remoteQpn := qps[wr.remoteQpn].(pending := [])] == qps;
        ret := RxSend(wr.remoteQpn, srcQp, length);
      case RdmaRead => ret := LookUpKey(qps[wr.remoteQpn].domain, wr.rkey);
      case RdmaWrite => ret := LookUpKey(qps[wr.remoteQpn].domain, wr.rkey);
      case Unsupported => ret := 1;
    }

    /** Remote operations go on to copy exactly if their key is registered in the domain of the queue pair. */
    method LookUpKey(domain: int, rkey: int) returns (ret: int)
      ensures ret == if rkey in KeysOf(domains, domain) then 1 else 0
    {
      var found := HasKey(KeysOf(domains, domain), rkey);
      ret := if found then 1 else 0;
    }

    /** Whether every segment lies in a region registered in the domain. */
    method AllRegistered(domain: int, sges: seq<SendSge>) returns (ok: bool)
      requires |sges| <= MAX_SGE
      ensures ok <==> forall i :: 0 <= i < |sges| ==> sges[i].lkey in KeysOf(domains, domain)
    {
      var keys := KeysOf(domains, domain);
      var found := new bool[MAX_SGE](_ => false);
      var total := 0;
      NoneTrue(found[..|sges|]);
      var k := 0;
      while k < |keys|
        invariant k <= |keys| && found.Length == MAX_SGE
        invariant forall i :: 0 <= i < |sges| ==> found[i] == (sges[i].lkey in keys[..k])
        invariant total == CountTrue(found[..|sges|])
      {
        ghost var f0 := found[..];
        for i := 0 to |sges|
          invariant found.Length == MAX_SGE && total == CountTrue(found[..|sges|])
          invariant forall j :: 0 <= j < |sges| ==> found[j] == (f0[j] || (j < i && sges[j].lkey == keys[k]))
        {
          if keys[k] == sges[i].lkey {
            SetTrue(found[..|sges|], i);
            total := total + (if found[i] then 0 else 1);
            ghost var f := found[..|sges|];
            found[i] := true;
            assert found[..|sges|] == f[i := true];
          }
        }
        assert keys[..k + 1] == keys[..k] + [keys[k]];
        k := k + 1;
        if total == |sges| {
          AllTrue(found[..|sges|]);
          assert forall i :: 0 <= i < |sges| ==> found[..|sges|][i];
          return true;
        }
      }
      AllTrue(found[..|sges|]);
      assert keys[..k] == keys;
      assert forall i :: 0 <= i < |sges| ==> found[..|sges|][i] == found[i];
      ok := total == |sges|;
    }

    /** A request that post-send lets through, if there is memory for its completion. */
    ghost predicate Postable(qpn: int, wr: SendWr)
      requires qpn in qps
      reads this
    {
      && wr.opcode.Send? && |wr.sges| <= MAX_SGE && wr.ours
      && (wr.inlined || forall i :: 0 <= i < |wr.sges| ==> wr.sges[i].lkey in KeysOf(domains, qps[qpn].domain))
    }

    /** Sends requests in order until one fails; exactly those before it reach their receivers and are completed. */
    method PostSend(qpn: int, wrs: seq<SendWr>, memory: nat -> bool) returns (ret: int, done: nat)
      requires Valid() && qpn in qps
      modifies this`qps, this`cqs, this`books
      ensures Valid() && SameQueues(old(qps), qps) && qpn in qps
      ensures done <= |wrs| && (ret == 0 <==> done == |wrs|)
      ensures forall i :: 0 <= i < done ==> old(Postable(qpn, wrs[i])) && memory(i)
      ensures done < |wrs| ==> !(old(Postable(qpn, wrs[done])) && memory(done))
      ensures View() == SendsAll(old(View()), qpn, wrs[..done])
      ensures books.sent == if qps[qpn].sendCq == someCq then old(books.sent) + WrIds(wrs[..done]) else old(books.sent)
    {
      hide Balanced, Wired, SameQueues, Linked, PendingOn, QueuedOn, SendsAll, SendsOne;
      ret, done := 0, 0;
      SameSelf(qps);
      SameAt(qps, qps, qpn);
      SendsNone(View(), qpn, wrs);
      while done < |wrs|
        invariant Valid() && SameQueues(old(qps), qps) && done <= |wrs| && ret == 0
        invariant qpn in qps && qps[qpn].sendCq == old(qps[qpn].sendCq) && qps[qpn].domain == old(qps[qpn].domain)
        invariant forall i :: 0 <= i < done ==> old(Postable(qpn, wrs[i])) && memory(i)
        invariant View() == SendsAll(old(View()), qpn, wrs[..done])
        invariant books.sent == old(books.sent) + if qps[qpn].sendCq == someCq then WrIds(wrs[..done]) else []
      {
        var wr := wrs[done];
        if !wr.opcode.Send? || |wr.sges| > MAX_SGE {
          return EINVAL, done;
        }
        if !wr.inlined {
          var registered := AllRegistered(qps[qpn].domain, wr.sges);
          if !registered {
            return EINVAL, done;
          }
        }
        ghost var before := qps;
        var r := SendSerialize(qpn, wr, memory(done));
        SameTrans(old(qps), before, qps);
        SameAt(old(qps), qps, qpn);
        if r != 0 {
          return ENOMEM, done;
        }
        SendsNext(old(View()), qpn, wrs, done);
        assert WrIds(wrs[..done + 1]) == WrIds(wrs[..done]) + [wr.wrId];
        done := done + 1;
      }
    }

    /** Takes at most n completions, oldest first. */
    method PollCq(cqn: int, n: nat) returns (wcs: seq<Completion>)
      requires Valid() && cqn in cqs
      modifies this`cqs, this`books
      ensures Valid() && |wcs| == Min(n, |old(cqs[cqn])|)
      ensures old(cqs[cqn]) == wcs + QueuedOn(cqs, cqn) && cqs == old(cqs)[cqn := QueuedOn(cqs, cqn)]
      ensures books == if cqn == someCq then old(books).(polled := old(books.polled) + wcs) else old(books)
    {
      hide Valid;
      wcs := [];
      ghost var was, all := books, cqs[cqn];
      for i := 0 to n
        invariant Valid() && i <= |all| && wcs == all[..i] && cqs == old(cqs)[cqn := all[i..]]
        invariant books == if cqn == someCq then was.(polled := was.polled + wcs) else was
      {
        if cqs[cqn] == [] {
          break;
        }
        ghost var rest := cqs[cqn];
        var c := PollOne(cqn);
        PollStep(all, i, rest, c, QueuedOn(cqs, cqn));
        assert was.polled + wcs + [c] == was.polled + (wcs + [c]);
        wcs := wcs + [c];
      }
    }

    method PollOne(cqn: int) returns (c: Completion)
      requires Valid() && cqn in cqs && cqs[cqn] != []
      modifies this`cqs, this`books
      ensures Valid() && old(cqs[cqn]) == [c] + QueuedOn(cqs, cqn) && cqs == old(cqs)[cqn := QueuedOn(cqs, cqn)]
      ensures books == if cqn == someCq then old(books).(polled := old(books.polled) + [c]) else old(books)
    {
      hide Balanced;
      c := cqs[cqn][0];
      if cqn == someCq {
        PolledOne(books, someQp, Linked(qps, someQp, someCq), PendingOn(qps, someQp), QueuedOn(cqs, someCq), counter);
        books := books.(polled := books.polled + [c]);
      }
      cqs := cqs[cqn := cqs[cqn][1..]];
    }
  }

  const EINVAL: int := -22
  const ENOMEM: int := -12

  /** The receives made from posted requests, numbered from n. */
  function NewWrs(wrs: seq<(int, seq<nat>)>, n: nat): seq<RecvWr> {
    seq(|wrs|, i requires 0 <= i < |wrs| => RecvWr(n + i, wrs[i].0, wrs[i].1))
  }

  /** Queue pairs change in their pending receives only. */
  ghost predicate SameQueues(a: map<int, Qp>, b: map<int, Qp>) {
    a.Keys == b.Keys && forall q :: q in a ==> b[q] == a[q].(pending := b[q].pending)
  }

  lemma SendsNone(n: Net, qpn: int, wrs: seq<SendWr>)
    requires qpn in n.qps
    ensures SendsAll(n, qpn, wrs[..0]) == n
  {}

  lemma SendsNext(n: Net, qpn: int, wrs: seq<SendWr>, k: nat)
    requires qpn in n.qps && k < |wrs|
    ensures SendsAll(n, qpn, wrs[..k + 1]) == SendsOne(SendsAll(n, qpn, wrs[..k]), qpn, wrs[k])
  {
    assert wrs[..k + 1][..k] == wrs[..k];
  }

  lemma SameSelf(a: map<int, Qp>)
    ensures SameQueues(a, a)
  {}

  lemma SameTrans(a: map<int, Qp>, b: map<int, Qp>, c: map<int, Qp>)
    requires SameQueues(a, b) && SameQueues(b, c)
    ensures SameQueues(a, c)
  {}

  lemma SameAt(a: map<int, Qp>, b: map<int, Qp>, qpn: int)
    requires SameQueues(a, b) && qpn in a
    ensures qpn in b && a[qpn].sendCq == b[qpn].sendCq && a[qpn].domain == b[qpn].domain
  {}

  function CountTrue(s: seq<bool>): nat {
    if s == [] then 0 else (if s[0] then 1 else 0) + CountTrue(s[1..])
  }

  lemma {:induction false} SetTrue(s: seq<bool>, i: nat)
    requires i < |s|
    ensures CountTrue(s[i := true]) == CountTrue(s) + (if s[i] then 0 else 1)
  {
    if i == 0 {
      assert s[0 := true][1..] == s[1..];
    } else {
      assert s[i := true][1..] == s[1..][i - 1 := true];
      SetTrue(s[1..], i - 1);
    }
  }

  lemma {:induction false} NoneTrue(s: seq<bool>)
    requires forall i :: 0 <= i < |s| ==> !s[i]
    ensures CountTrue(s) == 0
  {
    if s != [] {
      NoneTrue(s[1..]);
    }
  }

  lemma {:induction false} AllTrue(s: seq<bool>)
    ensures CountTrue(s) <= |s|
    ensures CountTrue(s) == |s| <==> forall i :: 0 <= i < |s| ==> s[i]
  {
    if s != [] {
      AllTrue(s[1..]);
      assert (forall i :: 0 <= i < |s| ==> s[i]) ==> forall i :: 0 <= i < |s[1..]| ==> s[1..][i];
      assert forall i :: 0 < i < |s| ==> s[i] == s[1..][i - 1];
    }
  }
}
