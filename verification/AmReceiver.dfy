/**
  Reassembly of multi-fragment active messages at one endpoint.  Fragments arrive in any order;
  middle fragments that come before their first fragment wait in a queue.  Messages are handed
  to the user from the head of the list of started messages.
  */
module AmReceiver {
  import opened Bytes
  import opened AmWire
  import opened IntervalTree

  /** A message being assembled: its first fragment and the payload bytes received so far. */
  datatype Assembly = Assembly(first: FirstView, bytes: map<nat, Byte>)

  datatype Delivery = Delivery(msgId: Word, amId: Word16, userHdr: seq<Byte>, payload: seq<Byte>)

  datatype Endpoint = Endpoint(
    started: seq<Assembly>, queue: seq<MidView>, psn: Word, delivered: seq<Delivery>)

  function At(data: seq<Byte>, offset: nat, i: nat): Byte
    requires offset <= i < offset + |data|
  {
    data[i - offset]
  }

  function Put(a: Assembly, offset: nat, data: seq<Byte>): Assembly {
    a.(bytes := a.bytes + map i: nat | offset <= i < offset + |data| :: At(data, offset, i))
  }

  predicate Complete(a: Assembly) {
    forall i: nat :: i < a.first.total ==> i in a.bytes
  }

  function Payload(a: Assembly): seq<Byte>
    requires Complete(a)
  {
    seq<Byte>(a.first.total, (i: nat) requires i < a.first.total => a.bytes[i])
  }

  function DeliveryOf(a: Assembly): Delivery
    requires Complete(a)
  {
    Delivery(a.first.msgId, a.first.amId, a.first.userHdr, Payload(a))
  }

  /** Index of the assembly of a message, or the length of the list. */
  function Find(started: seq<Assembly>, id: Word): (i: nat)
    ensures i <= |started| && (i < |started| ==> started[i].first.msgId == id)
  {
    if started == [] then 0
    else if started[0].first.msgId == id then 0
    else 1 + Find(started[1..], id)
  }

  /** Copies the waiting fragments of a message. */
  function PutQueued(a: Assembly, queue: seq<MidView>): Assembly
    decreases |queue|
  {
    if queue == [] then a
    else PutQueued(if queue[0].msgId == a.first.msgId then Put(a, queue[0].offset, queue[0].data) else a, queue[1..])
  }

  function Others(queue: seq<MidView>, id: Word): seq<MidView> {
    if queue == [] then []
    else (if queue[0].msgId == id then [] else [queue[0]]) + Others(queue[1..], id)
  }

  /** The waiting fragments, one further. */
  lemma NextLeft(a: Assembly, q: seq<MidView>, j: nat)
    requires j < |q|
    ensures PutQueued(a, q[j..]) ==
            PutQueued(if q[j].msgId == a.first.msgId then Put(a, q[j].offset, q[j].data) else a, q[j + 1..])
  {
    hide Put;
    assert q[j..][1..] == q[j + 1..];
  }

  lemma NextOther(q: seq<MidView>, j: nat, id: Word)
    requires j < |q|
    ensures Others(q[j..], id) == (if q[j].msgId == id then [] else [q[j]]) + Others(q[j + 1..], id)
  {
    assert q[j..][1..] == q[j + 1..];
  }

  lemma OthersLeft(q: seq<MidView>, id: Word)
    ensures q[0..] == q && Others(q[|q|..], id) == []
  {}

  lemma NoneLeft(a: Assembly, q: seq<MidView>)
    ensures PutQueued(a, q[|q|..]) == a
  {}

  /** Hands over complete messages from the head of the list, stopping at the first incomplete one. */
  function Drain(e: Endpoint): Endpoint
    decreases |e.started|
  {
    if e.started == [] || !Complete(e.started[0]) then e
    else
      var a := e.started[0];
      Drain(e.(started := e.started[1..], psn := a.first.msgId, delivered := e.delivered + [DeliveryOf(a)]))
  }

  function Update(e: Endpoint, i: nat, offset: nat, data: seq<Byte>): Endpoint
    requires i < |e.started|
  {
    Drain(e.(started := e.started[i := Put(e.started[i], offset, data)]))
  }

  /** Forgets a partly assembled message. */
  function Evict(e: Endpoint, id: Word): Endpoint {
    var i := Find(e.started, id);
    e.(started := if i < |e.started| then e.started[..i] + e.started[i + 1..] else e.started,
       queue := Others(e.queue, id))
  }

  function OnFirst(e: Endpoint, v: FirstView): Endpoint {
    if |v.data| == v.total then
      var e1 := if v.flags >= FLAG_RESEND then Evict(e, v.msgId) else e;
      e1.(psn := v.msgId, delivered := e1.delivered + [Delivery(v.msgId, v.amId, v.userHdr, v.data)])
    else
      var i := Find(e.started, v.msgId);
      Update(if i < |e.started| then e else Started(e, v), i, 0, v.data)
  }

  /** A new assembly, with the fragments that were waiting for it. */
  function Started(e: Endpoint, v: FirstView): Endpoint {
    e.(started := e.started + [PutQueued(Assembly(v, map[]), e.queue)], queue := Others(e.queue, v.msgId))
  }

  function OnMiddle(e: Endpoint, v: MidView): Endpoint {
    var i := Find(e.started, v.msgId);
    if i < |e.started| then Update(e, i, v.offset, v.data) else e.(queue := e.queue + [v])
  }

  // ----- the endpoint to reply to -----

  /** Whether a message asks for an endpoint to reply to, and whether its callback gets one. */
  datatype Reply = Reply(asked: bool, given: bool)

  /** Bit 0 of the header flags. */
  predicate AsksReply(flags: Word16) { flags % 2 == 1 }

  /** The messages one update hands over. */
  function Drained(e: Endpoint): seq<Assembly>
    decreases |e.started|
  {
    if e.started == [] || !Complete(e.started[0]) then []
    else [e.started[0]] + Drained(e.(started := e.started[1..]))
  }

  /** The loop reuses its variable: once a message has asked for no endpoint, there is none for those after it. */
  function Replies(drained: seq<Assembly>, ep: bool): seq<Reply> {
    if drained == [] then []
    else
      var asked := AsksReply(drained[0].first.flags);
      [Reply(asked, asked && ep)] + Replies(drained[1..], asked && ep)
  }

  function Deliveries(drained: seq<Assembly>): seq<Delivery>
    requires forall i :: 0 <= i < |drained| ==> Complete(drained[i])
  {
    if drained == [] then [] else [DeliveryOf(drained[0])] + Deliveries(drained[1..])
  }

  /** One callback for every message handed over, in order. */
  lemma {:induction false} DrainedExactly(e: Endpoint)
    ensures forall i :: 0 <= i < |Drained(e)| ==> Complete(Drained(e)[i])
    ensures Drain(e).delivered == e.delivered + Deliveries(Drained(e)) && |Replies(Drained(e), true)| == |Drained(e)|
    decreases |e.started|
  {
    hide Complete, DeliveryOf, Replies, AsksReply;
    RepliesExactly(Drained(e), true);
    if e.started != [] && Complete(e.started[0]) {
      var a, rest := e.started[0], e.(started := e.started[1..]);
      var next := rest.(psn := a.first.msgId, delivered := e.delivered + [DeliveryOf(a)]);
      SameDrained(rest, next);
      DrainedExactly(next);
      var more := Drained(next);
      assert Drained(e) == [a] + more && ([a] + more)[1..] == more;
      assert e.delivered + [DeliveryOf(a)] + Deliveries(more) == e.delivered + ([DeliveryOf(a)] + Deliveries(more));
    }
  }

  lemma {:induction false} SameDrained(e: Endpoint, e': Endpoint)
    requires e'.started == e.started
    ensures Drained(e') == Drained(e)
    decreases |e.started|
  {
    hide Complete;
    if e.started != [] && Complete(e.started[0]) {
      SameDrained(e.(started := e.started[1..]), e'.(started := e'.started[1..]));
    }
  }

  /**
    A message gets the endpoint it asks for if and only if all messages handed over before it in
    the same update have asked for theirs.
    */
  lemma {:induction false} RepliesExactly(drained: seq<Assembly>, ep: bool)
    ensures |Replies(drained, ep)| == |drained|
    ensures forall i :: 0 <= i < |drained| ==>
              && Replies(drained, ep)[i].asked == AsksReply(drained[i].first.flags)
              && (Replies(drained, ep)[i].given <==>
                  ep && forall j :: 0 <= j <= i ==> AsksReply(drained[j].first.flags))
    decreases |drained|
  {
    hide AsksReply;
    if drained != [] {
      var asked, rest := AsksReply(drained[0].first.flags), drained[1..];
      RepliesExactly(rest, asked && ep);
      forall i | 0 < i < |drained|
        ensures Replies(drained, ep)[i].asked == AsksReply(drained[i].first.flags)
        ensures Replies(drained, ep)[i].given <==>
                ep && forall j :: 0 <= j <= i ==> AsksReply(drained[j].first.flags)
      {
        assert Replies(drained, ep)[i] == Replies(rest, asked && ep)[i - 1];
        assert forall j :: 0 < j <= i ==> drained[j] == rest[j - 1];
        assert forall j :: 0 <= j <= i - 1 ==> rest[j] == drained[j + 1];
      }
    }
  }

  /** One turn of the loop. */
  lemma DrainStep(e: Endpoint, ep: bool)
    ensures if e.started == [] || !Complete(e.started[0]) then Drain(e) == e && Replies(Drained(e), ep) == []
            else
              var a := e.started[0];
              var next := e.(started := e.started[1..], psn := a.first.msgId,
                             delivered := e.delivered + [DeliveryOf(a)]);
              var given := ep && AsksReply(a.first.flags);
              && Drain(e) == Drain(next)
              && Replies(Drained(e), ep) == [Reply(AsksReply(a.first.flags), given)] + Replies(Drained(next), given)
  {
    hide Complete, AsksReply;
    if e.started != [] && Complete(e.started[0]) {
      var a, rest := e.started[0], e.(started := e.started[1..]);
      SameDrained(rest, rest.(psn := a.first.msgId, delivered := e.delivered + [DeliveryOf(a)]));
      assert Drained(e)[1..] == Drained(rest);
    }
  }

  /** Two complete messages in the list, and only the second asks: its callback gets none. */
  lemma ReplyLost()
    ensures var a := Assembly(FirstView(0, 0, [], [], 1, 0, 0), map[]);
            var b := Assembly(FirstView(0, 1, [], [], 2, 0, 0), map[]);
            Replies(Drained(Endpoint([a, b], [], 0, [])), true) == [Reply(false, false), Reply(true, false)]
  {
    var a := Assembly(FirstView(0, 0, [], [], 1, 0, 0), map[]);
    var b := Assembly(FirstView(0, 1, [], [], 2, 0, 0), map[]);
    var e := Endpoint([a, b], [], 0, []);
    assert Complete(a) && Complete(b) && e.started[1..] == [b] && [b][1..] == [];
    assert Drained(Endpoint([], [], 0, [])) == [] && Drained(Endpoint([b], [], 0, [])) == [b];
    assert Drained(e) == [a, b] && [a, b][1..] == [b];
    assert Replies([], false) == [] && Replies([b], false) == [Reply(true, false)];
  }

  function UpdateReplies(e: Endpoint, i: nat, offset: nat, data: seq<Byte>): seq<Reply>
    requires i < |e.started|
  {
    Replies(Drained(e.(started := e.started[i := Put(e.started[i], offset, data)])), true)
  }

  function FirstReplies(e: Endpoint, v: FirstView): seq<Reply> {
    if |v.data| == v.total then [Reply(AsksReply(v.flags), AsksReply(v.flags))]
    else
      var i := Find(e.started, v.msgId);
      UpdateReplies(if i < |e.started| then e else Started(e, v), i, 0, v.data)
  }

  /**
    A message that comes in one fragment gets the endpoint exactly if it asks.  So does the first
    message handed over by an update: nothing has been withheld before it.
    */
  lemma RepliesStart(e: Endpoint, v: FirstView, i: nat, offset: nat, data: seq<Byte>)
    ensures |v.data| == v.total ==> |FirstReplies(e, v)| == 1 && FirstReplies(e, v)[0].asked == AsksReply(v.flags) &&
                                    FirstReplies(e, v)[0].given == AsksReply(v.flags)
    ensures i < |e.started| && UpdateReplies(e, i, offset, data) != [] ==>
              var asks := AsksReply(if i == 0 then Put(e.started[0], offset, data).first.flags
                                    else e.started[0].first.flags);
              UpdateReplies(e, i, offset, data)[0] == Reply(asks, asks)
  {
    hide Put, AsksReply, Complete;
    if i < |e.started| {
      var drained := Drained(e.(started := e.started[i := Put(e.started[i], offset, data)]));
      RepliesExactly(drained, true);
    }
  }

  function MiddleReplies(e: Endpoint, v: MidView): seq<Reply> {
    var i := Find(e.started, v.msgId);
    if i < |e.started| then UpdateReplies(e, i, v.offset, v.data) else []
  }

  /** The restartable protocol drops whatever is not newer than the last message handed over. */
  predicate Duplicate(e: Endpoint, id: Word) { id <= e.psn && e.psn != 0 }

  datatype Arrival = Arrival(first: bool, bytes: seq<Byte>)

  /** One packet; a packet too short for its layout is not produced by any sender and is ignored. */
  function Receive(e: Endpoint, p: Arrival, psnProto: bool): Endpoint {
    if p.first then
      match ParseFirst(p.bytes)
      case None => e
      case Some(v) => if psnProto && Duplicate(e, v.msgId) then e else OnFirst(e, v)
    else
      match ParseMiddle(p.bytes)
      case None => e
      case Some(v) => if psnProto && Duplicate(e, v.msgId) then e else OnMiddle(e, v)
  }

  function ReceiveReplies(e: Endpoint, p: Arrival, psnProto: bool): seq<Reply> {
    if p.first then
      match ParseFirst(p.bytes)
      case None => []
      case Some(v) => if psnProto && Duplicate(e, v.msgId) then [] else FirstReplies(e, v)
    else
      match ParseMiddle(p.bytes)
      case None => []
      case Some(v) => if psnProto && Duplicate(e, v.msgId) then [] else MiddleReplies(e, v)
  }

  /** A packet that starts or continues a message with no assembly yet needs memory of its own. */
  predicate Allocates(e: Endpoint, p: Arrival, psnProto: bool) {
    if p.first then
      match ParseFirst(p.bytes)
      case None => false
      case Some(v) => !(psnProto && Duplicate(e, v.msgId)) && NeedsBuffer(e, v)
    else
      match ParseMiddle(p.bytes)
      case None => false
      case Some(v) => !(psnProto && Duplicate(e, v.msgId)) && Find(e.started, v.msgId) == |e.started|
  }

  predicate NeedsBuffer(e: Endpoint, v: FirstView) {
    |v.data| != v.total && Find(e.started, v.msgId) == |e.started|
  }

  /** The packet when that memory is not there: the fragment is lost, and a first one takes the waiting ones along. */
  function Starve(e: Endpoint, p: Arrival): Endpoint {
    match if p.first then ParseFirst(p.bytes) else None
    case None => e
    case Some(v) => e.(queue := Others(e.queue, v.msgId))
  }

  function ReceiveAll(e: Endpoint, ps: seq<Arrival>, psnProto: bool): Endpoint
    decreases |ps|
  {
    if ps == [] then e else ReceiveAll(Receive(e, ps[0], psnProto), ps[1..], psnProto)
  }

  // ----- what is handed over is what was sent -----

  type Table = map<Word, Message>

  ghost predicate ValidTable(t: Table) {
    forall id :: id in t ==> t[id].Valid() && t[id].msgId == id
  }

  ghost predicate AuthenticFirst(v: FirstView, t: Table) {
    v.msgId in t &&
    var m := t[v.msgId];
    v.amId == m.amId && v.userHdr == m.userHdr && v.total == |m.payload| &&
    |v.data| <= |m.payload| && v.data == m.payload[..|v.data|]
  }

  ghost predicate AuthenticMiddle(v: MidView, t: Table) {
    v.msgId in t &&
    var m := t[v.msgId];
    v.offset + |v.data| <= |m.payload| && v.data == m.payload[v.offset..v.offset + |v.data|]
  }

  ghost predicate AuthenticAssembly(a: Assembly, t: Table) {
    AuthenticFirst(a.first, t) &&
    forall i :: i in a.bytes ==> i < |t[a.first.msgId].payload| && a.bytes[i] == t[a.first.msgId].payload[i]
  }

  ghost predicate AuthenticDelivery(d: Delivery, t: Table) {
    d.msgId in t && d.amId == t[d.msgId].amId && d.userHdr == t[d.msgId].userHdr && d.payload == t[d.msgId].payload
  }

  ghost predicate Authentic(e: Endpoint, t: Table) {
    && (forall i :: 0 <= i < |e.started| ==> AuthenticAssembly(e.started[i], t))
    && (forall i :: 0 <= i < |e.queue| ==> AuthenticMiddle(e.queue[i], t))
    && (forall i :: 0 <= i < |e.delivered| ==> AuthenticDelivery(e.delivered[i], t))
  }

  ghost predicate FragmentOf(p: Arrival, m: Message, flags: Word16, offset: nat, k: nat) {
    && m.Valid() && offset + k <= |m.payload|
    && p.bytes == if p.first then First(m, flags, k) else Middle(m, offset, k)
  }

  /** A packet some sender produced, in any attempt, for a message of the table. */
  ghost predicate Genuine(p: Arrival, t: Table) {
    exists id, flags, offset, k :: id in t && FragmentOf(p, t[id], flags, offset, k)
  }

  lemma PutAuthentic(a: Assembly, offset: nat, data: seq<Byte>, t: Table)
    requires AuthenticAssembly(a, t)
    requires var p := t[a.first.msgId].payload; offset + |data| <= |p| && data == p[offset..offset + |data|]
    ensures AuthenticAssembly(Put(a, offset, data), t)
  {}

  lemma {:induction false} PutQueuedAuthentic(a: Assembly, queue: seq<MidView>, t: Table)
    requires AuthenticAssembly(a, t) && forall i :: 0 <= i < |queue| ==> AuthenticMiddle(queue[i], t)
    ensures AuthenticAssembly(PutQueued(a, queue), t) && PutQueued(a, queue).first == a.first
    decreases |queue|
  {
    if queue != [] {
      var q := queue[0];
      if q.msgId == a.first.msgId {
        PutAuthentic(a, q.offset, q.data, t);
        PutQueuedAuthentic(Put(a, q.offset, q.data), queue[1..], t);
      } else {
        PutQueuedAuthentic(a, queue[1..], t);
      }
    }
  }

  lemma {:induction false} OthersMembers(queue: seq<MidView>, id: Word)
    ensures forall v :: v in Others(queue, id) ==> v in queue
    decreases |queue|
  {
    if queue != [] {
      OthersMembers(queue[1..], id);
    }
  }

  lemma CompletePayload(a: Assembly, t: Table)
    requires AuthenticAssembly(a, t) && Complete(a)
    ensures AuthenticDelivery(DeliveryOf(a), t)
  {
    var p := Payload(a);
    var m := t[a.first.msgId];
    assert forall i :: 0 <= i < |p| ==> i in a.bytes && p[i] == a.bytes[i] == m.payload[i];
    assert p == m.payload;
  }

  lemma {:induction false} DrainAuthentic(e: Endpoint, t: Table)
    requires Authentic(e, t)
    ensures Authentic(Drain(e), t)
    decreases |e.started|
  {
    hide AuthenticAssembly, AuthenticMiddle, AuthenticDelivery, Complete, DeliveryOf;
    if e.started != [] && Complete(e.started[0]) {
      var a := e.started[0];
      CompletePayload(a, t);
      DrainAuthentic(e.(started := e.started[1..], psn := a.first.msgId,
                        delivered := e.delivered + [DeliveryOf(a)]), t);
    }
  }

  lemma UpdateAuthentic(e: Endpoint, i: nat, offset: nat, data: seq<Byte>, t: Table)
    requires Authentic(e, t) && i < |e.started|
    requires var p := t[e.started[i].first.msgId].payload; offset + |data| <= |p| && data == p[offset..offset + |data|]
    ensures Authentic(Update(e, i, offset, data), t)
  {
    hide AuthenticAssembly, AuthenticMiddle, AuthenticDelivery, Drain, Put;
    PutAuthentic(e.started[i], offset, data, t);
    DrainAuthentic(e.(started := e.started[i := Put(e.started[i], offset, data)]), t);
  }

  lemma EvictAuthentic(e: Endpoint, id: Word, t: Table)
    requires Authentic(e, t)
    ensures Authentic(Evict(e, id), t)
  {
    hide AuthenticAssembly, AuthenticMiddle, AuthenticDelivery;
    OthersMembers(e.queue, id);
    forall i | 0 <= i < |Others(e.queue, id)|
      ensures AuthenticMiddle(Others(e.queue, id)[i], t)
    {
      assert Others(e.queue, id)[i] in e.queue;
    }
  }

  lemma StarveAuthentic(e: Endpoint, p: Arrival, t: Table)
    requires Authentic(e, t)
    ensures Authentic(Starve(e, p), t)
  {
    hide ParseFirst, Authentic;
    if p.first && ParseFirst(p.bytes).Some? {
      EvictAuthentic(e, ParseFirst(p.bytes).value.msgId, t);
      QueueOnly(e, Evict(e, ParseFirst(p.bytes).value.msgId), t);
    }
  }

  lemma QueueOnly(e: Endpoint, e': Endpoint, t: Table)
    requires Authentic(e, t) && Authentic(e', t)
    ensures Authentic(e.(queue := e'.queue), t)
  {}

  lemma OnFirstAuthentic(e: Endpoint, v: FirstView, t: Table)
    requires Authentic(e, t) && AuthenticFirst(v, t)
    ensures Authentic(OnFirst(e, v), t)
  {
    if |v.data| == v.total {
      EvictAuthentic(e, v.msgId, t);
    } else {
      var i := Find(e.started, v.msgId);
      if i < |e.started| {
        UpdateAuthentic(e, i, 0, v.data, t);
      } else {
        PutQueuedAuthentic(Assembly(v, map[]), e.queue, t);
        EvictAuthentic(e, v.msgId, t);
        var e1 := e.(started := e.started + [PutQueued(Assembly(v, map[]), e.queue)],
                     queue := Others(e.queue, v.msgId));
        assert Authentic(e1, t);
        UpdateAuthentic(e1, i, 0, v.data, t);
      }
    }
  }

  lemma OnMiddleAuthentic(e: Endpoint, v: MidView, t: Table)
    requires Authentic(e, t) && AuthenticMiddle(v, t)
    ensures Authentic(OnMiddle(e, v), t)
  {
    var i := Find(e.started, v.msgId);
    if i < |e.started| {
      UpdateAuthentic(e, i, v.offset, v.data, t);
    }
  }

  /** A genuine packet is taken apart into what its message says. */
  lemma GenuineView(p: Arrival, t: Table)
    requires ValidTable(t) && Genuine(p, t)
    ensures if p.first then ParseFirst(p.bytes).Some? && AuthenticFirst(ParseFirst(p.bytes).value, t)
            else ParseMiddle(p.bytes).Some? && AuthenticMiddle(ParseMiddle(p.bytes).value, t)
  {
    hide First, Middle, ParseFirst, ParseMiddle;
    var id, flags, offset, k :| id in t && FragmentOf(p, t[id], flags, offset, k);
    if p.first {
      FirstRoundTrip(t[id], flags, k);
    } else {
      MiddleRoundTrip(t[id], offset, k);
    }
  }

  lemma ReceiveAuthentic(e: Endpoint, p: Arrival, psnProto: bool, t: Table)
    requires ValidTable(t) && Authentic(e, t) && Genuine(p, t)
    ensures Authentic(Receive(e, p, psnProto), t)
  {
    hide ParseFirst, ParseMiddle, Authentic, AuthenticFirst, AuthenticMiddle, Genuine, OnFirst, OnMiddle;
    GenuineView(p, t);
    if p.first {
      OnFirstAuthentic(e, ParseFirst(p.bytes).value, t);
    } else {
      OnMiddleAuthentic(e, ParseMiddle(p.bytes).value, t);
    }
  }

  /**
    Whatever genuine packets arrive, from however many attempts, in whatever order and with
    whatever repetitions: every message handed to the user is one that was sent, with its
    payload, its user header and its identifier.
    */
  lemma {:induction false} ReceiveAllAuthentic(e: Endpoint, ps: seq<Arrival>, psnProto: bool, t: Table)
    requires ValidTable(t) && Authentic(e, t) && forall i :: 0 <= i < |ps| ==> Genuine(ps[i], t)
    ensures Authentic(ReceiveAll(e, ps, psnProto), t)
    decreases |ps|
  {
    hide Authentic, Genuine, Receive;
    if ps != [] {
      ReceiveAuthentic(e, ps[0], psnProto, t);
      ReceiveAllAuthentic(Receive(e, ps[0], psnProto), ps[1..], psnProto, t);
    }
  }

  // ----- the endpoint as code -----

  /** An assembly with the tree of byte ranges it has received. */
  datatype Slot = Slot(asm: Assembly, tree: set<Interval>)

  ghost predicate SlotValid(s: Slot) {
    && s.asm.first.total > 0
    && Canonical(s.tree) && Within(s.tree, s.asm.first.total)
    && forall x: nat :: Covers(s.tree, x) <==> x in s.asm.bytes
  }

  function Asms(slots: seq<Slot>): (s: seq<Assembly>)
    ensures |s| == |slots| && forall i :: 0 <= i < |s| ==> s[i] == slots[i].asm
  {
    seq<Assembly>(|slots|, (i: nat) requires i < |slots| => slots[i].asm)
  }

  /** The tree tells exactly whether a message is complete. */
  lemma SlotComplete(s: Slot)
    requires SlotValid(s)
    ensures EqualRange(s.tree, s.asm.first.total) <==> Complete(s.asm)
  {
    EqualRangeIff(s.tree, s.asm.first.total);
  }

  /**
    Copies a fragment into a slot and records its range.  Without memory for a new node the bytes are
    in the buffer but do not count as received.
    */
  method CopyFragment(s: Slot, offset: nat, data: seq<Byte>, memory: bool) returns (recorded: bool, out: Slot)
    requires SlotValid(s) && offset + |data| <= s.asm.first.total
    ensures recorded <==> memory || exists n :: n in s.tree && Touches(n, Interval(offset, offset + |data|))
    ensures SlotValid(out) && out.asm == if recorded then Put(s.asm, offset, data) else s.asm
  {
    var tree;
    recorded, tree := Insert(s.tree, offset, offset + |data|, memory, s.asm.first.total);
    out := if recorded then Slot(Put(s.asm, offset, data), tree) else s;
  }

  class ReceiveEndpoint {
    var started: seq<Slot>
    var queue: seq<MidView>
    var psn: Word
    var delivered: seq<Delivery>
    /** What the callbacks were given to reply to. */
    var replies: seq<Reply>

    ghost function View(): Endpoint
      reads this
    {
      Endpoint(Asms(started), queue, psn, delivered)
    }

    ghost predicate Valid()
      reads this
    {
      forall i :: 0 <= i < |started| ==> SlotValid(started[i])
    }

    ghost predicate FirstFits(v: FirstView)
      reads this
    {
      && |v.data| <= v.total
      && (forall i :: 0 <= i < |queue| && queue[i].msgId == v.msgId ==> queue[i].offset + |queue[i].data| <= v.total)
      && (forall i :: 0 <= i < |started| && started[i].asm.first.msgId == v.msgId ==>
            |v.data| <= started[i].asm.first.total)
    }

    ghost predicate MiddleFits(v: MidView)
      reads this
    {
      forall i :: 0 <= i < |started| && started[i].asm.first.msgId == v.msgId ==>
        v.offset + |v.data| <= started[i].asm.first.total
    }

    constructor ()
      ensures Valid() && View() == Endpoint([], [], 0, []) && replies == []
    {
      started, queue, psn, delivered, replies := [], [], 0, [], [];
    }

    /** Looks a message up in the list of started messages. */
    method FindStarted(id: Word) returns (i: nat)
      ensures i == Find(Asms(started), id)
    {
      i := 0;
      while i < |started|
        invariant i <= |started|
        invariant Find(Asms(started), id) == i + Find(Asms(started)[i..], id)
      {
        assert Asms(started)[i..][1..] == Asms(started)[i + 1..];
        if started[i].asm.first.msgId == id {
          return;
        }
        i := i + 1;
      }
    }

    /** Copies a fragment, then hands over complete messages from the head of the list. */
    method HandleUnfinished(i: nat, offset: nat, data: seq<Byte>)
      requires Valid() && i < |started| && offset + |data| <= started[i].asm.first.total
      modifies this
      ensures Valid() && View() == Update(old(View()), i, offset, data)
      ensures replies == old(replies) + UpdateReplies(old(View()), i, offset, data)
    {
      hide SlotValid, Complete, Payload, AsksReply, Drain, Drained, Replies;
      var _, slot := CopyFragment(started[i], offset, data, true);
      ghost var asms := Asms(started);
      started := started[i := slot];
      assert Asms(started) == asms[i := Put(asms[i], offset, data)];
      ghost var e := View();
      var replyEp := true;
      while started != []
        invariant Valid() && Drain(View()) == Drain(e)
        invariant replies + Replies(Drained(View()), replyEp) == old(replies) + Replies(Drained(e), true)
        decreases |started|
      {
        SlotComplete(started[0]);
        DrainStep(View(), replyEp);
        if started[0].tree != {Interval(0, started[0].asm.first.total)} {
          return;
        }
        var a := started[0].asm;
        assert Asms(started)[1..] == Asms(started[1..]);
        started := started[1..];
        psn := a.first.msgId;
        delivered := delivered + [DeliveryOf(a)];
        replyEp := replyEp && AsksReply(a.first.flags);
        replies := replies + [Reply(AsksReply(a.first.flags), replyEp)];
      }
      DrainStep(View(), replyEp);
    }

    /** Takes the waiting fragments of a message out of the queue, copying them. */
    method TakeQueued(first: FirstView) returns (slot: Slot)
      requires first.total > 0
      requires forall i :: 0 <= i < |queue| && queue[i].msgId == first.msgId ==>
                 queue[i].offset + |queue[i].data| <= first.total
      modifies this`queue
      ensures SlotValid(slot) && slot.asm == PutQueued(Assembly(first, map[]), old(queue))
      ensures slot.asm.first == first && queue == Others(old(queue), first.msgId)
    {
      slot := Slot(Assembly(first, map[]), {});
      assert SlotValid(slot);
      hide SlotValid, Put, PutQueued, Others;
      OthersLeft(queue, first.msgId);
      var kept: seq<MidView> := [];
      var j := 0;
      while j < |queue|
        invariant 0 <= j <= |queue| && queue == old(queue) && SlotValid(slot) && slot.asm.first == first
        invariant PutQueued(slot.asm, queue[j..]) == PutQueued(Assembly(first, map[]), queue)
        invariant kept + Others(queue[j..], first.msgId) == Others(queue, first.msgId)
      {
        var q := queue[j];
        NextLeft(slot.asm, queue, j);
        NextOther(queue, j, first.msgId);
        if q.msgId == first.msgId {
          PutKeepsFirst(slot.asm, q.offset, q.data);
          var _, more := CopyFragment(slot, q.offset, q.data, true);
          slot := more;
        } else {
          kept := kept + [q];
        }
        j := j + 1;
      }
      NoneLeft(slot.asm, queue);
      queue := kept;
    }

    /** Drops the waiting fragments of a message. */
    method ReleaseQueued(id: Word)
      modifies this`queue
      ensures queue == Others(old(queue), id)
    {
      hide Others;
      OthersLeft(queue, id);
      var kept: seq<MidView> := [];
      var j := 0;
      while j < |queue|
        invariant 0 <= j <= |queue| && queue == old(queue)
        invariant kept + Others(queue[j..], id) == Others(queue, id)
      {
        NextOther(queue, j, id);
        if queue[j].msgId != id {
          kept := kept + [queue[j]];
        }
        j := j + 1;
      }
      queue := kept;
    }

    /** Drops a partly assembled message. */
    method ReleasePartial(id: Word)
      requires Valid()
      modifies this`started, this`queue
      ensures Valid() && View() == Evict(old(View()), id)
    {
      hide SlotValid;
      var i := FindStarted(id);
      if i < |started| {
        ghost var asms := Asms(started);
        started := started[..i] + started[i + 1..];
        assert Asms(started) == asms[..i] + asms[i + 1..];
      }
      ReleaseQueued(id);
    }

    /** A first fragment.  Its sizes fit the message they belong to. */
    method FirstHandler(v: FirstView, memory: bool)
      requires Valid() && FirstFits(v)
      modifies this
      ensures Valid()
      ensures View() == if !memory && NeedsBuffer(old(View()), v)
                        then old(View()).(queue := Others(old(queue), v.msgId))
                        else OnFirst(old(View()), v)
      ensures replies == old(replies) + if !memory && NeedsBuffer(old(View()), v) then []
                                        else FirstReplies(old(View()), v)
    {
      hide SlotValid, PutQueued, Others, Update, UpdateReplies;
      if |v.data| == v.total {
        if v.flags >= FLAG_RESEND {
          ReleasePartial(v.msgId);
        }
        psn := v.msgId;
        delivered := delivered + [Delivery(v.msgId, v.amId, v.userHdr, v.data)];
        replies := replies + [Reply(AsksReply(v.flags), AsksReply(v.flags))];
        return;
      }
      var i := FindStarted(v.msgId);
      if i == |started| {
        if !memory {
          ReleaseQueued(v.msgId);
          return;
        }
        var slot := TakeQueued(v);
        ghost var asms := Asms(started);
        started := started + [slot];
        assert Asms(started) == asms + [slot.asm];
      }
      HandleUnfinished(i, 0, v.data);
    }

    /** A middle fragment. */
    method MiddleHandler(v: MidView, memory: bool)
      requires Valid() && MiddleFits(v)
      modifies this
      ensures Valid()
      ensures View() == if !memory && Find(old(View()).started, v.msgId) == |old(View()).started|
                        then old(View())
                        else OnMiddle(old(View()), v)
      ensures replies == old(replies) + MiddleReplies(old(View()), v)
    {
      hide SlotValid, Update, UpdateReplies;
      var i := FindStarted(v.msgId);
      if i < |started| {
        HandleUnfinished(i, v.offset, v.data);
      } else if memory {
        queue := queue + [v];
      }
    }

    /** The sizes of a genuine packet fit what the endpoint holds of its message. */
    lemma Fitting(p: Arrival, t: Table)
      requires ValidTable(t) && Authentic(View(), t) && Genuine(p, t)
      ensures if p.first then ParseFirst(p.bytes).Some? && FirstFits(ParseFirst(p.bytes).value)
              else ParseMiddle(p.bytes).Some? && MiddleFits(ParseMiddle(p.bytes).value)
    {
      hide Genuine, ParseFirst, ParseMiddle, ValidTable;
      GenuineView(p, t);
      var asms := Asms(started);
      assert forall i :: 0 <= i < |started| ==> AuthenticAssembly(asms[i], t);
      assert forall i :: 0 <= i < |queue| ==> AuthenticMiddle(queue[i], t);
    }

    /** One packet, as the transport hands it to the endpoint: dropped, or taken by its handler. */
    method HandlePacket(p: Arrival, psnProto: bool, memory: bool, ghost t: Table)
      requires Valid() && ValidTable(t) && Authentic(View(), t) && Genuine(p, t)
      modifies this
      ensures Valid() && Authentic(View(), t)
      ensures View() == if !memory && Allocates(old(View()), p, psnProto) then Starve(old(View()), p)
                        else Receive(old(View()), p, psnProto)
      ensures replies == old(replies) + if !memory && Allocates(old(View()), p, psnProto) then []
                                        else ReceiveReplies(old(View()), p, psnProto)
    {
      hide FirstReplies, UpdateReplies, SlotValid, ParseFirst, ParseMiddle, Authentic, Genuine, ValidTable, OnFirst,
           OnMiddle, Others;
      Fitting(p, t);
      ReceiveAuthentic(View(), p, psnProto, t);
      StarveAuthentic(View(), p, t);
      if p.first {
        var v := ParseFirst(p.bytes).value;
        if !psnProto || !(v.msgId <= psn && psn != 0) {
          FirstHandler(v, memory);
        }
      } else {
        var v := ParseMiddle(p.bytes).value;
        if !psnProto || !(v.msgId <= psn && psn != 0) {
          MiddleHandler(v, memory);
        }
      }
    }
  }

  lemma PutKeepsFirst(a: Assembly, offset: nat, data: seq<Byte>)
    ensures Put(a, offset, data).first == a.first
  {}
}
