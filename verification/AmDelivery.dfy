/**
  From sender to receiver: what an endpoint holds of one message, and how the fragments of a
  send, arriving in any order, are reassembled into the message and handed over once.
  */
module AmDelivery {
  import opened Bytes
  import opened AmWire
  import opened AmSender
  import opened AmReceiver

  predicate Spans(f: Fragment, x: nat) { f.offset <= x < f.offset + f.k }

  ghost predicate Apart(f: Fragment, g: Fragment) {
    f.offset + f.k <= g.offset || g.offset + g.k <= f.offset
  }

  ghost predicate Spanned(fs: seq<Fragment>, x: nat) {
    exists f :: f in fs && Spans(f, x)
  }

  /** Fragments that together are one whole message, in any order. */
  ghost predicate Whole(fs: seq<Fragment>, total: nat) {
    && (forall i, j :: 0 <= i < j < |fs| ==> fs[i] != fs[j])
    && (forall f, g :: f in fs && g in fs && f != g ==> Apart(f, g) && !(f.first && g.first))
    && (exists f :: f in fs && f.first)
    && (forall x: nat :: x < total ==> Spanned(fs, x))
    && (forall f :: f in fs ==> f.offset + f.k <= total && if f.first then f.offset == 0 else f.k > 0)
  }

  // ----- a complete send is whole -----

  lemma {:induction false} TiledOrder(log: seq<Fragment>, end: nat)
    requires Tiled(log, end)
    ensures forall i :: 0 <= i < |log| ==>
              log[i].offset + log[i].k <= end && (log[i].first <==> i == 0) &&
              if log[i].first then log[i].offset == 0 else log[i].k > 0
    ensures forall i, j :: 0 <= i < j < |log| ==> log[i].offset + log[i].k <= log[j].offset
    ensures forall x: nat :: x < end ==> Spanned(log, x)
    decreases |log|
  {
    if log != [] {
      var n := |log| - 1;
      var f, front := log[n], log[..n];
      TiledOrder(front, f.offset);
      assert n == 0 ==> front == [] && f.offset == 0;
      assert forall i :: 0 <= i < n ==> front[i] == log[i];
      forall x: nat | x < end
        ensures Spanned(log, x)
      {
        if x < f.offset {
          assert Spanned(front, x);
          var g :| g in front && Spans(g, x);
          assert g in log;
        } else {
          assert f in log && Spans(f, x);
        }
      }
    }
  }

  lemma {:induction false} DistinctCount<T>(s: seq<T>)
    requires forall i, j :: 0 <= i < j < |s| ==> s[i] != s[j]
    ensures forall x :: multiset(s)[x] <= 1
    decreases |s|
  {
    if s != [] {
      DistinctCount(s[1..]);
      assert s == [s[0]] + s[1..];
    }
  }

  lemma CountDistinct<T>(s: seq<T>)
    requires forall x :: multiset(s)[x] <= 1
    ensures forall i, j :: 0 <= i < j < |s| ==> s[i] != s[j]
  {
    forall i, j | 0 <= i < j < |s|
      ensures s[i] != s[j]
    {
      var x := s[j];
      assert s == s[..j] + [x] + s[j + 1..];
      assert multiset(s)[x] == multiset(s[..j])[x] + 1 + multiset(s[j + 1..])[x];
      assert x !in multiset(s[..j]);
      assert s[..j][i] == s[i];
    }
  }

  lemma TiledWhole(log: seq<Fragment>, total: nat)
    requires Tiled(log, total) && log != []
    ensures Whole(log, total)
  {
    hide Tiled, Spanned;
    TiledOrder(log, total);
    assert log[0] in log && log[0].first;
    forall f, g | f in log && g in log && f != g
      ensures Apart(f, g) && !(f.first && g.first)
    {
      var i :| 0 <= i < |log| && log[i] == f;
      var j :| 0 <= j < |log| && log[j] == g;
      assert i < j || j < i;
    }
  }

  lemma SameSpan(fs: seq<Fragment>, gs: seq<Fragment>, x: nat)
    requires forall f :: f in fs <==> f in gs
    ensures Spanned(fs, x) <==> Spanned(gs, x)
  {}

  /** The accepted fragments of a completed send, however shuffled, are the whole message. */
  lemma ShuffledWhole(log: seq<Fragment>, arrivals: seq<Fragment>, total: nat)
    requires Tiled(log, total) && log != [] && multiset(arrivals) == multiset(log)
    ensures Whole(arrivals, total)
  {
    hide Tiled, Spanned, Apart;
    TiledWhole(log, total);
    DistinctCount(log);
    CountDistinct(arrivals);
    forall f
      ensures f in arrivals <==> f in log
    {
      assert f in multiset(arrivals) <==> f in multiset(log);
    }
    forall x: nat | x < total
      ensures Spanned(arrivals, x)
    {
      SameSpan(log, arrivals, x);
    }
  }

  // ----- an endpoint's share of one message -----

  function AsmsOf(started: seq<Assembly>, id: Word): seq<Assembly> {
    if started == [] then []
    else (if started[0].first.msgId == id then [started[0]] else []) + AsmsOf(started[1..], id)
  }

  function MidsOf(queue: seq<MidView>, id: Word): seq<MidView> {
    if queue == [] then []
    else (if queue[0].msgId == id then [queue[0]] else []) + MidsOf(queue[1..], id)
  }

  lemma {:induction false} AsmsConcat(s: seq<Assembly>, s': seq<Assembly>, id: Word)
    ensures AsmsOf(s + s', id) == AsmsOf(s, id) + AsmsOf(s', id)
    decreases |s|
  {
    if s == [] {
      assert s + s' == s';
    } else {
      var head := if s[0].first.msgId == id then [s[0]] else [];
      AsmsConcat(s[1..], s', id);
      assert (s + s')[1..] == s[1..] + s';
      assert head + (AsmsOf(s[1..], id) + AsmsOf(s', id)) == head + AsmsOf(s[1..], id) + AsmsOf(s', id);
    }
  }

  lemma AsmsSnoc(s: seq<Assembly>, a: Assembly, id: Word)
    ensures AsmsOf(s + [a], id) == AsmsOf(s, id) + if a.first.msgId == id then [a] else []
  {
    AsmsConcat(s, [a], id);
    assert [a][1..] == [];
  }

  /** Replacing or removing one assembly. */
  lemma AsmsAround(s: seq<Assembly>, i: nat, a: Assembly, id: Word)
    requires i < |s|
    ensures AsmsOf(s, id) == AsmsOf(s[..i], id) + AsmsOf([s[i]], id) + AsmsOf(s[i + 1..], id)
    ensures AsmsOf(s[i := a], id) == AsmsOf(s[..i], id) + AsmsOf([a], id) + AsmsOf(s[i + 1..], id)
    ensures AsmsOf(s[..i] + s[i + 1..], id) == AsmsOf(s[..i], id) + AsmsOf(s[i + 1..], id)
  {
    hide AsmsOf;
    assert s == s[..i] + [s[i]] + s[i + 1..];
    assert s[i := a] == s[..i] + [a] + s[i + 1..];
    AsmsConcat(s[..i] + [s[i]], s[i + 1..], id);
    AsmsConcat(s[..i], [s[i]], id);
    AsmsConcat(s[..i] + [a], s[i + 1..], id);
    AsmsConcat(s[..i], [a], id);
    AsmsConcat(s[..i], s[i + 1..], id);
  }

  lemma AsmsOne(a: Assembly, id: Word)
    ensures AsmsOf([a], id) == if a.first.msgId == id then [a] else []
  {
    assert [a][1..] == [];
  }

  /** The list is searched from the front. */
  lemma {:induction false} FindFirst(s: seq<Assembly>, id: Word)
    ensures var i := Find(s, id);
            AsmsOf(s[..i], id) == [] && (AsmsOf(s, id) == [] <==> i == |s|) && (i < |s| ==> AsmsOf(s, id)[0] == s[i])
    decreases |s|
  {
    if s != [] && s[0].first.msgId != id {
      FindFirst(s[1..], id);
      var i := Find(s[1..], id);
      assert s[..i + 1][1..] == s[1..][..i];
    }
  }

  lemma {:induction false} MidsSnoc(q: seq<MidView>, v: MidView, id: Word)
    ensures MidsOf(q + [v], id) == MidsOf(q, id) + if v.msgId == id then [v] else []
    decreases |q|
  {
    if q == [] {
      assert q + [v] == [v] && [v][1..] == [];
    } else {
      var head := if q[0].msgId == id then [q[0]] else [];
      var last := if v.msgId == id then [v] else [];
      MidsSnoc(q[1..], v, id);
      assert (q + [v])[1..] == q[1..] + [v];
      assert head + (MidsOf(q[1..], id) + last) == head + MidsOf(q[1..], id) + last;
    }
  }

  lemma {:induction false} MidsOthers(q: seq<MidView>, gone: Word, id: Word)
    ensures MidsOf(Others(q, gone), id) == if id == gone then [] else MidsOf(q, id)
    decreases |q|
  {
    if q != [] {
      MidsOthers(q[1..], gone, id);
      var rest := Others(q[1..], gone);
      assert ([q[0]] + rest)[1..] == rest;
      assert [] + rest == rest;
    }
  }

  lemma {:induction false} PutOwn(a: Assembly, q: seq<MidView>)
    ensures PutQueued(a, q) == PutQueued(a, MidsOf(q, a.first.msgId))
    decreases |q|
  {
    if q != [] {
      var rest := MidsOf(q[1..], a.first.msgId);
      if q[0].msgId == a.first.msgId {
        PutOwn(Put(a, q[0].offset, q[0].data), q[1..]);
        assert ([q[0]] + rest)[1..] == rest;
      } else {
        PutOwn(a, q[1..]);
        assert [] + rest == rest;
      }
    }
  }

  // ----- the receiver part way through -----

  ghost predicate HasFirst(fs: seq<Fragment>) { exists f :: f in fs && f.first }

  /** Fragments that lie within a message, cut in whatever way. */
  ghost predicate Inside(fs: seq<Fragment>, m: Message) {
    forall f :: f in fs ==> f.offset + f.k <= |m.payload| && (f.first ==> f.offset == 0)
  }

  function FirstViewOf(f: Fragment, m: Message, flags: Word16): FirstView
    requires m.Valid() && f.k <= |m.payload|
  {
    FirstView(m.amId, flags, m.payload[..f.k], m.userHdr, m.msgId, m.epId, |m.payload|)
  }

  function MidViewOf(f: Fragment, m: Message): MidView
    requires m.Valid() && f.offset + f.k <= |m.payload|
  {
    MidView(f.offset, m.payload[f.offset..f.offset + f.k], m.msgId, m.epId)
  }

  function Queued(fs: seq<Fragment>, m: Message): seq<MidView>
    requires m.Valid() && forall f :: f in fs ==> f.offset + f.k <= |m.payload|
  {
    if fs == [] then [] else Queued(fs[..|fs| - 1], m) + [MidViewOf(fs[|fs| - 1], m)]
  }

  /** The payload bytes that some fragments bring. */
  ghost function Received(fs: seq<Fragment>, m: Message): map<nat, Byte> {
    map i: nat | i < |m.payload| && Spanned(fs, i) :: m.payload[i]
  }

  ghost predicate Assembles(a: Assembly, fs: seq<Fragment>, m: Message) {
    && a.bytes == Received(fs, m)
    && a.first.msgId == m.msgId && a.first.amId == m.amId && a.first.userHdr == m.userHdr
    && a.first.total == |m.payload|
  }

  /** Of message m, the endpoint holds exactly the given fragments. */
  ghost predicate Tracks(e: Endpoint, fs: seq<Fragment>, m: Message)
    requires m.Valid() && Inside(fs, m)
  {
    var asms, mids := AsmsOf(e.started, m.msgId), MidsOf(e.queue, m.msgId);
    if HasFirst(fs) then mids == [] && |asms| == 1 && Assembles(asms[0], fs, m)
    else asms == [] && mids == Queued(fs, m)
  }

  lemma SpannedSnoc(fs: seq<Fragment>, f: Fragment, i: nat)
    ensures Spanned(fs + [f], i) <==> Spanned(fs, i) || Spans(f, i)
  {
    assert forall g :: g in fs + [f] <==> g in fs || g == f;
  }

  lemma ReceivedSnoc(fs: seq<Fragment>, f: Fragment, m: Message, a: Assembly)
    requires f.offset + f.k <= |m.payload| && a.bytes == Received(fs, m)
    ensures Put(a, f.offset, m.payload[f.offset..f.offset + f.k]).bytes == Received(fs + [f], m)
  {
    hide Spanned;
    var b := Put(a, f.offset, m.payload[f.offset..f.offset + f.k]).bytes;
    var r := Received(fs + [f], m);
    forall i: nat
      ensures i in b <==> i in r
      ensures i in b ==> b[i] == m.payload[i]
    {
      SpannedSnoc(fs, f, i);
    }
    assert b.Keys == r.Keys;
  }

  lemma NoneReceived(m: Message)
    ensures Received([], m) == map[]
  {
    var r := Received([], m);
    assert r == map[];
  }

  lemma {:induction false} QueuedPut(fs: seq<Fragment>, m: Message, a: Assembly)
    requires m.Valid() && forall f :: f in fs ==> f.offset + f.k <= |m.payload|
    requires a.first.msgId == m.msgId && a.bytes == map[]
    ensures PutQueued(a, Queued(fs, m)).bytes == Received(fs, m)
    ensures PutQueued(a, Queued(fs, m)).first == a.first && Others(Queued(fs, m), m.msgId) == []
    decreases |fs|
  {
    hide Put, Spanned;
    if fs == [] {
      NoneReceived(m);
    } else {
      var n := |fs| - 1;
      var front := fs[..n];
      assert fs == front + [fs[n]];
      QueuedPut(front, m, a);
      var q := Queued(front, m);
      var v := MidViewOf(fs[n], m);
      PutQueuedSnoc(a, q, v);
      PutKeepsFirst(PutQueued(a, q), v.offset, v.data);
      ReceivedSnoc(front, fs[n], m, PutQueued(a, q));
    }
  }

  lemma {:induction false} PutQueuedSnoc(a: Assembly, q: seq<MidView>, v: MidView)
    requires v.msgId == a.first.msgId
    ensures PutQueued(a, q + [v]) == Put(PutQueued(a, q), v.offset, v.data)
    ensures Others(q + [v], v.msgId) == Others(q, v.msgId) && PutQueued(a, q).first == a.first
    decreases |q|
  {
    if q == [] {
      assert q + [v] == [v];
      assert PutQueued(a, [v]) == PutQueued(Put(a, v.offset, v.data), []);
      assert Others([v], v.msgId) == [] + Others([], v.msgId);
    } else {
      assert (q + [v])[1..] == q[1..] + [v];
      PutQueuedSnoc(if q[0].msgId == a.first.msgId then Put(a, q[0].offset, q[0].data) else a, q[1..], v);
    }
  }

  /** A first fragment and every byte have arrived. */
  ghost predicate Finished(fs: seq<Fragment>, m: Message) {
    HasFirst(fs) && forall x: nat :: x < |m.payload| ==> Spanned(fs, x)
  }

  function MessageDelivery(m: Message): Delivery { Delivery(m.msgId, m.amId, m.userHdr, m.payload) }

  /** An assembly is complete exactly when its fragments cover the message, and then it is the message. */
  lemma CompleteIff(a: Assembly, fs: seq<Fragment>, m: Message)
    requires Assembles(a, fs, m) && HasFirst(fs)
    ensures Complete(a) <==> Finished(fs, m)
    ensures Complete(a) ==> DeliveryOf(a) == MessageDelivery(m)
  {
    hide HasFirst, Spanned;
    assert forall i :: i in a.bytes <==> 0 <= i < |m.payload| && Spanned(fs, i);
    if Complete(a) {
      assert forall i :: 0 <= i < |m.payload| ==> i in a.bytes && a.bytes[i] == m.payload[i];
      assert Payload(a) == m.payload;
    }
  }

  // ----- one more fragment -----

  function ArrivalOf(f: Fragment): Arrival { Arrival(f.first, f.bytes) }

  /** The endpoint after handing over the message. */
  function HandedOver(e: Endpoint, m: Message): Endpoint {
    e.(psn := m.msgId, delivered := e.delivered + [MessageDelivery(m)])
  }

  /** The endpoint with one more fragment of the message in hand, before anything is handed over. */
  function Absorbed(e: Endpoint, f: Fragment, m: Message, flags: Word16): Endpoint
    requires m.Valid() && f.offset + f.k <= |m.payload|
  {
    var i := Find(e.started, m.msgId);
    var data := m.payload[f.offset..f.offset + f.k];
    if i < |e.started| then e.(started := e.started[i := Put(e.started[i], f.offset, data)])
    else if f.first then
      var a := PutQueued(Assembly(FirstViewOf(f, m, flags), map[]), e.queue);
      e.(started := e.started + [Put(a, f.offset, data)], queue := Others(e.queue, m.msgId))
    else e.(queue := e.queue + [MidViewOf(f, m)])
  }

  predicate IsWhole(f: Fragment, m: Message) { f.first && f.k == |m.payload| }

  /** A fragment that is not dropped: a whole message goes up at once, any other is absorbed first. */
  lemma Arrives(e: Endpoint, f: Fragment, m: Message, flags: Word16, psnProto: bool)
    requires m.Valid() && WellPacked(f, m, flags) && (f.first ==> f.offset == 0)
    requires !(psnProto && Duplicate(e, m.msgId))
    ensures Receive(e, ArrivalOf(f), psnProto)
         == if IsWhole(f, m) then HandedOver(if flags >= FLAG_RESEND then Evict(e, m.msgId) else e, m)
            else if f.first || Find(e.started, m.msgId) < |e.started| then Drain(Absorbed(e, f, m, flags))
            else Absorbed(e, f, m, flags)
  {
    hide ParseFirst, ParseMiddle, First, Middle, Drain, Put, PutQueued, Others, Evict;
    if f.first {
      FirstRoundTrip(m, flags, f.k);
      assert m.payload[0..f.k] == m.payload[..f.k];
      if IsWhole(f, m) {
        assert m.payload[..f.k] == m.payload;
      } else if Find(e.started, m.msgId) == |e.started| {
        var a := PutQueued(Assembly(FirstViewOf(f, m, flags), map[]), e.queue);
        var s := e.started + [a];
        assert s[|e.started|] == a;
        assert s[|e.started| := Put(a, 0, m.payload[..f.k])] == e.started + [Put(a, 0, m.payload[..f.k])];
      }
    } else {
      MiddleRoundTrip(m, f.offset, f.k);
    }
  }

  /** A fragment of a message that is not newer than the last one handed over. */
  lemma Ignored(e: Endpoint, f: Fragment, m: Message, flags: Word16)
    requires m.Valid() && WellPacked(f, m, flags) && Duplicate(e, m.msgId)
    ensures Receive(e, ArrivalOf(f), true) == e
  {
    hide ParseFirst, ParseMiddle, First, Middle, OnFirst, OnMiddle;
    if f.first {
      FirstRoundTrip(m, flags, f.k);
    } else {
      MiddleRoundTrip(m, f.offset, f.k);
    }
  }

  lemma PutAssembles(a: Assembly, fs: seq<Fragment>, f: Fragment, m: Message)
    requires Assembles(a, fs, m) && f.offset + f.k <= |m.payload|
    ensures Assembles(Put(a, f.offset, m.payload[f.offset..f.offset + f.k]), fs + [f], m)
  {
    hide Received;
    ReceivedSnoc(fs, f, m, a);
  }

  lemma HasFirstSnoc(fs: seq<Fragment>, f: Fragment)
    ensures HasFirst(fs + [f]) <==> HasFirst(fs) || f.first
  {
    assert forall g :: g in fs + [f] <==> g in fs || g == f;
  }

  lemma InsideSnoc(fs: seq<Fragment>, f: Fragment, m: Message)
    requires Inside(fs, m) && f.offset + f.k <= |m.payload| && (f.first ==> f.offset == 0)
    ensures Inside(fs + [f], m)
  {
    assert forall g :: g in fs + [f] ==> g in fs || g == f;
  }

  lemma AbsorbedTracks(e: Endpoint, fs: seq<Fragment>, f: Fragment, m: Message, flags: Word16)
    requires m.Valid() && Inside(fs, m) && Tracks(e, fs, m)
    requires f.offset + f.k <= |m.payload| && (f.first ==> f.offset == 0)
    ensures Inside(fs + [f], m) && Tracks(Absorbed(e, f, m, flags), fs + [f], m)
  {
    hide HasFirst, Inside, Put, PutQueued, Others, MidsOf, AsmsOf, Assembles, Received;
    InsideSnoc(fs, f, m);
    HasFirstSnoc(fs, f);
    FindFirst(e.started, m.msgId);
    var i := Find(e.started, m.msgId);
    var data := m.payload[f.offset..f.offset + f.k];
    if i < |e.started| {
      var a := e.started[i];
      PutAssembles(a, fs, f, m);
      PutKeepsFirst(a, f.offset, data);
      AsmsAround(e.started, i, Put(a, f.offset, data), m.msgId);
      AsmsOne(a, m.msgId);
      AsmsOne(Put(a, f.offset, data), m.msgId);
    } else if f.first {
      var a := Assembly(FirstViewOf(f, m, flags), map[]);
      var b := PutQueued(a, e.queue);
      PutOwn(a, e.queue);
      QueuedPut(fs, m, a);
      assert Assembles(b, fs, m) by { hide *; AssemblesNow(a, fs, m, b); }
      PutAssembles(b, fs, f, m);
      PutKeepsFirst(b, f.offset, data);
      AsmsSnoc(e.started, Put(b, f.offset, data), m.msgId);
      MidsOthers(e.queue, m.msgId, m.msgId);
    } else {
      MidsSnoc(e.queue, MidViewOf(f, m), m.msgId);
      assert (fs + [f])[..|fs + [f]| - 1] == fs;
    }
  }

  lemma AssemblesNow(a: Assembly, fs: seq<Fragment>, m: Message, b: Assembly)
    requires b.bytes == Received(fs, m) && b.first == a.first
    requires a.first.msgId == m.msgId && a.first.amId == m.amId && a.first.userHdr == m.userHdr
    requires a.first.total == |m.payload|
    ensures Assembles(b, fs, m)
  {}

  /** Taking in a fragment of one message leaves the others alone. */
  lemma AbsorbedOthers(e: Endpoint, f: Fragment, m: Message, flags: Word16, id: Word)
    requires m.Valid() && f.offset + f.k <= |m.payload| && id != m.msgId
    ensures var e' := Absorbed(e, f, m, flags);
            AsmsOf(e'.started, id) == AsmsOf(e.started, id) && MidsOf(e'.queue, id) == MidsOf(e.queue, id)
  {
    hide Put, PutQueued, Others, MidsOf, AsmsOf;
    var i := Find(e.started, m.msgId);
    var data := m.payload[f.offset..f.offset + f.k];
    if i < |e.started| {
      var a := e.started[i];
      PutKeepsFirst(a, f.offset, data);
      AsmsAround(e.started, i, Put(a, f.offset, data), id);
      AsmsOne(a, id);
      AsmsOne(Put(a, f.offset, data), id);
    } else if f.first {
      var a := Assembly(FirstViewOf(f, m, flags), map[]);
      PutQueuedKeepsFirst(a, e.queue);
      PutKeepsFirst(PutQueued(a, e.queue), f.offset, data);
      AsmsSnoc(e.started, Put(PutQueued(a, e.queue), f.offset, data), id);
      MidsOthers(e.queue, m.msgId, id);
    } else {
      MidsSnoc(e.queue, MidViewOf(f, m), id);
    }
  }

  lemma {:induction false} PutQueuedKeepsFirst(a: Assembly, q: seq<MidView>)
    ensures PutQueued(a, q).first == a.first
    decreases |q|
  {
    if q != [] {
      PutQueuedKeepsFirst(if q[0].msgId == a.first.msgId then Put(a, q[0].offset, q[0].data) else a, q[1..]);
    }
  }

  // ----- one message, from any number of attempts -----

  ghost predicate Idle(e: Endpoint) { e.started == [] && e.queue == [] }

  /** A fragment, and the header flags of the attempt it belongs to. */
  datatype Sent = Sent(f: Fragment, flags: Word16)

  function Frags(ss: seq<Sent>): (fs: seq<Fragment>)
    ensures |fs| == |ss| && forall i :: 0 <= i < |fs| ==> fs[i] == ss[i].f
  {
    seq<Fragment>(|ss|, (i: nat) requires i < |ss| => ss[i].f)
  }

  function Packets(fs: seq<Fragment>): (ps: seq<Arrival>)
    ensures |ps| == |fs| && forall i :: 0 <= i < |ps| ==> ps[i] == ArrivalOf(fs[i])
  {
    seq<Arrival>(|fs|, (i: nat) requires i < |fs| => ArrivalOf(fs[i]))
  }

  ghost predicate AllSent(ss: seq<Sent>, m: Message)
    requires m.Valid()
  {
    forall i :: 0 <= i < |ss| ==> WellPacked(ss[i].f, m, ss[i].flags) && (ss[i].f.first ==> ss[i].f.offset == 0)
  }

  /** The endpoint holds nothing but fragments of one message. */
  ghost predicate Alone(e: Endpoint, id: Word) {
    && (forall i :: 0 <= i < |e.started| ==> e.started[i].first.msgId == id)
    && (forall i :: 0 <= i < |e.queue| ==> e.queue[i].msgId == id)
  }

  /**
    A fragment that is the whole message and carries no restart flag, and comes after others of
    the message that were not enough.
    */
  ghost predicate Stray(ss: seq<Sent>, m: Message) {
    exists j :: 0 < j < |ss| && StrayAt(ss, m, j)
  }

  ghost predicate StrayAt(ss: seq<Sent>, m: Message, j: nat)
    requires j < |ss|
  {
    IsWhole(ss[j].f, m) && ss[j].flags < FLAG_RESEND && !Finished(Frags(ss[..j]), m)
  }

  lemma {:induction false} ReceiveSnoc(e: Endpoint, ps: seq<Arrival>, p: Arrival, psnProto: bool)
    ensures ReceiveAll(e, ps + [p], psnProto) == Receive(ReceiveAll(e, ps, psnProto), p, psnProto)
    decreases |ps|
  {
    hide Receive;
    if ps == [] {
      assert ps + [p] == [p] && [p][1..] == [];
    } else {
      ReceiveSnoc(Receive(e, ps[0], psnProto), ps[1..], p, psnProto);
      assert (ps + [p])[1..] == ps[1..] + [p];
    }
  }

  lemma {:induction false} AllAsms(s: seq<Assembly>, id: Word)
    requires forall i :: 0 <= i < |s| ==> s[i].first.msgId == id
    ensures AsmsOf(s, id) == s
    decreases |s|
  {
    if s != [] {
      AllAsms(s[1..], id);
    }
  }

  lemma {:induction false} AllMids(q: seq<MidView>, id: Word)
    requires forall i :: 0 <= i < |q| ==> q[i].msgId == id
    ensures MidsOf(q, id) == q && Others(q, id) == []
    decreases |q|
  {
    if q != [] {
      AllMids(q[1..], id);
    }
  }

  /** What an endpoint that holds nothing else looks like. */
  lemma AloneShape(e: Endpoint, fs: seq<Fragment>, m: Message)
    requires m.Valid() && Inside(fs, m) && Tracks(e, fs, m) && Alone(e, m.msgId)
    ensures if HasFirst(fs) then e.queue == [] && |e.started| == 1 && Assembles(e.started[0], fs, m)
            else e.started == [] && e.queue == Queued(fs, m)
    ensures Idle(e) <==> fs == []
    ensures Evict(e, m.msgId) == e.(started := [], queue := [])
  {
    hide Assembles, Queued;
    AllAsms(e.started, m.msgId);
    AllMids(e.queue, m.msgId);
    QueuedLength(fs, m);
    if HasFirst(fs) {
      assert e.started == [e.started[0]];
      assert Find(e.started, m.msgId) == 0 && e.started[..0] + e.started[1..] == [];
    }
  }

  lemma {:induction false} QueuedLength(fs: seq<Fragment>, m: Message)
    requires m.Valid() && Inside(fs, m)
    ensures |Queued(fs, m)| == |fs|
    decreases |fs|
  {
    if fs != [] {
      QueuedLength(fs[..|fs| - 1], m);
    }
  }

  lemma AbsorbedAlone(e: Endpoint, f: Fragment, m: Message, flags: Word16)
    requires m.Valid() && f.offset + f.k <= |m.payload| && Alone(e, m.msgId)
    ensures Alone(Absorbed(e, f, m, flags), m.msgId)
  {
    hide PutQueued;
    AllMids(e.queue, m.msgId);
    var a := Assembly(FirstViewOf(f, m, flags), map[]);
    PutQueuedKeepsFirst(a, e.queue);
  }

  /** Handing over, or not, once a fragment has been absorbed. */
  lemma DrainAlone(e: Endpoint, fs: seq<Fragment>, m: Message)
    requires m.Valid() && Inside(fs, m) && Tracks(e, fs, m) && Alone(e, m.msgId)
    ensures Drain(e) == if Finished(fs, m) then HandedOver(e, m).(started := [], queue := []) else e
  {
    hide Assembles, Queued, Tracks, Complete, HasFirst, Evict;
    AloneShape(e, fs, m);
    assert Finished(fs, m) ==> HasFirst(fs);
    if HasFirst(fs) {
      var a := e.started[0];
      CompleteIff(a, fs, m);
      if Complete(a) {
        assert a.first.msgId == m.msgId by { AssembledId(a, fs, m); }
        var e1 := HandedOver(e, m).(started := e.started[1..]);
        assert e.started[1..] == [] && Drain(e) == Drain(e1) == e1;
      }
    }
  }

  lemma AssembledId(a: Assembly, fs: seq<Fragment>, m: Message)
    requires Assembles(a, fs, m)
    ensures a.first.msgId == m.msgId
  {}

  lemma FinishedMore(fs: seq<Fragment>, f: Fragment, m: Message)
    ensures Finished(fs, m) ==> Finished(fs + [f], m)
    ensures IsWhole(f, m) && f.offset == 0 ==> Finished(fs + [f], m)
  {
    hide Spanned, HasFirst;
    HasFirstSnoc(fs, f);
    forall x: nat
      ensures Spanned(fs + [f], x) <==> Spanned(fs, x) || Spans(f, x)
    {
      SpannedSnoc(fs, f, x);
    }
  }

  /** One more fragment at an endpoint that holds others of the same message, and no more. */
  lemma OneMore(e: Endpoint, fs: seq<Fragment>, s: Sent, m: Message, psnProto: bool)
    requires m.Valid() && Inside(fs, m) && Tracks(e, fs, m) && Alone(e, m.msgId) && !Finished(fs, m)
    requires WellPacked(s.f, m, s.flags) && (s.f.first ==> s.f.offset == 0)
    requires !(psnProto && Duplicate(e, m.msgId))
    ensures Inside(fs + [s.f], m)
    ensures var e' := Receive(e, ArrivalOf(s.f), psnProto);
            if !Finished(fs + [s.f], m)
            then e'.psn == e.psn && e'.delivered == e.delivered &&
                 Alone(e', m.msgId) && Tracks(e', fs + [s.f], m)
            else e'.psn == m.msgId && e'.delivered == e.delivered + [MessageDelivery(m)] &&
                 (Idle(e') <==> !(IsWhole(s.f, m) && s.flags < FLAG_RESEND && fs != []))
  {
    hide Receive, Tracks, Alone, Finished, HasFirst, Evict, Drain, Inside;
    var f := s.f;
    Arrives(e, f, m, s.flags, psnProto);
    FinishedMore(fs, f, m);
    AloneShape(e, fs, m);
    AbsorbedTracks(e, fs, f, m, s.flags);
    if !IsWhole(f, m) {
      var e1 := Absorbed(e, f, m, s.flags);
      AbsorbedAlone(e, f, m, s.flags);
      DrainAlone(e1, fs + [f], m);
      if !f.first && Find(e.started, m.msgId) == |e.started| {
        HasFirstSnoc(fs, f);
        assert !HasFirst(fs) by { FoundFirst(e, fs, m); }
        Unstarted(fs + [f], m);
      }
    }
  }

  lemma FoundFirst(e: Endpoint, fs: seq<Fragment>, m: Message)
    requires m.Valid() && Inside(fs, m) && Tracks(e, fs, m)
    ensures HasFirst(fs) <==> Find(e.started, m.msgId) < |e.started|
  {
    FindFirst(e.started, m.msgId);
  }

  lemma Unstarted(fs: seq<Fragment>, m: Message)
    requires !HasFirst(fs)
    ensures !Finished(fs, m)
  {}

  lemma NothingYet(e: Endpoint, m: Message)
    requires m.Valid() && Idle(e)
    ensures Inside([], m) && Tracks(e, [], m) && Alone(e, m.msgId) && !Finished([], m)
  {}

  lemma PackedFits(s: Sent, m: Message)
    requires m.Valid() && WellPacked(s.f, m, s.flags)
    ensures s.f.offset + s.f.k <= |m.payload|
  {}

  lemma StraySnoc(front: seq<Sent>, s: Sent, ss: seq<Sent>, m: Message)
    requires ss == front + [s]
    ensures Stray(ss, m) <==> Stray(front, m) || (front != [] && StrayAt(ss, m, |front|))
    ensures ss[..|front|] == front
  {
    assert forall j :: 0 <= j < |front| ==> ss[..j] == front[..j] && ss[j] == front[j];
    if Stray(front, m) {
      var j :| 0 < j < |front| && StrayAt(front, m, j);
      assert StrayAt(ss, m, j);
    }
    if j :| 0 < j < |ss| && StrayAt(ss, m, j) {
      assert j < |front| ==> StrayAt(front, m, j);
    }
  }

  /** A whole fragment is enough. */
  lemma StrayFinishes(ss: seq<Sent>, m: Message)
    requires m.Valid() && AllSent(ss, m)
    ensures Stray(ss, m) ==> Finished(Frags(ss), m)
  {
    if j :| 0 < j < |ss| && StrayAt(ss, m, j) {
      var f := Frags(ss)[j];
      assert f in Frags(ss) && f.offset == 0;
      assert forall x: nat :: x < |m.payload| ==> Spans(f, x);
    }
  }

  /**
    Fragments of one message from any number of attempts, cut in any way, repeated and in any
    order, at an idle endpoint.  Until a first fragment and all bytes are there, the endpoint
    holds exactly what arrived.  Then the message is handed over, once, and nothing is left
    behind if and only if no stray whole fragment of an earlier attempt came in between.
    */
  lemma {:induction false} AnyAttempts(e: Endpoint, ss: seq<Sent>, m: Message, psnProto: bool)
    requires m.Valid() && AllSent(ss, m) && Idle(e) && !(psnProto && Duplicate(e, m.msgId))
    requires psnProto || forall n :: 0 <= n < |ss| ==> !Finished(Frags(ss[..n]), m)
    ensures Inside(Frags(ss), m)
    ensures var e' := ReceiveAll(e, Packets(Frags(ss)), psnProto);
            if !Finished(Frags(ss), m)
            then e'.psn == e.psn && e'.delivered == e.delivered &&
                 Alone(e', m.msgId) && Tracks(e', Frags(ss), m)
            else e'.psn == m.msgId && e'.delivered == e.delivered + [MessageDelivery(m)] &&
                 (Idle(e') <==> !Stray(ss, m))
    decreases |ss|
  {
    hide Receive, Finished, Tracks, Alone, Inside, IsWhole, WellPacked;
    if ss == [] {
      NothingYet(e, m);
      assert Frags(ss) == [];
    } else {
      var n := |ss| - 1;
      var front, s := ss[..n], ss[n];
      var fs := Frags(front);
      assert forall k :: 0 <= k <= n ==> front[..k] == ss[..k];
      AnyAttempts(e, front, m, psnProto);
      var e1 := ReceiveAll(e, Packets(fs), psnProto);
      assert Frags(ss) == fs + [s.f] && Packets(fs + [s.f]) == Packets(fs) + [ArrivalOf(s.f)];
      ReceiveSnoc(e, Packets(fs), ArrivalOf(s.f), psnProto);
      FinishedMore(fs, s.f, m);
      StraySnoc(front, s, ss, m);
      if Finished(fs, m) {
        Ignored(e1, s.f, m, s.flags);
        PackedFits(s, m);
        InsideSnoc(fs, s.f, m);
      } else {
        OneMore(e1, fs, s, m, psnProto);
        StrayFinishes(front, m);
      }
    }
  }

  /** The first fragment of an attempt, with the first k payload bytes. */
  function FirstOf(m: Message, flags: Word16, k: nat): Fragment
    requires m.Valid() && k <= |m.payload|
  {
    Fragment(true, 0, k, First(m, flags, k))
  }

  /**
    The start of a second attempt, then the first attempt's only fragment, which was delayed: the
    message is handed over and the assembly stays.
    */
  lemma StrayLeavesAssembly(e: Endpoint, m: Message, k: nat)
    requires m.Valid() && Idle(e) && !Duplicate(e, m.msgId) && k < |m.payload|
    ensures var again := FirstOf(m, m.flags + FLAG_RESEND, k);
            var e' := ReceiveAll(e, Packets([again, FirstOf(m, m.flags, |m.payload|)]), true);
            e'.delivered == e.delivered + [MessageDelivery(m)] && !Idle(e')
  {
    hide First, ReceiveAll;
    var again, whole := FirstOf(m, m.flags + FLAG_RESEND, k), FirstOf(m, m.flags, |m.payload|);
    var ss := [Sent(again, m.flags + FLAG_RESEND), Sent(whole, m.flags)];
    assert Frags(ss) == [again, whole] == [again] + [whole] && Frags(ss[..1]) == [again];
    assert !Spanned([again], k);
    FinishedMore([again], whole, m);
    assert StrayAt(ss, m, 1);
    AnyAttempts(e, ss, m, true);
  }

  // ----- one complete send -----

  ghost predicate AllPacked(fs: seq<Fragment>, m: Message, flags: Word16)
    requires m.Valid()
  {
    forall f :: f in fs ==> WellPacked(f, m, flags)
  }

  function Attempt(fs: seq<Fragment>, flags: Word16): (ss: seq<Sent>)
    ensures |ss| == |fs| && forall i :: 0 <= i < |ss| ==> ss[i] == Sent(fs[i], flags)
  {
    seq<Sent>(|fs|, (i: nat) requires i < |fs| => Sent(fs[i], flags))
  }

  /** No part of a whole message is enough. */
  lemma WholePart(fs: seq<Fragment>, n: nat, m: Message)
    requires Whole(fs, |m.payload|) && n < |fs|
    ensures !Finished(fs[..n], m)
  {
    var g, front := fs[n], fs[..n];
    assert g in fs;
    forall h | h in front
      ensures !(h.first && g.first) && !(g.k > 0 && Spans(h, g.offset))
    {
      var i :| 0 <= i < n && front[i] == h;
      assert fs[i] == h && h in fs && h != g;
      assert Apart(h, g);
    }
    assert g.k > 0 ==> g.offset < |m.payload| && !Spanned(front, g.offset);
  }

  lemma WholeFinished(fs: seq<Fragment>, m: Message)
    requires Whole(fs, |m.payload|)
    ensures Finished(fs, m) && fs != []
  {}

  /** A fragment beside others is not everything. */
  lemma NotEverything(fs: seq<Fragment>, i: nat, j: nat, m: Message)
    requires Whole(fs, |m.payload|) && i < |fs| && j < |fs| && i != j
    ensures !IsWhole(fs[i], m)
  {
    assert fs[i] in fs && fs[j] in fs && fs[i] != fs[j];
    assert Apart(fs[i], fs[j]) && !(fs[i].first && fs[j].first);
  }

  /**
    The fragments of a completed send, arriving in any order at an idle endpoint, hand over
    exactly the message, once, and leave nothing behind.
    */
  lemma DeliversOnce(log: seq<Fragment>, arrivals: seq<Fragment>, m: Message, flags: Word16,
                     e: Endpoint, psnProto: bool)
    requires m.Valid() && log != [] && Tiled(log, |m.payload|) && AllPacked(log, m, flags)
    requires multiset(arrivals) == multiset(log)
    requires Idle(e) && (psnProto ==> !Duplicate(e, m.msgId))
    ensures ReceiveAll(e, Packets(arrivals), psnProto) == HandedOver(e, m)
  {
    hide Tiled, Finished, ReceiveAll, Tracks, WellPacked, Stray;
    ShuffledWhole(log, arrivals, |m.payload|);
    var ss := Attempt(arrivals, flags);
    assert Frags(ss) == arrivals;
    forall f | f in arrivals
      ensures f in log && (f.first ==> f.offset == 0)
    {
      assert f in multiset(arrivals);
    }
    forall n | 0 <= n < |ss|
      ensures !Finished(Frags(ss[..n]), m)
    {
      assert Frags(ss[..n]) == arrivals[..n];
      WholePart(arrivals, n, m);
    }
    WholeFinished(arrivals, m);
    NoStray(ss, m);
    AnyAttempts(e, ss, m, psnProto);
  }

  lemma NoStray(ss: seq<Sent>, m: Message)
    requires Whole(Frags(ss), |m.payload|)
    ensures !Stray(ss, m)
  {
    forall j | 0 < j < |ss|
      ensures !IsWhole(ss[j].f, m)
    {
      NotEverything(Frags(ss), j, 0, m);
    }
  }

  /**
    Any schedule of the sender that completes without losing its first fragment, any arrival
    order: the receiver gets payload and user header back, once.
    */
  lemma EndToEnd(proto: Proto, m: Message, events: seq<Event>, arrivals: seq<Fragment>, e: Endpoint, psnProto: bool)
    requires m.Valid() && Coherent(Start(proto, m), m) && Allowed(Start(proto, m), m, events)
    requires var t := Run(Start(proto, m), m, events);
             t.r.complete && !t.skipped && multiset(arrivals) == multiset(t.log)
    requires Idle(e) && (psnProto ==> !Duplicate(e, m.msgId))
    ensures ReceiveAll(e, Packets(arrivals), psnProto) == HandedOver(e, m)
  {
    hide Coherent, Allowed, Run, ReceiveAll, Tiled;
    SendTiles(proto, m, events);
    var t := Run(Start(proto, m), m, events);
    forall f | f in t.log
      ensures WellPacked(f, m, t.r.flags)
    {
      var i :| 0 <= i < |t.log| && t.log[i] == f;
    }
    DeliversOnce(t.log, arrivals, m, t.r.flags, e, psnProto);
  }

  // ----- one sender, across its restarts -----

  /** Every fragment accepted in a run, also before a restart, with the flags it was sent with. */
  function AllAttempts(t: Trace, m: Message, events: seq<Event>): seq<Sent>
    requires Coherent(t, m) && Allowed(t, m, events)
    decreases |events|
  {
    if events == [] then []
    else
      var e := events[0];
      StepCoherent(t, m, e);
      (if e.Progress? && Accepted(t.r.proto, e.status)
       then [Sent(Fragment(!t.r.headerSent, t.r.offset, e.k, Packet(t.r, m, e.k)), t.r.flags)] else [])
      + AllAttempts(Step(t, m, e), m, events[1..])
  }

  /** They are all as the receiver expects them. */
  lemma {:induction false} AttemptsSent(t: Trace, m: Message, events: seq<Event>)
    requires Coherent(t, m) && Allowed(t, m, events)
    ensures forall s :: s in AllAttempts(t, m, events) ==>
              WellPacked(s.f, m, s.flags) && (s.f.first ==> s.f.offset == 0)
    decreases |events|
  {
    hide Packet, First, Middle, LE64, LE32;
    if events != [] {
      var e := events[0];
      StepCoherent(t, m, e);
      if e.Progress? && Accepted(t.r.proto, e.status) {
        PacketLayout(t.r, m, e.k);
      }
      AttemptsSent(Step(t, m, e), m, events[1..]);
    }
  }

  lemma FinishedWithin(fs: seq<Fragment>, gs: seq<Fragment>, m: Message)
    requires Finished(fs, m) && forall f :: f in fs ==> f in gs
    ensures Finished(gs, m)
  {
    forall x: nat | x < |m.payload|
      ensures Spanned(gs, x)
    {
      assert Spanned(fs, x);
    }
  }

  /**
    A sender that restarts any number of times and completes with its first fragment, and a
    receiver that gets any of the fragments of all attempts, in any order and repeated, but
    those of the last attempt in any case: the message is handed over once, and nothing is left
    behind if and only if no stray whole fragment came in between.
    */
  lemma RestartsDeliver(proto: Proto, m: Message, events: seq<Event>, ss: seq<Sent>, e: Endpoint)
    requires m.Valid() && Coherent(Start(proto, m), m) && Allowed(Start(proto, m), m, events)
    requires forall s :: s in ss ==> s in AllAttempts(Start(proto, m), m, events)
    requires var t := Run(Start(proto, m), m, events);
             t.r.complete && !t.skipped && forall f :: f in t.log ==> f in Frags(ss)
    requires Idle(e) && !Duplicate(e, m.msgId)
    ensures var e' := ReceiveAll(e, Packets(Frags(ss)), true);
            && e'.delivered == e.delivered + [MessageDelivery(m)] && e'.psn == m.msgId
            && (Idle(e') <==> !Stray(ss, m))
  {
    hide Coherent, Allowed, Run, ReceiveAll, Tiled, Whole, Finished, Stray, Tracks, WellPacked;
    SendTiles(proto, m, events);
    AttemptsSent(Start(proto, m), m, events);
    var t := Run(Start(proto, m), m, events);
    TiledWhole(t.log, |m.payload|);
    WholeFinished(t.log, m);
    FinishedWithin(t.log, Frags(ss), m);
    AnyAttempts(e, ss, m, true);
  }
}
