/**
  Several messages at one endpoint.  The restartable protocol drops every fragment that is not
  newer than the last message handed over, so a message can be overtaken; this module says when.
  */
module AmOvertaking {
  import opened Bytes
  import opened AmWire
  import opened AmSender
  import opened AmReceiver
  import opened AmDelivery

  /** A fragment on its way to the endpoint: of the message in question, or of another one. */
  datatype Item = Item(mine: bool, f: Fragment)

  function Of(items: seq<Item>, mine: bool): seq<Fragment> {
    if items == [] then []
    else (if items[0].mine == mine then [items[0].f] else []) + Of(items[1..], mine)
  }

  function After(e: Endpoint, items: seq<Item>, psnProto: bool): Endpoint
    decreases |items|
  {
    if items == [] then e else After(Receive(e, ArrivalOf(items[0].f), psnProto), items[1..], psnProto)
  }

  function HandsOf(delivered: seq<Delivery>, id: Word): seq<Delivery> {
    if delivered == [] then []
    else (if delivered[0].msgId == id then [delivered[0]] else []) + HandsOf(delivered[1..], id)
  }

  lemma {:induction false} HandsSnoc(ds: seq<Delivery>, d: Delivery, id: Word)
    ensures HandsOf(ds + [d], id) == HandsOf(ds, id) + if d.msgId == id then [d] else []
    decreases |ds|
  {
    if ds == [] {
      assert ds + [d] == [d] && [d][1..] == [];
    } else {
      var head := if ds[0].msgId == id then [ds[0]] else [];
      var last := if d.msgId == id then [d] else [];
      HandsSnoc(ds[1..], d, id);
      assert (ds + [d])[1..] == ds[1..] + [d];
      assert head + (HandsOf(ds[1..], id) + last) == head + HandsOf(ds[1..], id) + last;
    }
  }

  // ----- any other traffic -----

  /** The message a packet belongs to, as the endpoint reads it. */
  function IdOf(p: Arrival): Option<Word> {
    if p.first then
      match ParseFirst(p.bytes)
      case None => None
      case Some(v) => Some(v.msgId)
    else
      match ParseMiddle(p.bytes)
      case None => None
      case Some(v) => Some(v.msgId)
  }

  /** The same share of a message in two endpoints. */
  ghost predicate SameShare(e: Endpoint, e': Endpoint, id: Word) {
    && AsmsOf(e'.started, id) == AsmsOf(e.started, id) && MidsOf(e'.queue, id) == MidsOf(e.queue, id)
    && HandsOf(e'.delivered, id) == HandsOf(e.delivered, id)
  }

  /** A step that leaves the share of a message as it is, or hands its one, complete assembly over. */
  ghost predicate KeptOrHanded(e: Endpoint, e': Endpoint, id: Word) {
    SameShare(e, e', id) || Handed(e, e', id)
  }

  ghost predicate Handed(e: Endpoint, e': Endpoint, id: Word) {
    var asms := AsmsOf(e.started, id);
    && |asms| == 1 && Complete(asms[0]) && AsmsOf(e'.started, id) == []
    && MidsOf(e'.queue, id) == MidsOf(e.queue, id)
    && HandsOf(e'.delivered, id) == HandsOf(e.delivered, id) + [DeliveryOf(asms[0])]
  }

  lemma {:induction false} DrainShare(e: Endpoint, id: Word)
    requires |AsmsOf(e.started, id)| <= 1
    ensures KeptOrHanded(e, Drain(e), id)
    decreases |e.started|
  {
    hide Complete, DeliveryOf;
    if e.started != [] && Complete(e.started[0]) {
      var a := e.started[0];
      var e1 := e.(started := e.started[1..], psn := a.first.msgId, delivered := e.delivered + [DeliveryOf(a)]);
      DeliveredId(a);
      HandsSnoc(e.delivered, DeliveryOf(a), id);
      DrainShare(e1, id);
    }
  }

  lemma DeliveredId(a: Assembly)
    requires Complete(a)
    ensures DeliveryOf(a).msgId == a.first.msgId
  {}

  lemma OtherUpdate(e: Endpoint, i: nat, offset: nat, data: seq<Byte>, id: Word)
    requires i < |e.started| && e.started[i].first.msgId != id && |AsmsOf(e.started, id)| <= 1
    ensures KeptOrHanded(e, Update(e, i, offset, data), id)
  {
    hide AsmsOf, Put, Drain, Complete, DeliveryOf;
    var a := Put(e.started[i], offset, data);
    PutKeepsFirst(e.started[i], offset, data);
    AsmsAround(e.started, i, a, id);
    AsmsOne(e.started[i], id);
    AsmsOne(a, id);
    DrainShare(e.(started := e.started[i := a]), id);
  }

  lemma OtherFirst(e: Endpoint, v: FirstView, id: Word)
    requires v.msgId != id && |AsmsOf(e.started, id)| <= 1
    ensures KeptOrHanded(e, OnFirst(e, v), id)
  {
    hide AsmsOf, MidsOf, HandsOf, Update, Complete, DeliveryOf, PutQueued, Others;
    var i := Find(e.started, v.msgId);
    MidsOthers(e.queue, v.msgId, id);
    if |v.data| == v.total {
      HandsSnoc(e.delivered, Delivery(v.msgId, v.amId, v.userHdr, v.data), id);
      if i < |e.started| {
        AsmsAround(e.started, i, e.started[i], id);
        AsmsOne(e.started[i], id);
      }
    } else if i < |e.started| {
      OtherUpdate(e, i, 0, v.data, id);
    } else {
      var a := PutQueued(Assembly(v, map[]), e.queue);
      PutQueuedKeepsFirst(Assembly(v, map[]), e.queue);
      AsmsSnoc(e.started, a, id);
      OtherUpdate(e.(started := e.started + [a], queue := Others(e.queue, v.msgId)), i, 0, v.data, id);
    }
  }

  lemma OtherMiddle(e: Endpoint, v: MidView, id: Word)
    requires v.msgId != id && |AsmsOf(e.started, id)| <= 1
    ensures KeptOrHanded(e, OnMiddle(e, v), id)
  {
    hide AsmsOf, MidsOf, HandsOf, Update, Complete, DeliveryOf;
    var i := Find(e.started, v.msgId);
    if i < |e.started| {
      OtherUpdate(e, i, v.offset, v.data, id);
    } else {
      MidsSnoc(e.queue, v, id);
    }
  }

  /** A packet of another message, or of none. */
  lemma OtherArrives(e: Endpoint, p: Arrival, psnProto: bool, id: Word)
    requires IdOf(p) != Some(id) && |AsmsOf(e.started, id)| <= 1
    ensures KeptOrHanded(e, Receive(e, p, psnProto), id)
  {
    hide AsmsOf, MidsOf, HandsOf, OnFirst, OnMiddle, ParseFirst, ParseMiddle, Complete, DeliveryOf;
    if p.first && ParseFirst(p.bytes).Some? {
      OtherFirst(e, ParseFirst(p.bytes).value, id);
    } else if !p.first && ParseMiddle(p.bytes).Some? {
      OtherMiddle(e, ParseMiddle(p.bytes).value, id);
    }
  }

  // ----- one message among others -----

  /** Nothing of the message is in progress. */
  ghost predicate Clear(e: Endpoint, id: Word) { AsmsOf(e.started, id) == [] && MidsOf(e.queue, id) == [] }

  /** The message went up once, and nothing of it is left. */
  ghost predicate Once(e: Endpoint, e': Endpoint, m: Message) {
    Clear(e', m.msgId) && HandsOf(e'.delivered, m.msgId) == HandsOf(e.delivered, m.msgId) + [MessageDelivery(m)]
  }

  /** The message is complete, and still in the list behind another one. */
  ghost predicate Waits(e: Endpoint, e': Endpoint, m: Message) {
    var asms := AsmsOf(e'.started, m.msgId);
    && HandsOf(e'.delivered, m.msgId) == HandsOf(e.delivered, m.msgId)
    && |asms| == 1 && Complete(asms[0]) && DeliveryOf(asms[0]) == MessageDelivery(m)
  }

  /** Some fragment of the message arrives when a message at least as new has just been handed over. */
  predicate Overtaken(e: Endpoint, items: seq<Item>, id: Word, psnProto: bool)
    decreases |items|
  {
    items != [] &&
    ((items[0].mine && psnProto && Duplicate(e, id)) ||
     Overtaken(Receive(e, ArrivalOf(items[0].f), psnProto), items[1..], id, psnProto))
  }

  ghost predicate Proper(it: Item, m: Message, flags: Word16)
    requires m.Valid()
  {
    if it.mine then WellPacked(it.f, m, flags) && (it.f.first ==> it.f.offset == 0)
    else IdOf(ArrivalOf(it.f)) != Some(m.msgId)
  }

  ghost predicate AllProper(items: seq<Item>, m: Message, flags: Word16)
    requires m.Valid()
  {
    forall it :: it in items ==> Proper(it, m, flags)
  }

  lemma TracksOne(e: Endpoint, fs: seq<Fragment>, m: Message)
    requires m.Valid() && Inside(fs, m) && Tracks(e, fs, m)
    ensures |AsmsOf(e.started, m.msgId)| <= 1
  {}

  /** After a step with the given fragments in hand: they still are, or they were enough and went up. */
  ghost predicate Went(e: Endpoint, e': Endpoint, fs: seq<Fragment>, m: Message)
    requires m.Valid() && Inside(fs, m)
  {
    || (Tracks(e', fs, m) && HandsOf(e'.delivered, m.msgId) == HandsOf(e.delivered, m.msgId))
    || (Finished(fs, m) && Once(e, e', m))
  }

  lemma Stepped(e: Endpoint, e': Endpoint, fs: seq<Fragment>, m: Message)
    requires m.Valid() && Inside(fs, m) && Tracks(e, fs, m) && KeptOrHanded(e, e', m.msgId)
    ensures Went(e, e', fs, m)
  {
    hide HasFirst, AsmsOf, MidsOf, HandsOf, Assembles, Finished, Complete, DeliveryOf;
    if Handed(e, e', m.msgId) {
      CompleteIff(AsmsOf(e.started, m.msgId)[0], fs, m);
    }
  }

  /** A fragment of the message itself, not dropped and not the whole of it. */
  lemma OwnArrives(e: Endpoint, fs: seq<Fragment>, f: Fragment, m: Message, flags: Word16, psnProto: bool)
    requires m.Valid() && Inside(fs, m) && Tracks(e, fs, m) && Proper(Item(true, f), m, flags) && !IsWhole(f, m)
    requires !(psnProto && Duplicate(e, m.msgId))
    ensures Inside(fs + [f], m)
    ensures Went(e, Receive(e, ArrivalOf(f), psnProto), fs + [f], m)
  {
    hide Receive, Tracks, Inside, Finished, AsmsOf, MidsOf, HandsOf, Drain, Find, Handed;
    Arrives(e, f, m, flags, psnProto);
    AbsorbedTracks(e, fs, f, m, flags);
    var e1 := Absorbed(e, f, m, flags);
    TracksOne(e1, fs + [f], m);
    DrainShare(e1, m.msgId);
    assert KeptOrHanded(e1, Receive(e, ArrivalOf(f), psnProto), m.msgId);
    assert e1.delivered == e.delivered;
    Stepped(e1, Receive(e, ArrivalOf(f), psnProto), fs + [f], m);
  }

  /** A message in one fragment, with nothing of it in progress. */
  lemma WholeArrives(e: Endpoint, f: Fragment, m: Message, flags: Word16, psnProto: bool)
    requires m.Valid() && Clear(e, m.msgId) && Proper(Item(true, f), m, flags) && IsWhole(f, m)
    requires !(psnProto && Duplicate(e, m.msgId))
    ensures Once(e, Receive(e, ArrivalOf(f), psnProto), m)
  {
    hide Receive, AsmsOf, MidsOf, HandsOf;
    Arrives(e, f, m, flags, psnProto);
    FindFirst(e.started, m.msgId);
    MidsOthers(e.queue, m.msgId, m.msgId);
    HandsSnoc(e.delivered, MessageDelivery(m), m.msgId);
  }

  lemma ClearTracks(e: Endpoint, m: Message)
    requires m.Valid()
    ensures Inside([], m) && (Tracks(e, [], m) <==> Clear(e, m.msgId))
  {}

  lemma OtherSteps(e: Endpoint, fs: seq<Fragment>, it: Item, m: Message, flags: Word16, psnProto: bool)
    requires m.Valid() && Inside(fs, m) && Tracks(e, fs, m) && !it.mine && Proper(it, m, flags)
    ensures Went(e, Receive(e, ArrivalOf(it.f), psnProto), fs, m)
  {
    hide Receive, Tracks, Inside, Finished, AsmsOf, MidsOf, HandsOf, IdOf;
    TracksOne(e, fs, m);
    OtherArrives(e, ArrivalOf(it.f), psnProto, m.msgId);
    Stepped(e, Receive(e, ArrivalOf(it.f), psnProto), fs, m);
  }

  /** Once nothing of the message is in progress and none of its fragments is to come, nothing happens to it. */
  lemma {:induction false} Quiet(e: Endpoint, items: seq<Item>, m: Message, flags: Word16, psnProto: bool)
    requires m.Valid() && Clear(e, m.msgId) && AllProper(items, m, flags) && Of(items, true) == []
    ensures var e' := After(e, items, psnProto);
            Clear(e', m.msgId) && HandsOf(e'.delivered, m.msgId) == HandsOf(e.delivered, m.msgId)
    ensures !Overtaken(e, items, m.msgId, psnProto)
    decreases |items|
  {
    hide Receive, Proper, HandsOf, Clear, Tracks, Inside;
    if items != [] {
      var it := items[0];
      assert it in items && forall o :: o in items[1..] ==> o in items;
      ClearTracks(e, m);
      OtherSteps(e, [], it, m, flags, psnProto);
      Unstarted([], m);
      var e1 := Receive(e, ArrivalOf(it.f), psnProto);
      ClearTracks(e1, m);
      Quiet(e1, items[1..], m, flags, psnProto);
    }
  }

  // ----- a fragment that is missing for ever -----

  ghost predicate Avoids(fs: seq<Fragment>, g: Fragment) {
    forall f :: f in fs ==> Apart(f, g) && !(f.first && g.first)
  }

  lemma AvoidsUnfinished(fs: seq<Fragment>, g: Fragment, m: Message)
    requires Avoids(fs, g) && (g.first || (g.k > 0 && g.offset < |m.payload|))
    ensures !Finished(fs, m)
  {
    assert !g.first ==> !Spanned(fs, g.offset);
  }

  lemma {:induction false} NeverWithout(e: Endpoint, fs: seq<Fragment>, items: seq<Item>, g: Fragment,
                                        m: Message, flags: Word16, psnProto: bool)
    requires m.Valid() && Inside(fs, m) && Tracks(e, fs, m) && AllProper(items, m, flags)
    requires Avoids(fs + Of(items, true), g) && (g.first || (g.k > 0 && g.offset < |m.payload|))
    ensures HandsOf(After(e, items, psnProto).delivered, m.msgId) == HandsOf(e.delivered, m.msgId)
    decreases |items|
  {
    hide Receive, Proper, HandsOf, Tracks, Inside, Finished, Apart;
    if items != [] {
      var it, more := items[0], items[1..];
      assert it in items && forall o :: o in more ==> o in items;
      var e1 := Receive(e, ArrivalOf(it.f), psnProto);
      AvoidsPart(fs, Of(items, true), g);
      if !it.mine {
        OtherSteps(e, fs, it, m, flags, psnProto);
        AvoidsUnfinished(fs, g, m);
        NeverWithout(e1, fs, more, g, m, flags, psnProto);
      } else if psnProto && Duplicate(e, m.msgId) {
        ProperPacked(it, m, flags);
        Ignored(e, it.f, m, flags);
        AvoidsTail(fs, it.f, Of(more, true), g);
        NeverWithout(e, fs, more, g, m, flags, psnProto);
      } else {
        assert fs + [it.f] + Of(more, true) == fs + Of(items, true);
        AvoidsPart(fs + [it.f], Of(more, true), g);
        AvoidsUnfinished(fs + [it.f], g, m);
        ProperPacked(it, m, flags);
        FinishedMore(fs, it.f, m);
        OwnArrives(e, fs, it.f, m, flags, psnProto);
        NeverWithout(e1, fs + [it.f], more, g, m, flags, psnProto);
      }
    }
  }

  lemma ProperPacked(it: Item, m: Message, flags: Word16)
    requires m.Valid() && it.mine && Proper(it, m, flags)
    ensures WellPacked(it.f, m, flags) && (it.f.first ==> it.f.offset == 0) && it == Item(true, it.f)
  {}

  lemma AvoidsPart(fs: seq<Fragment>, more: seq<Fragment>, g: Fragment)
    requires Avoids(fs + more, g)
    ensures Avoids(fs, g)
  {
    assert forall f :: f in fs ==> f in fs + more;
  }

  lemma AvoidsTail(fs: seq<Fragment>, f: Fragment, more: seq<Fragment>, g: Fragment)
    requires Avoids(fs + ([f] + more), g)
    ensures Avoids(fs + more, g)
  {
    assert forall h :: h in fs + more ==> h in fs + ([f] + more);
  }

  /** The other fragments of a whole message keep clear of any one of them. */
  lemma WholeAvoids(fs: seq<Fragment>, f: Fragment, more: seq<Fragment>, total: nat)
    requires Whole(fs + ([f] + more), total)
    ensures Avoids(fs + more, f) && (f.first || (f.k > 0 && f.offset < total))
  {
    var all := fs + ([f] + more);
    assert all[|fs|] == f && f in all;
    forall h | h in fs + more
      ensures h in all && h != f
    {
      var i :| 0 <= i < |fs + more| && (fs + more)[i] == h;
      var j := if i < |fs| then i else i + 1;
      assert all[j] == h && j != |fs|;
    }
  }

  /**
    The fragments of one complete send, in any order and among any other traffic, at an endpoint
    that has nothing of the message in progress: if a message at least as new is handed over
    between them, the message is never handed over; otherwise it is, once, or waits complete in
    the list.
    */
  lemma {:induction false} AmongOthers(e: Endpoint, fs: seq<Fragment>, items: seq<Item>, m: Message,
                                       flags: Word16, psnProto: bool)
    requires m.Valid() && Inside(fs, m) && Tracks(e, fs, m) && AllProper(items, m, flags)
    requires Whole(fs + Of(items, true), |m.payload|)
    ensures var e' := After(e, items, psnProto);
            if Overtaken(e, items, m.msgId, psnProto)
            then HandsOf(e'.delivered, m.msgId) == HandsOf(e.delivered, m.msgId)
            else Once(e, e', m) || Waits(e, e', m)
    decreases |items|
  {
    hide Receive, Proper, HandsOf, Tracks, Inside, Finished, IsWhole, Whole, Clear;
    if items == [] {
      assert fs + [] == fs;
      AllInHand(e, fs, m);
    } else {
      var it, more := items[0], items[1..];
      assert it in items && forall o :: o in more ==> o in items;
      var e1 := Receive(e, ArrivalOf(it.f), psnProto);
      if !it.mine {
        assert Of(items, true) == Of(more, true);
        OtherSteps(e, fs, it, m, flags, psnProto);
        if Once(e, e1, m) && Finished(fs, m) {
          NoneToCome(fs, Of(more, true), m);
          Quiet(e1, more, m, flags, psnProto);
        } else {
          AmongOthers(e1, fs, more, m, flags, psnProto);
        }
      } else {
        ProperPacked(it, m, flags);
        var own := Of(more, true);
        assert fs + [it.f] + own == fs + ([it.f] + own);
        if psnProto && Duplicate(e, m.msgId) {
          Ignored(e, it.f, m, flags);
          WholeAvoids(fs, it.f, own, |m.payload|);
          NeverWithout(e, fs, more, it.f, m, flags, psnProto);
        } else if IsWhole(it.f, m) {
          OnlyOne(fs, it.f, own, m);
          ClearTracks(e, m);
          WholeArrives(e, it.f, m, flags, psnProto);
          Quiet(e1, more, m, flags, psnProto);
        } else {
          OwnArrives(e, fs, it.f, m, flags, psnProto);
          if Once(e, e1, m) && Finished(fs + [it.f], m) {
            NoneToCome(fs + [it.f], own, m);
            Quiet(e1, more, m, flags, psnProto);
          } else {
            AmongOthers(e1, fs + [it.f], more, m, flags, psnProto);
          }
        }
      }
    }
  }

  lemma AllInHand(e: Endpoint, fs: seq<Fragment>, m: Message)
    requires m.Valid() && Inside(fs, m) && Tracks(e, fs, m) && Whole(fs, |m.payload|)
    ensures Waits(e, e, m)
  {
    hide HasFirst, AsmsOf, MidsOf, HandsOf, Assembles, Complete, DeliveryOf;
    WholeFinished(fs, m);
    CompleteIff(AsmsOf(e.started, m.msgId)[0], fs, m);
  }

  lemma NoneToCome(fs: seq<Fragment>, more: seq<Fragment>, m: Message)
    requires Whole(fs + more, |m.payload|) && Finished(fs, m)
    ensures more == []
  {
    hide Finished, Whole;
    assert (fs + more)[..|fs|] == fs;
    if more != [] {
      WholePart(fs + more, |fs|, m);
    }
  }

  lemma OnlyOne(fs: seq<Fragment>, f: Fragment, more: seq<Fragment>, m: Message)
    requires Whole(fs + [f] + more, |m.payload|) && IsWhole(f, m)
    ensures fs == [] && more == []
  {
    var all := fs + [f] + more;
    assert all[|fs|] == f;
    if |all| > 1 {
      NotEverything(all, |fs|, if fs == [] then 1 else 0, m);
    }
  }

  // ----- an endpoint that is stuck -----

  /** The head of the list is incomplete, and its missing fragments are dropped. */
  predicate Blocked(e: Endpoint) {
    e.started != [] && !Complete(e.started[0]) && Duplicate(e, e.started[0].first.msgId)
  }

  predicate BringsWhole(p: Arrival, d: Delivery) {
    p.first && ParseFirst(p.bytes).Some? &&
    var v := ParseFirst(p.bytes).value;
    d == Delivery(v.msgId, v.amId, v.userHdr, v.data) && |v.data| == v.total
  }

  ghost predicate CameWhole(ps: seq<Arrival>, d: Delivery) { exists p :: p in ps && BringsWhole(p, d) }

  lemma BlockedUpdate(e: Endpoint, i: nat, offset: nat, data: seq<Byte>)
    requires Blocked(e) && 0 < i < |e.started|
    ensures var e' := Update(e, i, offset, data);
            e'.delivered == e.delivered && e'.psn == e.psn && Blocked(e') && e'.started[0] == e.started[0]
  {
    hide Put, Complete;
  }

  lemma BlockedFirst(e: Endpoint, v: FirstView)
    requires Blocked(e) && !Duplicate(e, v.msgId)
    ensures var e' := OnFirst(e, v);
            && Blocked(e') && e'.started[0] == e.started[0]
            && e'.delivered == e.delivered + if |v.data| == v.total
                                             then [Delivery(v.msgId, v.amId, v.userHdr, v.data)] else []
  {
    hide Update, Complete, PutQueued, Others;
    var i := Find(e.started, v.msgId);
    if |v.data| != v.total {
      var e1 := if i < |e.started| then e
                else e.(started := e.started + [PutQueued(Assembly(v, map[]), e.queue)],
                        queue := Others(e.queue, v.msgId));
      BlockedUpdate(e1, i, 0, v.data);
    }
  }

  lemma BlockedMiddle(e: Endpoint, v: MidView)
    requires Blocked(e) && !Duplicate(e, v.msgId)
    ensures var e' := OnMiddle(e, v);
            Blocked(e') && e'.started[0] == e.started[0] && e'.delivered == e.delivered
  {
    hide Update, Complete;
    var i := Find(e.started, v.msgId);
    if i < |e.started| {
      BlockedUpdate(e, i, v.offset, v.data);
    }
  }

  lemma StillBlocked(e: Endpoint, p: Arrival)
    requires Blocked(e)
    ensures var e' := Receive(e, p, true);
            && Blocked(e') && e'.started[0] == e.started[0]
            && (e'.delivered == e.delivered ||
                exists d :: e'.delivered == e.delivered + [d] && BringsWhole(p, d))
  {
    hide OnFirst, OnMiddle, ParseFirst, ParseMiddle, Complete;
    if p.first {
      match ParseFirst(p.bytes)
      case None =>
      case Some(v) =>
        if !Duplicate(e, v.msgId) {
          BlockedFirst(e, v);
          assert BringsWhole(p, Delivery(v.msgId, v.amId, v.userHdr, v.data)) <==> |v.data| == v.total;
        }
    } else {
      match ParseMiddle(p.bytes)
      case None =>
      case Some(v) =>
        if !Duplicate(e, v.msgId) {
          BlockedMiddle(e, v);
        }
    }
  }

  /**
    A stuck endpoint stays stuck, whatever arrives: its head never changes, and only messages
    that come in one fragment are handed over.
    */
  lemma {:induction false} BlockedForever(e: Endpoint, ps: seq<Arrival>)
    requires Blocked(e)
    ensures var e' := ReceiveAll(e, ps, true);
            && Blocked(e') && e'.started[0] == e.started[0] && e.delivered <= e'.delivered
            && forall i :: |e.delivered| <= i < |e'.delivered| ==> CameWhole(ps, e'.delivered[i])
    decreases |ps|
  {
    hide Receive, Blocked, BringsWhole;
    if ps != [] {
      StillBlocked(e, ps[0]);
      var e1 := Receive(e, ps[0], true);
      BlockedForever(e1, ps[1..]);
      var e' := ReceiveAll(e1, ps[1..], true);
      forall i | |e.delivered| <= i < |e'.delivered|
        ensures CameWhole(ps, e'.delivered[i])
      {
        if i < |e1.delivered| {
          assert BringsWhole(ps[0], e1.delivered[i]) && ps[0] in ps;
        } else {
          assert CameWhole(ps[1..], e'.delivered[i]);
        }
      }
    }
  }

  // ----- two messages -----

  /** Two messages, the first one older. */
  datatype Two = Two(m: Message, mFlags: Word16, b: Message, bFlags: Word16) {
    ghost predicate Valid() { m.Valid() && b.Valid() && m.msgId < b.msgId }

    function Msg(mine: bool): Message { if mine then m else b }

    function Flags(mine: bool): Word16 { if mine then mFlags else bFlags }
  }

  /** One complete send of either message, interleaved in any way. */
  ghost predicate Interleaved(items: seq<Item>, w: Two)
    requires w.Valid()
  {
    && Whole(Of(items, true), |w.m.payload|) && Whole(Of(items, false), |w.b.payload|)
    && forall it :: it in items ==> WellPacked(it.f, w.Msg(it.mine), w.Flags(it.mine))
  }

  /** Whose first fragments have arrived, in order. */
  function Row(items: seq<Item>): seq<bool> {
    if items == [] then [] else (if items[0].f.first then [items[0].mine] else []) + Row(items[1..])
  }

  predicate Leads(items: seq<Item>, who: bool) { Row(items) != [] && Row(items)[0] == who }

  /** Before item n, all of a message is there, in one fragment or started before the other message. */
  predicate Ready(items: seq<Item>, n: nat, who: bool)
    requires n <= |items|
  {
    Of(items[n..], who) == [] && (|Of(items, who)| == 1 || Leads(items[..n], who))
  }

  /** A fragment of the older message arrives when the newer one is ready. */
  predicate Late(items: seq<Item>) { exists j :: 0 <= j < |items| && LateAt(items, j) }

  predicate LateAt(items: seq<Item>, j: nat)
    requires j < |items|
  {
    items[j].mine && Ready(items, j, false)
  }

  /** The newer message starts first and ends last, around all of a longer older one. */
  predicate Around(items: seq<Item>) {
    items != [] && !items[|items| - 1].mine && |Of(items, true)| > 1 && Leads(items, false)
  }

  /** What is handed over, in order. */
  function Expected(items: seq<Item>, w: Two): (ds: seq<Delivery>)
    ensures ds != []
  {
    if Late(items) then [MessageDelivery(w.b)]
    else if Around(items) then [MessageDelivery(w.b), MessageDelivery(w.m)]
    else [MessageDelivery(w.m), MessageDelivery(w.b)]
  }

  /** The endpoint holds nothing of third messages. */
  ghost predicate OnlyTwo(e: Endpoint, w: Two) {
    && (forall i :: 0 <= i < |e.started| ==> e.started[i].first.msgId in [w.m.msgId, w.b.msgId])
    && (forall i :: 0 <= i < |e.queue| ==> e.queue[i].msgId in [w.m.msgId, w.b.msgId])
  }

  ghost predicate InOrder(started: seq<Assembly>, row: seq<bool>, w: Two) {
    && |started| == |row|
    && forall i :: 0 <= i < |row| ==> started[i].first.msgId == w.Msg(row[i]).msgId
  }

  /** Of a message, the endpoint holds what has arrived before item n. */
  ghost predicate Holds(e: Endpoint, items: seq<Item>, n: nat, who: bool, w: Two)
    requires w.Valid() && n <= |items|
  {
    Inside(Of(items[..n], who), w.Msg(who)) && Tracks(e, Of(items[..n], who), w.Msg(who))
  }

  /** Neither message has been handed over. */
  ghost predicate Both(e0: Endpoint, items: seq<Item>, n: nat, w: Two, e: Endpoint)
    requires w.Valid() && n <= |items|
  {
    && e.psn == e0.psn && e.delivered == e0.delivered && InOrder(e.started, Row(items[..n]), w)
    && Holds(e, items, n, true, w) && Holds(e, items, n, false, w)
  }

  /** Message `who` is in progress, and the other one has been handed over. */
  ghost predicate Ahead(e0: Endpoint, items: seq<Item>, n: nat, who: bool, w: Two, e: Endpoint)
    requires w.Valid() && n <= |items|
  {
    && Holds(e, items, n, who, w)
    && var other := w.Msg(!who);
    && e.psn == other.msgId && e.delivered == e0.delivered + [MessageDelivery(other)] && Clear(e, other.msgId)
  }

  /** The endpoint before item n, while fragments of message `who` are still to come. */
  ghost predicate State(e0: Endpoint, items: seq<Item>, n: nat, who: bool, w: Two, e: Endpoint)
    requires w.Valid() && n <= |items|
  {
    && OnlyTwo(e, w)
    && if Ready(items, n, !who) then Ahead(e0, items, n, who, w, e) else Both(e0, items, n, w, e)
  }

  // ----- prefixes -----

  lemma {:induction false} OfConcat(s: seq<Item>, t: seq<Item>, who: bool)
    ensures Of(s + t, who) == Of(s, who) + Of(t, who)
    decreases |s|
  {
    if s == [] {
      assert s + t == t;
    } else {
      var head := if s[0].mine == who then [s[0].f] else [];
      OfConcat(s[1..], t, who);
      assert (s + t)[1..] == s[1..] + t;
      assert head + (Of(s[1..], who) + Of(t, who)) == head + Of(s[1..], who) + Of(t, who);
    }
  }

  lemma {:induction false} RowConcat(s: seq<Item>, t: seq<Item>)
    ensures Row(s + t) == Row(s) + Row(t)
    decreases |s|
  {
    if s == [] {
      assert s + t == t;
    } else {
      var head := if s[0].f.first then [s[0].mine] else [];
      RowConcat(s[1..], t);
      assert (s + t)[1..] == s[1..] + t;
      assert head + (Row(s[1..]) + Row(t)) == head + Row(s[1..]) + Row(t);
    }
  }

  /** One item further. */
  lemma Further(items: seq<Item>, n: nat, who: bool)
    requires n < |items|
    ensures var own := if items[n].mine == who then [items[n].f] else [];
            Of(items[..n + 1], who) == Of(items[..n], who) + own && Of(items[n..], who) == own + Of(items[n + 1..], who)
    ensures Row(items[..n + 1]) == Row(items[..n]) + if items[n].f.first then [items[n].mine] else []
    ensures Of(items, who) == Of(items[..n], who) + Of(items[n..], who)
  {
    var it := items[n];
    assert items[..n + 1] == items[..n] + [it] && items[n..] == [it] + items[n + 1..];
    assert [it][1..] == [] && items == items[..n] + items[n..];
    OfConcat(items[..n], [it], who);
    OfConcat([it], items[n + 1..], who);
    OfConcat(items[..n], items[n..], who);
    RowConcat(items[..n], [it]);
  }

  /** A message whose first fragment has arrived is in the row. */
  lemma {:induction false} RowHas(items: seq<Item>, who: bool)
    ensures HasFirst(Of(items, who)) <==> who in Row(items)
    decreases |items|
  {
    if items != [] {
      RowHas(items[1..], who);
      var head := if items[0].mine == who then [items[0].f] else [];
      assert forall f :: f in Of(items, who) <==> f in head || f in Of(items[1..], who);
    }
  }

  /** What being part of a complete send says about an item. */
  lemma ItemFacts(items: seq<Item>, n: nat, w: Two)
    requires w.Valid() && Interleaved(items, w) && n < |items|
    ensures var it := items[n];
            var m := w.Msg(it.mine);
            && WellPacked(it.f, m, w.Flags(it.mine)) && (it.f.first ==> it.f.offset == 0)
            && (it.f.first ==> !HasFirst(Of(items[..n], it.mine)))
            && (IsWhole(it.f, m) <==> |Of(items, it.mine)| == 1)
  {
    hide Whole, WellPacked, Of;
    var it := items[n];
    var fs, own := Of(items, it.mine), Of(items[..n], it.mine);
    assert it in items;
    Further(items, n, it.mine);
    assert fs == own + ([it.f] + Of(items[n + 1..], it.mine)) && fs[|own|] == it.f;
    WholeAt(fs, |own|, w.Msg(it.mine));
    assert fs[..|own|] == own;
  }

  lemma WholeAt(fs: seq<Fragment>, i: nat, m: Message)
    requires Whole(fs, |m.payload|) && i < |fs|
    ensures fs[i].first ==> fs[i].offset == 0 && !HasFirst(fs[..i])
    ensures IsWhole(fs[i], m) <==> |fs| == 1
  {
    var f := fs[i];
    assert f in fs;
    forall g | g in fs[..i]
      ensures !(g.first && f.first)
    {
      var j :| 0 <= j < i && fs[..i][j] == g;
      assert fs[j] == g && g in fs && g != f;
    }
    if |fs| == 1 {
      assert forall g :: g in fs ==> g == f;
      assert |m.payload| > 0 ==> Spanned(fs, |m.payload| - 1);
    } else {
      NotEverything(fs, i, if i == 0 then 1 else 0, m);
    }
  }

  lemma InterleavedWhole(items: seq<Item>, who: bool, w: Two)
    requires w.Valid() && Interleaved(items, w)
    ensures Whole(Of(items, who), |w.Msg(who).payload|)
  {}

  /** A message is finished exactly when nothing of it is to come. */
  lemma PrefixFinished(items: seq<Item>, n: nat, who: bool, w: Two)
    requires w.Valid() && Interleaved(items, w) && n <= |items|
    ensures Finished(Of(items[..n], who), w.Msg(who)) <==> Of(items[n..], who) == []
    ensures Of(items, who) == Of(items[..n], who) + Of(items[n..], who)
  {
    hide Whole, Finished, Interleaved, Of;
    var fs, more := Of(items[..n], who), Of(items[n..], who);
    InterleavedWhole(items, who, w);
    assert items == items[..n] + items[n..];
    OfConcat(items[..n], items[n..], who);
    if more == [] {
      assert fs + more == fs;
      WholeFinished(fs, w.Msg(who));
    } else {
      assert (fs + more)[..|fs|] == fs;
      WholePart(fs + more, |fs|, w.Msg(who));
    }
  }

  // ----- handing over with two messages in the list -----

  /** With a message at the head of the list, the other one is all that can follow. */
  lemma TwoShape(e: Endpoint, fs: seq<Fragment>, fs': seq<Fragment>, who: bool, w: Two)
    requires w.Valid() && OnlyTwo(e, w) && e.started != [] && e.started[0].first.msgId == w.Msg(who).msgId
    requires Inside(fs, w.Msg(who)) && Tracks(e, fs, w.Msg(who))
    requires Inside(fs', w.Msg(!who)) && Tracks(e, fs', w.Msg(!who))
    ensures HasFirst(fs) && Assembles(e.started[0], fs, w.Msg(who))
    ensures |e.started| == if HasFirst(fs') then 2 else 1
    ensures HasFirst(fs') ==> Assembles(e.started[1], fs', w.Msg(!who))
    ensures AsmsOf(e.started[1..], w.Msg(who).msgId) == []
    ensures AsmsOf(e.started[1..], w.Msg(!who).msgId) == AsmsOf(e.started, w.Msg(!who).msgId)
  {
    hide HasFirst, Inside, Assembles, MidsOf;
    var id, id' := w.Msg(who).msgId, w.Msg(!who).msgId;
    var rest := e.started[1..];
    assert AsmsOf(e.started, id) == [e.started[0]] + AsmsOf(rest, id);
    NoneOf(rest, id);
    AllAsms(rest, id');
  }

  lemma {:induction false} NoneOf(s: seq<Assembly>, id: Word)
    requires AsmsOf(s, id) == []
    ensures forall i :: 0 <= i < |s| ==> s[i].first.msgId != id
    decreases |s|
  {
    if s != [] {
      NoneOf(s[1..], id);
      assert forall i :: 0 < i < |s| ==> s[i] == s[1..][i - 1];
    }
  }

  lemma DrainTwo(e: Endpoint, fs: seq<Fragment>, fs': seq<Fragment>, who: bool, w: Two)
    requires w.Valid() && OnlyTwo(e, w) && e.started != [] && e.started[0].first.msgId == w.Msg(who).msgId
    requires Inside(fs, w.Msg(who)) && Tracks(e, fs, w.Msg(who))
    requires Inside(fs', w.Msg(!who)) && Tracks(e, fs', w.Msg(!who))
    ensures var x, y := w.Msg(who), w.Msg(!who);
            Drain(e) == if !Finished(fs, x) then e
                        else if !Finished(fs', y) then HandedOver(e, x).(started := e.started[1..])
                        else HandedOver(HandedOver(e, x), y).(started := [])
  {
    hide HasFirst, Inside, Assembles, Tracks, Complete, DeliveryOf, Finished, AsmsOf, OnlyTwo;
    var x, y := w.Msg(who), w.Msg(!who);
    TwoShape(e, fs, fs', who, w);
    var a := e.started[0];
    CompleteIff(a, fs, x);
    if Complete(a) {
      var e1 := HandedOver(e, x).(started := e.started[1..]);
      assert Drain(e) == Drain(e1);
      if HasFirst(fs') {
        var a' := e.started[1];
        assert e1.started == [a'];
        CompleteIff(a', fs', y);
        AssembledId(a', fs', y);
        var e2 := HandedOver(e1, y).(started := []);
        assert e1.started[1..] == [];
        assert Complete(a') ==> Drain(e1) == Drain(e2) == e2;
      } else {
        Unstarted(fs', y);
        assert e1.started == [];
      }
    }
  }

  /** The list and the queue once a fragment of either message has been absorbed. */
  lemma AbsorbedTwo(e: Endpoint, f: Fragment, z: bool, w: Two)
    requires w.Valid() && OnlyTwo(e, w) && f.offset + f.k <= |w.Msg(z).payload|
    ensures var e' := Absorbed(e, f, w.Msg(z), w.Flags(z));
            && OnlyTwo(e', w)
            && |e'.started| == |e.started| + One(f.first && Find(e.started, w.Msg(z).msgId) == |e.started|)
            && (forall i :: 0 <= i < |e.started| ==> e'.started[i].first.msgId == e.started[i].first.msgId)
            && (|e'.started| > |e.started| ==> e'.started[|e.started|].first.msgId == w.Msg(z).msgId)
  {
    hide PutQueued, Others;
    var m := w.Msg(z);
    var a := Assembly(FirstViewOf(f, m, w.Flags(z)), map[]);
    PutQueuedKeepsFirst(a, e.queue);
    OthersMembers(e.queue, m.msgId);
    assert forall v :: v in e.queue ==> v.msgId in [w.m.msgId, w.b.msgId];
  }

  lemma ClearEvict(e: Endpoint, id: Word)
    requires Clear(e, id)
    ensures Evict(e, id) == e
  {
    FindFirst(e.started, id);
    OthersAll(e.queue, id);
  }

  lemma {:induction false} OthersAll(q: seq<MidView>, id: Word)
    requires MidsOf(q, id) == []
    ensures Others(q, id) == q && forall i :: 0 <= i < |q| ==> q[i].msgId != id
    decreases |q|
  {
    if q != [] {
      OthersAll(q[1..], id);
      assert forall i :: 0 < i < |q| ==> q[i] == q[1..][i - 1];
    }
  }

  lemma NeitherLeft(e: Endpoint, w: Two)
    requires w.Valid() && OnlyTwo(e, w) && Clear(e, w.m.msgId) && Clear(e, w.b.msgId)
    ensures Idle(e)
  {
    NoneOf(e.started, w.m.msgId);
    NoneOf(e.started, w.b.msgId);
    OthersAll(e.queue, w.m.msgId);
    OthersAll(e.queue, w.b.msgId);
  }

  /** A fragment, not the whole of a message, absorbed while neither message has been handed over. */
  lemma TakeBoth(e0: Endpoint, items: seq<Item>, n: nat, w: Two, e: Endpoint)
    requires w.Valid() && Interleaved(items, w) && n < |items| && OnlyTwo(e, w) && Both(e0, items, n, w, e)
    requires items[n].f.offset + items[n].f.k <= |w.Msg(items[n].mine).payload|
    ensures var z := items[n].mine;
            var e1 := Absorbed(e, items[n].f, w.Msg(z), w.Flags(z));
            OnlyTwo(e1, w) && Both(e0, items, n + 1, w, e1)
  {
    hide Holds, Row, Of, OnlyTwo, Interleaved, HasFirst, Absorbed, InOrder, Find;
    var f, z := items[n].f, items[n].mine;
    var e1 := Absorbed(e, f, w.Msg(z), w.Flags(z));
    ItemFacts(items, n, w);
    Further(items, n, z);
    AbsorbedTwo(e, f, z, w);
    AbsorbedElse(e, f, w.Msg(z), w.Flags(z));
    HoldsOwn(e, items, n, w);
    HoldsOther(e, items, n, w);
    Unfound(e, items, n, z, w);
    OrderKept(e.started, e1.started, Row(items[..n]), if f.first then [z] else [], w);
  }

  lemma OrderKept(s: seq<Assembly>, s': seq<Assembly>, row: seq<bool>, more: seq<bool>, w: Two)
    requires InOrder(s, row, w) && |s'| == |s| + |more| && |more| <= 1
    requires forall i :: 0 <= i < |s| ==> s'[i].first.msgId == s[i].first.msgId
    requires |more| == 1 ==> s'[|s|].first.msgId == w.Msg(more[0]).msgId
    ensures InOrder(s', row + more, w)
  {}

  lemma Unfound(e: Endpoint, items: seq<Item>, n: nat, who: bool, w: Two)
    requires w.Valid() && n <= |items| && Holds(e, items, n, who, w)
    ensures HasFirst(Of(items[..n], who)) <==> Find(e.started, w.Msg(who).msgId) < |e.started|
  {
    FoundFirst(e, Of(items[..n], who), w.Msg(who));
  }

  /** What is held of a message once an item of it has been absorbed. */
  lemma HoldsOwn(e: Endpoint, items: seq<Item>, n: nat, w: Two)
    requires w.Valid() && Interleaved(items, w) && n < |items| && Holds(e, items, n, items[n].mine, w)
    requires items[n].f.offset + items[n].f.k <= |w.Msg(items[n].mine).payload|
    ensures var z := items[n].mine;
            Holds(Absorbed(e, items[n].f, w.Msg(z), w.Flags(z)), items, n + 1, z, w)
  {
    hide Inside, Tracks, Of, Interleaved, Absorbed;
    var f, z := items[n].f, items[n].mine;
    ItemFacts(items, n, w);
    Further(items, n, z);
    AbsorbedTracks(e, Of(items[..n], z), f, w.Msg(z), w.Flags(z));
  }

  /** And of the other one. */
  lemma HoldsOther(e: Endpoint, items: seq<Item>, n: nat, w: Two)
    requires w.Valid() && n < |items|
    requires items[n].f.offset + items[n].f.k <= |w.Msg(items[n].mine).payload|
    ensures var z := items[n].mine;
            var e1 := Absorbed(e, items[n].f, w.Msg(z), w.Flags(z));
            && (Holds(e, items, n, !z, w) ==> Holds(e1, items, n + 1, !z, w))
            && (Clear(e, w.Msg(!z).msgId) ==> Clear(e1, w.Msg(!z).msgId))
  {
    hide Inside, Tracks, Of, Absorbed, AsmsOf, MidsOf;
    var f, z := items[n].f, items[n].mine;
    var e1 := Absorbed(e, f, w.Msg(z), w.Flags(z));
    Further(items, n, !z);
    var fs := Of(items[..n], !z);
    assert Of(items[..n + 1], !z) == fs;
    AbsorbedOthers(e, f, w.Msg(z), w.Flags(z), w.Msg(!z).msgId);
    if Holds(e, items, n, !z, w) {
      SameTracks(e, e1, fs, w.Msg(!z));
    }
  }

  lemma SameTracks(e: Endpoint, e': Endpoint, fs: seq<Fragment>, m: Message)
    requires m.Valid() && Inside(fs, m) && Tracks(e, fs, m)
    requires AsmsOf(e'.started, m.msgId) == AsmsOf(e.started, m.msgId)
    requires MidsOf(e'.queue, m.msgId) == MidsOf(e.queue, m.msgId)
    ensures Tracks(e', fs, m)
  {}

  lemma AbsorbedElse(e: Endpoint, f: Fragment, m: Message, flags: Word16)
    requires m.Valid() && f.offset + f.k <= |m.payload|
    ensures var e' := Absorbed(e, f, m, flags); e'.psn == e.psn && e'.delivered == e.delivered
  {}

  /** Handing over while neither message has been: the head of the list decides. */
  lemma DrainBoth(e0: Endpoint, items: seq<Item>, n: nat, w: Two, e: Endpoint)
    requires w.Valid() && Interleaved(items, w) && n <= |items| && OnlyTwo(e, w) && Both(e0, items, n, w, e)
    ensures var row := Row(items[..n]);
            row == [] ==> Drain(e) == e
    ensures var row := Row(items[..n]);
            row != [] && Of(items[n..], row[0]) != [] ==> Drain(e) == e
    ensures var row := Row(items[..n]);
            row != [] && Of(items[n..], row[0]) == [] ==>
              if Of(items[n..], !row[0]) != []
              then OnlyTwo(Drain(e), w) && Ahead(e0, items, n, !row[0], w, Drain(e))
              else Drain(e) == HandedOver(HandedOver(e, w.Msg(row[0])), w.Msg(!row[0])).(started := [])
  {
    hide Inside, Tracks, Row, Of, Interleaved, HasFirst, Finished, AsmsOf, MidsOf;
    var row := Row(items[..n]);
    if row != [] {
      var h := row[0];
      var x, y := w.Msg(h), w.Msg(!h);
      var fs, fs' := Of(items[..n], h), Of(items[..n], !h);
      assert Holds(e, items, n, h, w) && Holds(e, items, n, !h, w);
      assert e.started != [] && e.started[0].first.msgId == x.msgId;
      DrainTwo(e, fs, fs', h, w);
      TwoShape(e, fs, fs', h, w);
      PrefixFinished(items, n, h, w);
      PrefixFinished(items, n, !h, w);
      if Of(items[n..], h) == [] && Of(items[n..], !h) != [] {
        var e1 := HandedOver(e, x).(started := e.started[1..]);
        SameTracks(e, e1, fs', y);
        StartedClear(e, fs, x);
      }
    }
  }

  lemma StartedClear(e: Endpoint, fs: seq<Fragment>, m: Message)
    requires m.Valid() && Inside(fs, m) && Tracks(e, fs, m) && HasFirst(fs)
    ensures MidsOf(e.queue, m.msgId) == []
  {}

  // ----- one item further -----

  /** How a message that is not ready becomes ready, other than in one fragment. */
  lemma ReadyNext(items: seq<Item>, n: nat, y: bool)
    requires n < |items| && !Ready(items, n, y) && !(items[n].mine == y && |Of(items, y)| == 1)
    ensures Ready(items, n + 1, y) <==> Of(items[n + 1..], y) == [] && Leads(items[..n + 1], y)
  {
    hide Of, Row;
    Further(items, n, y);
  }

  /** An item that is neither in the list nor starts in it changes nothing there. */
  lemma NotReadyNext(items: seq<Item>, n: nat, y: bool, w: Two)
    requires w.Valid() && Interleaved(items, w) && n < |items| && !Ready(items, n, y)
    requires !items[n].f.first && !HasFirst(Of(items[..n], items[n].mine))
    ensures !Ready(items, n + 1, y)
  {
    hide Of, Row, Interleaved, HasFirst;
    var z := items[n].mine;
    ItemFacts(items, n, w);
    Further(items, n, y);
    ReadyNext(items, n, y);
    RowHas(items[..n], z);
    assert Row(items[..n + 1]) == Row(items[..n]);
  }

  /** A fragment of either message, not the last of `who`, while neither has been handed over. */
  lemma StepBoth(e0: Endpoint, items: seq<Item>, n: nat, who: bool, w: Two, e: Endpoint)
    requires w.Valid() && Interleaved(items, w) && n < |items| && OnlyTwo(e, w) && Both(e0, items, n, w, e)
    requires !Ready(items, n, !who) && Of(items[n + 1..], who) != []
    requires !Duplicate(e0, w.Msg(items[n].mine).msgId) && |Of(items, items[n].mine)| != 1
    ensures State(e0, items, n + 1, who, w, Receive(e, ArrivalOf(items[n].f), true))
  {
    hide Of, Row, Interleaved, HasFirst, Holds, OnlyTwo, Receive, Drain, Absorbed, InOrder, Find, WellPacked;
    var f, z := items[n].f, items[n].mine;
    ItemFacts(items, n, w);
    PackedFits(Sent(f, w.Flags(z)), w.Msg(z));
    var e1 := Absorbed(e, f, w.Msg(z), w.Flags(z));
    TakeBoth(e0, items, n, w, e);
    Arrives(e, f, w.Msg(z), w.Flags(z), true);
    Unfound(e, items, n, z, w);
    if !f.first && !HasFirst(Of(items[..n], z)) {
      NotReadyNext(items, n, !who, w);
    } else {
      ReadyNext(items, n, !who);
      DrainBoth(e0, items, n + 1, w, e1);
    }
  }

  /** A newer or older message in one fragment, while the one that is to go on has not been handed over. */
  lemma StepWhole(e0: Endpoint, items: seq<Item>, n: nat, who: bool, w: Two, e: Endpoint)
    requires w.Valid() && Interleaved(items, w) && n < |items| && OnlyTwo(e, w) && Both(e0, items, n, w, e)
    requires Of(items[n + 1..], who) != []
    requires !Duplicate(e0, w.Msg(items[n].mine).msgId) && |Of(items, items[n].mine)| == 1
    ensures State(e0, items, n + 1, who, w, Receive(e, ArrivalOf(items[n].f), true))
  {
    hide Of, Row, Interleaved, HasFirst, OnlyTwo, Receive, Evict, InOrder, WellPacked, Tracks, Inside;
    var f, z := items[n].f, items[n].mine;
    ItemFacts(items, n, w);
    Further(items, n, z);
    Further(items, n, !z);
    assert Of(items[..n], z) == [] && Of(items[n + 1..], z) == [] && z == !who;
    ClearTracks(e, w.Msg(z));
    ClearEvict(e, w.Msg(z).msgId);
    Arrives(e, f, w.Msg(z), w.Flags(z), true);
    var e1 := HandedOver(e, w.Msg(z));
    assert Of(items[..n + 1], who) == Of(items[..n], who);
    SameTracks(e, e1, Of(items[..n], who), w.Msg(who));
    SameTwo(e, e1, w);
  }

  lemma SameTwo(e: Endpoint, e': Endpoint, w: Two)
    requires OnlyTwo(e, w) && e'.started == e.started && e'.queue == e.queue
    ensures OnlyTwo(e', w)
  {}

  /** A fragment of the message that is in progress, not its last, after the other one has been handed over. */
  lemma StepAhead(e0: Endpoint, items: seq<Item>, n: nat, who: bool, w: Two, e: Endpoint)
    requires w.Valid() && Interleaved(items, w) && n < |items| && OnlyTwo(e, w) && Ahead(e0, items, n, who, w, e)
    requires Ready(items, n, !who) && Of(items[n + 1..], who) != [] && !Duplicate(e, w.Msg(who).msgId)
    ensures State(e0, items, n + 1, who, w, Receive(e, ArrivalOf(items[n].f), true))
  {
    hide Of, Row, Interleaved, HasFirst, OnlyTwo, Receive, Drain, Absorbed, Find, WellPacked, Tracks, Inside, Clear,
         Finished;
    var f, z := items[n].f, items[n].mine;
    Further(items, n, who);
    Further(items, n, !who);
    assert z == who && |Of(items, who)| != 1;
    ItemFacts(items, n, w);
    PackedFits(Sent(f, w.Flags(z)), w.Msg(z));
    var e1 := Absorbed(e, f, w.Msg(z), w.Flags(z));
    AbsorbedTwo(e, f, z, w);
    AbsorbedElse(e, f, w.Msg(z), w.Flags(z));
    HoldsOwn(e, items, n, w);
    HoldsOther(e, items, n, w);
    Arrives(e, f, w.Msg(z), w.Flags(z), true);
    PrefixFinished(items, n + 1, who, w);
    DrainLone(e1, Of(items[..n + 1], who), who, w);
  }

  /** Handing over when only one of the messages is in progress. */
  lemma DrainLone(e: Endpoint, fs: seq<Fragment>, who: bool, w: Two)
    requires w.Valid() && OnlyTwo(e, w) && Inside(fs, w.Msg(who)) && Tracks(e, fs, w.Msg(who))
    requires Clear(e, w.Msg(!who).msgId)
    ensures Drain(e) == if Finished(fs, w.Msg(who)) then HandedOver(e, w.Msg(who)).(started := []) else e
  {
    hide HasFirst, Tracks, Inside, Finished, AsmsOf, MidsOf;
    NoneOf(e.started, w.Msg(!who).msgId);
    if e.started != [] {
      ClearTracks(e, w.Msg(!who));
      DrainTwo(e, fs, [], who, w);
      TwoShape(e, fs, [], who, w);
      Unstarted([], w.Msg(!who));
      assert e.started[1..] == [];
    } else {
      FoundFirst(e, fs, w.Msg(who));
      assert Finished(fs, w.Msg(who)) ==> HasFirst(fs) by { FinishedStarted(fs, w.Msg(who)); }
    }
  }

  lemma FinishedStarted(fs: seq<Fragment>, m: Message)
    ensures Finished(fs, m) ==> HasFirst(fs)
  {}

  // ----- the last item -----

  ghost predicate Ends(e0: Endpoint, e': Endpoint, d: Message, d': Message) {
    && e'.delivered == e0.delivered + [MessageDelivery(d), MessageDelivery(d')] && e'.psn == d'.msgId && Idle(e')
  }

  lemma LastAhead(e0: Endpoint, items: seq<Item>, n: nat, who: bool, w: Two, e: Endpoint)
    requires w.Valid() && Interleaved(items, w) && |items| == n + 1 && items[n].mine == who
    requires OnlyTwo(e, w) && Ahead(e0, items, n, who, w, e) && !Duplicate(e, w.Msg(who).msgId)
    ensures Ends(e0, Receive(e, ArrivalOf(items[n].f), true), w.Msg(!who), w.Msg(who))
  {
    hide Of, Row, Interleaved, HasFirst, OnlyTwo, Receive, Drain, Absorbed, Find, WellPacked, Tracks, Inside, Clear,
         Finished, Evict;
    var f, x := items[n].f, w.Msg(who);
    var fs := Of(items[..n], who);
    ItemFacts(items, n, w);
    Further(items, n, who);
    PackedFits(Sent(f, w.Flags(who)), x);
    Arrives(e, f, x, w.Flags(who), true);
    if IsWhole(f, x) {
      assert fs == [];
      ClearTracks(e, x);
      ClearEvict(e, x.msgId);
      NeitherLeft(e, w);
    } else {
      var e1 := Absorbed(e, f, x, w.Flags(who));
      AbsorbedTwo(e, f, who, w);
      AbsorbedElse(e, f, x, w.Flags(who));
      HoldsOwn(e, items, n, w);
      HoldsOther(e, items, n, w);
      assert Of(items[n + 1..], who) == [] by { NoneOfNone(items, n + 1, who); }
      PrefixFinished(items, n + 1, who, w);
      DrainLone(e1, fs + [f], who, w);
      FinishedStarted(fs + [f], x);
      HasFirstSnoc(fs, f);
      Unfound(e, items, n, who, w);
      LoneGone(e1, fs + [f], who, w);
    }
  }

  lemma NoneOfNone(items: seq<Item>, n: nat, who: bool)
    requires n == |items|
    ensures Of(items[n..], who) == [] && items[..n] == items
  {}

  lemma LoneGone(e: Endpoint, fs: seq<Fragment>, who: bool, w: Two)
    requires w.Valid() && OnlyTwo(e, w) && Clear(e, w.Msg(!who).msgId) && HasFirst(fs)
    requires Inside(fs, w.Msg(who)) && Tracks(e, fs, w.Msg(who))
    ensures e.queue == []
  {
    var e' := e.(started := []);
    StartedClear(e, fs, w.Msg(who));
    NeitherLeft(e', w);
  }

  lemma LastBoth(e0: Endpoint, items: seq<Item>, n: nat, who: bool, w: Two, e: Endpoint)
    requires w.Valid() && Interleaved(items, w) && |items| == n + 1 && items[n].mine == who
    requires OnlyTwo(e, w) && Both(e0, items, n, w, e) && !Ready(items, n, !who)
    requires !Duplicate(e0, w.Msg(who).msgId)
    ensures Ends(e0, Receive(e, ArrivalOf(items[n].f), true), w.Msg(who), w.Msg(!who)) && Leads(items, who)
    ensures |Of(items, !who)| > 1
  {
    hide Of, Row, Interleaved, HasFirst, OnlyTwo, Receive, Drain, Absorbed, Find, WellPacked, Holds, Finished, InOrder;
    var f, x := items[n].f, w.Msg(who);
    ItemFacts(items, n, w);
    Further(items, n, who);
    Further(items, n, !who);
    NoneOfNone(items, n + 1, who);
    NoneOfNone(items, n + 1, !who);
    OthersFirst(items, n, who, w);
    PackedFits(Sent(f, w.Flags(who)), x);
    Arrives(e, f, x, w.Flags(who), true);
    Unfound(e, items, n, who, w);
    var e1 := Absorbed(e, f, x, w.Flags(who));
    TakeBoth(e0, items, n, w, e);
    DrainBoth(e0, items, n + 1, w, e1);
    BothGone(e0, items, w, e1);
  }

  /** If the other message is complete and not ready, this one is in the list before it. */
  lemma OthersFirst(items: seq<Item>, n: nat, who: bool, w: Two)
    requires w.Valid() && Interleaved(items, w) && |items| == n + 1 && items[n].mine == who && !Ready(items, n, !who)
    ensures Leads(items[..n], who) && HasFirst(Of(items[..n], who)) && !items[n].f.first
    ensures |Of(items, !who)| > 1 && |Of(items, who)| > 1
  {
    hide Of, Row, Interleaved, HasFirst, WellPacked, Finished;
    Further(items, n, !who);
    Further(items, n, who);
    NoneOfNone(items, n + 1, !who);
    PrefixFinished(items, n, !who, w);
    FinishedStarted(Of(items[..n], !who), w.Msg(!who));
    RowHas(items[..n], !who);
    RowHas(items[..n], who);
    ItemFacts(items, n, w);
    assert Leads(items[..n], who);
    assert who in Row(items[..n]);
    StartedSome(Of(items[..n], who));
    StartedSome(Of(items[..n], !who));
  }

  lemma StartedSome(fs: seq<Fragment>)
    ensures HasFirst(fs) ==> fs != []
  {}

  lemma BothGone(e0: Endpoint, items: seq<Item>, w: Two, e: Endpoint)
    requires w.Valid() && Interleaved(items, w) && OnlyTwo(e, w) && Both(e0, items, |items|, w, e)
    ensures e.queue == []
  {
    hide Of, Row, Interleaved, HasFirst, Tracks, Inside, InOrder, Finished, MidsOf;
    NoneOfNone(items, |items|, true);
    NoneOfNone(items, |items|, false);
    forall who
      ensures MidsOf(e.queue, w.Msg(who).msgId) == []
    {
      PrefixFinished(items, |items|, who, w);
      FinishedStarted(Of(items[..|items|], who), w.Msg(who));
      assert Holds(e, items, |items|, who, w);
      StartedClear(e, Of(items[..|items|], who), w.Msg(who));
    }
    var e' := e.(started := []);
    assert Clear(e', w.Msg(true).msgId) && Clear(e', w.Msg(false).msgId);
    NeitherLeft(e', w);
  }

  // ----- the whole run -----

  lemma {:induction false} AllIgnored(e: Endpoint, items: seq<Item>, w: Two)
    requires w.Valid() && Of(items, false) == [] && Duplicate(e, w.m.msgId)
    requires forall it :: it in items ==> WellPacked(it.f, w.Msg(it.mine), w.Flags(it.mine))
    ensures After(e, items, true) == e
    decreases |items|
  {
    hide Receive, WellPacked;
    if items != [] {
      var it := items[0];
      assert it in items && it.mine && forall o :: o in items[1..] ==> o in items;
      Ignored(e, it.f, w.m, w.mFlags);
      AllIgnored(e, items[1..], w);
    }
  }

  /** The outcome, from any item on; `who` is the message whose fragment comes last. */
  lemma {:induction false} RunTwo(e0: Endpoint, items: seq<Item>, n: nat, who: bool, w: Two, e: Endpoint)
    requires w.Valid() && Interleaved(items, w) && n < |items| && who == items[|items| - 1].mine
    requires State(e0, items, n, who, w, e)
    requires !Duplicate(e0, w.m.msgId) && !Duplicate(e0, w.b.msgId)
    requires forall j :: 0 <= j < n ==> !LateAt(items, j)
    ensures Outcome(e0, items, w, After(e, items[n..], true))
    decreases |items| - n
  {
    hide Of, Row, Interleaved, HasFirst, OnlyTwo, Receive, WellPacked, Both, Ahead, Ready;
    var it := items[n];
    var e1 := Receive(e, ArrivalOf(it.f), true);
    assert items[n..][0] == it && items[n..][1..] == items[n + 1..];
    assert After(e, items[n..], true) == After(e1, items[n + 1..], true);
    StillToCome(items, n, who);
    if LateAt(items, n) {
      LateEnds(e0, items, n, who, w, e);
    } else if n + 1 == |items| {
      assert items[n + 1..] == [];
      LastEnds(e0, items, n, w, e);
    } else {
      StillToCome(items, n + 1, who);
      NextState(e0, items, n, who, w, e);
      RunTwo(e0, items, n + 1, who, w, e1);
    }
  }

  /** The first of the older message's fragments that comes late comes after its first fragment. */
  ghost predicate Stuck(items: seq<Item>) {
    exists j :: 0 <= j < |items| && LateAt(items, j) && HasFirst(Of(items[..j], true)) &&
                forall i :: 0 <= i < j ==> !LateAt(items, i)
  }

  ghost predicate Outcome(e0: Endpoint, items: seq<Item>, w: Two, e': Endpoint) {
    var ds := Expected(items, w);
    && e'.delivered == e0.delivered + ds && e'.psn == ds[|ds| - 1].msgId
    && (if Late(items) then Blocked(e') <==> Stuck(items) else Idle(e'))
  }

  lemma StillToCome(items: seq<Item>, n: nat, who: bool)
    requires n < |items| && who == items[|items| - 1].mine
    ensures Of(items[n..], who) != []
  {
    var last := |items| - 1;
    Further(items, last, who);
    assert items[n..] == items[n..last] + items[last..];
    OfConcat(items[n..last], items[last..], who);
  }

  lemma LateEnds(e0: Endpoint, items: seq<Item>, n: nat, who: bool, w: Two, e: Endpoint)
    requires w.Valid() && Interleaved(items, w) && n < |items| && LateAt(items, n)
    requires Of(items[n..], who) != [] && State(e0, items, n, who, w, e)
    requires forall j :: 0 <= j < n ==> !LateAt(items, j)
    ensures Outcome(e0, items, w, After(e, items[n..], true))
  {
    hide Of, Row, WellPacked, Whole, OnlyTwo, Holds, Clear, Blocked, HasFirst;
    assert who;
    assert forall o :: o in items[n..] ==> o in items;
    AllIgnored(e, items[n..], w);
    LateBlocks(e, items, n, w);
    assert Stuck(items) <==> HasFirst(Of(items[..n], true));
  }

  lemma LateBlocks(e: Endpoint, items: seq<Item>, n: nat, w: Two)
    requires w.Valid() && Interleaved(items, w) && n < |items| && Of(items[n..], true) != []
    requires OnlyTwo(e, w) && Holds(e, items, n, true, w) && Clear(e, w.b.msgId) && e.psn == w.b.msgId
    ensures Blocked(e) <==> HasFirst(Of(items[..n], true))
  {
    hide Of, Interleaved, OnlyTwo, Tracks, Inside, HasFirst, Finished, Complete, AsmsOf, MidsOf;
    var fs := Of(items[..n], true);
    PrefixFinished(items, n, true, w);
    FoundFirst(e, fs, w.m);
    OnlyOlder(e, w);
    if HasFirst(fs) {
      ClearTracks(e, w.b);
      TwoShape(e, fs, [], true, w);
      CompleteIff(e.started[0], fs, w.m);
    }
  }

  lemma OnlyOlder(e: Endpoint, w: Two)
    requires w.Valid() && OnlyTwo(e, w) && Clear(e, w.b.msgId)
    ensures forall i :: 0 <= i < |e.started| ==> e.started[i].first.msgId == w.m.msgId
  {
    NoneOf(e.started, w.b.msgId);
  }

  lemma LastEnds(e0: Endpoint, items: seq<Item>, n: nat, w: Two, e: Endpoint)
    requires w.Valid() && Interleaved(items, w) && |items| == n + 1 && State(e0, items, n, items[n].mine, w, e)
    requires !Duplicate(e0, w.m.msgId) && !Duplicate(e0, w.b.msgId)
    requires forall j :: 0 <= j <= n ==> !LateAt(items, j)
    ensures Outcome(e0, items, w, Receive(e, ArrivalOf(items[n].f), true))
  {
    hide Of, Row, Interleaved, HasFirst, OnlyTwo, Receive, Holds, Clear, InOrder, Idle, Blocked, Stuck;
    var who := items[n].mine;
    Further(items, n, who);
    Further(items, n, !who);
    assert !Late(items);
    if Ready(items, n, !who) {
      assert !LateAt(items, n) && !who;
      LastAhead(e0, items, n, who, w, e);
      LeadsOn(items, n, !who);
      assert !Around(items);
    } else {
      LastBoth(e0, items, n, who, w, e);
    }
  }

  /** The first one stays the first one. */
  lemma LeadsOn(items: seq<Item>, n: nat, who: bool)
    requires n <= |items|
    ensures Leads(items[..n], who) ==> Leads(items, who)
  {
    assert items == items[..n] + items[n..];
    RowConcat(items[..n], items[n..]);
  }

  lemma NextState(e0: Endpoint, items: seq<Item>, n: nat, who: bool, w: Two, e: Endpoint)
    requires w.Valid() && Interleaved(items, w) && n < |items| && State(e0, items, n, who, w, e)
    requires !Duplicate(e0, w.m.msgId) && !Duplicate(e0, w.b.msgId)
    requires Of(items[n + 1..], who) != [] && !LateAt(items, n)
    ensures State(e0, items, n + 1, who, w, Receive(e, ArrivalOf(items[n].f), true))
  {
    hide Of, Row, Interleaved, HasFirst, OnlyTwo, Receive, Holds, Clear, InOrder, State;
    Further(items, n, !who);
    Shape(e0, items, n, who, w, e);
    if Ready(items, n, !who) {
      assert items[n].mine == who && !who;
      StepAhead(e0, items, n, who, w, e);
    } else if |Of(items, items[n].mine)| == 1 {
      StepWhole(e0, items, n, who, w, e);
    } else {
      StepBoth(e0, items, n, who, w, e);
    }
  }

  lemma Shape(e0: Endpoint, items: seq<Item>, n: nat, who: bool, w: Two, e: Endpoint)
    requires w.Valid() && n <= |items| && State(e0, items, n, who, w, e)
    ensures OnlyTwo(e, w)
    ensures if Ready(items, n, !who) then Ahead(e0, items, n, who, w, e) else Both(e0, items, n, w, e)
  {}

  /**
    Two messages sent completely, interleaved in any way, at an idle endpoint of the restartable
    protocol.  The older one is lost if and only if one of its fragments arrives after the newer
    one was ready: there completely, in one fragment or started first.  Otherwise both are handed
    over, once; the older one first, unless the newer one starts before it and ends after it, and
    then the endpoint is left with the older one's sequence number.
    */
  lemma TwoMessages(e: Endpoint, items: seq<Item>, w: Two)
    requires w.Valid() && Interleaved(items, w) && Idle(e) && !Duplicate(e, w.m.msgId)
    ensures Outcome(e, items, w, After(e, items, true))
  {
    hide Outcome, After, Whole, WellPacked;
    WholeFinished(Of(items, true), w.m);
    WholeFinished(Of(items, false), w.b);
    var who := items[|items| - 1].mine;
    assert items[..0] == [] && items[0..] == items;
    assert Of(items[0..], !who) != [];
    NothingYet(e, w.m);
    NothingYet(e, w.b);
    RunTwo(e, items, 0, who, w, e);
  }

  // ----- repeats -----

  lemma {:induction false} DrainGrows(e: Endpoint)
    ensures |Drain(e).delivered| > |e.delivered| || Drain(e) == e
    decreases |e.started|
  {
    hide Complete, DeliveryOf;
    if e.started != [] && Complete(e.started[0]) {
      var a := e.started[0];
      DrainGrows(e.(started := e.started[1..], psn := a.first.msgId, delivered := e.delivered + [DeliveryOf(a)]));
    }
  }

  lemma AbsorbedTouches(e: Endpoint, f: Fragment, m: Message, flags: Word16)
    requires m.Valid() && f.offset + f.k <= |m.payload|
    ensures !Clear(Absorbed(e, f, m, flags), m.msgId)
  {
    hide Put, PutQueued, Others, AsmsOf, MidsOf;
    var i := Find(e.started, m.msgId);
    var data := m.payload[f.offset..f.offset + f.k];
    if i < |e.started| {
      PutKeepsFirst(e.started[i], f.offset, data);
      AsmsAround(e.started, i, Put(e.started[i], f.offset, data), m.msgId);
      AsmsOne(Put(e.started[i], f.offset, data), m.msgId);
    } else if f.first {
      var a := Assembly(FirstViewOf(f, m, flags), map[]);
      PutQueuedKeepsFirst(a, e.queue);
      PutKeepsFirst(PutQueued(a, e.queue), f.offset, data);
      AsmsSnoc(e.started, Put(PutQueued(a, e.queue), f.offset, data), m.msgId);
    } else {
      MidsSnoc(e.queue, MidViewOf(f, m), m.msgId);
    }
  }

  /** More has been handed over than d messages, or just as many and something of the message is in progress. */
  ghost predicate Touched(e: Endpoint, d: nat, id: Word) {
    |e.delivered| > d || (|e.delivered| == d && !Clear(e, id))
  }

  lemma Touches(e: Endpoint, s: Sent, m: Message, d: nat)
    requires m.Valid() && WellPacked(s.f, m, s.flags) && (s.f.first ==> s.f.offset == 0)
    requires Touched(e, d, m.msgId) || (!Duplicate(e, m.msgId) && |e.delivered| == d)
    ensures Touched(Receive(e, ArrivalOf(s.f), true), d, m.msgId)
  {
    hide Receive, Clear, Absorbed, Evict, Find, Drain, WellPacked;
    if Duplicate(e, m.msgId) {
      Ignored(e, s.f, m, s.flags);
    } else {
      PackedFits(s, m);
      Arrives(e, s.f, m, s.flags, true);
      EvictElse(e, m.msgId);
      var e1 := Absorbed(e, s.f, m, s.flags);
      AbsorbedTouches(e, s.f, m, s.flags);
      AbsorbedElse(e, s.f, m, s.flags);
      DrainGrows(e1);
    }
  }

  lemma EvictElse(e: Endpoint, id: Word)
    ensures Evict(e, id).delivered == e.delivered
  {}

  lemma {:induction false} TouchesAll(e: Endpoint, ss: seq<Sent>, m: Message, d: nat)
    requires m.Valid() && AllSent(ss, m) && Touched(e, d, m.msgId)
    ensures Touched(ReceiveAll(e, Packets(Frags(ss)), true), d, m.msgId)
    decreases |ss|
  {
    hide Receive, Touched, WellPacked;
    if ss != [] {
      Touches(e, ss[0], m, d);
      assert Packets(Frags(ss))[1..] == Packets(Frags(ss[1..]));
      TouchesAll(Receive(e, ArrivalOf(ss[0].f), true), ss[1..], m, d);
    }
  }

  lemma {:induction false} IgnoredAll(e: Endpoint, ss: seq<Sent>, m: Message)
    requires m.Valid() && AllSent(ss, m) && Duplicate(e, m.msgId)
    ensures ReceiveAll(e, Packets(Frags(ss)), true) == e
    decreases |ss|
  {
    hide Receive, WellPacked;
    if ss != [] {
      Ignored(e, ss[0].f, m, ss[0].flags);
      assert Packets(Frags(ss))[1..] == Packets(Frags(ss[1..]));
      IgnoredAll(e, ss[1..], m);
    }
  }

  /**
    Fragments of a message with nothing in progress, such as one already handed over, from any
    attempts: they change nothing if and only if the endpoint's sequence number is not below it.
    */
  lemma RepeatsIgnored(e: Endpoint, ss: seq<Sent>, m: Message)
    requires m.Valid() && AllSent(ss, m) && ss != [] && Clear(e, m.msgId)
    ensures ReceiveAll(e, Packets(Frags(ss)), true) == e <==> m.msgId <= e.psn
  {
    hide Receive, WellPacked, Clear;
    if m.msgId <= e.psn {
      IgnoredAll(e, ss, m);
    } else {
      Touches(e, ss[0], m, |e.delivered|);
      assert Packets(Frags(ss))[1..] == Packets(Frags(ss[1..]));
      TouchesAll(Receive(e, ArrivalOf(ss[0].f), true), ss[1..], m, |e.delivered|);
    }
  }

  // ----- two orders of four fragments -----

  function RestOf(m: Message, k: nat): Fragment
    requires m.Valid() && k <= |m.payload|
  {
    Fragment(false, k, |m.payload| - k, Middle(m, k, |m.payload| - k))
  }

  lemma TwoParts(m: Message, flags: Word16, k: nat)
    requires m.Valid() && k < |m.payload|
    ensures Whole([FirstOf(m, flags, k), RestOf(m, k)], |m.payload|)
    ensures WellPacked(FirstOf(m, flags, k), m, flags) && WellPacked(RestOf(m, k), m, flags)
  {
    hide First, Middle;
    var f, g := FirstOf(m, flags, k), RestOf(m, k);
    var fs := [f, g];
    assert fs[0] == f && fs[1] == g;
    forall x: nat | x < |m.payload|
      ensures Spanned(fs, x)
    {
      assert Spans(f, x) || Spans(g, x);
    }
  }

  function Own(it: Item, who: bool): seq<Fragment> { if it.mine == who then [it.f] else [] }

  lemma OfOne(a: Item, who: bool)
    ensures Of([a], who) == Own(a, who)
  {
    assert [a][1..] == [];
  }

  lemma OfFour(a: Item, b: Item, c: Item, d: Item, who: bool)
    ensures Of([a, b, c, d], who) == Own(a, who) + Own(b, who) + Own(c, who) + Own(d, who)
    ensures Of([a, b, c], who) == Own(a, who) + Own(b, who) + Own(c, who) && Of([d], who) == Own(d, who)
  {
    hide Of, Own;
    assert [a, b, c, d] == [a] + [b] + [c] + [d] && [a, b, c] == [a] + [b] + [c];
    OfConcat([a] + [b] + [c], [d], who);
    OfConcat([a] + [b], [c], who);
    OfConcat([a], [b], who);
    OfOne(a, who);
    OfOne(b, who);
    OfOne(c, who);
    OfOne(d, who);
  }

  /** The newer message's first fragment, the older one's, the rest of the newer one, the rest of the older one. */
  function Crossing(w: Two, j: nat, k: nat): seq<Item>
    requires w.Valid() && j < |w.m.payload| && k < |w.b.payload|
  {
    [Item(false, FirstOf(w.b, w.bFlags, k)), Item(true, FirstOf(w.m, w.mFlags, j)),
     Item(false, RestOf(w.b, k)), Item(true, RestOf(w.m, j))]
  }

  /** The newer message's first fragment, all of the older one, the rest of the newer one. */
  function Enclosing(w: Two, j: nat, k: nat): seq<Item>
    requires w.Valid() && j < |w.m.payload| && k < |w.b.payload|
  {
    [Item(false, FirstOf(w.b, w.bFlags, k)), Item(true, FirstOf(w.m, w.mFlags, j)),
     Item(true, RestOf(w.m, j)), Item(false, RestOf(w.b, k))]
  }

  lemma CrossingFacts(w: Two, j: nat, k: nat)
    requires w.Valid() && j < |w.m.payload| && k < |w.b.payload|
    ensures Interleaved(Crossing(w, j, k), w) && Late(Crossing(w, j, k)) && Stuck(Crossing(w, j, k))
  {
    hide Whole, WellPacked, First, Middle, Of, Row, RestOf;
    var items := Crossing(w, j, k);
    TwoParts(w.m, w.mFlags, j);
    TwoParts(w.b, w.bFlags, k);
    forall who
      ensures Of(items, who) == [items[if who then 1 else 0].f, items[if who then 3 else 2].f]
      ensures Of(items[3..], who) == if who then [items[3].f] else []
      ensures who ==> Of(items[..3], who) == [items[1].f]
    {
      assert items[3..] == [items[3]] && items[..3] == [items[0], items[1], items[2]];
      OfFour(items[0], items[1], items[2], items[3], who);
    }
    assert Leads(items[..3], false) by { FirstLeads(items[..3]); }
    assert Ready(items, 3, false) && LateAt(items, 3);
    forall i | 0 <= i < 3
      ensures !LateAt(items, i)
    {
      if items[i].mine {
        StillToCome(items[..3], i, false);
        assert items[i..] == items[..3][i..] + items[3..];
        OfConcat(items[..3][i..], items[3..], false);
      }
    }
    assert items[1].f in Of(items[..3], true) && HasFirst(Of(items[..3], true));
  }

  lemma FirstLeads(items: seq<Item>)
    requires items != [] && items[0].f.first
    ensures Leads(items, items[0].mine)
  {}

  /** The older message is lost, and its assembly blocks the list for ever. */
  lemma CrossingBlocks(e: Endpoint, w: Two, j: nat, k: nat)
    requires w.Valid() && Idle(e) && !Duplicate(e, w.m.msgId) && j < |w.m.payload| && k < |w.b.payload|
    ensures var e' := After(e, Crossing(w, j, k), true);
            e'.delivered == e.delivered + [MessageDelivery(w.b)] && Blocked(e')
  {
    hide After, Crossing, Late, Stuck, Blocked, Interleaved;
    CrossingFacts(w, j, k);
    TwoMessages(e, Crossing(w, j, k), w);
  }

  lemma EnclosingFacts(w: Two, j: nat, k: nat)
    requires w.Valid() && j < |w.m.payload| && k < |w.b.payload|
    ensures Interleaved(Enclosing(w, j, k), w) && !Late(Enclosing(w, j, k)) && Around(Enclosing(w, j, k))
  {
    hide Whole, WellPacked, First, Middle, Of, Row, RestOf;
    var items := Enclosing(w, j, k);
    TwoParts(w.m, w.mFlags, j);
    TwoParts(w.b, w.bFlags, k);
    forall who
      ensures Of(items, who) == [items[if who then 1 else 0].f, items[if who then 2 else 3].f]
    {
      OfFour(items[0], items[1], items[2], items[3], who);
    }
    FirstLeads(items);
    forall i | 0 <= i < 4
      ensures !LateAt(items, i)
    {
      StillToCome(items, i, false);
    }
  }

  /**
    Both messages are handed over, the newer one first.  The endpoint is left with the older one's
    sequence number, and a repeat of the newer one is taken for a new message.
    */
  lemma EnclosingForgets(e: Endpoint, w: Two, j: nat, k: nat)
    requires w.Valid() && Idle(e) && !Duplicate(e, w.m.msgId) && j < |w.m.payload| && k < |w.b.payload|
    ensures var e' := After(e, Enclosing(w, j, k), true);
            && e'.delivered == e.delivered + [MessageDelivery(w.b), MessageDelivery(w.m)]
            && ReceiveAll(e', Packets([FirstOf(w.b, w.bFlags, k)]), true) != e'
  {
    hide After, Enclosing, Late, Stuck, Blocked, Interleaved, Around, ReceiveAll, WellPacked, First;
    EnclosingFacts(w, j, k);
    TwoMessages(e, Enclosing(w, j, k), w);
    TwoParts(w.b, w.bFlags, k);
    var e' := After(e, Enclosing(w, j, k), true);
    var ss := [Sent(FirstOf(w.b, w.bFlags, k), w.bFlags)];
    assert Frags(ss) == [FirstOf(w.b, w.bFlags, k)];
    RepeatsIgnored(e', ss, w.b);
  }
}
