/**
  Sending a message in several fragments: the buffered-copy and zero-copy protocols, and the
  restartable zero-copy protocol.  A request remembers whether its first fragment went out and
  how far its data iterator has come; lanes may be full, and a request may be reset.
  */
module AmSender {
  import opened Bytes
  import opened AmWire

  datatype Proto = Bcopy | Zcopy | ZcopyPsn

  /** A lane's fragment size, and the share of the message assigned to it. */
  datatype Lane = Lane(maxFrag: nat, share: nat)

  /** The transport's answer to one send. */
  datatype Status = Ok | InProgress | NoResource | Error

  /** What becomes of a request that found its lane full. */
  datatype Pending = SameLane | Queued | Busy

  datatype Event =
    | Progress(lane: Lane, k: nat, status: Status, pending: Pending)
    | Reset

  /** desc: the registered buffer that zero-copy footers are sent from. */
  datatype Request = Request(
    proto: Proto, headerSent: bool, flags: Word16, offset: nat, complete: bool, aborted: bool, desc: seq<Byte>)

  datatype Fragment = Fragment(first: bool, offset: nat, k: nat, bytes: seq<Byte>)

  function Initial(proto: Proto, m: Message): Request {
    Request(proto, false, m.flags, 0, false, false, [])
  }

  function MetaLen(r: Request, m: Message): nat {
    if r.headerSent then MID_META_LEN else FIRST_META_LEN + |m.userHdr|
  }

  /** Largest payload a lane takes; a header that fills the lane leaves no room at all. */
  function MaxPayload(lane: Lane, metaLen: nat): nat {
    if lane.maxFrag <= metaLen then 0
    else if lane.share < lane.maxFrag - metaLen then lane.share else lane.maxFrag - metaLen
  }

  /** The data iterator packs k bytes: some, if there is room and data, and no more than either. */
  predicate Packs(r: Request, m: Message, lane: Lane, k: nat) {
    var max := MaxPayload(lane, MetaLen(r, m));
    && lane.share > 0 && k <= max && r.offset + k <= |m.payload|
    && (max > 0 && r.offset < |m.payload| ==> k > 0)
    && (r.headerSent ==> max > 0)
  }

  predicate Enabled(r: Request, m: Message, e: Event) {
    match e
    case Progress(lane, k, _, _) => !r.complete && !r.aborted && Packs(r, m, lane, k)
    case Reset => !r.aborted && (r.complete ==> r.proto.ZcopyPsn?)
  }

  /** Footer buffer once the next fragment has been prepared. */
  function DescFor(r: Request, m: Message): seq<Byte>
    requires |m.payload| < TWO64
  {
    if r.proto.Bcopy? || r.headerSent then r.desc
    else m.userHdr + FirstFooter(m.msgId, m.epId, |m.payload|)
  }

  predicate DescReady(r: Request, m: Message) {
    r.proto.Bcopy? || (r.headerSent ==> |r.desc| == |m.userHdr| + FIRST_FTR_LEN)
  }

  /** The packet handed to the transport. */
  function Packet(r: Request, m: Message, k: nat): seq<Byte>
    requires |m.userHdr| < TWO32 && r.offset + k <= |m.payload| < TWO64 && DescReady(r, m)
    requires !r.headerSent ==> r.offset == 0
  {
    if r.proto.Bcopy? then
      if r.headerSent then Middle(m, r.offset, k) else First(m, r.flags, k)
    else
      var data := m.payload[r.offset..r.offset + k];
      var desc := DescFor(r, m);
      if r.headerSent then LE64(r.offset) + data + desc[|m.userHdr|..|m.userHdr| + MID_FTR_LEN]
      else Header(m.amId, r.flags, |m.userHdr|) + data + desc
  }

  predicate Accepted(proto: Proto, status: Status) {
    status.Ok? || (status.InProgress? && !proto.Bcopy?)
  }

  function SetResend(flags: Word16): Word16 {
    if flags >= FLAG_RESEND then flags else flags + FLAG_RESEND
  }

  /** The request after one event. */
  function After(r: Request, m: Message, e: Event): Request
    requires |m.payload| < TWO64
  {
    match e
    case Progress(_, k, status, pending) =>
      var r1 := r.(desc := DescFor(r, m));
      if Accepted(r.proto, status) then
        r1.(headerSent := true, offset := r.offset + k, complete := r.offset + k == |m.payload|)
      else if status.NoResource? then
        // A busy retry reports "in progress", which the restartable protocol takes for "sent".
        if r.proto.ZcopyPsn? && pending.Busy? then r1.(headerSent := true) else r1
      else
        r1.(aborted := true)
    case Reset =>
      match r.proto
      case Bcopy => r
      case Zcopy => if r.headerSent then r.(proto := Bcopy) else r
      case ZcopyPsn =>
        r.(headerSent := false, offset := 0, complete := false, desc := [], flags := SetResend(r.flags))
  }

  // ----- runs -----

  /**
    A request with what was accepted since its last restart.  `skipped`: since then, a busy
    retry of the first fragment was mistaken for its being sent.
    */
  datatype Trace = Trace(r: Request, log: seq<Fragment>, restarts: nat, skipped: bool)

  predicate SkipsFirst(r: Request, e: Event) {
    e.Progress? && r.proto.ZcopyPsn? && !r.headerSent && e.status.NoResource? && e.pending.Busy?
  }

  /** Every reachable request. */
  ghost predicate Sound(r: Request, m: Message) {
    && m.Valid() && r.offset <= |m.payload| && DescReady(r, m)
    && (!r.headerSent ==> r.offset == 0)
    && (!r.proto.Bcopy? && r.headerSent ==> r.desc == m.userHdr + FirstFooter(m.msgId, m.epId, |m.payload|))
    && (r.complete ==> r.headerSent && r.offset == |m.payload|)
  }

  /** Every reachable request, with the flags it sends. */
  ghost predicate Coherent(t: Trace, m: Message) {
    && Sound(t.r, m)
    && (if t.restarts == 0 then t.r.flags == m.flags else t.r.flags == SetResend(m.flags))
  }

  function Step(t: Trace, m: Message, e: Event): Trace
    requires Coherent(t, m) && Enabled(t.r, m, e)
  {
    var r := t.r;
    match e
    case Progress(_, k, status, _) =>
      var log := if Accepted(r.proto, status)
                 then t.log + [Fragment(!r.headerSent, r.offset, k, Packet(r, m, k))] else t.log;
      Trace(After(r, m, e), log, t.restarts, t.skipped || SkipsFirst(r, e))
    case Reset =>
      if r.proto.ZcopyPsn? then Trace(After(r, m, e), [], t.restarts + 1, false)
      else Trace(After(r, m, e), t.log, t.restarts, t.skipped)
  }

  /** Fragments in order, without gap or overlap, one first fragment at the front. */
  predicate Tiled(log: seq<Fragment>, end: nat) {
    if log == [] then end == 0
    else
      var f := log[|log| - 1];
      && Tiled(log[..|log| - 1], f.offset) && f.offset + f.k == end
      && (f.first <==> |log| == 1) && (!f.first ==> f.k > 0)
  }

  predicate WellPacked(f: Fragment, m: Message, flags: Word16)
    requires |m.userHdr| < TWO32 && |m.payload| < TWO64
  {
    f.offset + f.k <= |m.payload| &&
    f.bytes == if f.first then First(m, flags, f.k) else Middle(m, f.offset, f.k)
  }

  /** What every run maintains, unless a first fragment was skipped. */
  ghost predicate Orderly(t: Trace, m: Message)
    requires m.Valid()
  {
    && Tiled(t.log, t.r.offset)
    && (t.r.headerSent <==> t.log != [])
    && (t.r.headerSent && !t.r.complete ==> t.r.offset < |m.payload|)
    && (forall i :: 0 <= i < |t.log| ==> WellPacked(t.log[i], m, t.r.flags))
  }

  /** Once the first fragment is skipped, none is sent until the next restart. */
  ghost predicate Headless(t: Trace) {
    t.r.headerSent && forall i :: 0 <= i < |t.log| ==> !t.log[i].first
  }

  ghost predicate Invariant(t: Trace, m: Message) {
    && Coherent(t, m)
    && (!t.skipped ==> Orderly(t, m))
    && (t.skipped ==> Headless(t))
  }

  /** Zero-copy footers come out as documented: the middle footer is a prefix of the first one. */
  lemma PacketLayout(r: Request, m: Message, k: nat)
    requires m.Valid() && r.offset + k <= |m.payload| && DescReady(r, m)
    requires !r.headerSent ==> r.offset == 0
    requires !r.proto.Bcopy? && r.headerSent ==> r.desc == m.userHdr + FirstFooter(m.msgId, m.epId, |m.payload|)
    ensures Packet(r, m, k) == if r.headerSent then Middle(m, r.offset, k) else First(m, r.flags, k)
  {
    hide LE64;
    var ftr := FirstFooter(m.msgId, m.epId, |m.payload|);
    if !r.proto.Bcopy? {
      if r.headerSent {
        assert r.desc[|m.userHdr|..|m.userHdr| + MID_FTR_LEN] == ftr[..MID_FTR_LEN] == MidFooter(m.msgId, m.epId);
      } else {
        var hdr := Header(m.amId, r.flags, |m.userHdr|);
        assert m.payload[0..k] == m.payload[..k];
        assert hdr + m.payload[..k] + (m.userHdr + ftr) == hdr + m.payload[..k] + m.userHdr + ftr;
      }
    }
  }

  lemma StepCoherent(t: Trace, m: Message, e: Event)
    requires Coherent(t, m) && Enabled(t.r, m, e)
    ensures Coherent(Step(t, m, e), m)
  {
    hide LE64, LE32, Packet;
  }

  lemma StepInvariant(t: Trace, m: Message, e: Event)
    requires Invariant(t, m) && Enabled(t.r, m, e)
    ensures Invariant(Step(t, m, e), m)
  {
    hide Packet, LE64, LE32, Orderly, Headless, Step;
    StepCoherent(t, m, e);
    StepSkipped(t, m, e);
    if t.skipped {
      StepHeadless(t, m, e);
    } else {
      StepOrderly(t, m, e);
    }
  }

  lemma StepSkipped(t: Trace, m: Message, e: Event)
    requires Coherent(t, m) && Enabled(t.r, m, e)
    ensures var t' := Step(t, m, e);
            t.skipped && !t'.skipped ==> Orderly(t', m)
  {
    hide Packet, LE64, LE32;
  }

  lemma StepHeadless(t: Trace, m: Message, e: Event)
    requires Coherent(t, m) && Enabled(t.r, m, e) && t.skipped && Headless(t)
    ensures Step(t, m, e).skipped ==> Headless(Step(t, m, e))
  {
    hide Packet, LE64, LE32;
  }

  lemma StepOrderly(t: Trace, m: Message, e: Event)
    requires Coherent(t, m) && Enabled(t.r, m, e) && !t.skipped && Orderly(t, m)
    ensures var t' := Step(t, m, e);
            if t'.skipped then Headless(t') else Orderly(t', m)
  {
    hide Packet, First, Middle, LE64, LE32;
    var t' := Step(t, m, e);
    if e.Progress? && Accepted(t.r.proto, e.status) {
      PacketLayout(t.r, m, e.k);
      assert t'.log[..|t'.log| - 1] == t.log;
    }
  }

  ghost predicate Allowed(t: Trace, m: Message, events: seq<Event>)
    requires Coherent(t, m)
    decreases |events|
  {
    events == [] ||
    (Enabled(t.r, m, events[0]) &&
     (StepCoherent(t, m, events[0]); Allowed(Step(t, m, events[0]), m, events[1..])))
  }

  ghost function Run(t: Trace, m: Message, events: seq<Event>): Trace
    requires Coherent(t, m) && Allowed(t, m, events)
    decreases |events|
  {
    if events == [] then t
    else StepCoherent(t, m, events[0]); Run(Step(t, m, events[0]), m, events[1..])
  }

  lemma {:induction false} RunInvariant(t: Trace, m: Message, events: seq<Event>)
    requires Invariant(t, m) && Allowed(t, m, events)
    ensures Invariant(Run(t, m, events), m)
    decreases |events|
  {
    hide Coherent, Orderly, Headless, Enabled, Step;
    if events != [] {
      StepInvariant(t, m, events[0]);
      RunInvariant(Step(t, m, events[0]), m, events[1..]);
    }
  }

  function Start(proto: Proto, m: Message): Trace { Trace(Initial(proto, m), [], 0, false) }

  /**
    For every schedule of lane limits, full lanes and resets: the fragments accepted since the
    last restart are one first fragment at offset 0 and then middle fragments tiling the message
    up to the request's offset, each laid out as documented, if and only if no busy retry hit
    the first fragment since then.  After a restart the first fragment carries the resend flag.
    */
  lemma SendTiles(proto: Proto, m: Message, events: seq<Event>)
    requires m.Valid() && Coherent(Start(proto, m), m) && Allowed(Start(proto, m), m, events)
    ensures var t := Run(Start(proto, m), m, events);
            && (Orderly(t, m) <==> !t.skipped)
            && (t.restarts > 0 ==> t.r.flags >= FLAG_RESEND)
            && (t.r.complete && !t.skipped ==> t.log != [] && Tiled(t.log, |m.payload|))
  {
    hide Allowed, Run, Step, Coherent;
    var s := Start(proto, m);
    assert Invariant(s, m);
    RunInvariant(s, m, events);
    var t := Run(s, m, events);
    CoherentFacts(t, m);
    if t.skipped && t.log != [] {
      TiledFirst(t.log, t.r.offset);
    }
  }

  lemma CoherentFacts(t: Trace, m: Message)
    requires Coherent(t, m)
    ensures t.restarts > 0 ==> t.r.flags >= FLAG_RESEND
    ensures t.r.complete ==> t.r.headerSent && t.r.offset == |m.payload|
  {}

  lemma {:induction false} TiledFirst(log: seq<Fragment>, end: nat)
    requires log != []
    ensures Tiled(log, end) ==> log[0].first && log[0].offset == 0
    decreases |log|
  {
    if |log| > 1 {
      var f := log[|log| - 1];
      assert log[..|log| - 1][0] == log[0];
      TiledFirst(log[..|log| - 1], f.offset);
    } else {
      assert log[..|log| - 1] == [];
      assert Tiled(log, end) ==> Tiled([], log[0].offset);
    }
  }

  /** A schedule that loses the first fragment: one busy retry, then the message goes out headless. */
  lemma BusyRetryLosesFirst(m: Message)
    requires m.Valid() && |m.payload| == 1 && m.userHdr == []
    ensures var s := Start(ZcopyPsn, m);
            var lane := Lane(64, 1);
            var events := [Progress(lane, 1, NoResource, Busy), Progress(lane, 1, Ok, SameLane)];
            && Coherent(s, m) && Allowed(s, m, events)
            && Run(s, m, events).r.complete && Run(s, m, events).log == [Fragment(false, 0, 1, Middle(m, 0, 1))]
  {
    hide LE64, LE32, First, Middle;
    var s := Start(ZcopyPsn, m);
    var e1, e2 := Progress(Lane(64, 1), 1, NoResource, Busy), Progress(Lane(64, 1), 1, Ok, SameLane);
    var events := [e1, e2];
    assert Invariant(s, m);
    StepInvariant(s, m, e1);
    var t := Step(s, m, e1);
    PacketLayout(t.r, m, 1);
    StepInvariant(t, m, e2);
    assert events[1..] == [e2] && events[1..][1..] == [];
    assert Allowed(Step(t, m, e2), m, []) && Run(Step(t, m, e2), m, []) == Step(t, m, e2);
    assert Allowed(t, m, [e2]) && Run(t, m, [e2]) == Step(t, m, e2);
  }

  // ----- full lanes, errors and progress -----

  /** An answer other than success or a full lane; buffered copies are never "in progress". */
  predicate Fails(r: Request, e: Event) {
    e.Progress? && (e.status.Error? || (e.status.InProgress? && r.proto.Bcopy?))
  }

  /**
    A full lane leaves the request pending where it was, and the same fragment can be tried again;
    an error aborts it and changes nothing else; success moves it on by what was packed.
    */
  lemma RoundOutcome(t: Trace, m: Message, e: Event)
    requires Coherent(t, m) && e.Progress? && Enabled(t.r, m, e)
    ensures var r, r' := t.r, Step(t, m, e).r;
            && r'.proto == r.proto && r'.flags == r.flags
            && (e.status.NoResource? ==>
                  && !r'.aborted && !r'.complete && r'.offset == r.offset && Step(t, m, e).log == t.log
                  && (r'.headerSent <==> r.headerSent || SkipsFirst(r, e))
                  && (!SkipsFirst(r, e) ==> Enabled(r', m, e)))
            && (Fails(r, e) ==>
                  && r'.aborted && !r'.complete && r'.offset == r.offset && r'.headerSent == r.headerSent
                  && Step(t, m, e).log == t.log)
            && (!e.status.NoResource? && !Fails(r, e) ==>
                  && !r'.aborted && r'.headerSent && r'.offset == r.offset + e.k
                  && (r'.complete <==> r.offset + e.k == |m.payload|) && |Step(t, m, e).log| == |t.log| + 1)
  {
    hide Packet, LE64, LE32;
  }

  /** Some event of a run fails. */
  ghost predicate Faulty(t: Trace, m: Message, events: seq<Event>)
    requires Coherent(t, m) && Allowed(t, m, events)
    decreases |events|
  {
    events != [] &&
    (Fails(t.r, events[0]) ||
     (StepCoherent(t, m, events[0]); Faulty(Step(t, m, events[0]), m, events[1..])))
  }

  /** Over every run: a request is aborted if and only if some round failed, which is then the last event. */
  lemma {:induction false} AbortsExactly(t: Trace, m: Message, events: seq<Event>)
    requires Coherent(t, m) && Allowed(t, m, events) && !t.r.aborted
    ensures Run(t, m, events).r.aborted <==> Faulty(t, m, events)
    ensures Faulty(t, m, events) ==> events != [] && events[|events| - 1].Progress?
    decreases |events|
  {
    hide Packet, LE64, LE32, Coherent;
    if events != [] {
      var e := events[0];
      StepCoherent(t, m, e);
      var t' := Step(t, m, e);
      if e.Progress? {
        RoundOutcome(t, m, e);
      }
      if t'.r.aborted {
        assert events[1..] == [];
      } else {
        AbortsExactly(t', m, events[1..]);
      }
    }
  }

  /** What is left to do: bytes, and the first fragment. */
  function Left(r: Request, m: Message): int { |m.payload| - r.offset + if r.headerSent then 0 else 1 }

  /** A lane that can carry something with either header. */
  predicate Usable(lane: Lane, m: Message) {
    lane.share > 0 && MaxPayload(lane, FIRST_META_LEN + |m.userHdr|) > 0 && MaxPayload(lane, MID_META_LEN) > 0
  }

  /**
    Every reachable request that is neither complete nor aborted can be completed, on any lane that
    can carry something, by rounds that all succeed.
    */
  lemma {:induction false} CanComplete(t: Trace, m: Message, lane: Lane) returns (events: seq<Event>)
    requires Coherent(t, m) && !t.r.complete && !t.r.aborted && Usable(lane, m)
    ensures Allowed(t, m, events) && Run(t, m, events).r.complete && !Faulty(t, m, events)
    ensures forall i :: 0 <= i < |events| ==> events[i].Progress? && events[i].lane == lane
    decreases Left(t.r, m)
  {
    hide Packet, LE64, LE32, Step, Coherent, MaxPayload;
    CoherentBounds(t, m);
    var rest, max := |m.payload| - t.r.offset, MaxPayload(lane, MetaLen(t.r, m));
    var k := if rest < max then rest else max;
    var e := Progress(lane, k, Ok, SameLane);
    StepCoherent(t, m, e);
    RoundOutcome(t, m, e);
    var t' := Step(t, m, e);
    var more: seq<Event> := [];
    if !t'.r.complete {
      more := CanComplete(t', m, lane);
    }
    events := [e] + more;
    assert events[1..] == more;
  }

  lemma CoherentBounds(t: Trace, m: Message)
    requires Coherent(t, m)
    ensures t.r.offset <= |m.payload| && (!t.r.headerSent ==> t.r.offset == 0)
  {}

  // ----- the request as code -----

  class SendRequest {
    const m: Message
    var proto: Proto
    var headerSent: bool
    var flags: Word16
    var offset: nat
    var complete: bool
    var aborted: bool
    var desc: seq<Byte>

    ghost function View(): Request
      reads this
    {
      Request(proto, headerSent, flags, offset, complete, aborted, desc)
    }

    constructor (proto: Proto, m: Message)
      ensures this.m == m && View() == Initial(proto, m)
    {
      this.m, this.proto, flags := m, proto, m.flags;
      headerSent, offset, complete, aborted, desc := false, 0, false, false, [];
    }

    /** Buffered copy: header, data and footer are packed into one buffer. */
    method BcopySend(k: nat, status: Status) returns (packet: seq<Byte>)
      requires Sound(View(), m) && proto.Bcopy? && offset + k <= |m.payload|
      modifies this`headerSent
      ensures packet == Packet(old(View()), m, k)
      ensures headerSent == (old(headerSent) || status.Ok?)
    {
      hide Header, FirstFooter, MidFooter, LE64;
      if !headerSent {
        packet := Header(m.amId, flags, |m.userHdr|) + m.payload[..k] + m.userHdr
                  + FirstFooter(m.msgId, m.epId, |m.payload|);
        if status.Ok? {
          headerSent := true;
        }
      } else {
        packet := LE64(offset) + m.payload[offset..offset + k] + MidFooter(m.msgId, m.epId);
      }
    }

    /** Zero copy: the footer is sent from a registered buffer, filled with the first fragment. */
    method ZcopySend(k: nat, status: Status) returns (packet: seq<Byte>)
      requires Sound(View(), m) && !proto.Bcopy? && offset + k <= |m.payload|
      modifies this`headerSent, this`desc
      ensures packet == Packet(old(View()), m, k) && desc == DescFor(old(View()), m)
      ensures headerSent == (old(headerSent) || status.Ok? || status.InProgress?)
    {
      hide Header, FirstFooter, LE64;
      FooterLength(m);
      var footerOffset, footerSize, hdr;
      if !headerSent {
        footerSize, footerOffset := FIRST_FTR_LEN + |m.userHdr|, 0;
        hdr := Header(m.amId, flags, |m.userHdr|);
        desc := m.userHdr + FirstFooter(m.msgId, m.epId, |m.payload|);
        assert desc[0..footerSize] == desc;
      } else {
        footerSize, footerOffset := MID_FTR_LEN, |m.userHdr|;
        hdr := LE64(offset);
      }
      packet := hdr + m.payload[offset..offset + k] + desc[footerOffset..footerOffset + footerSize];
      if status.Ok? || status.InProgress? {
        headerSent := true;
      }
    }

    /** One round: send the next fragment and advance, or deal with a lane that is full. */
    method ProgressOnce(lane: Lane, k: nat, status: Status, pending: Pending) returns (sent: Option<seq<Byte>>)
      requires Sound(View(), m) && Enabled(View(), m, Progress(lane, k, status, pending))
      modifies this
      ensures View() == After(old(View()), m, Progress(lane, k, status, pending))
      ensures sent == if Accepted(old(proto), status) then Some(Packet(old(View()), m, k)) else None
    {
      hide Packet, FirstFooter;
      var packet;
      if proto.Bcopy? {
        packet := BcopySend(k, status);
      } else {
        packet := ZcopySend(k, status);
      }
      if status.Ok? || (status.InProgress? && !proto.Bcopy?) {
        sent := Some(packet);
        offset := offset + k;
        if offset == |m.payload| {
          complete := true;
        }
      } else {
        sent := None;
        if status.NoResource? {
          // The restartable protocol marks the first fragment as sent on any "in progress".
          if proto.ZcopyPsn? && pending.Busy? {
            headerSent := true;
          }
        } else {
          aborted := true;
        }
      }
    }

    /** Resets the request: buffered copy resumes where it was, the restartable protocol starts over. */
    method ResetRequest()
      requires Sound(View(), m) && Enabled(View(), m, Reset)
      modifies this
      ensures View() == After(old(View()), m, Reset)
    {
      if proto.ZcopyPsn? {
        desc := [];
        offset := 0;
        complete := false;
        headerSent := false;
        flags := if flags >= FLAG_RESEND then flags else flags + FLAG_RESEND;
      } else if proto.Zcopy? && headerSent {
        proto := Bcopy;
      }
    }
  }

  lemma FooterLength(m: Message)
    requires |m.payload| < TWO64
    ensures |FirstFooter(m.msgId, m.epId, |m.payload|)| == FIRST_FTR_LEN
  {
    hide LE64;
  }
}
