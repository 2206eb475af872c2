/**
  Wire layout of multi-fragment active messages.  Every fragment starts with eight bytes of
  header; what else is needed follows the payload as a footer.
  */
module AmWire {
  import opened Bytes

  type Word16 = w: int | 0 <= w < 65536

  const HDR_LEN: nat := 8
  const MID_FTR_LEN: nat := 16
  const FIRST_FTR_LEN: nat := 24
  const FIRST_META_LEN: nat := HDR_LEN + FIRST_FTR_LEN
  const MID_META_LEN: nat := HDR_LEN + MID_FTR_LEN

  /** Bit 15 of the header flags: the first fragment of a restarted message. */
  const FLAG_RESEND: Word16 := 0x8000

  /** A message as the user sent it, and the identifiers that match its fragments. */
  datatype Message = Message(
    amId: Word16, flags: Word16, userHdr: seq<Byte>, payload: seq<Byte>, msgId: Word, epId: Word)
  {
    ghost predicate Valid() {
      |userHdr| < TWO32 && |payload| < TWO64 && flags < FLAG_RESEND && msgId != 0
    }
  }

  function LE16(v: Word16): (s: seq<Byte>)
    ensures |s| == 2
  {
    [v % 256, v / 256]
  }

  function U16(s: seq<Byte>, i: nat): Word16
    requires i + 2 <= |s|
  {
    s[i] as int + 256 * s[i + 1] as int
  }

  // ----- packing -----

  function Header(amId: Word16, flags: Word16, userHdrLen: Word32): seq<Byte> {
    LE16(amId) + LE16(flags) + LE32(userHdrLen)
  }

  function MidFooter(msgId: Word, epId: Word): seq<Byte> { LE64(msgId) + LE64(epId) }

  function FirstFooter(msgId: Word, epId: Word, total: Word): seq<Byte> {
    MidFooter(msgId, epId) + LE64(total)
  }

  /** The first fragment, with the first k payload bytes. */
  function First(m: Message, flags: Word16, k: nat): seq<Byte>
    requires k <= |m.payload| < TWO64 && |m.userHdr| < TWO32
  {
    Header(m.amId, flags, |m.userHdr|) + m.payload[..k] + m.userHdr + FirstFooter(m.msgId, m.epId, |m.payload|)
  }

  /** A later fragment, with k payload bytes from the given offset. */
  function Middle(m: Message, offset: nat, k: nat): seq<Byte>
    requires offset + k <= |m.payload| < TWO64
  {
    LE64(offset) + m.payload[offset..offset + k] + MidFooter(m.msgId, m.epId)
  }

  // ----- parsing -----

  datatype FirstView = FirstView(
    amId: Word16, flags: Word16, data: seq<Byte>, userHdr: seq<Byte>, msgId: Word, epId: Word, total: Word)

  datatype MidView = MidView(offset: Word, data: seq<Byte>, msgId: Word, epId: Word)

  /** A first fragment as the receiver takes it apart: footer from the end, user header before it. */
  function ParseFirst(b: seq<Byte>): Option<FirstView> {
    if |b| < FIRST_META_LEN || |b| < FIRST_META_LEN + U32(b, 4) then None
    else
      var ftr := |b| - FIRST_FTR_LEN;
      var hdrLen := U32(b, 4);
      Some(FirstView(U16(b, 0), U16(b, 2), b[HDR_LEN..ftr - hdrLen], b[ftr - hdrLen..ftr],
                     U64(b, ftr), U64(b, ftr + 8), U64(b, ftr + 16)))
  }

  function ParseMiddle(b: seq<Byte>): Option<MidView> {
    if |b| < MID_META_LEN then None
    else
      var ftr := |b| - MID_FTR_LEN;
      Some(MidView(U64(b, 0), b[HDR_LEN..ftr], U64(b, ftr), U64(b, ftr + 8)))
  }

  /** A number read back from anywhere inside a packet. */
  lemma Inside64(a: seq<Byte>, v: Word, c: seq<Byte>)
    ensures U64(a + LE64(v) + c, |a|) == v
  {
    hide LE64, U64;
    var s := a + LE64(v) + c;
    assert s[|a|..|a| + 8] == LE64(v);
    RoundTrip64(v, s, |a|);
  }

  lemma HeaderParses(amId: Word16, flags: Word16, n: Word32, rest: seq<Byte>)
    ensures var b := Header(amId, flags, n) + rest;
            |b| == HDR_LEN + |rest| && U16(b, 0) == amId && U16(b, 2) == flags && U32(b, 4) == n
  {
    hide U32, LE32;
    var b := Header(amId, flags, n) + rest;
    assert b[0..2] == LE16(amId) && b[2..4] == LE16(flags) && b[4..8] == LE32(n);
    assert b[0] == b[0..2][0] && b[1] == b[0..2][1] && b[2] == b[2..4][0] && b[3] == b[2..4][1];
    RoundTrip32(n, b, 4);
  }

  lemma FooterParses(front: seq<Byte>, msgId: Word, epId: Word, total: Word)
    ensures var b := front + FirstFooter(msgId, epId, total);
            U64(b, |front|) == msgId && U64(b, |front| + 8) == epId && U64(b, |front| + 16) == total
  {
    hide LE64, U64;
    var b := front + FirstFooter(msgId, epId, total);
    assert b == front + LE64(msgId) + (LE64(epId) + LE64(total));
    Inside64(front, msgId, LE64(epId) + LE64(total));
    assert b == (front + LE64(msgId)) + LE64(epId) + LE64(total);
    Inside64(front + LE64(msgId), epId, LE64(total));
    assert b == (front + LE64(msgId) + LE64(epId)) + LE64(total) + [];
    Inside64(front + LE64(msgId) + LE64(epId), total, []);
  }

  /** Parsing undoes packing, for every first fragment. */
  lemma FirstRoundTrip(m: Message, flags: Word16, k: nat)
    requires k <= |m.payload| < TWO64 && |m.userHdr| < TWO32
    ensures ParseFirst(First(m, flags, k)) ==
            Some(FirstView(m.amId, flags, m.payload[..k], m.userHdr, m.msgId, m.epId, |m.payload|))
    ensures var b := First(m, flags, k);
            && |b| == 8 + k + |m.userHdr| + 24 && U16(b, 0) == m.amId && U16(b, 2) == flags && U32(b, 4) == |m.userHdr|
            && b[8..8 + k] == m.payload[..k] && b[8 + k..|b| - 24] == m.userHdr
            && U64(b, |b| - 24) == m.msgId && U64(b, |b| - 16) == m.epId && U64(b, |b| - 8) == |m.payload|
  {
    hide U32, U64, LE32, LE64;
    var b := First(m, flags, k);
    var ftr := FirstFooter(m.msgId, m.epId, |m.payload|);
    var hdr := Header(m.amId, flags, |m.userHdr|);
    assert b == hdr + (m.payload[..k] + m.userHdr + ftr);
    HeaderParses(m.amId, flags, |m.userHdr|, m.payload[..k] + m.userHdr + ftr);
    var front := hdr + m.payload[..k] + m.userHdr;
    FooterParses(front, m.msgId, m.epId, |m.payload|);
    assert b[HDR_LEN..HDR_LEN + k] == m.payload[..k];
    assert b[HDR_LEN + k..HDR_LEN + k + |m.userHdr|] == m.userHdr;
  }

  /** Parsing undoes packing, for every later fragment. */
  lemma MiddleRoundTrip(m: Message, offset: nat, k: nat)
    requires offset + k <= |m.payload| < TWO64
    ensures ParseMiddle(Middle(m, offset, k)) ==
            Some(MidView(offset, m.payload[offset..offset + k], m.msgId, m.epId))
    ensures var b := Middle(m, offset, k);
            && |b| == 8 + k + 16 && U64(b, 0) == offset && b[8..8 + k] == m.payload[offset..offset + k]
            && U64(b, |b| - 16) == m.msgId && U64(b, |b| - 8) == m.epId
  {
    hide U64, LE64;
    var b := Middle(m, offset, k);
    var data := m.payload[offset..offset + k];
    assert b == [] + LE64(offset) + (data + MidFooter(m.msgId, m.epId));
    Inside64([], offset, data + MidFooter(m.msgId, m.epId));
    var front := LE64(offset) + data;
    assert b == front + LE64(m.msgId) + LE64(m.epId);
    Inside64(front, m.msgId, LE64(m.epId));
    assert b == (front + LE64(m.msgId)) + LE64(m.epId) + [];
    Inside64(front + LE64(m.msgId), m.epId, []);
    assert b[HDR_LEN..HDR_LEN + k] == data;
  }
}
