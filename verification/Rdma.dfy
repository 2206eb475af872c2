/**
  Remote reads and writes on the loopback device.  The sender flattens its segment list into pieces
  of 8 address bytes and 4 length bytes; the receiver puts the records together again and copies.
  */
module Rdma {
  import opened Bytes
  import opened ScatterGather

  const RECORD: nat := 12

  datatype Sge = Sge(addr: Word, length: Word32)

  datatype Header = Header(opcode: Opcode, rkey: int, addr: Word, count: nat, len: nat)

  function Total(sges: seq<Sge>): nat {
    if sges == [] then 0 else sges[0].length as nat + Total(sges[1..])
  }

  // ----- the descriptors on the wire -----

  function Pieces(sges: seq<Sge>): (p: seq<seq<Byte>>)
    ensures |p| == 2 * |sges|
  {
    if sges == [] then [] else [LE64(sges[0].addr), LE32(sges[0].length)] + Pieces(sges[1..])
  }

  function Descriptors(sges: seq<Sge>): (s: seq<Byte>)
    ensures |s| == RECORD * |sges|
  {
    if sges == [] then [] else LE64(sges[0].addr) + LE32(sges[0].length) + Descriptors(sges[1..])
  }

  lemma {:induction false} PiecesFlat(sges: seq<Sge>)
    ensures Flatten(Pieces(sges)) == Descriptors(sges)
  {
    if sges != [] {
      var p := Pieces(sges);
      assert p[1..][1..] == Pieces(sges[1..]);
      PiecesFlat(sges[1..]);
    }
  }

  lemma {:induction false} PiecesAppend(sges: seq<Sge>, e: Sge)
    ensures Pieces(sges + [e]) == Pieces(sges) + [LE64(e.addr), LE32(e.length)]
    ensures Total(sges + [e]) == Total(sges) + e.length as nat
  {
    if sges == [] {
      assert sges + [e] == [e];
      assert Pieces([]) == [] && Total([]) == 0;
    } else {
      assert (sges + [e])[1..] == sges[1..] + [e];
      PiecesAppend(sges[1..], e);
    }
  }

  /** A record of the packed table. */
  function RecordAt(data: seq<Byte>, i: nat): Sge
    requires RECORD * (i + 1) <= |data|
  {
    Sge(U64(data, RECORD * i), U32(data, RECORD * i + 8))
  }

  /** Every record reads back as the segment it was made from. */
  lemma {:induction false} DescriptorsRoundTrip(sges: seq<Sge>, i: nat)
    requires i < |sges|
    ensures RecordAt(Descriptors(sges), i) == sges[i]
  {
    var d := Descriptors(sges);
    DescriptorsAt(sges, i);
    RoundTrip64(sges[i].addr, d, RECORD * i);
    RoundTrip32(sges[i].length, d, RECORD * i + 8);
  }

  lemma {:induction false} DescriptorsAt(sges: seq<Sge>, i: nat)
    requires i < |sges|
    ensures Descriptors(sges)[RECORD * i..RECORD * i + 8] == LE64(sges[i].addr)
    ensures Descriptors(sges)[RECORD * i + 8..RECORD * i + 12] == LE32(sges[i].length)
  {
    hide LE64, LE32;
    var d := Descriptors(sges);
    if i > 0 {
      var t := Descriptors(sges[1..]);
      assert d[RECORD..] == t;
      DescriptorsAt(sges[1..], i - 1);
      assert d[RECORD * i..RECORD * i + 8] == t[RECORD * (i - 1)..RECORD * (i - 1) + 8];
      assert d[RECORD * i + 8..RECORD * i + 12] == t[RECORD * (i - 1) + 8..RECORD * (i - 1) + 12];
    }
  }

  /** Fills the pieces after the header and adds up the lengths. */
  method Serialize(header: seq<Byte>, sges: seq<Sge>) returns (iov: seq<seq<Byte>>, total: nat)
    requires |sges| <= MAX_SGE
    ensures iov == [header] + Pieces(sges) && total == Total(sges)
  {
    hide Pieces, Total, LE64, LE32;
    var table := new seq<Byte>[2 * MAX_SGE + 1](_ => []);
    table[0] := header;
    total := 0;
    NoPieces();
    for i := 0 to |sges|
      invariant table.Length == 2 * MAX_SGE + 1 && total == Total(sges[..i])
      invariant table[..1 + 2 * i] == [header] + Pieces(sges[..i])
    {
      AddPieces(table, i, sges[i], table[..1 + 2 * i]);
      total := total + sges[i].length;
      assert sges[..i + 1] == sges[..i] + [sges[i]];
      PiecesAppend(sges[..i], sges[i]);
    }
    assert sges[..|sges|] == sges;
    iov := table[..1 + 2 * |sges|];
  }

  method AddPieces(table: array<seq<Byte>>, i: nat, e: Sge, ghost before: seq<seq<Byte>>)
    requires 3 + 2 * i <= table.Length && before == table[..1 + 2 * i]
    modifies table
    ensures table[..3 + 2 * i] == before + [LE64(e.addr), LE32(e.length)]
  {
    table[1 + 2 * i] := LE64(e.addr);
    table[2 + 2 * i] := LE32(e.length);
  }

  lemma NoPieces()
    ensures Pieces([]) == [] && Total([]) == 0
  {}

  /** Collects `size` bytes after the header, whatever pieces they come in; fails if there are fewer. */
  method Reassemble(iov: seq<seq<Byte>>, header: nat, size: nat) returns (ok: bool, data: array<Byte>)
    ensures ok <==> |Payload(iov, header)| >= size
    ensures fresh(data) && data.Length == size
    ensures ok ==> data[..] == Payload(iov, header)[..size]
  {
    hide Remains, Flatten, Rest;
    ghost var message := Payload(iov, header);
    data := new Byte[size](_ => 0);
    var i: nat, srcOff: nat, dstOff: nat := 0, header, 0;
    RemainsStart(iov, header);
    RemainsFacts(iov, i, srcOff, message, 0);
    while dstOff < size
      invariant i <= |iov| && dstOff <= size && dstOff <= |message| && Remains(iov, i, srcOff, message, dstOff)
      invariant data[..dstOff] == message[..dstOff]
    {
      while i < |iov| && srcOff >= |iov[i]|
        invariant i <= |iov| && Remains(iov, i, srcOff, message, dstOff) && data[..dstOff] == message[..dstOff]
        decreases |iov| - i
      {
        RemainsNext(iov, i, srcOff, message, dstOff);
        srcOff := 0;
        i := i + 1;
      }
      RemainsFacts(iov, i, srcOff, message, dstOff);
      if i >= |iov| {
        return false, data;
      }
      var len := Min(size - dstOff, |iov[i]| - srcOff);
      RemainsLess(iov, i, srcOff, len, message, dstOff);
      CopyNext(data, dstOff, iov[i][srcOff..srcOff + len], message);
      dstOff := dstOff + len;
      srcOff := srcOff + len;
    }
    ok := true;
  }

  method CopyNext(data: array<Byte>, off: nat, bytes: seq<Byte>, ghost message: seq<Byte>)
    requires off + |bytes| <= data.Length && off + |bytes| <= |message|
    requires data[..off] == message[..off] && bytes == message[off..off + |bytes|]
    modifies data
    ensures data[..off + |bytes|] == message[..off + |bytes|]
  {
    ghost var before := data[..];
    CopyBytes(data, off, bytes);
    assert data[..][..off + |bytes|] == before[..off] + bytes;
    assert message[..off + |bytes|] == message[..off] + message[off..off + |bytes|];
  }

  // ----- the copies -----

  /** One segment: read into it from the remote side, or written from it. */
  function CopyOne(m: Memory, op: Opcode, remote: Word, done: nat, e: Sge): Memory {
    var there := Wrap64(remote + done);
    if op.RdmaRead? then Store(m, e.addr, Fetch(m, there, e.length))
    else Store(m, there, Fetch(m, e.addr, e.length))
  }

  /** The first n segments, one after another. */
  function CopyAll(m: Memory, op: Opcode, remote: Word, sges: seq<Sge>, n: nat): Memory
    requires n <= |sges|
  {
    if n == 0 then m
    else CopyOne(CopyAll(m, op, remote, sges, n - 1), op, remote, Total(sges[..n - 1]), sges[n - 1])
  }

  /** The local side: the segments one after another. */
  function Gather(m: Memory, sges: seq<Sge>): seq<Byte> {
    if sges == [] then [] else Fetch(m, sges[0].addr, sges[0].length) + Gather(m, sges[1..])
  }

  ghost function Segment(e: Sge): iset<Word> { Range(e.addr, e.length) }

  ghost function Segments(sges: seq<Sge>): iset<Word> {
    if sges == [] then iset{} else Segment(sges[0]) + Segments(sges[1..])
  }

  lemma {:induction false} GatherAppend(m: Memory, sges: seq<Sge>, e: Sge)
    ensures Gather(m, sges + [e]) == Gather(m, sges) + Fetch(m, e.addr, e.length)
    ensures Segments(sges + [e]) == Segments(sges) + Segment(e)
  {
    if sges == [] {
      assert sges + [e] == [e];
      assert Gather(m, []) == [] && Segments([]) == iset{};
    } else {
      assert (sges + [e])[1..] == sges[1..] + [e];
      GatherAppend(m, sges[1..], e);
    }
  }

  lemma {:induction false} GatherAgree(m1: Memory, m2: Memory, dead: iset<Word>, sges: seq<Sge>)
    requires AgreeOutside(m1, m2, dead) && forall i :: 0 <= i < |sges| ==> Segment(sges[i]) !! dead
    ensures Gather(m1, sges) == Gather(m2, sges)
  {
    if sges != [] {
      assert Segment(sges[0]) !! dead;
      FetchAgree(m1, m2, dead, sges[0].addr, sges[0].length);
      GatherAgree(m1, m2, dead, sges[1..]);
    }
  }

  lemma FetchSplit(m: Memory, a: Word, n: nat, k: nat)
    ensures Fetch(m, a, n + k) == Fetch(m, a, n) + Fetch(m, Wrap64(a + n), k)
  {
    var s, t := Fetch(m, a, n + k), Fetch(m, Wrap64(a + n), k);
    forall i | 0 <= i < k ensures s[n + i] == t[i] {
      WrapTwice(a + n, i);
    }
  }

  /** A later part of a range lies inside it and apart from its beginning. */
  lemma PartOfRange(a: Word, n: nat, k: nat)
    requires n + k <= TWO64
    ensures Range(Wrap64(a + n), k) <= Range(a, n + k) && Range(a, n) <= Range(a, n + k)
    ensures Range(Wrap64(a + n), k) !! Range(a, n)
  {
    forall x: Word | InRange(x, Wrap64(a + n), k) ensures InRange(x, a, n + k) && !InRange(x, a, n) {
      var d := Wrap64(x - Wrap64(a + n));
      SubWrap(x, a, n, d);
    }
  }

  lemma SubWrap(x: Word, a: Word, n: nat, d: nat)
    requires d == Wrap64(x - Wrap64(a + n)) && d + n < TWO64
    ensures Wrap64(x - a) == d + n
  {
    var q := (x - Wrap64(a + n)) / TWO64;
    assert x - Wrap64(a + n) == d + TWO64 * q;
    var p := (a + n) / TWO64;
    assert a + n == Wrap64(a + n) + TWO64 * p;
    assert x - a == d + n + TWO64 * (q - p);
    WrapShift(d + n, q - p);
  }

  /** The remote range apart from every local segment. */
  ghost predicate RemoteApart(remote: Word, sges: seq<Sge>) {
    && Total(sges) <= TWO64
    && forall i :: 0 <= i < |sges| ==> Segment(sges[i]) !! Range(remote, Total(sges))
  }

  ghost predicate LocalApart(sges: seq<Sge>) {
    forall i, j :: 0 <= i < j < |sges| ==> Segment(sges[i]) !! Segment(sges[j])
  }

  lemma NothingYet()
    ensures Total([]) == 0
  {}

  lemma {:induction false} TotalPrefix(sges: seq<Sge>, n: nat)
    requires n < |sges|
    ensures Total(sges[..n]) + sges[n].length as nat == Total(sges[..n + 1]) <= Total(sges)
    decreases |sges| - n
  {
    assert sges[..n + 1] == sges[..n] + [sges[n]];
    PiecesAppend(sges[..n], sges[n]);
    if n + 1 < |sges| {
      TotalPrefix(sges, n + 1);
    } else {
      assert sges[..n + 1] == sges;
    }
  }

  /** After a write the remote range holds the segments in order, and nothing else has changed. */
  lemma {:induction false} WriteEffect(m: Memory, remote: Word, sges: seq<Sge>, n: nat)
    requires n <= |sges| && RemoteApart(remote, sges)
    ensures Total(sges[..n]) <= Total(sges)
    ensures var m' := CopyAll(m, RdmaWrite, remote, sges, n);
            && Fetch(m', remote, Total(sges[..n])) == Gather(m, sges[..n])
            && AgreeOutside(m, m', Range(remote, Total(sges[..n])))
  {
    if n > 0 {
      hide Gather, Total, Fetch, AgreeOutside, Range;
      WriteEffect(m, remote, sges, n - 1);
      TotalPrefix(sges, n - 1);
      var e, t := sges[n - 1], Total(sges[..n - 1]);
      assert Segment(e) !! Range(remote, Total(sges));
      assert sges[..n] == sges[..n - 1] + [e];
      GatherAppend(m, sges[..n - 1], e);
      WriteOne(m, CopyAll(m, RdmaWrite, remote, sges, n - 1), remote, t, e, Total(sges));
    }
  }

  lemma WriteOne(m: Memory, m1: Memory, remote: Word, t: nat, e: Sge, all: nat)
    requires AgreeOutside(m, m1, Range(remote, t)) && t + e.length as nat <= all <= TWO64
    requires Segment(e) !! Range(remote, all)
    ensures var m2 := CopyOne(m1, RdmaWrite, remote, t, e);
            && Fetch(m2, remote, t + e.length as nat) == Fetch(m1, remote, t) + Fetch(m, e.addr, e.length)
            && AgreeOutside(m, m2, Range(remote, t + e.length as nat))
  {
    var there, k: nat := Wrap64(remote + t), e.length;
    var bytes := Fetch(m1, e.addr, k);
    var m2 := Store(m1, there, bytes);
    PartOfRange(remote, t, all - t);
    FetchAgree(m, m1, Range(remote, t), e.addr, k);
    PartOfRange(remote, t, k);
    StoreFrame(m1, there, bytes);
    StoreFetch(m1, there, bytes);
    FetchAgree(m1, m2, Range(there, k), remote, t);
    FetchSplit(m2, remote, t, k);
  }

  /** After a read the segments hold the remote range in order, and nothing else has changed. */
  lemma {:induction false} ReadEffect(m: Memory, remote: Word, sges: seq<Sge>, n: nat)
    requires n <= |sges| && RemoteApart(remote, sges) && LocalApart(sges)
    ensures Total(sges[..n]) <= Total(sges)
    ensures var m' := CopyAll(m, RdmaRead, remote, sges, n);
            && Gather(m', sges[..n]) == Fetch(m, remote, Total(sges[..n]))
            && AgreeOutside(m, m', Segments(sges[..n]))
  {
    if n > 0 {
      hide Gather, Total, Fetch, AgreeOutside, Range, Segments;
      ReadEffect(m, remote, sges, n - 1);
      TotalPrefix(sges, n - 1);
      var front, e, t := sges[..n - 1], sges[n - 1], Total(sges[..n - 1]);
      assert sges[..n] == front + [e];
      var m1 := CopyAll(m, RdmaRead, remote, sges, n - 1);
      var m2 := CopyOne(m1, RdmaRead, remote, t, e);
      GatherAppend(m2, front, e);
      forall i | 0 <= i < |front|
        ensures Segment(front[i]) !! Segment(e) && Segment(front[i]) !! Range(remote, Total(sges))
      {
        assert front[i] == sges[i];
      }
      SegmentsApart(front, Range(remote, Total(sges)));
      ReadOne(m, m1, remote, t, front, e, Total(sges));
    } else {
      assert sges[..0] == [];
    }
  }

  lemma {:induction false} SegmentsApart(sges: seq<Sge>, r: iset<Word>)
    requires forall i :: 0 <= i < |sges| ==> Segment(sges[i]) !! r
    ensures Segments(sges) !! r
  {
    if sges != [] {
      SegmentsApart(sges[1..], r);
    }
  }

  lemma ReadOne(m: Memory, m1: Memory, remote: Word, t: nat, front: seq<Sge>, e: Sge, all: nat)
    requires AgreeOutside(m, m1, Segments(front)) && t + e.length as nat <= all <= TWO64
    requires Segments(front) !! Range(remote, all)
    requires forall i :: 0 <= i < |front| ==> Segment(front[i]) !! Segment(e)
    ensures var m2 := CopyOne(m1, RdmaRead, remote, t, e);
            && Gather(m2, front) == Gather(m1, front)
            && Fetch(m, remote, t + e.length as nat) == Fetch(m, remote, t) + Fetch(m2, e.addr, e.length)
            && AgreeOutside(m, m2, Segments(front) + Segment(e))
  {
    var there, k: nat := Wrap64(remote + t), e.length;
    var bytes := Fetch(m1, there, k);
    var m2 := Store(m1, e.addr, bytes);
    PartOfRange(remote, t, k);
    PartOfRange(remote, t + k, all - t - k);
    FetchAgree(m, m1, Segments(front), there, k);
    StoreFrame(m1, e.addr, bytes);
    StoreFetch(m1, e.addr, bytes);
    GatherAgree(m1, m2, Segment(e), front);
    FetchSplit(m, remote, t, k);
  }

  // ----- the operation -----

  /** Looks the key up among the registered regions. */
  method HasKey(keys: seq<int>, rkey: int) returns (found: bool)
    ensures found <==> rkey in keys
  {
    found := false;
    for i := 0 to |keys|
      invariant found <==> rkey in keys[..i]
    {
      assert keys[..i + 1] == keys[..i] + [keys[i]];
      if keys[i] == rkey {
        found := true;
      }
    }
    assert keys[..|keys|] == keys;
  }

  /** The receiver: unknown keys change nothing; otherwise the original segments are copied. */
  method RxRdma(hdr: Header, iov: seq<seq<Byte>>, header: nat, keys: seq<int>, mem: Memory, ghost sges: seq<Sge>)
      returns (ok: bool, mem': Memory)
    requires |iov| > 0 && |iov[0]| == header && Flatten(iov[1..]) == Descriptors(sges)
    requires hdr.count == |sges| && hdr.len == Total(sges) && (hdr.opcode.RdmaRead? || hdr.opcode.RdmaWrite?)
    ensures ok <==> hdr.rkey in keys
    ensures mem' == if ok then CopyAll(mem, hdr.opcode, hdr.addr, sges, |sges|) else mem
  {
    hide Descriptors, LE64, LE32, CopyOne, Total, Flatten, U32, U64;
    ok := HasKey(keys, hdr.rkey);
    mem' := mem;
    if !ok {
      return;
    }
    assert iov[0][header..] == [] && sges[..0] == [];
    NothingYet();
    var whole, data := Reassemble(iov, header, RECORD * hdr.count);
    assert whole && data[..] == Descriptors(sges);
    var total := 0;
    for i := 0 to hdr.count
      invariant data[..] == Descriptors(sges) && total == Total(sges[..i])
      invariant mem' == CopyAll(mem, hdr.opcode, hdr.addr, sges, i)
    {
      DescriptorsRoundTrip(sges, i);
      TotalPrefix(sges, i);
      var e := RecordAt(data[..], i);
      mem' := CopyOne(mem', hdr.opcode, hdr.addr, total, e);
      total := total + e.length;
    }
    assert sges[..|sges|] == sges;
    assert total == hdr.len;
  }

  /** A remote operation from posting to completion, on a queue pair without routing header. */
  method PostRdma(op: Opcode, rkey: int, remote: Word, sges: seq<Sge>, header: seq<Byte>, keys: seq<int>, mem: Memory)
      returns (ok: bool, mem': Memory)
    requires |sges| <= MAX_SGE && (op.RdmaRead? || op.RdmaWrite?)
    ensures ok <==> rkey in keys
    ensures !ok ==> mem' == mem
    ensures ok && op.RdmaWrite? && RemoteApart(remote, sges) ==>
              && Fetch(mem', remote, Total(sges)) == Gather(mem, sges)
              && AgreeOutside(mem, mem', Range(remote, Total(sges)))
    ensures ok && op.RdmaRead? && RemoteApart(remote, sges) && LocalApart(sges) ==>
              && Gather(mem', sges) == Fetch(mem, remote, Total(sges))
              && AgreeOutside(mem, mem', Segments(sges))
  {
    var iov, total := Serialize(header, sges);
    assert iov[1..] == Pieces(sges);
    PiecesFlat(sges);
    ok, mem' := RxRdma(Header(op, rkey, remote, |sges|, total), iov, |header|, keys, mem, sges);
    assert sges[..|sges|] == sges;
    if RemoteApart(remote, sges) {
      WriteEffect(mem, remote, sges, |sges|);
      if LocalApart(sges) {
        ReadEffect(mem, remote, sges, |sges|);
      }
    }
  }
}
