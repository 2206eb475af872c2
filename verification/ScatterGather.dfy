/**
  The receive side of a send on the loopback device: the pieces of the message after its header are
  copied, in order, into the posted receive segments.
  */
module ScatterGather {
  import opened Bytes

  const MAX_SGE: nat := 64

  datatype Opcode = Send | RdmaRead | RdmaWrite | Unsupported

  function Flatten(s: seq<seq<Byte>>): seq<Byte> {
    if s == [] then [] else s[0] + Flatten(s[1..])
  }

  lemma {:induction false} FlattenConcat(s: seq<seq<Byte>>, t: seq<seq<Byte>>)
    ensures Flatten(s + t) == Flatten(s) + Flatten(t)
  {
    if s == [] {
      assert s + t == t;
    } else {
      assert (s + t)[1..] == s[1..] + t;
      FlattenConcat(s[1..], t);
    }
  }

  lemma FlattenOne(s: seq<Byte>)
    ensures Flatten([s]) == s
  {
    assert Flatten([]) == [];
  }

  lemma FlattenAt(s: seq<seq<Byte>>, j: nat)
    requires j < |s|
    ensures Flatten(s) == Flatten(s[..j]) + s[j] + Flatten(s[j + 1..])
    ensures Flatten(s[..j + 1]) == Flatten(s[..j]) + s[j]
  {
    hide Flatten;
    FlattenSnoc(s, j);
    var front, back := s[..j + 1], s[j + 1..];
    assert s == front + back;
    FlattenConcat(front, back);
  }

  lemma FlattenSnoc(s: seq<seq<Byte>>, j: nat)
    requires j < |s|
    ensures Flatten(s[..j + 1]) == Flatten(s[..j]) + s[j]
  {
    hide Flatten;
    var front := s[..j];
    assert s[..j + 1] == front + [s[j]];
    FlattenConcat(front, [s[j]]);
    FlattenOne(s[j]);
  }

  /** What is still to be sent from offset `off` of piece i on. */
  function Rest(iov: seq<seq<Byte>>, i: nat, off: nat): seq<Byte>
    requires i <= |iov|
  {
    if i == |iov| then []
    else (if off <= |iov[i]| then iov[i][off..] else []) + Flatten(iov[i + 1..])
  }

  /** The message: everything after the header, which lies in the first piece. */
  function Payload(iov: seq<seq<Byte>>, header: nat): seq<Byte> { Rest(iov, 0, header) }

  /** Total room of receive segments of these lengths. */
  function Capacity(lengths: seq<nat>): nat {
    if lengths == [] then 0 else lengths[0] + Capacity(lengths[1..])
  }

  /** The contents of the receive segments, one after another. */
  ghost function Contents(sges: seq<array<Byte>>): (c: seq<seq<Byte>>)
    reads sges
    ensures |c| == |sges| && forall i :: 0 <= i < |sges| ==> c[i] == sges[i][..]
  {
    seq(|sges|, i requires 0 <= i < |sges| reads sges => sges[i][..])
  }

  function Lengths(sges: seq<array<Byte>>): (l: seq<nat>)
    ensures |l| == |sges| && forall i :: 0 <= i < |sges| ==> l[i] == sges[i].Length
  {
    seq(|sges|, i requires 0 <= i < |sges| => sges[i].Length)
  }

  lemma {:induction false} RoomIsCapacity(c: seq<seq<Byte>>, lengths: seq<nat>)
    requires |c| == |lengths| && forall i :: 0 <= i < |c| ==> |c[i]| == lengths[i]
    ensures |Flatten(c)| == Capacity(lengths)
  {
    if c != [] {
      RoomIsCapacity(c[1..], lengths[1..]);
    }
  }

  /** `bytes` written over s at offset p. */
  function Splice(s: seq<Byte>, p: nat, bytes: seq<Byte>): (t: seq<Byte>)
    requires p + |bytes| <= |s|
    ensures |t| == |s|
  {
    s[..p] + bytes + s[p + |bytes|..]
  }

  /** Writing into one segment writes into the whole at the position of that segment. */
  lemma SpliceSegment(c: seq<seq<Byte>>, j: nat, off: nat, bytes: seq<Byte>)
    requires j < |c| && off + |bytes| <= |c[j]|
    ensures |Flatten(c[..j])| + off + |bytes| <= |Flatten(c)|
    ensures Flatten(c[j := Splice(c[j], off, bytes)]) == Splice(Flatten(c), |Flatten(c[..j])| + off, bytes)
  {
    hide Flatten, Splice;
    var c' := c[j := Splice(c[j], off, bytes)];
    FlattenAt(c, j);
    FlattenAt(c', j);
    assert c'[..j] == c[..j] && c'[j + 1..] == c[j + 1..];
    SpliceMiddle(Flatten(c[..j]), c[j], Flatten(c[j + 1..]), off, bytes);
  }

  lemma SpliceMiddle(a: seq<Byte>, b: seq<Byte>, d: seq<Byte>, off: nat, bytes: seq<Byte>)
    requires off + |bytes| <= |b|
    ensures a + Splice(b, off, bytes) + d == Splice(a + b + d, |a| + off, bytes)
  {}

  /**
    After n bytes of the message: the next byte goes to offset `off` of segment j, the first n bytes
    of the segments are those of the message, and the others are as before.
    */
  ghost predicate Progress(c: seq<seq<Byte>>, j: nat, off: nat, held: seq<Byte>, message: seq<Byte>, n: nat) {
    && j < |c| && off <= |c[j]| && n == |Flatten(c[..j])| + off
    && n <= |message| && n <= |held| == |Flatten(c)| && Flatten(c) == message[..n] + held[n..]
  }

  lemma ProgressStart(c: seq<seq<Byte>>, message: seq<Byte>)
    requires c != []
    ensures Progress(c, 0, 0, Flatten(c), message, 0)
  {
    assert c[..0] == [];
  }

  lemma ProgressCopied(c: seq<seq<Byte>>, j: nat, off: nat, held: seq<Byte>, message: seq<Byte>, n: nat, k: nat)
    requires Progress(c, j, off, held, message, n) && off + k <= |c[j]| && n + k <= |message|
    ensures Progress(c[j := Splice(c[j], off, message[n..n + k])], j, off + k, held, message, n + k)
  {
    SpliceSegment(c, j, off, message[n..n + k]);
    assert c[j := Splice(c[j], off, message[n..n + k])][..j] == c[..j];
  }

  lemma ProgressNext(c: seq<seq<Byte>>, j: nat, off: nat, held: seq<Byte>, message: seq<Byte>, n: nat)
    requires Progress(c, j, off, held, message, n) && off == |c[j]|
    ensures j + 1 < |c| ==> Progress(c, j + 1, 0, held, message, n)
    ensures j + 1 == |c| ==> n == |held|
  {
    FlattenAt(c, j);
    assert c == c[..|c|];
  }

  lemma ProgressFacts(c: seq<seq<Byte>>, j: nat, off: nat, held: seq<Byte>, message: seq<Byte>, n: nat)
    requires Progress(c, j, off, held, message, n)
    ensures n <= |message| && n <= |held| && Flatten(c) == message[..n] + held[n..]
    ensures j < |c| && off <= |c[j]|
  {}

  method CopyBytes(dst: array<Byte>, off: nat, bytes: seq<Byte>)
    requires off + |bytes| <= dst.Length
    modifies dst
    ensures dst[..] == Splice(old(dst[..]), off, bytes)
  {
    forall i | 0 <= i < |bytes| {
      dst[off + i] := bytes[i];
    }
  }

  ghost predicate Distinct(sges: seq<array<Byte>>) {
    forall i, j :: 0 <= i < j < |sges| ==> sges[i] != sges[j]
  }

  /**
    Delivers a message.  It succeeds exactly if the bytes after the header fit the segments; the
    segments then hold them in order, followed by what was there before.  Otherwise the segments
    hold as much of the message as fits.
    */
  method RxSend(iov: seq<seq<Byte>>, header: nat, sges: seq<array<Byte>>) returns (ok: bool, byteLen: nat)
    requires |sges| >= 1 && Distinct(sges)
    modifies sges
    ensures ok <==> |Payload(iov, header)| <= Capacity(Lengths(sges))
    ensures byteLen == Min(|Payload(iov, header)|, Capacity(Lengths(sges)))
    ensures var held := old(Flatten(Contents(sges)));
            byteLen <= |held| && Flatten(Contents(sges)) == Payload(iov, header)[..byteLen] + held[byteLen..]
  {
    hide Flatten, Progress, Capacity, Rest, Remains, Splice;
    ghost var message, held := Payload(iov, header), Flatten(Contents(sges));
    RoomIsCapacity(Contents(sges), Lengths(sges));
    var srcOff: nat, dstOff: nat, j: nat, i: nat := header, 0, 0, 0;
    byteLen := 0;
    ProgressStart(Contents(sges), message);
    RemainsStart(iov, header);
    while i < |iov|
      invariant i <= |iov| && Remains(iov, i, srcOff, message, byteLen)
      invariant Progress(Contents(sges), j, dstOff, held, message, byteLen)
    {
      ok, j, dstOff, byteLen := RxPiece(iov, i, srcOff, sges, j, dstOff, byteLen, held, message);
      if !ok {
        return;
      }
      i := i + 1;
      srcOff := 0;
    }
    ProgressFacts(Contents(sges), j, dstOff, held, message, byteLen);
    RemainsFacts(iov, i, srcOff, message, byteLen);
    ok := true;
  }

  /** Copies what is left of one piece, moving on to the next segment when one is full. */
  method RxPiece(iov: seq<seq<Byte>>, i: nat, srcOff0: nat, sges: seq<array<Byte>>, j0: nat, dstOff0: nat, n0: nat,
                 ghost held: seq<Byte>, ghost message: seq<Byte>) returns (ok: bool, j: nat, dstOff: nat, n: nat)
    requires Distinct(sges) && i < |iov| && Remains(iov, i, srcOff0, message, n0)
    requires Progress(Contents(sges), j0, dstOff0, held, message, n0)
    modifies sges
    ensures ok ==> Remains(iov, i + 1, 0, message, n) && Progress(Contents(sges), j, dstOff, held, message, n)
    ensures !ok ==> n == |held| < |message| && Flatten(Contents(sges)) == message[..n] + held[n..]
  {
    hide Flatten, Progress, Rest, Remains, Splice;
    var srcOff := srcOff0;
    j, dstOff, n := j0, dstOff0, n0;
    while srcOff < |iov[i]|
      invariant Remains(iov, i, srcOff, message, n)
      invariant Progress(Contents(sges), j, dstOff, held, message, n)
      decreases |iov[i]| - srcOff, |sges| - j
    {
      ProgressFacts(Contents(sges), j, dstOff, held, message, n);
      var srcLen, dstLen := |iov[i]| - srcOff, sges[j].Length - dstOff;
      if dstLen == 0 {
        ProgressNext(Contents(sges), j, dstOff, held, message, n);
        j := j + 1;
        dstOff := 0;
        if j >= |sges| {
          RemainsFacts(iov, i, srcOff, message, n);
          return false, j, dstOff, n;
        }
      }
      var len := Min(srcLen, dstLen);
      RemainsLess(iov, i, srcOff, len, message, n);
      CopyPart(sges, j, dstOff, iov[i][srcOff..srcOff + len], held, message, n);
      srcOff := srcOff + len;
      dstOff := dstOff + len;
      n := n + len;
    }
    RemainsNext(iov, i, srcOff, message, n);
    ok := true;
  }

  /** Copies part of the message into segment j, where its next byte belongs. */
  method CopyPart(sges: seq<array<Byte>>, j: nat, off: nat, bytes: seq<Byte>,
                  ghost held: seq<Byte>, ghost message: seq<Byte>, ghost n: nat)
    requires Distinct(sges) && Progress(Contents(sges), j, off, held, message, n)
    requires off + |bytes| <= sges[j].Length && n + |bytes| <= |message| && bytes == message[n..n + |bytes|]
    modifies sges[j]
    ensures Progress(Contents(sges), j, off + |bytes|, held, message, n + |bytes|)
  {
    hide Progress, Splice;
    ghost var c := Contents(sges);
    ProgressFacts(c, j, off, held, message, n);
    ProgressCopied(c, j, off, held, message, n, |bytes|);
    CopyBytes(sges[j], off, bytes);
    assert Contents(sges) == c[j := Splice(c[j], off, bytes)];
  }

  /** The first n bytes of the message have been read; offset `off` of piece i comes next. */
  ghost predicate Remains(iov: seq<seq<Byte>>, i: nat, off: nat, message: seq<Byte>, n: nat) {
    i <= |iov| && n <= |message| && message[n..] == Rest(iov, i, off)
  }

  lemma RemainsStart(iov: seq<seq<Byte>>, header: nat)
    ensures Remains(iov, 0, header, Payload(iov, header), 0)
  {}

  lemma RemainsFacts(iov: seq<seq<Byte>>, i: nat, off: nat, message: seq<Byte>, n: nat)
    requires Remains(iov, i, off, message, n)
    ensures n <= |message|
    ensures i < |iov| && off < |iov[i]| ==> n < |message|
    ensures i == |iov| ==> n == |message|
  {}

  lemma RemainsLess(iov: seq<seq<Byte>>, i: nat, off: nat, k: nat, message: seq<Byte>, n: nat)
    requires Remains(iov, i, off, message, n) && i < |iov| && off + k <= |iov[i]|
    ensures n + k <= |message| && message[n..n + k] == iov[i][off..off + k] && Remains(iov, i, off + k, message, n + k)
  {
    var rest := message[n..];
    assert message[n..n + k] == rest[..k] && message[n + k..] == rest[k..];
  }

  lemma RemainsNext(iov: seq<seq<Byte>>, i: nat, off: nat, message: seq<Byte>, n: nat)
    requires Remains(iov, i, off, message, n) && i < |iov| && off >= |iov[i]|
    ensures Remains(iov, i + 1, 0, message, n)
  {
    if i + 1 < |iov| {
      assert iov[i + 1..][0] == iov[i + 1][0..] && iov[i + 1..][1..] == iov[i + 2..];
    }
  }
}
