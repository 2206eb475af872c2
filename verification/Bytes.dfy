/** Bytes, 64-bit words, little-endian numbers and byte-addressed memory. */
module Bytes {

  const TWO32: int := 0x1_0000_0000
  const TWO64: int := 0x1_0000_0000_0000_0000

  type Byte = b: int | 0 <= b < 256
  type Word32 = w: int | 0 <= w < TWO32
  type Word = w: int | 0 <= w < TWO64

  datatype Option<+T> = None | Some(value: T)

  /** Arithmetic on pointers and 64-bit registers is modulo 2^64. */
  function Wrap64(x: int): Word { x % TWO64 }

  function Signed8(b: Byte): int { if b < 128 then b else b - 256 }

  function Signed32(w: Word32): int { if w < 0x8000_0000 then w else w - TWO32 }

  const INT64_MIN: int := -0x8000_0000_0000_0000

  /** labs() in two's complement: the most negative value is its own absolute value. */
  function Labs(x: int): int { if x == INT64_MIN then x else if x < 0 then -x else x }

  function One(b: bool): nat { if b then 1 else 0 }

  function Min(a: int, b: int): int { if a < b then a else b }

  // ----- little-endian numbers -----

  function LE32(v: Word32): (s: seq<Byte>)
    ensures |s| == 4
  {
    [v % 256, v / 256 % 256, v / 256 / 256 % 256, v / 256 / 256 / 256]
  }

  function LE64(v: Word): (s: seq<Byte>)
    ensures |s| == 8
  {
    LE32(v % TWO32) + LE32(v / TWO32)
  }

  function U32(s: seq<Byte>, i: nat): Word32
    requires i + 4 <= |s|
  {
    s[i] as int + 256 * (s[i + 1] as int + 256 * (s[i + 2] as int + 256 * s[i + 3] as int))
  }

  function U64(s: seq<Byte>, i: nat): Word
    requires i + 8 <= |s|
  {
    U32(s, i) as int + TWO32 * U32(s, i + 4) as int
  }

  lemma RoundTrip32(v: Word32, s: seq<Byte>, i: nat)
    requires i + 4 <= |s| && s[i..i + 4] == LE32(v)
    ensures U32(s, i) == v
  {
    var t := s[i..i + 4];
    assert t[0] == s[i] && t[1] == s[i + 1] && t[2] == s[i + 2] && t[3] == s[i + 3];
  }

  /** Reading back a 64-bit number written at offset i of any buffer. */
  lemma RoundTrip64(v: Word, s: seq<Byte>, i: nat)
    requires i + 8 <= |s| && s[i..i + 8] == LE64(v)
    ensures U64(s, i) == v
  {
    var t := s[i..i + 8];
    assert s[i..i + 4] == t[..4] == LE32(v % TWO32);
    assert s[i + 4..i + 8] == t[4..] == LE32(v / TWO32);
    RoundTrip32(v % TWO32, s, i);
    RoundTrip32(v / TWO32, s, i + 4);
  }

  // ----- memory -----

  /** All of the 64-bit address space, one byte per address. */
  type Memory = Word -> Byte

  function Fetch(m: Memory, a: int, n: nat): (s: seq<Byte>)
    ensures |s| == n
    ensures forall i :: 0 <= i < n ==> s[i] == m(Wrap64(a + i))
  {
    seq<Byte>(n, (i: nat) => m(Wrap64(a + i)))
  }

  lemma FetchPrefix(m: Memory, a: int, n: nat, k: nat)
    requires k <= n
    ensures Fetch(m, a, n)[..k] == Fetch(m, a, k)
  {}

  lemma FetchInside(m: Memory, a: int, n: nat, i: nat)
    requires i + 4 <= n
    ensures U32(Fetch(m, a + i, 4), 0) == U32(Fetch(m, a, n), i)
  {
    var s, t := Fetch(m, a + i, 4), Fetch(m, a, n);
    assert s[0] == t[i] && s[1] == t[i + 1] && s[2] == t[i + 2] && s[3] == t[i + 3];
  }

  function Load32(m: Memory, a: Word): Word32 { U32(Fetch(m, a, 4), 0) }

  function Load64(m: Memory, a: Word): Word { U64(Fetch(m, a, 8), 0) }

  function Store(m: Memory, a: Word, bytes: seq<Byte>): Memory {
    (x: Word) => var k := Wrap64(x - a); if k < |bytes| then bytes[k] else m(x)
  }

  predicate InRange(x: Word, a: int, n: nat) { Wrap64(x - a) < n }

  /** The n addresses starting at a. */
  ghost function Range(a: int, n: nat): iset<Word> {
    iset x: Word | InRange(x, a, n)
  }

  lemma WrapShift(y: int, k: int)
    ensures Wrap64(y + TWO64 * k) == Wrap64(y)
  {}

  lemma WrapTwice(x: int, i: int)
    ensures Wrap64(Wrap64(x) + i) == Wrap64(x + i)
  {
    WrapShift(Wrap64(x) + i, x / TWO64);
    assert x == Wrap64(x) + TWO64 * (x / TWO64);
  }

  /** Only the address modulo 2^64 matters. */
  lemma RangeWrap(a: int, n: nat)
    ensures Range(a, n) == Range(Wrap64(a), n)
  {
    forall x: Word
      ensures InRange(x, a, n) == InRange(x, Wrap64(a), n)
    {
      WrapShift(x - a, a / TWO64);
    }
  }

  ghost predicate AgreeOutside(m1: Memory, m2: Memory, dead: iset<Word>) {
    forall x: Word :: x !in dead ==> m1(x) == m2(x)
  }

  lemma FetchAgree(m1: Memory, m2: Memory, dead: iset<Word>, a: int, n: nat)
    requires AgreeOutside(m1, m2, dead) && n <= TWO64
    requires Range(a, n) !! dead
    ensures Fetch(m1, a, n) == Fetch(m2, a, n)
  {
    var s1, s2 := Fetch(m1, a, n), Fetch(m2, a, n);
    forall i | 0 <= i < n
      ensures s1[i] == s2[i]
    {
      WrapOffset(a, i);
      assert InRange(Wrap64(a + i), a, n);
    }
  }

  lemma WrapOffset(a: int, i: nat)
    requires i < TWO64
    ensures Wrap64(Wrap64(a + i) - a) == i
  {}

  lemma StoreAgree(m1: Memory, m2: Memory, dead: iset<Word>, a: Word, bytes: seq<Byte>)
    requires AgreeOutside(m1, m2, dead)
    ensures AgreeOutside(Store(m1, a, bytes), Store(m2, a, bytes), dead - Range(a, |bytes|))
  {}

  /** A store changes nothing outside the range it writes. */
  lemma StoreFrame(m: Memory, a: Word, bytes: seq<Byte>)
    ensures AgreeOutside(m, Store(m, a, bytes), Range(a, |bytes|))
  {}

  lemma StoreFetch(m: Memory, a: Word, bytes: seq<Byte>)
    requires |bytes| <= TWO64
    ensures Fetch(Store(m, a, bytes), a, |bytes|) == bytes
  {
    var s := Fetch(Store(m, a, bytes), a, |bytes|);
    forall i | 0 <= i < |bytes|
      ensures s[i] == bytes[i]
    {
      WrapOffset(a, i);
    }
  }
}
