/** The number printer of the logger, which must not call malloc and so formats by itself. */
module LogNumbers {
  import opened Bytes

  const LONG_BOUND: int := -INT64_MIN

  datatype Flags = Flags(sign: bool, pad0: bool, padLeft: bool)

  const DIGITS: string := "0123456789abcdef"

  predicate Base(base: int) { base == 10 || base == 16 }

  /** A 64-bit product as the machine computes it. */
  function SignedLong(x: int): int { (x + LONG_BOUND) % TWO64 - LONG_BOUND }

  function Pow(base: nat, k: nat): nat {
    if k == 0 then 1 else base * Pow(base, k - 1)
  }

  // ----- digits -----

  function Digits(n: nat, base: nat): (s: string)
    requires Base(base)
    ensures |s| >= 1
  {
    if n < base then [DIGITS[n]] else Digits(n / base, base) + [DIGITS[n % base]]
  }

  function DigitValue(c: char): nat {
    if '0' <= c <= '9' then c as nat - '0' as nat else if 'a' <= c <= 'f' then c as nat - 'a' as nat + 10 else 0
  }

  lemma DigitBack(d: nat)
    requires d < 16
    ensures DigitValue(DIGITS[d]) == d && DIGITS[d] != ' ' && DIGITS[d] != '-' && DIGITS[d] != '+'
  {
    assert DIGITS == ['0', '1', '2', '3', '4', '5', '6', '7', '8', '9', 'a', 'b', 'c', 'd', 'e', 'f'];
  }

  /** The number of digits is the number of powers of the base that are not above n. */
  lemma {:induction false} DigitCount(n: nat, base: nat)
    requires Base(base) && n > 0
    ensures Pow(base, |Digits(n, base)| - 1) <= n < Pow(base, |Digits(n, base)|)
    decreases n
  {
    hide Pow, Digits;
    DigitsLast(n, base);
    PowStep(base, 0);
    if n >= base {
      DigitCount(n / base, base);
      var k := |Digits(n / base, base)|;
      PowStep(base, k - 1);
      PowStep(base, k);
      PowerSplit(n, base, Pow(base, k - 1), Pow(base, k));
    }
  }

  lemma PowerSplit(n: nat, base: nat, low: nat, high: nat)
    requires Base(base) && low <= n / base < high
    ensures base * low <= n < base * high
  {}

  lemma {:induction false} PowMonotone(base: nat, i: nat, j: nat)
    requires base > 0 && i <= j
    ensures 1 <= Pow(base, i) <= Pow(base, j)
    decreases j
  {
    if i < j {
      PowMonotone(base, i, j - 1);
    } else if i > 0 {
      PowMonotone(base, i - 1, i - 1);
    }
  }

  /** Only one number of digits fits. */
  lemma CountUnique(n: nat, base: nat, k: nat)
    requires Base(base) && n > 0 && k > 0 && Pow(base, k - 1) <= n < Pow(base, k)
    ensures k == |Digits(n, base)|
  {
    hide Pow, Digits;
    DigitCount(n, base);
    var d := |Digits(n, base)|;
    if k < d {
      PowMonotone(base, k, d - 1);
    } else if d < k {
      PowMonotone(base, d, k - 1);
    }
  }

  /** Dividing by powers from the top gives the digits from the left. */
  lemma {:induction false} DigitAt(n: nat, base: nat, i: nat)
    requires Base(base) && i < |Digits(n, base)|
    ensures Pow(base, |Digits(n, base)| - 1 - i) > 0
    ensures Digits(n, base)[i] == DIGITS[n / Pow(base, |Digits(n, base)| - 1 - i) % base]
    decreases n
  {
    hide Pow, Digits;
    DigitsLast(n, base);
    var d := |Digits(n, base)|;
    PowMonotone(base, 0, d - 1 - i);
    PowStep(base, if i < d - 1 then d - 2 - i else 0);
    if n >= base && i < d - 1 {
      DigitAt(n / base, base, i);
      DivTwice(n, base, Pow(base, d - 2 - i));
    } else {
      assert n / 1 == n;
    }
  }

  lemma DigitsLast(n: nat, base: nat)
    requires Base(base)
    ensures Digits(n, base) == (if n < base then [] else Digits(n / base, base)) + [DIGITS[n % base]]
  {}

  lemma DivTwice(n: nat, a: nat, b: nat)
    requires a > 0 && b > 0
    ensures a * b > 0 && n / a / b == n / (a * b)
  {
    var m, x := n / a, n % a;
    var q, y := m / b, m % b;
    DivMod(n, a);
    DivMod(m, b);
    Regroup(q, b, y, a, x);
    Smaller(y, b, a);
    QuotientUnique(n, a * b, q, y * a + x);
  }

  lemma DivMod(n: int, d: nat)
    requires d > 0
    ensures n == n / d * d + n % d && 0 <= n % d < d
  {}

  lemma Regroup(q: int, b: int, y: int, a: int, x: int)
    ensures (q * b + y) * a + x == q * (a * b) + (y * a + x)
  {
    assert (q * b + y) * a == q * b * a + y * a;
    assert q * b * a == q * (a * b);
  }

  lemma Smaller(y: nat, b: nat, a: nat)
    requires y < b
    ensures y * a + a <= a * b && 0 <= y * a && (a > 0 ==> a * b > 0)
  {
    assert (b - 1 - y) * a >= 0;
    assert (b - 1 - y) * a == b * a - a - y * a;
  }

  lemma QuotientUnique(n: int, d: nat, q: int, r: int)
    requires d > 0 && n == q * d + r && 0 <= r < d
    ensures n / d == q
  {
    var e := q - n / d;
    assert e * d == q * d - n / d * d == n % d - r;
    assert e > 0 ==> (e - 1) * d >= 0;
    assert e < 0 ==> (-e - 1) * d >= 0;
  }

  lemma PowStep(base: nat, k: nat)
    ensures Pow(base, 0) == 1 && Pow(base, k + 1) == base * Pow(base, k)
  {}

  lemma TenPowers()
    ensures Pow(10, 18) == 1_000_000_000_000_000_000 && Pow(10, 19) == 10_000_000_000_000_000_000
  {
    assert Pow(10, 2) == 100 && Pow(10, 4) == 10_000 && Pow(10, 6) == 1_000_000 && Pow(10, 8) == 100_000_000;
    assert Pow(10, 10) == 10_000_000_000 && Pow(10, 12) == 1_000_000_000_000 && Pow(10, 14) == 100_000_000_000_000;
    assert Pow(10, 16) == 10_000_000_000_000_000 && Pow(10, 18) == 1_000_000_000_000_000_000;
  }

  lemma SixteenPowers()
    ensures Pow(16, 15) == 0x1000_0000_0000_0000 && Pow(16, 16) == TWO64
  {
    assert Pow(16, 2) == 0x100 && Pow(16, 4) == 0x1_0000 && Pow(16, 6) == 0x100_0000 && Pow(16, 8) == 0x1_0000_0000;
    assert Pow(16, 10) == 0x100_0000_0000 && Pow(16, 12) == 0x1_0000_0000_0000 && Pow(16, 14) == 0x100_0000_0000_0000;
  }

  /** The machine's power stops growing: it is exact below 2^63 and not positive once past it. */
  lemma WrappedPower(n: int, base: nat, k: nat)
    requires Base(base) && 0 < n <= LONG_BOUND && k > 0 && Pow(base, k - 1) <= n
    ensures SignedLong(Pow(base, k)) == Pow(base, k) || (SignedLong(Pow(base, k)) <= 0 && n < Pow(base, k))
  {
    hide Pow;
    TenPowers();
    SixteenPowers();
    if base == 10 {
      if k > 19 {
        PowMonotone(10, 19, k - 1);
      } else if k < 19 {
        PowMonotone(10, k, 18);
      }
    } else {
      if k > 16 {
        PowMonotone(16, 16, k - 1);
      } else if k < 16 {
        PowMonotone(16, k, 15);
      }
    }
  }

  // ----- machine arithmetic -----

  /** What labs() can give for a number that is not 0. */
  predicate Magnitude(n: int) { 0 < n < LONG_BOUND || n == -LONG_BOUND }

  /** The digits come out right. */
  predicate Printable(n: int, base: nat) { !(n == -LONG_BOUND && base == 10) }

  /** Division and remainder of C, toward zero. */
  function CDiv(a: int, b: int): int
    requires b > 0
  {
    if a < 0 then -((-a) / b) else a / b
  }

  function CRem(a: int, b: int): int
    requires b > 0
  {
    a - CDiv(a, b) * b
  }

  /** The index into the digit table for one divider, as the machine computes it. */
  function DigitIndex(n: int, divider: int, base: nat): int
    requires Base(base) && divider > 0
  {
    CRem(CDiv(n, divider) + base, base)
  }

  /** The machine's index is that of the digit. */
  lemma IndexRight(n: int, base: nat, k: nat)
    requires Base(base) && Magnitude(n) && Printable(n, base) && k < |Digits(Abs(n), base)|
    ensures Pow(base, k) > 0 && 0 <= DigitIndex(n, Pow(base, k), base) < base
    ensures DigitIndex(n, Pow(base, k), base) == Abs(n) / Pow(base, k) % base
  {
    hide Pow, Digits, DigitIndex;
    PowMonotone(base, k, k);
    if n > 0 {
      PositiveIndex(n, Pow(base, k), base);
    } else {
      SixteenPowers();
      CountUnique(LONG_BOUND, 16, 16);
      IndexOfMostNegative(k);
    }
  }

  lemma IndexOfMostNegative(k: nat)
    requires k <= 15
    ensures Pow(16, k) > 0 && 0 <= DigitIndex(-LONG_BOUND, Pow(16, k), 16) < 16
    ensures DigitIndex(-LONG_BOUND, Pow(16, k), 16) == LONG_BOUND / Pow(16, k) % 16
  {
    hide Pow, CRem;
    QuotientOfMostNegative(k);
    PowStep(16, 0);
    if k < 15 {
      PowMonotone(16, 14 - k, 14 - k);
      PowStep(16, 14 - k);
      IndexOfMultiple(8 * Pow(16, 14 - k));
    } else {
      assert CRem(-8 + 16, 16) == 8 by { IndexOfEight(); }
    }
  }

  lemma IndexOfEight()
    ensures CRem(-8 + 16, 16) == 8
  {}

  lemma QuotientOfMostNegative(k: nat)
    requires k <= 15
    ensures Pow(16, k) > 0 && LONG_BOUND / Pow(16, k) == 8 * Pow(16, 15 - k)
  {
    hide Pow;
    SixteenPowers();
    PowMonotone(16, k, k);
    PowSplit(16, k, 15 - k);
    Times8(Pow(16, k), Pow(16, 15 - k));
    QuotientUnique(LONG_BOUND, Pow(16, k), 8 * Pow(16, 15 - k), 0);
  }

  lemma Times8(a: nat, b: nat)
    ensures 8 * b * a == 8 * (a * b)
  {}

  lemma PositiveIndex(n: nat, divider: nat, base: nat)
    requires Base(base) && divider > 0
    ensures 0 <= DigitIndex(n, divider, base) < base && DigitIndex(n, divider, base) == n / divider % base
  {
    hide CRem;
    var m := n / divider;
    assert m >= 0;
    IndexOfPositive(m, base);
    assert DigitIndex(n, divider, base) == CRem(m + base, base);
  }

  lemma IndexOfPositive(m: int, base: nat)
    requires Base(base) && m >= 0
    ensures 0 <= CRem(m + base, base) < base && CRem(m + base, base) == m % base
  {
    if base == 10 {
      assert (m + 10) / 10 == m / 10 + 1;
    } else {
      assert (m + 16) / 16 == m / 16 + 1;
    }
  }

  lemma IndexOfMultiple(q: nat)
    requires q > 0
    ensures CRem(-(16 * q) + 16, 16) == 0 && (16 * q) % 16 == 0
  {
    assert (16 * q - 16) / 16 == q - 1;
  }

  lemma {:induction false} PowSplit(base: nat, i: nat, j: nat)
    ensures Pow(base, i) * Pow(base, j) == Pow(base, i + j)
  {
    if i > 0 {
      PowSplit(base, i - 1, j);
      calc {
        Pow(base, i) * Pow(base, j);
        base * Pow(base, i - 1) * Pow(base, j);
        { MulAssoc(base, Pow(base, i - 1), Pow(base, j)); }
        base * (Pow(base, i - 1) * Pow(base, j));
      }
    }
  }

  lemma MulAssoc(a: nat, b: nat, c: nat)
    ensures a * b * c == a * (b * c)
  {}

  // ----- the text -----

  function Repeat(c: char, k: int): (s: string)
    ensures |s| == if k > 0 then k else 0
    ensures forall i :: 0 <= i < |s| ==> s[i] == c
  {
    if k <= 0 then [] else Repeat(c, k - 1) + [c]
  }

  function Abs(n: int): nat { if n < 0 then -n else n }

  function Sign(n: int, flags: Flags): string {
    if n < 0 then "-" else if flags.sign then "+" else ""
  }

  /** The digits in a field of at least `pad` characters. */
  function Field(n: nat, base: nat, flags: Flags, pad: int): string
    requires Base(base)
  {
    var digits := Digits(n, base);
    var missing := pad - |digits|;
    if n == 0 then digits
    else if flags.padLeft then digits + Repeat(' ', missing)
    else Repeat(if flags.pad0 then '0' else ' ', missing) + digits
  }

  function Text(n: int, base: nat, flags: Flags, pad: int): string
    requires Base(base)
  {
    Sign(n, flags) + Field(Abs(n), base, flags, pad)
  }

  /** Reading: digits from the left, blanks skipped. */
  function Number(s: string, base: nat): nat {
    if s == [] then 0
    else
      var v, c := Number(s[..|s| - 1], base), s[|s| - 1];
      if c == ' ' then v else v * base + DigitValue(c)
  }

  function Parse(s: string, base: nat): int {
    if s != [] && s[0] == '-' then -(Number(s[1..], base) as int)
    else if s != [] && s[0] == '+' then Number(s[1..], base)
    else Number(s, base)
  }

  lemma NumberAppend(s: string, c: char, base: nat)
    requires c != ' '
    ensures Number(s + [c], base) == Number(s, base) * base + DigitValue(c)
  {
    assert (s + [c])[..|s|] == s;
  }

  lemma {:induction false} NumberOfDigits(pre: string, n: nat, base: nat)
    requires Base(base) && Number(pre, base) == 0
    ensures Number(pre + Digits(n, base), base) == n
    decreases n
  {
    hide Number, DigitValue, Digits;
    DigitsLast(n, base);
    var front := if n < base then pre else pre + Digits(n / base, base);
    if n >= base {
      NumberOfDigits(pre, n / base, base);
    }
    DigitBack(n % base);
    NumberAppend(front, DIGITS[n % base], base);
    assert pre + Digits(n, base) == front + [DIGITS[n % base]];
  }

  lemma {:induction false} NumberPadding(s: string, c: char, k: int, base: nat)
    requires c == ' ' || (c == '0' && Number(s, base) == 0)
    ensures Number(s + Repeat(c, k), base) == Number(s, base)
    decreases k
  {
    if k <= 0 {
      assert s + Repeat(c, k) == s;
    } else {
      NumberPadding(s, c, k - 1, base);
      var t := s + Repeat(c, k);
      assert t[..|t| - 1] == s + Repeat(c, k - 1);
    }
  }

  lemma FieldReads(n: nat, base: nat, flags: Flags, pad: int)
    requires Base(base)
    ensures Number(Field(n, base, flags, pad), base) == n
  {
    hide Number, Digits, Repeat;
    var digits := Digits(n, base);
    var fill := Repeat(if flags.pad0 then '0' else ' ', pad - |digits|);
    assert [] + digits == digits && [] + fill == fill;
    assert Number([], base) == 0 by { NumberNone(base); }
    NumberOfDigits([], n, base);
    NumberPadding(digits, ' ', pad - |digits|, base);
    NumberPadding([], if flags.pad0 then '0' else ' ', pad - |digits|, base);
    NumberOfDigits(fill, n, base);
  }

  lemma NumberNone(base: nat)
    ensures Number([], base) == 0
  {}

  lemma FieldFirst(n: nat, base: nat, flags: Flags, pad: int)
    requires Base(base)
    ensures var f := Field(n, base, flags, pad); f != [] && f[0] != '-' && f[0] != '+'
  {
    DigitFirst(n, base);
  }

  lemma {:induction false} DigitFirst(n: nat, base: nat)
    requires Base(base)
    ensures Digits(n, base)[0] != '-' && Digits(n, base)[0] != '+'
    decreases n
  {
    if n < base {
      DigitBack(n);
    } else {
      DigitFirst(n / base, base);
    }
  }

  /** The text reads back as the number. */
  lemma ParsesBack(n: int, base: nat, flags: Flags, pad: int)
    requires Base(base)
    ensures Parse(Text(n, base, flags, pad), base) == n
  {
    var f := Field(Abs(n), base, flags, pad);
    FieldReads(Abs(n), base, flags, pad);
    FieldFirst(Abs(n), base, flags, pad);
    assert Text(n, base, flags, pad)[|Sign(n, flags)|..] == f;
  }

  /** The field is as wide as asked for, or as the digits need; blanks go where the flag says, or zeros in front. */
  lemma FieldWidth(n: nat, base: nat, flags: Flags, pad: int)
    requires Base(base) && n > 0
    ensures var d := |Digits(n, base)|;
            var f := Field(n, base, flags, pad);
            && |f| == (if pad > d then pad else d)
            && Pow(base, d - 1) <= n < Pow(base, d)
            && forall i :: 0 <= i < |f| ==>
                 f[i] == if flags.padLeft then (if i < d then Digits(n, base)[i] else ' ')
                         else if i >= |f| - d then Digits(n, base)[i - (|f| - d)]
                         else if flags.pad0 then '0' else ' '
  {
    DigitCount(n, base);
  }

  /** A sign is in front exactly of negative numbers, and of others if asked for. */
  lemma SignExactly(n: int, base: nat, flags: Flags, pad: int)
    requires Base(base)
    ensures var t := Text(n, base, flags, pad);
            t != [] && (t[0] == '-' <==> n < 0) && (t[0] == '+' <==> n >= 0 && flags.sign)
  {
    FieldFirst(Abs(n), base, flags, pad);
  }

  // ----- the code -----

  /** What ends up in the buffer: as much of the text as there is room for. */
  ghost predicate Wrote(before: seq<char>, after: seq<char>, p: nat, end: nat, text: string, q: nat) {
    && |before| == |after| && p <= end <= |before| && q == p + Min(|text|, end - p)
    && after[..p] == before[..p] && after[q..] == before[q..] && after[p..q] == text[..q - p]
  }

  lemma WroteMore(b0: seq<char>, b1: seq<char>, b2: seq<char>, p: nat, end: nat, s: string, t: string, q: nat, r: nat)
    requires Wrote(b0, b1, p, end, s, q) && Wrote(b1, b2, q, end, t, r)
    ensures Wrote(b0, b2, p, end, s + t, r)
  {
    assert b2[p..q] == b2[..q][p..] == b1[..q][p..] == b1[p..q];
    assert b2[p..r] == b2[p..q] + b2[q..r];
    assert b2[..p] == b2[..q][..p] == b1[..q][..p] == b1[..p];
    assert b2[r..] == b1[r..] == b1[q..][r - q..] == b0[q..][r - q..] == b0[r..];
    if q < end {
      assert s[..q - p] == s;
      assert (s + t)[..r - p] == s + t[..r - q];
    } else {
      assert (s + t)[..r - p] == s[..q - p];
    }
  }

  lemma WroteNothing(b: seq<char>, p: nat, end: nat)
    requires p <= end <= |b|
    ensures Wrote(b, b, p, end, "", p)
  {}

  /** One character, if there is room. */
  method PutChar(buf: array<char>, p: nat, end: nat, c: char) returns (q: nat)
    requires p <= end <= buf.Length
    modifies buf
    ensures Wrote(old(buf[..]), buf[..], p, end, [c], q)
  {
    q := p;
    if p < end {
      buf[p] := c;
      q := p + 1;
      assert buf[..][p..q] == [c];
    }
  }

  method AddPadding(buf: array<char>, p: nat, end: nat, pad: int, fill: char) returns (q: nat)
    requires p <= end <= buf.Length
    modifies buf
    ensures Wrote(old(buf[..]), buf[..], p, end, Repeat(fill, pad), q)
  {
    q := p;
    var left := pad;
    ghost var done := 0;
    WroteNothing(buf[..], p, end);
    while left > 0 && q < end
      invariant done >= 0 && left == pad - done && p <= q <= end && (pad <= 0 ==> done == 0)
      invariant Wrote(old(buf[..]), buf[..], p, end, Repeat(fill, done), q) && (pad >= 0 ==> left >= 0)
      decreases left
    {
      ghost var before := buf[..];
      ghost var q0 := q;
      q := PutChar(buf, q, end, fill);
      WroteMore(old(buf[..]), before, buf[..], p, end, Repeat(fill, done), [fill], q0, q);
      done := done + 1;
      left := left - 1;
    }
    RepeatCut(old(buf[..]), buf[..], p, end, fill, done, pad, q);
  }

  lemma RepeatCut(b0: seq<char>, b1: seq<char>, p: nat, end: nat, c: char, done: nat, pad: int, q: nat)
    requires Wrote(b0, b1, p, end, Repeat(c, done), q) && (done == pad || pad <= 0 == done || (q == end && done <= pad))
    ensures Wrote(b0, b1, p, end, Repeat(c, pad), q)
  {
    assert Repeat(c, done)[..q - p] == Repeat(c, pad)[..q - p];
  }

  /** The largest power of the base that is not above |n|, and the padding that remains. */
  method TopDivider(n: int, base: nat, pad: int) returns (top: int, pad': int)
    requires Base(base) && Magnitude(n)
    ensures var d := |Digits(Abs(n), base)|; top == Pow(base, d - 1) && pad' == pad - d
  {
    hide Pow, Digits, SignedLong;
    var divider := 1;
    top, pad' := 0, pad;
    ghost var k := 0;
    PowStep(base, 0);
    while divider > 0 && CDiv(n, divider) != 0
      invariant 0 <= top <= Abs(n) && pad' == pad - k
      invariant if k == 0 then divider == 1 && top == 0 else top == Pow(base, k - 1)
      invariant divider == Pow(base, k) || (k > 0 && divider <= 0 && Abs(n) < Pow(base, k))
      decreases Abs(n) - top
    {
      DivZero(Abs(n), divider);
      if k > 0 {
        PowStep(base, k - 1);
      }
      top := divider;
      PowStep(base, k);
      WrappedPower(Abs(n), base, k + 1);
      divider := SignedLong(divider * base);
      pad' := pad' - 1;
      k := k + 1;
    }
    if divider > 0 {
      DivZero(Abs(n), divider);
    }
    PowMonotone(base, k, k);
    CountUnique(Abs(n), base, k);
  }

  lemma DivZero(n: int, d: int)
    requires n > 0 && d > 0
    ensures n / d == 0 <==> n < d
  {
    if n < d {
      QuotientUnique(n, d, 0, n);
    }
  }

  /** Writes the digits from the left. */
  method PutDigits(buf: array<char>, p: nat, end: nat, n: int, base: nat, top: int) returns (q: nat)
    requires p <= end <= buf.Length && Base(base) && Magnitude(n) && Printable(n, base)
    requires top == Pow(base, |Digits(Abs(n), base)| - 1)
    modifies buf
    ensures Wrote(old(buf[..]), buf[..], p, end, Digits(Abs(n), base), q)
  {
    hide Wrote, Digits, Pow;
    var digits := Digits(Abs(n), base);
    q := p;
    var divider := top;
    ghost var k := 0;
    WroteNothing(buf[..], p, end);
    assert digits[..0] == "";
    while q < end && divider > 0
      invariant k <= |digits| && p <= q <= end
      invariant divider == if k < |digits| then Pow(base, |digits| - 1 - k) else 0
      invariant Wrote(old(buf[..]), buf[..], p, end, digits[..k], q)
      decreases |digits| - k
    {
      PowMonotone(base, 0, |digits| - 1 - k);
      DigitAt(Abs(n), base, k);
      ghost var before := buf[..];
      ghost var q0 := q;
      IndexRight(n, base, |digits| - 1 - k);
      q := PutChar(buf, q, end, DIGITS[DigitIndex(n, divider, base)]);
      WroteMore(old(buf[..]), before, buf[..], p, end, digits[..k], [digits[k]], q0, q);
      assert digits[..k + 1] == digits[..k] + [digits[k]];
      WroteRange(old(buf[..]), buf[..], p, end, digits[..k + 1], q);
      NextDivider(base, |digits| - 1 - k);
      divider := divider / base;
      k := k + 1;
    }
    if k < |digits| {
      PowMonotone(base, 0, |digits| - 1 - k);
    }
    DigitsCut(old(buf[..]), buf[..], p, end, digits, k, q);
  }

  lemma NextDivider(base: nat, k: nat)
    requires Base(base)
    ensures Pow(base, k) / base == if k > 0 then Pow(base, k - 1) else 0
  {
    assert k == 0 ==> Pow(base, k) == 1;
  }

  lemma WroteRange(b0: seq<char>, b1: seq<char>, p: nat, end: nat, text: string, q: nat)
    requires Wrote(b0, b1, p, end, text, q)
    ensures p <= q <= end <= |b1| && q - p == Min(|text|, end - p)
  {}

  lemma DigitsCut(b0: seq<char>, b1: seq<char>, p: nat, end: nat, digits: string, k: nat, q: nat)
    requires k <= |digits| && Wrote(b0, b1, p, end, digits[..k], q) && (q == end || k == |digits|)
    ensures Wrote(b0, b1, p, end, digits, q)
  {
    assert digits[..k][..q - p] == digits[..q - p];
  }

  /**
    Converts a number to text.  For every n, except the most negative one in base 10, the buffer
    receives as much of the text as fits before `end`, and nothing else in it changes.
    */
  method Ltoa(buf: array<char>, p: nat, end: nat, n: int, base: nat, flags: Flags, pad: int) returns (q: nat)
    requires p <= end <= buf.Length && Base(base) && -LONG_BOUND <= n < LONG_BOUND
    requires !(n == -LONG_BOUND && base == 10)
    modifies buf
    ensures Wrote(old(buf[..]), buf[..], p, end, Text(n, base, flags, pad), q)
  {
    hide Wrote, Digits, Repeat, Pow;
    q := p;
    ghost var b0 := buf[..];
    WroteNothing(b0, p, end);
    if n < 0 || flags.sign {
      q := PutChar(buf, q, end, if n < 0 then '-' else '+');
    }
    assert Wrote(b0, buf[..], p, end, Sign(n, flags), q);
    ghost var b1, q1 := buf[..], q;
    WroteRange(b0, b1, p, end, Sign(n, flags), q);
    if n == 0 {
      q := PutChar(buf, q, end, '0');
      assert Digits(0, base) == "0" by { ZeroDigits(base); }
    } else {
      var abs := Labs(n);
      var top, missing := TopDivider(abs, base, pad);
      q := PutField(buf, q, end, abs, base, flags, pad, top, missing);
    }
    WroteMore(b0, b1, buf[..], p, end, Sign(n, flags), Field(Abs(n), base, flags, pad), q1, q);
  }

  lemma ZeroDigits(base: nat)
    requires Base(base)
    ensures Digits(0, base) == "0"
  {
    assert DIGITS[0] == '0';
  }

  method PutField(buf: array<char>, p: nat, end: nat, n: int, base: nat, flags: Flags, pad: int,
                  top: int, missing: int) returns (q: nat)
    requires p <= end <= buf.Length && Base(base) && Magnitude(n) && Printable(n, base)
    requires top == Pow(base, |Digits(Abs(n), base)| - 1) && missing == pad - |Digits(Abs(n), base)|
    modifies buf
    ensures Wrote(old(buf[..]), buf[..], p, end, Field(Abs(n), base, flags, pad), q)
  {
    hide Wrote, Digits, Repeat, Pow;
    q := p;
    ghost var b0 := buf[..];
    var fill := if flags.pad0 then '0' else ' ';
    if !flags.padLeft {
      q := AddPadding(buf, q, end, missing, fill);
      WroteRange(b0, buf[..], p, end, Repeat(fill, missing), q);
    }
    ghost var b1, q1 := buf[..], q;
    q := PutDigits(buf, q, end, n, base, top);
    ghost var b2, q2 := buf[..], q;
    WroteRange(b1, b2, q1, end, Digits(Abs(n), base), q2);
    if flags.padLeft {
      q := AddPadding(buf, q, end, missing, ' ');
      WroteMore(b0, b2, buf[..], p, end, Digits(Abs(n), base), Repeat(' ', missing), q2, q);
    } else {
      WroteMore(b0, b1, b2, p, end, Repeat(fill, missing), Digits(Abs(n), base), q1, q2);
    }
  }

  // ----- the most negative number -----

  /** The index is in the digit table for the divider base^k. */
  predicate InTable(n: int, base: nat, k: nat)
    requires Base(base)
  {
    PowMonotone(base, k, k);
    0 <= DigitIndex(Labs(n), Pow(base, k), base) < base
  }

  /**
    Every divider the digit loop goes through, for every number, indexes the table, except for the
    most negative number in base 10.
    */
  lemma TableIndex(n: int, base: nat)
    requires Base(base) && -LONG_BOUND <= n < LONG_BOUND && n != 0
    ensures (forall k: nat :: k < |Digits(Abs(n), base)| ==> InTable(n, base, k)) <==> !(n == -LONG_BOUND && base == 10)
  {
    hide Pow, Digits;
    if n == -LONG_BOUND && base == 10 {
      TenPowers();
      CountUnique(LONG_BOUND, 10, 19);
      LeavesTable();
    } else {
      forall k: nat | k < |Digits(Abs(n), base)| ensures InTable(n, base, k) {
        IndexRight(Labs(n), base, k);
      }
    }
  }

  lemma LeavesTable()
    ensures !InTable(-LONG_BOUND, 10, 17)
  {
    TenPowers();
    assert LONG_BOUND / 100_000_000_000_000_000 == 92;
  }
}
