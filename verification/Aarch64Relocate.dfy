/**
  Moving the first instructions of an aarch64 function.  Most recognised instructions do not depend
  on their address and are copied; ADRP is replaced by four instructions that load the address it
  would compute; an indirect jump leads back through a register that the moved code leaves alone.
  */
module Aarch64Relocate {
  import opened Bytes

  const ZR: nat := 31
  const PAGE: nat := 4096
  const LOAD64_WORDS: nat := 4
  const JUMP_WORDS: nat := 4

  /** x9 to x15 may be overwritten by any call. */
  const TMP_REGS: set<nat> := {9, 10, 11, 12, 13, 14, 15}

  // ----- instruction words -----

  function Rd(w: Word32): nat { w as int % 32 }

  function Rn(w: Word32): nat { w as int / 32 % 32 }

  predicate StpPost(w: Word32) { w as int / 0x40_0000 == 0x2A2 }
  predicate StpPre(w: Word32) { w as int / 0x40_0000 == 0x2A6 }
  predicate StpOffset(w: Word32) { w as int / 0x40_0000 == 0x2A4 }
  predicate Stp(w: Word32) { StpPost(w) || StpPre(w) || StpOffset(w) }

  predicate Cmp(w: Word32) { w as int / 0x40_0000 % 0x200 == 0x1AC && w as int % 32 == 31 }

  predicate Movk(w: Word32) { w as int / 0x80_0000 % 0x100 == 0xE5 }
  predicate MovRegister(w: Word32) { w as int / 0x20_0000 % 0x400 == 0x150 && w as int / 32 % 0x800 == 0x1F }
  predicate MovSp(w: Word32) { w as int / 0x400 % 0x20_0000 == 0x44000 }
  predicate MovWide(w: Word32) { w as int / 0x80_0000 % 0x100 == 0xA5 }
  predicate LdrIndexed(w: Word32) {
    w as int / 0x8000_0000 == 1 && w as int / 0x20_0000 % 0x200 == 0x1C2 && w as int / 0x400 % 2 == 1
  }
  predicate LdrOffset(w: Word32) { w as int / 0x8000_0000 == 1 && w as int / 0x40_0000 % 0x100 == 0xE5 }
  predicate MovOrLdr(w: Word32) {
    Movk(w) || MovRegister(w) || MovSp(w) || MovWide(w) || LdrIndexed(w) || LdrOffset(w)
  }

  predicate Adrp(w: Word32) { w as int / 0x8000_0000 == 1 && w as int / 0x100_0000 % 32 == 0x10 }

  /** Recognised instructions that are copied as they are. */
  predicate Copied(w: Word32) { Stp(w) || Cmp(w) || MovOrLdr(w) }

  /** The immediate of ADRP: a signed number of pages, in bytes. */
  function PageOffset(w: Word32): int {
    var imm := (w as int / 32 % 0x8_0000) * 4 + w as int / 0x2000_0000 % 4;
    (if imm >= 0x10_0000 then imm - 0x20_0000 else imm) * PAGE
  }

  /** The words of a 64-bit load immediate: MOVZ for the highest 16 bits, MOVK for the others. */
  function MovWord(op: nat, reg: nat, hw: nat, value: nat): Word32
    requires op < 0x200 && reg < 32 && hw < 4
  {
    op * 0x80_0000 + hw * 0x20_0000 + (value % 0x1_0000) * 32 + reg
  }

  const MOVZ: nat := 0x1A5
  const MOVK: nat := 0x1E5

  function LoadWords(reg: nat, value: Word): (s: seq<Word32>)
    requires reg < 32
    ensures |s| == LOAD64_WORDS
  {
    [MovWord(MOVZ, reg, 3, value as int / 0x1_0000_0000_0000), MovWord(MOVK, reg, 2, value as int / 0x1_0000_0000),
     MovWord(MOVK, reg, 1, value as int / 0x1_0000), MovWord(MOVK, reg, 0, value)]
  }

  /** An indirect jump: load the destination from the two words after the branch, and branch. */
  function JumpWords(reg: nat, dest: Word): (s: seq<Word32>)
    requires reg < 32
    ensures |s| == JUMP_WORDS
  {
    [0x5800_0000 + 2 * 32 + reg, 0xD61F_0000 + reg * 32, dest as int % TWO32, dest as int / TWO32]
  }

  // ----- what the instructions do -----

  type Registers = r: seq<Word> | |r| == 31 witness seq(31, _ => 0)

  /** Everything but the program counter. */
  datatype Core = Core(x: Registers, sp: Word, flags: nat, mem: Memory)

  datatype State = State(pc: Word, core: Core)

  /** Code is not changed by running it. */
  type Code = Word -> Word32

  /** The effect of copied instructions other than 64-bit MOVZ and MOVK; they do not see their address. */
  type Meaning = (Word32, Core) -> Core

  function Set(c: Core, r: nat, v: Word): Core
    requires r < 32
  {
    if r == ZR then c else c.(x := c.x[r := v])
  }

  function Get(c: Core, r: nat): Word
    requires r < 32
  {
    if r == ZR then 0 else c.x[r]
  }

  function Chunk(hw: nat): nat {
    if hw == 0 then 1 else if hw == 1 then 0x1_0000 else if hw == 2 then 0x1_0000_0000 else 0x1_0000_0000_0000
  }

  function Imm16(w: Word32): nat { w as int / 32 % 0x1_0000 }

  function Hw(w: Word32): nat { w as int / 0x20_0000 % 4 }

  /** v with 16 of its bits replaced. */
  function Insert(v: Word, hw: nat, imm: nat): Word
    requires hw < 4 && imm < 0x1_0000
  {
    var p := Chunk(hw);
    var r := v as int - v as int / p % 0x1_0000 * p + imm * p;
    InsertRange(v, hw, imm);
    r
  }

  lemma InsertRange(v: Word, hw: nat, imm: nat)
    requires hw < 4 && imm < 0x1_0000
    ensures var p := Chunk(hw); 0 <= v as int - v as int / p % 0x1_0000 * p + imm * p < TWO64
  {
    if hw == 0 {
    } else if hw == 1 {
    } else if hw == 2 {
    } else {
    }
  }

  function Act(meaning: Meaning, w: Word32, c: Core): Core {
    if w as int / 0x80_0000 == MOVZ then Set(c, Rd(w), Insert(0, Hw(w), Imm16(w)))
    else if w as int / 0x80_0000 == MOVK then Set(c, Rd(w), Insert(Get(c, Rd(w)), Hw(w), Imm16(w)))
    else meaning(w, c)
  }

  /** ADRP clears the low 12 bits of the program counter. */
  function AdrpValue(pc: Word, w: Word32): Word { Wrap64(pc as int - pc as int % PAGE + PageOffset(w)) }

  function Next(pc: Word): Word { Wrap64(pc as int + 4) }

  function Step(code: Code, meaning: Meaning, s: State): Option<State> {
    var w := code(s.pc);
    if Copied(w) then Some(State(Next(s.pc), Act(meaning, w, s.core)))
    else if Adrp(w) then Some(State(Next(s.pc), Set(s.core, Rd(w), AdrpValue(s.pc, w))))
    else if w as int / 0x100_0000 == 0x58 && w as int / 32 % 0x8_0000 < 0x4_0000 then
      var at := s.pc as int + w as int / 32 % 0x8_0000 * 4;
      Some(State(Next(s.pc), Set(s.core, Rd(w), Double(code(Wrap64(at)), code(Wrap64(at + 4))))))
    else if w as int / 0x1_0000 == 0xD61F && w as int / 0x400 % 64 == 0 && w as int % 32 == 0 then
      Some(State(Get(s.core, Rn(w)), s.core))
    else None
  }

  function Double(lo: Word32, hi: Word32): Word { lo as int + TWO32 * hi as int }

  function Run(code: Code, meaning: Meaning, s: State, n: nat): Option<State>
    decreases n
  {
    if n == 0 then Some(s)
    else
      var t := Step(code, meaning, s);
      if t.None? then None else Run(code, meaning, t.value, n - 1)
  }

  lemma {:induction false} RunJoin(code: Code, meaning: Meaning, s: State, n: nat, k: nat)
    requires Run(code, meaning, s, n).Some?
    ensures Run(code, meaning, s, n + k) == Run(code, meaning, Run(code, meaning, s, n).value, k)
    decreases n
  {
    if n > 0 {
      hide Step;
      RunJoin(code, meaning, Step(code, meaning, s).value, n - 1, k);
    }
  }

  // ----- the 64-bit load and the jump -----

  lemma MovFields(op: nat, reg: nat, hw: nat, value: nat)
    requires (op == MOVZ || op == MOVK) && reg < 32 && hw < 4
    ensures var w := MovWord(op, reg, hw, value);
            && w as int / 0x80_0000 == op && Hw(w) == hw && Imm16(w) == value % 0x1_0000 && Rd(w) == reg
            && Copied(w)
  {
    MovParts(op, reg, hw, value % 0x1_0000);
  }

  lemma Split(q: nat, d: nat, r: nat)
    requires 0 <= r < d && d in {0x80_0000, 0x20_0000, 0x1000, 0x200, 32}
    ensures (q * d + r) / d == q && (q * d + r) % d == r
  {}

  lemma MovParts(op: nat, reg: nat, hw: nat, imm: nat)
    requires (op == MOVZ || op == MOVK) && reg < 32 && hw < 4 && imm < 0x1_0000
    ensures var w := op * 0x80_0000 + hw * 0x20_0000 + imm * 32 + reg;
            && w / 0x80_0000 == op && w / 0x20_0000 % 4 == hw && w / 32 % 0x1_0000 == imm && w % 32 == reg
  {
    Split(op, 0x80_0000, hw * 0x20_0000 + imm * 32 + reg);
    Split(op * 4 + hw, 0x20_0000, imm * 32 + reg);
    Split(op * 0x4_0000 + hw * 0x1_0000 + imm, 32, reg);
  }

  /** The words at an address. */
  ghost predicate Holds(code: Code, a: int, words: seq<Word32>) {
    forall i :: 0 <= i < |words| ==> code(Wrap64(a + 4 * i)) == words[i]
  }

  lemma HoldsAt(code: Code, a: int, words: seq<Word32>, i: nat)
    requires Holds(code, a, words) && i <= |words|
    ensures Holds(code, a + 4 * i, words[i..])
    ensures i < |words| ==> code(Wrap64(a + 4 * i)) == words[i]
  {
    var rest := words[i..];
    forall j | 0 <= j < |rest| ensures code(Wrap64(a + 4 * i + 4 * j)) == rest[j] {
      assert a + 4 * i + 4 * j == a + 4 * (i + j);
      assert code(Wrap64(a + 4 * (i + j))) == words[i + j];
    }
  }

  lemma WrapNext(a: int)
    ensures Next(Wrap64(a)) == Wrap64(a + 4)
  {}

  lemma MovStep(code: Code, meaning: Meaning, a: int, c: Core, op: nat, reg: nat, hw: nat, value: nat)
    requires (op == MOVZ || op == MOVK) && reg < 32 && hw < 4 && code(Wrap64(a)) == MovWord(op, reg, hw, value)
    ensures Step(code, meaning, State(Wrap64(a), c)) ==
            Some(State(Wrap64(a + 4), Set(c, reg, Insert(if op == MOVZ then 0 else Get(c, reg), hw, value % 0x1_0000))))
  {
    hide Copied, Insert, Adrp, MovWord;
    MovFields(op, reg, hw, value);
    WrapNext(a);
  }

  /** Inserting below a multiple of a higher chunk adds. */
  lemma InsertBelow(high: nat, hw: nat, imm: nat)
    requires hw < 4 && imm < 0x1_0000 && high * 0x1_0000 * Chunk(hw) < TWO64
    ensures Insert(high * 0x1_0000 * Chunk(hw), hw, imm) == (high * 0x1_0000 + imm) * Chunk(hw)
  {
    var p := Chunk(hw);
    var v := high * 0x1_0000 * p;
    assert v / p == high * 0x1_0000;
    assert v / p % 0x1_0000 == 0;
  }

  lemma Shifts(v: Word)
    ensures var h3, h2, h1 := v as int / 0x1_0000_0000_0000, v as int / 0x1_0000_0000, v as int / 0x1_0000;
            && 0 <= h3 < 0x1_0000 && h2 == h3 * 0x1_0000 + h2 % 0x1_0000
            && h1 == h2 * 0x1_0000 + h1 % 0x1_0000 && v as int == h1 * 0x1_0000 + v as int % 0x1_0000
  {}

  /** The four inserted chunks make up the value. */
  lemma ChunksMake(v: Word)
    ensures var v3 := Insert(0, 3, v as int / 0x1_0000_0000_0000 % 0x1_0000);
            var v2 := Insert(v3, 2, v as int / 0x1_0000_0000 % 0x1_0000);
            var v1 := Insert(v2, 1, v as int / 0x1_0000 % 0x1_0000);
            Insert(v1, 0, v as int % 0x1_0000) == v
  {
    hide Insert;
    Shifts(v);
    var h3, h2, h1 := v as int / 0x1_0000_0000_0000, v as int / 0x1_0000_0000, v as int / 0x1_0000;
    InsertBelow(0, 3, h3 % 0x1_0000);
    var v3 := Insert(0, 3, h3 % 0x1_0000);
    assert v3 == h3 * 0x1_0000 * Chunk(2);
    InsertBelow(h3, 2, h2 % 0x1_0000);
    var v2 := Insert(v3, 2, h2 % 0x1_0000);
    assert v2 == h2 * 0x1_0000 * Chunk(1);
    InsertBelow(h2, 1, h1 % 0x1_0000);
    var v1 := Insert(v2, 1, h1 % 0x1_0000);
    assert v1 == h1 * 0x1_0000 * Chunk(0);
    InsertBelow(h1, 0, v as int % 0x1_0000);
  }

  lemma SetTwice(c: Core, r: nat, v: Word, v': Word)
    requires r < 32
    ensures Set(Set(c, r, v), r, v') == Set(c, r, v') && (r != ZR ==> Get(Set(c, r, v), r) == v)
  {
    if r != ZR {
      assert c.x[r := v][r := v'] == c.x[r := v'];
    }
  }

  /** Running the load puts exactly the value into the register and changes nothing else. */
  lemma LoadRuns(code: Code, meaning: Meaning, a: int, c: Core, reg: nat, value: Word)
    requires reg < 32 && Holds(code, a, LoadWords(reg, value))
    ensures Run(code, meaning, State(Wrap64(a), c), LOAD64_WORDS) == Some(State(Wrap64(a + 16), Set(c, reg, value)))
  {
    hide Step, Insert, MovWord, Run, Set, Get;
    var words := LoadWords(reg, value);
    var h3, h2, h1: nat := value as int / 0x1_0000_0000_0000, value as int / 0x1_0000_0000, value as int / 0x1_0000;
    assert code(Wrap64(a + 4 * 0)) == words[0] && code(Wrap64(a + 4 * 1)) == words[1]
        && code(Wrap64(a + 4 * 2)) == words[2] && code(Wrap64(a + 4 * 3)) == words[3];
    MovStep(code, meaning, a, c, MOVZ, reg, 3, h3);
    var v3 := Insert(0, 3, h3 % 0x1_0000);
    var c3 := Set(c, reg, v3);
    MovStep(code, meaning, a + 4, c3, MOVK, reg, 2, h2);
    var v2 := Insert(Get(c3, reg), 2, h2 % 0x1_0000);
    SetTwice(c, reg, v3, v2);
    var c2 := Set(c, reg, v2);
    MovStep(code, meaning, a + 8, c2, MOVK, reg, 1, h1);
    var v1 := Insert(Get(c2, reg), 1, h1 % 0x1_0000);
    SetTwice(c, reg, v2, v1);
    var c1 := Set(c, reg, v1);
    MovStep(code, meaning, a + 12, c1, MOVK, reg, 0, value);
    SetTwice(c, reg, v1, Insert(Get(c1, reg), 0, value as int % 0x1_0000));
    SetZero(c, Insert(Get(c1, reg), 0, value as int % 0x1_0000), value);
    ChunksMake(value);
    FourSteps(code, meaning, State(Wrap64(a), c));
  }

  lemma SetZero(c: Core, v: Word, v': Word)
    ensures Set(c, ZR, v) == Set(c, ZR, v')
  {}

  lemma FourSteps(code: Code, meaning: Meaning, s: State)
    ensures Step(code, meaning, s).Some? ==>
            var s1 := Step(code, meaning, s).value;
            Step(code, meaning, s1).Some? ==>
            var s2 := Step(code, meaning, s1).value;
            Step(code, meaning, s2).Some? ==>
            var s3 := Step(code, meaning, s2).value;
            Step(code, meaning, s3).Some? ==> Run(code, meaning, s, 4) == Step(code, meaning, s3)
  {
    hide Step;
    if Step(code, meaning, s).Some? {
      var s1 := Step(code, meaning, s).value;
      assert Run(code, meaning, s, 4) == Run(code, meaning, s1, 3);
      if Step(code, meaning, s1).Some? {
        var s2 := Step(code, meaning, s1).value;
        assert Run(code, meaning, s1, 3) == Run(code, meaning, s2, 2);
        if Step(code, meaning, s2).Some? {
          var s3 := Step(code, meaning, s2).value;
          assert Run(code, meaning, s2, 2) == Run(code, meaning, s3, 1);
          if Step(code, meaning, s3).Some? {
            assert Run(code, meaning, Step(code, meaning, s3).value, 0) == Step(code, meaning, s3);
          }
        }
      }
    }
  }

  /** All but the lowest ten bits decide what an instruction is. */
  lemma HighBits(w: Word32, c: nat)
    requires w as int / 0x400 == c
    ensures w as int / 0x1_0000 == c / 0x40 && w as int / 0x20_0000 == c / 0x800 && w as int / 0x40_0000 == c / 0x1000
    ensures w as int / 0x80_0000 == c / 0x2000 && w as int / 0x100_0000 == c / 0x4000
    ensures w as int / 0x8000_0000 == c / 0x20_0000
  {}

  lemma JumpFields(reg: nat)
    requires reg < ZR
    ensures var w: Word32 := 0x5800_0000 + 2 * 32 + reg;
            !Copied(w) && !Adrp(w) && w as int / 0x100_0000 == 0x58 && w as int / 32 % 0x8_0000 == 2 && Rd(w) == reg
    ensures var w: Word32 := 0xD61F_0000 + reg * 32;
            && !Copied(w) && !Adrp(w) && w as int / 0x100_0000 != 0x58 && w as int / 0x1_0000 == 0xD61F
            && w as int / 0x400 % 64 == 0 && w as int % 32 == 0 && Rn(w) == reg
  {
    hide Copied, Adrp, Rd, Rn;
    LoadFields(reg);
    BranchFields(reg);
  }

  lemma LoadFields(reg: nat)
    requires reg < ZR
    ensures var w: Word32 := 0x5800_0000 + 2 * 32 + reg;
            !Copied(w) && !Adrp(w) && w as int / 0x100_0000 == 0x58 && w as int / 32 % 0x8_0000 == 2 && Rd(w) == reg
  {
    hide Copied, Adrp;
    NoOther(0x5800_0000 + 2 * 32 + reg, 0x16_0000);
  }

  lemma BranchFields(reg: nat)
    requires reg < ZR
    ensures var w: Word32 := 0xD61F_0000 + reg * 32;
            && !Copied(w) && !Adrp(w) && w as int / 0x100_0000 != 0x58 && w as int / 0x1_0000 == 0xD61F
            && w as int / 0x400 % 64 == 0 && w as int % 32 == 0 && Rn(w) == reg
  {
    hide Copied, Adrp;
    NoOther(0xD61F_0000 + reg * 32, 0x35_87C0);
  }

  lemma NoOther(w: Word32, c: nat)
    requires w as int / 0x400 == c && (c == 0x16_0000 || c == 0x35_87C0)
    ensures !Copied(w) && !Adrp(w) && w as int / 0x100_0000 == c / 0x4000 && w as int / 0x1_0000 == c / 0x40
  {
    HighBits(w, c);
  }

  /** The jump reaches its destination and changes only its register. */
  lemma JumpRuns(code: Code, meaning: Meaning, a: int, c: Core, reg: nat, dest: Word)
    requires reg < ZR && Holds(code, a, JumpWords(reg, dest))
    ensures Run(code, meaning, State(Wrap64(a), c), 2) == Some(State(dest, Set(c, reg, dest)))
  {
    hide Copied, Adrp;
    var words := JumpWords(reg, dest);
    assert code(Wrap64(a + 4 * 0)) == words[0] && code(Wrap64(a + 4 * 1)) == words[1]
        && code(Wrap64(a + 4 * 2)) == words[2] && code(Wrap64(a + 4 * 3)) == words[3];
    JumpFields(reg);
    WrapNext(a);
    WrapTwice(a, 8);
    WrapTwice(a, 12);
    var c' := Set(c, reg, dest);
    assert Step(code, meaning, State(Wrap64(a), c)) == Some(State(Wrap64(a + 4), c'));
    assert Step(code, meaning, State(Wrap64(a + 4), c')) == Some(State(dest, c'));
    assert Run(code, meaning, State(Wrap64(a + 4), c'), 1) == Some(State(dest, c')) by {
      assert Run(code, meaning, State(dest, c'), 0) == Some(State(dest, c'));
    }
  }

  // ----- translation -----

  /** What an instruction at an address becomes. */
  function Translate(pc: Word, w: Word32): (t: Option<seq<Word32>>)
    ensures t.Some? ==> 1 <= |t.value| <= LOAD64_WORDS
  {
    if Copied(w) then Some([w])
    else if Adrp(w) then Some(LoadWords(Rd(w), Wrap64(pc as int + PageOffset(w))))
    else None
  }

  /** The register that may no longer carry the jump. */
  function Used(w: Word32): set<nat> {
    if Stp(w) then {Rn(w)} else if Cmp(w) then {} else {Rd(w)}
  }

  // ----- the recognised instructions, by their fields -----

  /** The instructions of section C6.2 of the Arm ARM that are recognised; x, y and imm are fields nobody looks at. */
  datatype Inst =
    | StorePair(op: nat, x: nat, rn: nat, rt: nat)
    | Compare(sf: nat, x: nat, rn: nat)
    | MoveImmediate(sf: nat, op: nat, imm: nat, rd: nat)
    | MoveRegister(sf: nat, rm: nat, rd: nat)
    | MoveSp(sf: nat, rn: nat, rd: nat)
    | LoadIndexed(size: nat, y: nat, rn: nat, rt: nat)
    | LoadOffset(size: nat, x: nat, rn: nat, rt: nat)
    | PageAddress(immlo: nat, immhi: nat, rd: nat)

  const STP_POST: nat := 0x2A2
  const STP_PRE: nat := 0x2A6
  const STP_OFFSET: nat := 0x2A4

  predicate WellFormed(i: Inst) {
    match i
    case StorePair(op, x, rn, rt) => op in {STP_POST, STP_PRE, STP_OFFSET} && x < 0x1000 && rn < 32 && rt < 32
    case Compare(sf, x, rn) => sf < 2 && x < 0x1000 && rn < 32
    case MoveImmediate(sf, op, imm, rd) => sf < 2 && op in {0xE5, 0xA5} && imm < 0x4_0000 && rd < 32
    case MoveRegister(sf, rm, rd) => sf < 2 && rm < 32 && rd < 32
    case MoveSp(sf, rn, rd) => sf < 2 && rn < 32 && rd < 32
    case LoadIndexed(size, y, rn, rt) => size < 2 && y < 0x400 && rn < 32 && rt < 32
    case LoadOffset(size, x, rn, rt) => size < 2 && x < 0x1000 && rn < 32 && rt < 32
    case PageAddress(immlo, immhi, rd) => immlo < 4 && immhi < 0x8_0000 && rd < 32
  }

  function Assemble(i: Inst): nat {
    match i
    case StorePair(op, x, rn, rt) => op * 0x40_0000 + x * 0x400 + rn * 32 + rt
    case Compare(sf, x, rn) => (sf * 0x200 + 0x1AC) * 0x40_0000 + x * 0x400 + rn * 32 + 31
    case MoveImmediate(sf, op, imm, rd) => (sf * 0x100 + op) * 0x80_0000 + imm * 32 + rd
    case MoveRegister(sf, rm, rd) => (sf * 0x400 + 0x150) * 0x20_0000 + rm * 0x1_0000 + 0x1F * 32 + rd
    case MoveSp(sf, rn, rd) => (sf * 0x20_0000 + 0x44000) * 0x400 + rn * 32 + rd
    case LoadIndexed(size, y, rn, rt) =>
      (0x400 + size * 0x200 + 0x1C2) * 0x20_0000 + y * 0x800 + 0x400 + rn * 32 + rt
    case LoadOffset(size, x, rn, rt) => (0x200 + size * 0x100 + 0xE5) * 0x40_0000 + x * 0x400 + rn * 32 + rt
    case PageAddress(immlo, immhi, rd) => (0x80 + immlo * 0x20 + 0x10) * 0x100_0000 + immhi * 32 + rd
  }

  lemma AssembleFits(i: Inst)
    requires WellFormed(i)
    ensures Assemble(i) < TWO32
  {}

  /** The signed number of pages in the two fields of ADRP, in bytes. */
  function PageFields(immlo: nat, immhi: nat): int {
    (if immhi >= 0x4_0000 then immhi - 0x8_0000 else immhi) * 0x4000 + immlo * 0x1000
  }

  /** The register whose use excludes it from the jump, if there is one. */
  function UsedField(i: Inst): set<nat> {
    match i
    case StorePair(_, _, rn, _) => {rn}
    case Compare(_, _, _) => {}
    case MoveImmediate(_, _, _, rd) => {rd}
    case MoveRegister(_, _, rd) => {rd}
    case MoveSp(_, _, rd) => {rd}
    case LoadIndexed(_, _, _, rt) => {rt}
    case LoadOffset(_, _, _, rt) => {rt}
    case PageAddress(_, _, rd) => {rd}
  }

  /** The leading 11 bits of a word tell its class. */
  lemma Leading(w: Word32)
    ensures var h := w as int / 0x20_0000;
            && w as int / 0x40_0000 == h / 2 && w as int / 0x80_0000 == h / 4 && w as int / 0x100_0000 == h / 8
            && w as int / 0x8000_0000 == h / 0x400 && 0 <= h < 0x800
            && (MovSp(w) ==> h % 0x400 == 0x88)
  {}

  lemma LeadingStp(w: Word32)
    ensures var h := w as int / 0x20_0000; && (Stp(w) ==> 0x544 <= h < 0x54E) && (Cmp(w) ==> h / 2 % 0x200 == 0x1AC)
  {
    Leading(w);
  }

  lemma LeadingMov(w: Word32)
    ensures var h := w as int / 0x20_0000;
            Movk(w) || MovRegister(w) || MovSp(w) || MovWide(w) ==>
              h / 4 % 0x100 == 0xE5 || h % 0x400 == 0x150 || h % 0x400 == 0x88 || h / 4 % 0x100 == 0xA5
  {
    hide MovSp;
    Leading(w);
  }

  lemma LeadingLdr(w: Word32)
    ensures var h := w as int / 0x20_0000;
            && (LdrIndexed(w) || LdrOffset(w) ==> h >= 0x400 && (h % 0x200 == 0x1C2 || h / 2 % 0x100 == 0xE5))
            && (Adrp(w) ==> h >= 0x400 && h / 8 % 32 == 0x10)
  {
    hide MovSp;
    Leading(w);
  }

  /** Eight of these bits are enough. */
  lemma LowByte(h: nat, k: nat, m: nat)
    requires h == k * 0x100 + m && m < 0x100
    ensures h % 0x100 == m
  {}

  lemma Quarter(h: nat, op: nat)
    requires h / 4 % 0x100 == op && op in {0xE5, 0xA5}
    ensures 0x94 <= h % 0x100 < 0x98
  {
    var q := h / 4 / 0x100;
    assert h == (q * 0x100 + op) * 4 + h % 4;
    LowByte(h, if op == 0xE5 then 4 * q + 3 else 4 * q + 2, 0x94 + h % 4);
  }

  lemma Half(h: nat, n: nat, op: nat)
    requires (n == 0x100 && op == 0xE5) || (n == 0x200 && op == 0x1AC)
    requires h / 2 % n == op
    ensures h % 0x100 / 2 == if op == 0xE5 then 0x65 else 0x2C
  {
    var q := h / 2 / n;
    if op == 0xE5 {
      assert h == (q * 0x100 + 0xE5) * 2 + h % 2;
      LowByte(h, 2 * q + 1, 0xCA + h % 2);
    } else {
      assert h == (q * 0x200 + 0x1AC) * 2 + h % 2;
      LowByte(h, 4 * q + 3, 0x58 + h % 2);
    }
  }

  lemma Eighth(h: nat)
    requires h / 8 % 32 == 0x10
    ensures 0x80 <= h % 0x100 < 0x88
  {
    var q := h / 8 / 32;
    assert h == (q * 32 + 0x10) * 8 + h % 8;
    LowByte(h, q, 0x80 + h % 8);
  }

  lemma Whole(h: nat, n: nat, op: nat)
    requires (n == 0x400 && op in {0x150, 0x88}) || (n == 0x200 && op == 0x1C2)
    requires h % n == op
    ensures h % 0x100 == op % 0x100
  {
    if n == 0x400 {
      LowByte(h, 4 * (h / 0x400) + op / 0x100, op % 0x100);
    } else {
      LowByte(h, 2 * (h / 0x200) + 1, 0xC2);
    }
  }

  ghost predicate MovByte(b: int) { 0x94 <= b < 0x98 || b == 0x50 || b == 0x88 }

  ghost predicate LdrByte(b: int) { b == 0xC2 || b / 2 == 0x65 }

  lemma MovLeads(w: Word32)
    requires Movk(w) || MovRegister(w) || MovSp(w) || MovWide(w)
    ensures MovByte(w as int / 0x20_0000 % 0x100)
  {
    hide Movk, MovRegister, MovSp, MovWide;
    LeadingMov(w);
    var h := w as int / 0x20_0000;
    if h / 4 % 0x100 == 0xE5 {
      Quarter(h, 0xE5);
    } else if h / 4 % 0x100 == 0xA5 {
      Quarter(h, 0xA5);
    } else if h % 0x400 == 0x150 {
      Whole(h, 0x400, 0x150);
    } else {
      Whole(h, 0x400, 0x88);
    }
  }

  lemma LdrLeads(w: Word32)
    requires LdrIndexed(w) || LdrOffset(w)
    ensures LdrByte(w as int / 0x20_0000 % 0x100)
  {
    hide LdrIndexed, LdrOffset;
    LeadingLdr(w);
    var h := w as int / 0x20_0000;
    if h % 0x200 == 0x1C2 {
      Whole(h, 0x200, 0x1C2);
    } else {
      Half(h, 0x100, 0xE5);
    }
  }

  lemma OtherLeads(w: Word32)
    ensures var b := w as int / 0x20_0000 % 0x100;
            (Stp(w) ==> 0x44 <= b < 0x4E) && (Cmp(w) ==> b / 2 == 0x2C) && (Adrp(w) ==> 0x80 <= b < 0x88)
  {
    hide Stp, Cmp, Adrp;
    LeadingStp(w);
    LeadingLdr(w);
    var h := w as int / 0x20_0000;
    if Stp(w) {
      LowByte(h, 5, h - 0x500);
    }
    if Cmp(w) {
      Half(h, 0x200, 0x1AC);
    }
    if Adrp(w) {
      Eighth(h);
    }
  }

  lemma OneClass(w: Word32)
    ensures Stp(w) ==> !Cmp(w) && !MovOrLdr(w) && !Adrp(w)
    ensures Cmp(w) ==> !MovOrLdr(w) && !Adrp(w)
    ensures Adrp(w) ==> !MovOrLdr(w)
  {
    hide Stp, Cmp, Movk, MovRegister, MovSp, MovWide, LdrIndexed, LdrOffset, Adrp;
    OtherLeads(w);
    if LdrIndexed(w) || LdrOffset(w) {
      LdrLeads(w);
    } else if MovOrLdr(w) {
      MovLeads(w);
    }
  }

  lemma SpWord(w: Word32, op: nat, rn: nat, rd: nat)
    requires op < 0x40_0000 && rn < 32 && rd < 32
    ensures w as int == op * 0x400 + rn * 32 + rd <==> w as int / 0x400 == op && Rn(w) == rn && Rd(w) == rd
  {}

  lemma StorePairWord(w: Word32, op: nat, x: nat, rn: nat, rt: nat)
    requires op < 0x400 && x < 0x1000 && rn < 32 && rt < 32
    ensures w as int == op * 0x40_0000 + x * 0x400 + rn * 32 + rt <==>
            w as int / 0x40_0000 == op && w as int / 0x400 % 0x1000 == x && Rn(w) == rn && Rd(w) == rt
  {
    hide Rn, Rd;
    var t := w as int / 0x400;
    assert w as int / 0x40_0000 == t / 0x1000;
    SpWord(w, op * 0x1000 + x, rn, rt);
    StorePairTop(t, op, x);
  }

  lemma StorePairTop(t: nat, op: nat, x: nat)
    requires x < 0x1000
    ensures t == op * 0x1000 + x <==> t / 0x1000 == op && t % 0x1000 == x
  {}

  lemma ImmediateWord(w: Word32, op: nat, imm: nat, rd: nat)
    requires op < 0x200 && imm < 0x4_0000 && rd < 32
    ensures w as int == op * 0x80_0000 + imm * 32 + rd <==>
            w as int / 0x80_0000 == op && w as int / 32 % 0x4_0000 == imm && Rd(w) == rd
  {}

  lemma RegisterWord(w: Word32, op: nat, rm: nat, mid: nat, rd: nat)
    requires op < 0x800 && rm < 32 && mid < 0x800 && rd < 32
    ensures w as int == op * 0x20_0000 + rm * 0x1_0000 + mid * 32 + rd <==>
            && w as int / 0x20_0000 == op && w as int / 0x1_0000 % 32 == rm && w as int / 32 % 0x800 == mid
            && Rd(w) == rd
  {
    var t := w as int / 32;
    assert w as int == t * 32 + Rd(w) && w as int / 0x20_0000 == t / 0x1_0000 && w as int / 0x1_0000 == t / 0x800;
    RegisterTop(t, op, rm, mid);
  }

  lemma RegisterTop(t: nat, op: nat, rm: nat, mid: nat)
    requires rm < 32 && mid < 0x800
    ensures t == op * 0x1_0000 + rm * 0x800 + mid <==> t / 0x1_0000 == op && t / 0x800 % 32 == rm && t % 0x800 == mid
  {}

  lemma IndexedWord(w: Word32, op: nat, y: nat, one: nat, rn: nat, rt: nat)
    requires op < 0x800 && y < 0x400 && one < 2 && rn < 32 && rt < 32
    ensures w as int == op * 0x20_0000 + y * 0x800 + one * 0x400 + rn * 32 + rt <==>
            && w as int / 0x20_0000 == op && w as int / 0x800 % 0x400 == y && w as int / 0x400 % 2 == one
            && Rn(w) == rn && Rd(w) == rt
  {
    hide Rn, Rd;
    var t := w as int / 0x400;
    assert w as int / 0x20_0000 == t / 0x800 && w as int / 0x800 == t / 2;
    SpWord(w, op * 0x800 + y * 2 + one, rn, rt);
    IndexedTop(t, op, y, one);
  }

  lemma IndexedTop(t: nat, op: nat, y: nat, one: nat)
    requires y < 0x400 && one < 2
    ensures t == op * 0x800 + y * 2 + one <==> t / 0x800 == op && t / 2 % 0x400 == y && t % 2 == one
  {}

  lemma PageWord(w: Word32, op: nat, imm: nat, rd: nat)
    requires op < 0x100 && imm < 0x8_0000 && rd < 32
    ensures w as int == op * 0x100_0000 + imm * 32 + rd <==>
            w as int / 0x100_0000 == op && w as int / 32 % 0x8_0000 == imm && Rd(w) == rd
  {}

  /** Every well-formed instruction is recognised: ADRP becomes a load of its operand, the others are copied. */
  lemma TranslatesExactly(pc: Word, i: Inst)
    requires WellFormed(i)
    ensures Assemble(i) < TWO32
    ensures var w: Word32 := Assemble(i);
            && Used(w) == UsedField(i)
            && Translate(pc, w) ==
               Some(if i.PageAddress? then LoadWords(i.rd, Wrap64(pc as int + PageFields(i.immlo, i.immhi))) else [w])
  {
    hide Stp, Cmp, MovOrLdr, Adrp, LoadWords, PageOffset, Wrap64;
    AssembleFits(i);
    var w: Word32 := Assemble(i);
    OneClass(w);
    match i
    case StorePair(op, x, rn, rt) => IsStorePair(w, op, x, rn, rt);
    case Compare(sf, x, rn) => IsCompare(w, sf, x, rn);
    case MoveImmediate(sf, op, imm, rd) => IsMoveImmediate(w, sf, op, imm, rd);
    case MoveRegister(sf, rm, rd) => IsMoveRegister(w, sf, rm, rd);
    case MoveSp(sf, rn, rd) => IsMoveSp(w, sf, rn, rd);
    case LoadIndexed(size, y, rn, rt) => IsLoadIndexed(w, size, y, rn, rt);
    case LoadOffset(size, x, rn, rt) => IsLoadOffset(w, size, x, rn, rt);
    case PageAddress(immlo, immhi, rd) => IsPageAddress(w, immlo, immhi, rd);
  }

  lemma IsStorePair(w: Word32, op: nat, x: nat, rn: nat, rt: nat)
    requires var i := StorePair(op, x, rn, rt); WellFormed(i) && w as int == Assemble(i)
    ensures Stp(w) && Rn(w) == rn
  {
    hide Rn, Rd;
    StorePairWord(w, op, x, rn, rt);
  }

  lemma IsCompare(w: Word32, sf: nat, x: nat, rn: nat)
    requires var i := Compare(sf, x, rn); WellFormed(i) && w as int == Assemble(i)
    ensures Cmp(w)
  {
    StorePairWord(w, sf * 0x200 + 0x1AC, x, rn, 31);
  }

  lemma IsMoveImmediate(w: Word32, sf: nat, op: nat, imm: nat, rd: nat)
    requires var i := MoveImmediate(sf, op, imm, rd); WellFormed(i) && w as int == Assemble(i)
    ensures MovOrLdr(w) && Rd(w) == rd
  {
    hide Rd, MovRegister, MovSp, LdrIndexed, LdrOffset;
    ImmediateWord(w, sf * 0x100 + op, imm, rd);
  }

  lemma IsMoveRegister(w: Word32, sf: nat, rm: nat, rd: nat)
    requires var i := MoveRegister(sf, rm, rd); WellFormed(i) && w as int == Assemble(i)
    ensures MovOrLdr(w) && Rd(w) == rd
  {
    hide Rd, Movk, MovWide, MovSp, LdrIndexed, LdrOffset;
    RegisterWord(w, sf * 0x400 + 0x150, rm, 0x1F, rd);
  }

  lemma IsMoveSp(w: Word32, sf: nat, rn: nat, rd: nat)
    requires var i := MoveSp(sf, rn, rd); WellFormed(i) && w as int == Assemble(i)
    ensures MovOrLdr(w) && Rd(w) == rd
  {
    hide Rd, Rn, Movk, MovWide, MovRegister, LdrIndexed, LdrOffset;
    SpWord(w, sf * 0x20_0000 + 0x44000, rn, rd);
  }

  lemma IsLoadIndexed(w: Word32, size: nat, y: nat, rn: nat, rt: nat)
    requires var i := LoadIndexed(size, y, rn, rt); WellFormed(i) && w as int == Assemble(i)
    ensures MovOrLdr(w) && Rd(w) == rt
  {
    hide Rd, Rn, Movk, MovWide, MovRegister, MovSp, LdrOffset;
    IndexedWord(w, 0x400 + size * 0x200 + 0x1C2, y, 1, rn, rt);
    Leading(w);
  }

  lemma IsLoadOffset(w: Word32, size: nat, x: nat, rn: nat, rt: nat)
    requires var i := LoadOffset(size, x, rn, rt); WellFormed(i) && w as int == Assemble(i)
    ensures MovOrLdr(w) && Rd(w) == rt
  {
    hide Rd, Rn, Movk, MovWide, MovRegister, MovSp, LdrIndexed;
    StorePairWord(w, 0x200 + size * 0x100 + 0xE5, x, rn, rt);
    Leading(w);
  }

  lemma IsPageAddress(w: Word32, immlo: nat, immhi: nat, rd: nat)
    requires var i := PageAddress(immlo, immhi, rd); WellFormed(i) && w as int == Assemble(i)
    ensures Adrp(w) && Rd(w) == rd && PageOffset(w) == PageFields(immlo, immhi)
  {
    hide Rd, MovSp;
    var t := w as int / 0x100_0000;
    PageWord(w, 0x80 + immlo * 0x20 + 0x10, immhi, rd);
    PageTop(immlo);
    assert w as int / 0x2000_0000 == t / 0x20 && w as int / 0x8000_0000 == t / 0x80;
  }

  lemma PageTop(immlo: nat)
    requires immlo < 4
    ensures var t := 0x80 + immlo * 0x20 + 0x10; t / 0x20 % 4 == immlo && t / 0x80 == 1 && t % 32 == 0x10
  {}

  /** The fields of a recognised word. */
  function Disassemble(w: Word32): Inst {
    if Stp(w) then StorePair(w as int / 0x40_0000, w as int / 0x400 % 0x1000, Rn(w), Rd(w))
    else if Cmp(w) then Compare(w as int / 0x8000_0000, w as int / 0x400 % 0x1000, Rn(w))
    else if Movk(w) || MovWide(w) then
      MoveImmediate(w as int / 0x8000_0000, w as int / 0x80_0000 % 0x100, w as int / 32 % 0x4_0000, Rd(w))
    else if MovRegister(w) then MoveRegister(w as int / 0x8000_0000, w as int / 0x1_0000 % 32, Rd(w))
    else if MovSp(w) then MoveSp(w as int / 0x8000_0000, Rn(w), Rd(w))
    else if LdrIndexed(w) then LoadIndexed(w as int / 0x4000_0000 % 2, w as int / 0x800 % 0x400, Rn(w), Rd(w))
    else if LdrOffset(w) then LoadOffset(w as int / 0x4000_0000 % 2, w as int / 0x400 % 0x1000, Rn(w), Rd(w))
    else PageAddress(w as int / 0x2000_0000 % 4, w as int / 32 % 0x8_0000, Rd(w))
  }

  /** Only well-formed instructions are recognised: the word is that of its fields. */
  lemma AcceptedExactly(pc: Word, w: Word32)
    ensures Translate(pc, w).Some? <==> exists i :: WellFormed(i) && Assemble(i) == w as int
    ensures Translate(pc, w).Some? ==> WellFormed(Disassemble(w)) && Assemble(Disassemble(w)) == w as int
  {
    hide Assemble, Disassemble, WellFormed, Stp, Cmp, Movk, MovWide, MovRegister, MovSp, LdrIndexed, LdrOffset, Adrp;
    if Translate(pc, w).Some? {
      if Stp(w) || Cmp(w) {
        FieldsOfStp(w);
      } else if Movk(w) || MovWide(w) {
        FieldsOfImmediate(w);
      } else if MovRegister(w) || MovSp(w) {
        FieldsOfMov(w);
      } else if LdrIndexed(w) || LdrOffset(w) {
        FieldsOfLdr(w);
      } else {
        FieldsOfAdrp(w);
      }
    }
    if i :| WellFormed(i) && Assemble(i) == w as int {
      TranslatesExactly(pc, i);
    }
  }

  ghost predicate Faithful(w: Word32) { WellFormed(Disassemble(w)) && Assemble(Disassemble(w)) == w as int }

  lemma FieldsOfStp(w: Word32)
    requires Stp(w) || Cmp(w)
    ensures Faithful(w)
  {
    hide Movk, MovWide, MovRegister, MovSp, LdrIndexed, LdrOffset, Rn;
    var op := w as int / 0x40_0000;
    assert w as int / 0x8000_0000 == op / 0x200;
    assert Rn(w) < 32 by { RegisterNumbers(w); }
    StorePairWord(w, w as int / 0x40_0000, w as int / 0x400 % 0x1000, Rn(w), Rd(w));
  }

  lemma RegisterNumbers(w: Word32)
    ensures Rn(w) < 32 && Rd(w) < 32
  {}

  lemma FieldsOfImmediate(w: Word32)
    requires !Stp(w) && !Cmp(w) && (Movk(w) || MovWide(w))
    ensures Faithful(w)
  {
    hide Stp, Cmp, MovRegister, MovSp, LdrIndexed, LdrOffset, Rn, Rd;
    assert w as int / 0x8000_0000 == w as int / 0x80_0000 / 0x100;
    RegisterNumbers(w);
    ImmediateWord(w, w as int / 0x80_0000, w as int / 32 % 0x4_0000, Rd(w));
  }

  lemma FieldsOfMov(w: Word32)
    requires !Stp(w) && !Cmp(w) && !Movk(w) && !MovWide(w) && (MovRegister(w) || MovSp(w))
    ensures Faithful(w)
  {
    hide Stp, Cmp, Movk, MovWide, LdrIndexed, LdrOffset, Rn, Rd;
    Leading(w);
    RegisterNumbers(w);
    if MovRegister(w) {
      RegisterWord(w, w as int / 0x20_0000, w as int / 0x1_0000 % 32, 0x1F, Rd(w));
    } else {
      SpWord(w, w as int / 0x400, Rn(w), Rd(w));
    }
  }

  lemma FieldsOfLdr(w: Word32)
    requires !Stp(w) && !Cmp(w) && !Movk(w) && !MovWide(w) && !MovRegister(w) && !MovSp(w)
    requires LdrIndexed(w) || LdrOffset(w)
    ensures Faithful(w)
  {
    hide Stp, Cmp, Movk, MovWide, MovRegister, MovSp, Rn, Rd;
    RegisterNumbers(w);
    if LdrIndexed(w) {
      SizeOfIndexed(w);
      IndexedWord(w, w as int / 0x20_0000, w as int / 0x800 % 0x400, 1, Rn(w), Rd(w));
    } else {
      SizeOfOffset(w);
      StorePairWord(w, w as int / 0x40_0000, w as int / 0x400 % 0x1000, Rn(w), Rd(w));
    }
  }

  lemma SizeOfIndexed(w: Word32)
    requires LdrIndexed(w)
    ensures w as int / 0x20_0000 == 0x400 + w as int / 0x4000_0000 % 2 * 0x200 + 0x1C2
  {
    var h := w as int / 0x20_0000;
    assert w as int / 0x4000_0000 == h / 0x200 && w as int / 0x8000_0000 == h / 0x400;
  }

  lemma SizeOfOffset(w: Word32)
    requires LdrOffset(w)
    ensures w as int / 0x40_0000 == 0x200 + w as int / 0x4000_0000 % 2 * 0x100 + 0xE5
  {
    var h := w as int / 0x40_0000;
    assert w as int / 0x4000_0000 == h / 0x100 && w as int / 0x8000_0000 == h / 0x200;
  }

  lemma FieldsOfAdrp(w: Word32)
    requires !Copied(w) && Adrp(w)
    ensures Faithful(w)
  {
    hide Stp, Cmp, Movk, MovWide, MovRegister, MovSp, LdrIndexed, LdrOffset, Rd;
    var t := w as int / 0x100_0000;
    assert w as int / 0x2000_0000 == t / 0x20 && w as int / 0x8000_0000 == t / 0x80 && t < 0x100;
    PageLead(t);
    RegisterNumbers(w);
    PageWord(w, w as int / 0x100_0000, w as int / 32 % 0x8_0000, Rd(w));
  }

  lemma PageLead(t: nat)
    requires t < 0x100 && t / 0x80 == 1 && t % 32 == 0x10
    ensures t == 0x80 + t / 0x20 % 4 * 0x20 + 0x10
  {}

  /** The first n instructions at src, translated; None if one of them is not recognised. */
  function Moved(code: Code, src: int, n: nat): (t: Option<seq<Word32>>)
    ensures t.Some? ==> n <= |t.value| <= LOAD64_WORDS * n
  {
    if n == 0 then Some([])
    else
      var front, last := Moved(code, src, n - 1), Translate(Wrap64(src + 4 * (n - 1)), code(Wrap64(src + 4 * (n - 1))));
      if front.Some? && last.Some? then Some(front.value + last.value) else None
  }

  function Free(code: Code, src: int, n: nat): (s: set<nat>)
    ensures s <= TMP_REGS
  {
    if n == 0 then TMP_REGS else Free(code, src, n - 1) - Used(code(Wrap64(src + 4 * (n - 1))))
  }

  /** The unmasked program counter gives the address ADRP computes exactly on page boundaries. */
  lemma AdrpExact(pc: Word, w: Word32)
    ensures Wrap64(pc as int + PageOffset(w)) == AdrpValue(pc, w) <==> pc as int % PAGE == 0
  {
    var a, d := pc as int - pc as int % PAGE + PageOffset(w), pc as int % PAGE;
    if Wrap64(a + d) == Wrap64(a) {
      assert a + d - a == TWO64 * ((a + d) / TWO64 - a / TWO64);
    }
  }

  /** adrp x0, 0 */
  const ADRP_ZERO: Word32 := 0x9000_0000

  /** At address 4, page 0 is meant, and 4 is loaded. */
  lemma AdrpOffPage()
    ensures Adrp(ADRP_ZERO) && !Copied(ADRP_ZERO) && AdrpValue(4, ADRP_ZERO) == 0
    ensures Translate(4, ADRP_ZERO) == Some(LoadWords(0, 4))
  {
    hide Adrp, Stp, Cmp, MovOrLdr, PageOffset, Rd, LoadWords, Translate;
    IsPageAddress(ADRP_ZERO, 0, 0, 0);
    OneClass(ADRP_ZERO);
    TranslatesExactly(4, PageAddress(0, 0, 0));
  }

  /** ADRP instructions lie on page boundaries, or have no effect. */
  ghost predicate Aligned(code: Code, src: int, n: nat) {
    forall i: nat :: i < n ==> AlignedAt(code, Wrap64(src + 4 * i))
  }

  predicate AlignedAt(code: Code, pc: Word) {
    Adrp(code(pc)) && !Copied(code(pc)) ==> pc as int % PAGE == 0 || Rd(code(pc)) == ZR
  }

  lemma TranslatedRuns(code: Code, code': Code, meaning: Meaning, pc: Word, a: int, c: Core)
    requires var t := Translate(pc, code(pc)); t.Some? && Holds(code', a, t.value)
    requires AlignedAt(code, pc)
    ensures var t := Translate(pc, code(pc)).value;
            var s := Step(code, meaning, State(pc, c));
            && s.Some? && s.value.pc == Next(pc)
            && Run(code', meaning, State(Wrap64(a), c), |t|) == Some(State(Wrap64(a + 4 * |t|), s.value.core))
  {
    hide Holds, PageOffset, LoadWords, Act;
    var w := code(pc);
    var t := Translate(pc, w).value;
    if Copied(w) {
      assert code'(Wrap64(a)) == w by { HoldsAt(code', a, [w], 0); }
      WrapNext(a);
      var s := Step(code', meaning, State(Wrap64(a), c));
      assert Run(code', meaning, State(Wrap64(a), c), 1) == Run(code', meaning, s.value, 0);
    } else {
      LoadRuns(code', meaning, a, c, Rd(w), Wrap64(pc as int + PageOffset(w)));
      AdrpExact(pc, w);
    }
  }

  /**
    The moved instructions do what the original ones do: after n original instructions and the
    moved code everything but the program counter is the same.
    */
  lemma {:induction false} MovedRuns(code: Code, code': Code, meaning: Meaning, src: int, dst: int, n: nat, c: Core)
    requires var t := Moved(code, src, n); t.Some? && Holds(code', dst, t.value)
    requires Aligned(code, src, n)
    ensures var t := Moved(code, src, n).value;
            var s := Run(code, meaning, State(Wrap64(src), c), n);
            && s.Some? && s.value.pc == Wrap64(src + 4 * n)
            && Run(code', meaning, State(Wrap64(dst), c), |t|) == Some(State(Wrap64(dst + 4 * |t|), s.value.core))
  {
    hide Step, Translate, Aligned, AlignedAt, Run, Holds, Moved;
    if n == 0 {
      MovedNone(code, code', meaning, src, dst, c);
    } else {
      var pc := Wrap64(src + 4 * (n - 1));
      MovedSplit(code, src, n);
      var front, last := Moved(code, src, n - 1).value, Translate(pc, code(pc)).value;
      HoldsParts(code', dst, front, last);
      AlignedOne(code, src, n, n - 1);
      MovedRuns(code, code', meaning, src, dst, n - 1, c);
      MovedMore(code, code', meaning, src, dst, n - 1, front, c);
    }
  }

  lemma MovedNone(code: Code, code': Code, meaning: Meaning, src: int, dst: int, c: Core)
    ensures Moved(code, src, 0) == Some([])
    ensures Run(code, meaning, State(Wrap64(src), c), 0) == Some(State(Wrap64(src), c))
    ensures Run(code', meaning, State(Wrap64(dst), c), 0) == Some(State(Wrap64(dst), c))
  {}

  lemma MovedSplit(code: Code, src: int, n: nat)
    requires n > 0 && Moved(code, src, n).Some?
    ensures var pc := Wrap64(src + 4 * (n - 1));
            && Moved(code, src, n - 1).Some? && Translate(pc, code(pc)).Some?
            && Moved(code, src, n).value == Moved(code, src, n - 1).value + Translate(pc, code(pc)).value
  {}

  lemma AlignedOne(code: Code, src: int, n: nat, i: nat)
    requires Aligned(code, src, n) && i < n
    ensures AlignedAt(code, Wrap64(src + 4 * i)) && Aligned(code, src, i)
  {}

  /** One more instruction. */
  lemma MovedMore(code: Code, code': Code, meaning: Meaning, src: int, dst: int, n: nat, front: seq<Word32>, c: Core)
    requires var s := Run(code, meaning, State(Wrap64(src), c), n);
             && s.Some? && s.value.pc == Wrap64(src + 4 * n)
             && Run(code', meaning, State(Wrap64(dst), c), |front|)
                == Some(State(Wrap64(dst + 4 * |front|), s.value.core))
    requires var pc := Wrap64(src + 4 * n);
             AlignedAt(code, pc) && Translate(pc, code(pc)).Some?
             && Holds(code', dst + 4 * |front|, Translate(pc, code(pc)).value)
    ensures var k := |front| + |Translate(Wrap64(src + 4 * n), code(Wrap64(src + 4 * n))).value|;
            var s := Run(code, meaning, State(Wrap64(src), c), n + 1);
            && s.Some? && s.value.pc == Wrap64(src + 4 * (n + 1))
            && Run(code', meaning, State(Wrap64(dst), c), k) == Some(State(Wrap64(dst + 4 * k), s.value.core))
  {
    hide Step, Translate, AlignedAt, Run, Holds;
    var pc := Wrap64(src + 4 * n);
    var last := Translate(pc, code(pc)).value;
    var s := Run(code, meaning, State(Wrap64(src), c), n).value;
    TranslatedRuns(code, code', meaning, pc, dst + 4 * |front|, s.core);
    RunJoin(code, meaning, State(Wrap64(src), c), n, 1);
    OneStep(code, meaning, s);
    WrapNext(src + 4 * n);
    RunJoin(code', meaning, State(Wrap64(dst), c), |front|, |last|);
  }

  lemma OneStep(code: Code, meaning: Meaning, s: State)
    requires Step(code, meaning, s).Some?
    ensures Run(code, meaning, s, 1) == Step(code, meaning, s)
  {
    hide Step;
    assert Run(code, meaning, Step(code, meaning, s).value, 0) == Step(code, meaning, s);
  }

  lemma HoldsParts(code: Code, a: int, s: seq<Word32>, t: seq<Word32>)
    requires Holds(code, a, s + t)
    ensures Holds(code, a, s) && Holds(code, a + 4 * |s|, t)
  {
    HoldsAt(code, a, s + t, |s|);
    assert (s + t)[|s|..] == t;
    assert forall i :: 0 <= i < |s| ==> (s + t)[i] == s[i];
  }

  /** The whole trampoline: as the displaced instructions, except for the register of the jump. */
  lemma TrampolineRuns(code: Code, code': Code, meaning: Meaning, src: int, dst: int, n: nat, reg: nat, c: Core)
    requires var t := Moved(code, src, n);
             t.Some? && reg < ZR && Holds(code', dst, t.value + JumpWords(reg, Wrap64(src + 4 * n)))
    requires Aligned(code, src, n)
    ensures var k := |Moved(code, src, n).value| + 2;
            var s := Run(code, meaning, State(Wrap64(src), c), n);
            && s.Some?
            && Run(code', meaning, State(Wrap64(dst), c), k)
               == Some(State(s.value.pc, Set(s.value.core, reg, s.value.pc)))
  {
    hide Run, Step, Holds, JumpWords;
    var t := Moved(code, src, n).value;
    var dest := Wrap64(src + 4 * n);
    HoldsParts(code', dst, t, JumpWords(reg, dest));
    MovedRuns(code, code', meaning, src, dst, n, c);
    var s := Run(code, meaning, State(Wrap64(src), c), n).value;
    RunJoin(code', meaning, State(Wrap64(dst), c), |t|, 2);
    JumpRuns(code', meaning, dst + 4 * |t|, s.core, reg, dest);
  }

  // ----- the register of the jump -----

  /** The registers an instruction changes. */
  function Writes(w: Word32): set<nat> {
    if Stp(w) then (if StpOffset(w) then {} else {Rn(w)})
    else if Cmp(w) then {}
    else {Rd(w)} + (if LdrIndexed(w) then {Rn(w)} else {})
  }

  lemma {:induction false} FreeUnused(code: Code, src: int, n: nat, i: nat, reg: nat)
    requires i < n && reg in Free(code, src, n)
    ensures reg !in Used(code(Wrap64(src + 4 * i)))
  {
    if i < n - 1 {
      FreeUnused(code, src, n - 1, i, reg);
    }
  }

  lemma FreeUnwritten(code: Code, src: int, n: nat, i: nat, reg: nat)
    requires i < n && reg in Free(code, src, n)
    ensures var w := code(Wrap64(src + 4 * i));
            reg in Writes(w) <==> UpdatesBase(w, reg)
  {
    FreeUnused(code, src, n, i, reg);
  }

  /** A load that also updates this base register. */
  predicate UpdatesBase(w: Word32, reg: nat) { LdrIndexed(w) && !Stp(w) && !Cmp(w) && Rn(w) == reg }

  predicate KeepsRegister(meaning: Meaning, w: Word32, c: Core, r: nat)
    requires r < ZR
  {
    meaning(w, c).x[r] == c.x[r]
  }

  /** A meaning of the copied instructions that changes only the registers they name as changed. */
  ghost predicate Respects(meaning: Meaning) {
    forall w: Word32, c: Core, r: nat ::
      r < ZR && Copied(w) && r !in Writes(w) ==> KeepsRegister(meaning, w, c, r)
  }

  lemma StepKeeps(code: Code, meaning: Meaning, s: State, reg: nat)
    requires Respects(meaning) && reg < ZR && Translate(s.pc, code(s.pc)).Some?
    requires reg !in Used(code(s.pc)) && !UpdatesBase(code(s.pc), reg)
    ensures Step(code, meaning, s).Some? && Step(code, meaning, s).value.core.x[reg] == s.core.x[reg]
  {
    hide PageOffset, Insert, LoadWords;
    var w := code(s.pc);
    assert reg !in Writes(w);
    assert Copied(w) ==> KeepsRegister(meaning, w, s.core, reg);
  }

  /**
    Running the moved instructions leaves the register of the jump alone, for every meaning that
    changes only what it names, unless one of them is a load that updates it as its base.
    */
  lemma {:induction false} JumpRegisterKept(code: Code, meaning: Meaning, src: int, n: nat, reg: nat, c: Core)
    requires Respects(meaning) && Moved(code, src, n).Some? && reg in Free(code, src, n)
    requires forall i: nat :: i < n ==> !UpdatesBase(code(Wrap64(src + 4 * i)), reg)
    ensures var s := Run(code, meaning, State(Wrap64(src), c), n);
            s.Some? && s.value.pc == Wrap64(src + 4 * n) && s.value.core.x[reg] == c.x[reg]
  {
    hide Step, Respects, Translate, Used, UpdatesBase;
    if n > 0 {
      JumpRegisterKept(code, meaning, src, n - 1, reg, c);
      var s := Run(code, meaning, State(Wrap64(src), c), n - 1).value;
      FreeUnused(code, src, n, n - 1, reg);
      assert !UpdatesBase(code(Wrap64(src + 4 * (n - 1))), reg);
      StepKeeps(code, meaning, s, reg);
      StepNext(code, meaning, s);
      WrapNext(src + 4 * (n - 1));
      OneStep(code, meaning, s);
      RunJoin(code, meaning, State(Wrap64(src), c), n - 1, 1);
    }
  }

  lemma StepNext(code: Code, meaning: Meaning, s: State)
    requires Translate(s.pc, code(s.pc)).Some?
    ensures Step(code, meaning, s).Some? && Step(code, meaning, s).value.pc == Next(s.pc)
  {}

  /** Loads that update a base register set it to 1; other instructions idle. */
  function MarkBase(w: Word32, c: Core): Core { if LdrIndexed(w) && !Stp(w) && !Cmp(w) then Set(c, Rn(w), 1) else c }

  lemma MarkRespects()
    ensures Respects(MarkBase)
  {
    forall w: Word32, c: Core, r: nat | r < ZR && Copied(w) && r !in Writes(w)
      ensures KeepsRegister(MarkBase, w, c, r)
    {
    }
  }

  lemma LdrIsCopied(w: Word32)
    requires LdrIndexed(w)
    ensures Copied(w) && w as int / 0x80_0000 != MOVZ && w as int / 0x80_0000 != MOVK
  {
    assert w as int / 0x20_0000 == 1024 + w as int / 0x4000_0000 % 2 * 512 + 0x1C2;
    assert w as int / 0x80_0000 == w as int / 0x20_0000 / 4;
  }

  lemma StepMarks(code: Code, s: State, reg: nat)
    requires reg < ZR && UpdatesBase(code(s.pc), reg)
    ensures var t := Step(code, MarkBase, s);
            t.Some? && t.value.core.x[reg] == 1
  {
    hide LdrIndexed, Copied, Stp, Cmp;
    LdrIsCopied(code(s.pc));
  }

  /** With that meaning, and 0 in the register, it shows whether a load has updated it. */
  lemma {:induction false} RunMarks(code: Code, src: int, n: nat, reg: nat, c: Core)
    requires Moved(code, src, n).Some? && reg in Free(code, src, n) && c.x[reg] == 0
    ensures var s := Run(code, MarkBase, State(Wrap64(src), c), n);
            && s.Some? && s.value.pc == Wrap64(src + 4 * n)
            && s.value.core.x[reg] == One(exists i: nat :: i < n && UpdatesBase(code(Wrap64(src + 4 * i)), reg))
  {
    hide Step, Respects, Translate, Used, UpdatesBase;
    if n > 0 {
      RunMarks(code, src, n - 1, reg, c);
      MarkRespects();
      var s := Run(code, MarkBase, State(Wrap64(src), c), n - 1).value;
      FreeUnused(code, src, n, n - 1, reg);
      if UpdatesBase(code(Wrap64(src + 4 * (n - 1))), reg) {
        StepMarks(code, s, reg);
      } else {
        StepKeeps(code, MarkBase, s, reg);
      }
      StepNext(code, MarkBase, s);
      WrapNext(src + 4 * (n - 1));
      OneStep(code, MarkBase, s);
      RunJoin(code, MarkBase, State(Wrap64(src), c), n - 1, 1);
    }
  }

  /** Running n instructions leaves a register as it was. */
  predicate KeptOver(code: Code, meaning: Meaning, src: int, n: nat, reg: nat, c: Core)
    requires reg < ZR
  {
    var s := Run(code, meaning, State(Wrap64(src), c), n);
    s.Some? && s.value.core.x[reg] == c.x[reg]
  }

  const ZEROS: Core := Core(seq(31, _ => 0), 0, 0, _ => 0)

  /** The moved instructions keep the register, whatever they mean, if and only if none updates it as its base. */
  lemma JumpRegisterExact(code: Code, src: int, n: nat, reg: nat)
    requires Moved(code, src, n).Some? && reg in Free(code, src, n)
    ensures (forall meaning: Meaning, c: Core :: Respects(meaning) ==> KeptOver(code, meaning, src, n, reg, c))
       <==> (forall i: nat :: i < n ==> !UpdatesBase(code(Wrap64(src + 4 * i)), reg))
  {
    hide Run, Moved, Free, UpdatesBase, Respects;
    if forall i: nat :: i < n ==> !UpdatesBase(code(Wrap64(src + 4 * i)), reg) {
      forall meaning: Meaning, c: Core | Respects(meaning)
        ensures KeptOver(code, meaning, src, n, reg, c)
      {
        JumpRegisterKept(code, meaning, src, n, reg, c);
      }
    } else {
      MarkRespects();
      RunMarks(code, src, n, reg, ZEROS);
      assert !KeptOver(code, MarkBase, src, n, reg, ZEROS);
    }
  }

  /** Trampoline and original end alike, once the register of the jump has back what it held at the start. */
  ghost predicate LosesOnlyEntry(code: Code, code': Code, meaning: Meaning, src: int, dst: int, n: nat,
                                 reg: nat, c: Core)
    requires reg < ZR && Moved(code, src, n).Some?
  {
    var s := Run(code, meaning, State(Wrap64(src), c), n);
    var t := Run(code', meaning, State(Wrap64(dst), c), |Moved(code, src, n).value| + 2);
    s.Some? && t.Some? && t.value.pc == s.value.pc && Set(t.value.core, reg, c.x[reg]) == s.value.core
  }

  /**
    The jump of the trampoline destroys no more than what its register held at the start, for
    every meaning and every state, if and only if no moved load updates that register as its base.
    */
  lemma TrampolineExact(code: Code, code': Code, src: int, dst: int, n: nat, reg: nat)
    requires Moved(code, src, n).Some? && reg in Free(code, src, n) && Aligned(code, src, n)
    requires Holds(code', dst, Moved(code, src, n).value + JumpWords(reg, Wrap64(src + 4 * n)))
    ensures (forall meaning: Meaning, c: Core :: Respects(meaning) ==>
               LosesOnlyEntry(code, code', meaning, src, dst, n, reg, c))
       <==> (forall i: nat :: i < n ==> !UpdatesBase(code(Wrap64(src + 4 * i)), reg))
  {
    hide Run, Moved, Free, UpdatesBase, Respects, Holds, JumpWords, Aligned;
    forall meaning: Meaning, c: Core
      ensures LosesOnlyEntry(code, code', meaning, src, dst, n, reg, c) <==>
              KeptOver(code, meaning, src, n, reg, c)
    {
      TrampolineRuns(code, code', meaning, src, dst, n, reg, c);
      var s := Run(code, meaning, State(Wrap64(src), c), n).value;
      SetBack(s.core, reg, s.pc, c.x[reg]);
    }
    JumpRegisterExact(code, src, n, reg);
  }

  lemma SetBack(c: Core, r: nat, v: Word, v': Word)
    requires r < ZR
    ensures Set(Set(c, r, v), r, v') == c <==> c.x[r] == v'
  {
    SetTwice(c, r, v, v');
    assert c.x[r] == v' ==> c.x[r := v'] == c.x;
    assert c.x[r := v'][r] == v';
  }

  // ----- a lost base update -----

  /** ldr x0, [x9], #8 */
  const LDR_POST: Word32 := 0xF840_8520

  /** Loads that update their base, as the architecture defines post-indexing; other instructions idle. */
  function PostIndexed(w: Word32, c: Core): Core {
    if LdrIndexed(w) && !Stp(w) && !Cmp(w) && Rn(w) != ZR then
      var base := c.x[Rn(w)];
      var imm := w as int / 0x1000 % 0x200;
      Set(Set(c, Rd(w), Load64(c.mem, base)), Rn(w), Wrap64(base as int + if imm < 0x100 then imm else imm - 0x200))
    else c
  }

  lemma PostIndexedRespects()
    ensures Respects(PostIndexed)
  {
    hide Load64;
    forall w: Word32, c: Core, r: nat | r < ZR && Copied(w) && r !in Writes(w)
      ensures KeepsRegister(PostIndexed, w, c, r)
    {
    }
  }

  lemma LdrPostPlain()
    ensures !Stp(LDR_POST) && !Cmp(LDR_POST) && !Adrp(LDR_POST)
  {}

  lemma LdrPostNumbers()
    ensures Rn(LDR_POST) == 9 && Rd(LDR_POST) == 0 && LDR_POST as int / 0x1000 % 0x200 == 8
  {
    LdrPostRegisters();
    LdrPostImmediate();
  }

  lemma LdrPostRegisters()
    ensures Rn(LDR_POST) == 9 && Rd(LDR_POST) == 0
  {
    Split(0x7C2_0429, 32, 0);
    Split(0x3E_1021, 32, 9);
  }

  lemma LdrPostImmediate()
    ensures LDR_POST as int / 0x1000 % 0x200 == 8
  {
    Split(0xF_8408, 0x1000, 0x520);
    Split(0x7C2, 0x200, 8);
  }

  lemma LdrPostKind()
    ensures LdrIndexed(LDR_POST)
  {}

  lemma OneLoad(code: Code, s: State)
    requires code(s.pc) == LDR_POST
    ensures var t := Step(code, PostIndexed, s);
            t.Some? && t.value.pc == Next(s.pc) && t.value.core.x[9] == Wrap64(s.core.x[9] as int + 8)
  {
    hide Copied, LdrIndexed, Stp, Cmp, Adrp, Load64;
    LdrPostKind();
    LdrPostPlain();
    LdrPostNumbers();
    LdrIsCopied(code(s.pc));
  }

  lemma LoadIsCopied(code: Code, pc: Word)
    requires code(pc) == LDR_POST
    ensures Translate(pc, code(pc)) == Some([LDR_POST]) && Used(code(pc)) == {0} && AlignedAt(code, pc)
  {
    hide Copied, LdrIndexed, Stp, Cmp, Adrp, Rd;
    LdrPostKind();
    LdrPostPlain();
    LdrPostNumbers();
    LdrIsCopied(code(pc));
  }

  lemma LoadsMoved(code: Code)
    requires forall i: nat :: i < 4 ==> code(Wrap64(4 * i)) == LDR_POST
    ensures Moved(code, 0, 4) == Some([LDR_POST, LDR_POST, LDR_POST, LDR_POST])
    ensures Free(code, 0, 4) == TMP_REGS - {0}
    ensures Aligned(code, 0, 4)
  {
    hide Moved, Free, Translate, Used, AlignedAt, Wrap64;
    forall i: nat | i < 4 ensures AlignedAt(code, Wrap64(0 + 4 * i)) {
      LoadIsCopied(code, Wrap64(4 * i));
    }
    LoadIsCopied(code, Wrap64(4 * 0));
    LoadIsCopied(code, Wrap64(4 * 1));
    LoadIsCopied(code, Wrap64(4 * 2));
    LoadIsCopied(code, Wrap64(4 * 3));
    NoneMoved(code, 0);
    MovedNext(code, 0, 0);
    assert Moved(code, 0, 1).value == [LDR_POST] && Free(code, 0, 1) == TMP_REGS - {0};
    MovedNext(code, 0, 1);
    assert Moved(code, 0, 2).value == [LDR_POST, LDR_POST] && Free(code, 0, 2) == TMP_REGS - {0};
    MovedNext(code, 0, 2);
    assert Moved(code, 0, 3).value == [LDR_POST, LDR_POST, LDR_POST] && Free(code, 0, 3) == TMP_REGS - {0};
    MovedNext(code, 0, 3);
    assert Moved(code, 0, 4).value == [LDR_POST, LDR_POST, LDR_POST, LDR_POST];
  }

  /**
    Four times ldr x0, [x9], #8: the function leaves x9 at 32 past its start, the trampoline, whose
    jump takes x9 as the lowest register left, leaves the address it jumps to.
    */
  lemma BaseUpdateLost(code: Code, code': Code, dst: int, c: Core)
    requires forall i: nat :: i < 4 ==> code(Wrap64(4 * i)) == LDR_POST
    requires Holds(code', dst, [LDR_POST, LDR_POST, LDR_POST, LDR_POST] + JumpWords(9, 16))
    ensures Moved(code, 0, 4).Some? && 9 in Free(code, 0, 4) && forall r :: r in Free(code, 0, 4) ==> 9 <= r
    ensures var s := Run(code, PostIndexed, State(0, c), 4);
            var t := Run(code', PostIndexed, State(Wrap64(dst), c), 6);
            && s.Some? && t.Some? && s.value.pc == t.value.pc == 16
            && s.value.core.x[9] == Wrap64(c.x[9] as int + 32) && t.value.core.x[9] == 16
  {
    hide Run, Step, Holds, JumpWords, Moved, Free, Aligned;
    LoadsMoved(code);
    assert Wrap64(0 + 4 * 4) == 16 && Wrap64(0) == 0;
    TrampolineRuns(code, code', PostIndexed, 0, dst, 4, 9, c);
    FourLoads(code, c);
  }

  lemma FourLoads(code: Code, c: Core)
    requires forall i: nat :: i < 4 ==> code(Wrap64(4 * i)) == LDR_POST
    ensures var s := Run(code, PostIndexed, State(0, c), 4);
            s.Some? && s.value.pc == 16 && s.value.core.x[9] == Wrap64(c.x[9] as int + 32)
  {
    hide Step, Run, Wrap64;
    Multiples();
    assert code(Wrap64(4 * 0)) == LDR_POST && code(Wrap64(4 * 1)) == LDR_POST
        && code(Wrap64(4 * 2)) == LDR_POST && code(Wrap64(4 * 3)) == LDR_POST;
    var x := c.x[9] as int;
    OneLoad(code, State(0, c));
    var s1 := Step(code, PostIndexed, State(0, c)).value;
    OneLoad(code, s1);
    WrapTwice(x + 8, 8);
    var s2 := Step(code, PostIndexed, s1).value;
    OneLoad(code, s2);
    WrapTwice(x + 16, 8);
    var s3 := Step(code, PostIndexed, s2).value;
    OneLoad(code, s3);
    WrapTwice(x + 24, 8);
    FourSteps(code, PostIndexed, State(0, c));
  }

  lemma Multiples()
    ensures Wrap64(4 * 0) == 0 && Wrap64(4 * 1) == 4 && Wrap64(4 * 2) == 8 && Wrap64(4 * 3) == 12
    ensures Wrap64(0 + 4) == 4 && Wrap64(4 + 4) == 8 && Wrap64(8 + 4) == 12 && Wrap64(12 + 4) == 16
  {}

  // ----- the code -----

  datatype Status = Ok | Unsupported | BufferTooSmall | NoMemory

  class RelocateContext {
    const code: Code
    const dst: array<Word32>
    var srcP: int
    var dstP: nat
    const dstEnd: nat
    var avail: set<nat>

    constructor (code: Code, src: int, words: nat)
      ensures this.code == code && srcP == src && dstP == 0 && dstEnd == words && avail == TMP_REGS
      ensures fresh(dst) && dst.Length == words
    {
      this.code, srcP, dstP, dstEnd, avail := code, src, 0, words, TMP_REGS;
      dst := new Word32[words](_ => 0);
    }

    ghost predicate Valid()
      reads this
    {
      dstP <= dstEnd == dst.Length
    }

    method RelocateOne() returns (status: Status)
      requires Valid()
      modifies this, dst
      ensures Valid() && srcP == old(srcP) + 4
      ensures var w := code(Wrap64(old(srcP)));
              var t := Translate(Wrap64(old(srcP)), w);
              if t.None? then status == Unsupported
              else if old(dstP) + |t.value| > dstEnd then status == BufferTooSmall
              else status == Ok && avail == old(avail) - Used(w) && dst[..dstP] == old(dst[..dstP]) + t.value
    {
      var pc := Wrap64(srcP);
      var inst := code(pc);
      srcP := srcP + 4;
      var out: seq<Word32>;
      if Stp(inst) {
        out, avail := [inst], avail - {Rn(inst)};
      } else if Cmp(inst) {
        out := [inst];
      } else if MovOrLdr(inst) {
        out, avail := [inst], avail - {Rd(inst)};
      } else if Adrp(inst) {
        out, avail := LoadWords(Rd(inst), Wrap64(pc as int + PageOffset(inst))), avail - {Rd(inst)};
      } else {
        return Unsupported;
      }
      if dstP + |out| > dstEnd {
        return BufferTooSmall;
      }
      ghost var before := dst[..dstP];
      forall i | 0 <= i < |out| {
        dst[dstP + i] := out[i];
      }
      assert dst[..dstP] == before;
      dstP := dstP + |out|;
      return Ok;
    }
  }

  /**
    Builds the trampoline for the first `patchLen` bytes of a function.  With room for four words
    for each instruction the buffer is never too small, and the jump fits behind the moved code.
    */
  method RelocateFunc(code: Code, src: int, patchLen: nat, allocOk: bool)
    returns (status: Status, words: seq<Word32>, reg: nat)
    requires patchLen % 4 == 0
    ensures status != BufferTooSmall && (status == NoMemory <==> !allocOk)
    ensures var n := patchLen / 4;
            allocOk ==> (status == Ok <==> Moved(code, src, n).Some? && Free(code, src, n) != {})
    ensures status == Ok ==> var n := patchLen / 4;
              && reg in Free(code, src, n) && (forall r :: r in Free(code, src, n) ==> reg <= r)
              && words == Moved(code, src, n).value + JumpWords(reg, Wrap64(src + patchLen))
              && |words| <= LOAD64_WORDS * n + JUMP_WORDS
  {
    hide Moved, Free, Translate, Used, JumpWords;
    words, reg := [], 9;
    if !allocOk {
      return NoMemory, words, reg;
    }
    ghost var n := patchLen / 4;
    var maxWords := patchLen / 4 * LOAD64_WORDS + JUMP_WORDS;
    var ctx := new RelocateContext(code, src, maxWords);
    ghost var i := 0;
    NoneMoved(code, src);
    while ctx.srcP < src + patchLen
      invariant fresh(ctx) && fresh(ctx.dst) && ctx.code == code && ctx.dstEnd == maxWords && ctx.Valid()
      invariant i <= n && ctx.srcP == src + 4 * i
      invariant Moved(code, src, i).Some? && ctx.dst[..ctx.dstP] == Moved(code, src, i).value
      invariant ctx.avail == Free(code, src, i)
      decreases src + patchLen - ctx.srcP
    {
      MovedNext(code, src, i);
      status := ctx.RelocateOne();
      if status != Ok {
        MovedPrefix(code, src, i + 1, n);
        return Unsupported, words, reg;
      }
      i := i + 1;
    }
    if ctx.avail == {} {
      return Unsupported, words, reg;
    }
    assert ctx.dstP + JUMP_WORDS <= maxWords;
    reg := Lowest(ctx.avail);
    words := ctx.dst[..ctx.dstP] + JumpWords(reg, Wrap64(src + patchLen));
    status := Ok;
  }

  lemma NoneMoved(code: Code, src: int)
    ensures Moved(code, src, 0) == Some([]) && Free(code, src, 0) == TMP_REGS
  {}

  lemma MovedNext(code: Code, src: int, n: nat)
    requires Moved(code, src, n).Some?
    ensures var pc := Wrap64(src + 4 * n);
            var t := Translate(pc, code(pc));
            && Moved(code, src, n + 1) == (if t.Some? then Some(Moved(code, src, n).value + t.value) else None)
            && Free(code, src, n + 1) == Free(code, src, n) - Used(code(pc))
  {}

  lemma {:induction false} MovedPrefix(code: Code, src: int, k: nat, n: nat)
    requires k <= n && Moved(code, src, k).None?
    ensures Moved(code, src, n).None?
  {
    if k < n {
      MovedPrefix(code, src, k, n - 1);
    }
  }

  /** The lowest register of a non-empty set of temporary registers. */
  method Lowest(regs: set<nat>) returns (reg: nat)
    requires regs != {} && regs <= TMP_REGS
    ensures reg in regs && forall r :: r in regs ==> reg <= r
  {
    reg := 9;
    var some :| some in regs;
    assert 9 <= some <= 15;
    while reg !in regs
      invariant (forall r :: r in regs ==> reg <= r) && exists r :: r in regs && reg <= r <= 15
      decreases 15 - reg
    {
      reg := reg + 1;
    }
  }
}
