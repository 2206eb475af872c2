/**
  The part of x86-64 that function prologues and trampolines use: an instruction
  decoder following sections 2.1.3 and 2.2.1 of the Intel SDM Volume 2A (REX prefix,
  ModR/M, SIB, displacement, immediate) and a small-step semantics over registers,
  status flags and byte-addressed memory.  Nothing here knows about the relocator.
  */
module X86Machine {
  import opened Bytes

  type RegNo = r: int | 0 <= r < 16
  type Cond = c: int | 0 <= c < 16

  const RAX: RegNo := 0
  const RSP: RegNo := 4
  const RBP: RegNo := 5

  /** Longest instruction the processor accepts. */
  const MAX_INSTR: nat := 15

  type Window = w: seq<Byte> | |w| == MAX_INSTR witness seq<Byte>(MAX_INSTR, (i: nat) => 0)

  /** An r/m operand.  `mod` and `sib` remember the form it was encoded in. */
  datatype Operand =
    | Register(r: RegNo)
    | Mem(mod: nat, sib: bool, base: Option<RegNo>, index: Option<RegNo>, scale: nat, disp: int)
    | RipRelative(disp: int)

  datatype Instr =
    | Endbr64
    | Push(r: RegNo)
    | Pop(r: RegNo)
    | MovImm(r: RegNo, value: Word)
    | MovStore(dst: Operand, src: RegNo)
    | MovLoad(r: RegNo, from: Operand)
    | SubImm(dst: Operand, imm: Word)
    | CmpImm32(dst: Operand, imm32: Word32)
    | Jcc(cc: Cond, rel: int)
    | JmpRel(rel: int)
    | JmpInd(target: Operand)

  datatype Decoded = Decoded(instr: Instr, len: nat)

  // ----- decoder -----

  function RexOf(w: Window): Byte { if w[0] / 16 == 4 then w[0] else 0 }

  function RexB(rex: Byte): nat { rex % 2 }
  function RexX(rex: Byte): nat { rex / 2 % 2 }
  function RexR(rex: Byte): nat { rex / 4 % 2 }
  predicate RexW(rex: Byte) { rex / 8 % 2 == 1 }

  datatype ModRM = ModRM(reg: RegNo, rm: Operand, len: nat)

  /** Table 2-2 of section 2.1.3 with the REX extensions; p indexes the ModR/M byte. */
  function DecodeModRM(w: Window, p: nat, rex: Byte): (r: ModRM)
    requires p <= 3
    ensures 1 <= r.len <= 6
  {
    var m := w[p];
    var mod, rm := m / 64, m % 8;
    var reg: RegNo := m / 8 % 8 + 8 * RexR(rex);
    if mod == 3 then
      ModRM(reg, Register(rm + 8 * RexB(rex)), 1)
    else if rm == 4 then
      var sib := w[p + 1];
      var ix := sib / 8 % 8 + 8 * RexX(rex);
      var index := if ix == 4 then None else Some(ix);
      var noBase := mod == 0 && sib % 8 == 5;
      var base := if noBase then None else Some(sib % 8 + 8 * RexB(rex));
      var d := if mod == 1 then Signed8(w[p + 2])
               else if mod == 2 || noBase then Signed32(U32(w, p + 2)) else 0;
      var n := if mod == 1 then 3 else if mod == 2 || noBase then 6 else 2;
      ModRM(reg, Mem(mod, true, base, index, sib / 64, d), n)
    else if mod == 0 && rm == 5 then
      ModRM(reg, RipRelative(Signed32(U32(w, p + 1))), 5)
    else
      var d := if mod == 1 then Signed8(w[p + 1]) else if mod == 2 then Signed32(U32(w, p + 1)) else 0;
      var n := if mod == 1 then 2 else if mod == 2 then 5 else 1;
      ModRM(reg, Mem(mod, false, Some(rm + 8 * RexB(rex)), None, 0, d), n)
  }

  function DecodeGroup1(w: Window, p: nat, rex: Byte): (d: Option<Decoded>)
    requires p <= 1
    ensures d.Some? ==> p + 3 <= d.value.len <= MAX_INSTR
    ensures d.Some? ==> if RexW(rex) then d.value.instr.SubImm? else d.value.instr.CmpImm32? && w[p] == 0x81
  {
    var op := w[p];
    var m := DecodeModRM(w, p + 1, rex);
    var q := p + 1 + m.len;
    if RexW(rex) && m.reg % 8 == 5 then
      if op == 0x83 then Some(Decoded(SubImm(m.rm, Wrap64(Signed8(w[q]))), q + 1))
      else Some(Decoded(SubImm(m.rm, Wrap64(Signed32(U32(w, q)))), q + 4))
    else if !RexW(rex) && op == 0x81 && m.reg % 8 == 7 then
      Some(Decoded(CmpImm32(m.rm, U32(w, q)), q + 4))
    else
      None
  }

  /** The instruction at the front of a fetch window, if it is one modelled here. */
  function Decode(w: Window): (d: Option<Decoded>)
    ensures d.Some? ==> 0 < d.value.len <= MAX_INSTR
  {
    var rex := RexOf(w);
    var p := if rex != 0 then 1 else 0;
    var op := w[p];
    if op == 0xF3 && rex == 0 && w[1] == 0x0F && w[2] == 0x1E && w[3] == 0xFA then
      Some(Decoded(Endbr64, 4))
    else if op / 8 == 10 then
      Some(Decoded(Push(op % 8 + 8 * RexB(rex)), p + 1))
    else if op / 8 == 11 then
      Some(Decoded(Pop(op % 8 + 8 * RexB(rex)), p + 1))
    else if op / 8 == 23 then
      if RexW(rex) then Some(Decoded(MovImm(op % 8 + 8 * RexB(rex), U64(w, p + 1)), p + 9))
      else Some(Decoded(MovImm(op % 8 + 8 * RexB(rex), U32(w, p + 1)), p + 5))
    else if op == 0x81 || op == 0x83 then
      DecodeGroup1(w, p, rex)
    else if op == 0x89 && RexW(rex) then
      var m := DecodeModRM(w, p + 1, rex);
      Some(Decoded(MovStore(m.rm, m.reg), p + 1 + m.len))
    else if op == 0x8B && RexW(rex) then
      var m := DecodeModRM(w, p + 1, rex);
      Some(Decoded(MovLoad(m.reg, m.rm), p + 1 + m.len))
    else if op / 16 == 7 then
      Some(Decoded(Jcc(op % 16, Signed8(w[p + 1])), p + 2))
    else if op == 0xEB then
      Some(Decoded(JmpRel(Signed8(w[p + 1])), p + 2))
    else if op == 0xE9 then
      Some(Decoded(JmpRel(Signed32(U32(w, p + 1))), p + 5))
    else if op == 0xFF then
      var m := DecodeModRM(w, p + 1, rex);
      if m.reg % 8 == 4 then Some(Decoded(JmpInd(m.rm), p + 1 + m.len)) else None
    else
      None
  }

  predicate AgreeTo(w: Window, v: Window, n: nat) {
    n <= MAX_INSTR && forall i :: 0 <= i < n ==> w[i] == v[i]
  }

  lemma ModRMPrefix(w: Window, v: Window, p: nat, rex: Byte)
    requires p <= 3 && AgreeTo(w, v, p + DecodeModRM(w, p, rex).len)
    ensures DecodeModRM(v, p, rex) == DecodeModRM(w, p, rex)
  {}

  lemma Group1Prefix(w: Window, v: Window, p: nat, rex: Byte)
    requires p <= 1 && DecodeGroup1(w, p, rex).Some?
    requires AgreeTo(w, v, DecodeGroup1(w, p, rex).value.len)
    ensures DecodeGroup1(v, p, rex) == DecodeGroup1(w, p, rex)
  {
    hide DecodeModRM;
    ModRMPrefix(w, v, p + 1, rex);
  }

  /** Decoding looks at no byte past the instruction it returns. */
  lemma DecodePrefix(w: Window, v: Window)
    requires Decode(w).Some? && AgreeTo(w, v, Decode(w).value.len)
    ensures Decode(v) == Decode(w)
  {
    hide DecodeModRM, DecodeGroup1;
    var rex := RexOf(w);
    var p := if rex != 0 then 1 else 0;
    var op := w[p];
    if op == 0x81 || op == 0x83 {
      Group1Prefix(w, v, p, rex);
    } else if op == 0x89 || op == 0x8B || op == 0xFF {
      ModRMPrefix(w, v, p + 1, rex);
    }
  }

  // ----- semantics -----

  datatype Flags = Flags(cf: bool, zf: bool, sf: bool, of: bool, pf: bool)

  type Regs = r: seq<Word> | |r| == 16 witness seq<Word>(16, (i: nat) => 0)

  function SpOf(regs: Regs): int { regs[RSP] }

  datatype State = State(pc: Word, regs: Regs, flags: Flags, mem: Memory)

  function Parity(b: Byte): bool {
    (b % 2 + b / 2 % 2 + b / 4 % 2 + b / 8 % 2 + b / 16 % 2 + b / 32 % 2 + b / 64 % 2 + b / 128) % 2 == 0
  }

  /** Status flags of a - b on operands below the given power of two. */
  function SubFlags(a: int, b: int, size: int): Flags
    requires 0 < size
  {
    var d := (a - b) % size;
    var sa, sb, sd := a >= size / 2, b >= size / 2, d >= size / 2;
    Flags(a < b, a == b, sd, sa != sb && sd != sa, Parity(d % 256))
  }

  function Holds(cc: Cond, f: Flags): bool {
    var positive :=
      match cc / 2
      case 0 => f.of
      case 1 => f.cf
      case 2 => f.zf
      case 3 => f.cf || f.zf
      case 4 => f.sf
      case 5 => f.pf
      case 6 => f.sf != f.of
      case _ => f.zf || f.sf != f.of;
    if cc % 2 == 0 then positive else !positive
  }

  function Pow2(scale: nat): nat {
    if scale == 0 then 1 else if scale == 1 then 2 else if scale == 2 then 4 else 8
  }

  function RegOr0(regs: Regs, r: Option<RegNo>): int {
    match r case None => 0 case Some(n) => regs[n]
  }

  /** Address of a memory operand; RIP-relative ones count from the next instruction. */
  function Address(o: Operand, regs: Regs, next: Word): Word
    requires !o.Register?
  {
    match o
    case Mem(_, _, base, index, scale, d) =>
      Wrap64(RegOr0(regs, base) + RegOr0(regs, index) * Pow2(scale) + d)
    case RipRelative(d) => Wrap64(next + d)
  }

  function Read64(o: Operand, s: State, next: Word): Word {
    if o.Register? then s.regs[o.r] else Load64(s.mem, Address(o, s.regs, next))
  }

  function Write64(o: Operand, s: State, next: Word, v: Word): State {
    if o.Register? then s.(regs := s.regs[o.r := v])
    else s.(mem := Store(s.mem, Address(o, s.regs, next), LE64(v)))
  }

  function Read32(o: Operand, s: State, next: Word): Word32 {
    if o.Register? then s.regs[o.r] % TWO32 else Load32(s.mem, Address(o, s.regs, next))
  }

  /** Executes one instruction whose successor in memory is at `next`. */
  function Exec(i: Instr, s0: State, next: Word): State {
    var s := s0.(pc := next);
    match i
    case Endbr64 => s
    case Push(r) =>
      var sp := Wrap64(SpOf(s.regs) - 8);
      s.(regs := s.regs[RSP := sp], mem := Store(s.mem, sp, LE64(s.regs[r])))
    case Pop(r) =>
      var v := Load64(s.mem, s.regs[RSP]);
      s.(regs := s.regs[RSP := Wrap64(SpOf(s.regs) + 8)][r := v])
    case MovImm(r, v) => s.(regs := s.regs[r := v])
    case MovStore(o, r) => Write64(o, s, next, s.regs[r])
    case MovLoad(r, o) => s.(regs := s.regs[r := Read64(o, s, next)])
    case SubImm(o, imm) =>
      var a := Read64(o, s, next);
      Write64(o, s, next, Wrap64(a - imm)).(flags := SubFlags(a, imm, TWO64))
    case CmpImm32(o, imm) => s.(flags := SubFlags(Read32(o, s, next), imm, TWO32))
    case Jcc(cc, rel) => if Holds(cc, s.flags) then s.(pc := Wrap64(next + rel)) else s
    case JmpRel(rel) => s.(pc := Wrap64(next + rel))
    case JmpInd(o) => s.(pc := Read64(o, s, next))
  }

  function Next(pc: Word, len: nat): Word { Wrap64(pc + len) }

  function WindowAt(m: Memory, pc: Word): Window { Fetch(m, pc, MAX_INSTR) }

  /** One step; None when the bytes at pc are outside the modelled subset. */
  function Step(s: State): Option<State> {
    match Decode(WindowAt(s.mem, s.pc))
    case None => None
    case Some(d) => Some(Exec(d.instr, s, Next(s.pc, d.len)))
  }

  function Steps(s: State, n: nat): Option<State>
    decreases n
  {
    if n == 0 then Some(s)
    else match Step(s)
         case None => None
         case Some(t) => Steps(t, n - 1)
  }

  lemma {:induction false} StepsCompose(s: State, m: nat, n: nat)
    requires Steps(s, m).Some?
    ensures Steps(s, m + n) == Steps(Steps(s, m).value, n)
    decreases m
  {
    hide Step;
    if m > 0 {
      StepsCompose(Step(s).value, m - 1, n);
    }
  }

  // ----- data footprints -----

  ghost function OperandRange(o: Operand, regs: Regs, next: Word, n: nat): iset<Word> {
    if o.Register? then iset{} else Range(Address(o, regs, next), n)
  }

  /** Memory an instruction reads as data. */
  ghost function Reads(i: Instr, s: State, next: Word): iset<Word> {
    match i
    case Pop(_) => Range(s.regs[RSP], 8)
    case MovLoad(_, o) => OperandRange(o, s.regs, next, 8)
    case SubImm(o, _) => OperandRange(o, s.regs, next, 8)
    case CmpImm32(o, _) => OperandRange(o, s.regs, next, 4)
    case JmpInd(o) => OperandRange(o, s.regs, next, 8)
    case _ => iset{}
  }

  /** Memory an instruction writes. */
  ghost function Writes(i: Instr, s: State, next: Word): iset<Word> {
    match i
    case Push(_) => Range(SpOf(s.regs) - 8, 8)
    case MovStore(o, _) => OperandRange(o, s.regs, next, 8)
    case SubImm(o, _) => OperandRange(o, s.regs, next, 8)
    case _ => iset{}
  }

  /** Same registers and flags, and the same memory except for `dead` bytes. */
  ghost predicate Alike(s: State, t: State, dead: iset<Word>) {
    s.regs == t.regs && s.flags == t.flags && AgreeOutside(s.mem, t.mem, dead)
  }

  ghost predicate PositionFree(i: Instr) {
    match i
    case MovStore(o, _) => !o.RipRelative?
    case MovLoad(_, o) => !o.RipRelative?
    case SubImm(o, _) => !o.RipRelative?
    case CmpImm32(o, _) => !o.RipRelative?
    case JmpInd(o) => !o.RipRelative?
    case Jcc(_, _) => false
    case JmpRel(_) => false
    case _ => true
  }

  lemma WriteFrame(o: Operand, s: State, next: Word, v: Word)
    ensures AgreeOutside(s.mem, Write64(o, s, next, v).mem, OperandRange(o, s.regs, next, 8))
  {
    hide LE64;
    if !o.Register? {
      StoreFrame(s.mem, Address(o, s.regs, next), LE64(v));
    }
  }

  lemma MemoryKept(m: Memory, dead: iset<Word>)
    ensures AgreeOutside(m, m, dead)
  {}

  /** An instruction changes memory only where Writes says. */
  lemma ExecFrame(i: Instr, s: State, next: Word)
    ensures AgreeOutside(s.mem, Exec(i, s, next).mem, Writes(i, s, next))
  {
    hide LE64, Store, Range, Wrap64, U64, AgreeOutside;
    match i
    case Push(r) =>
      RangeWrap(SpOf(s.regs) - 8, 8);
      StoreFrame(s.mem, Wrap64(SpOf(s.regs) - 8), LE64(s.regs[r]));
    case MovStore(o, r) => WriteFrame(o, s.(pc := next), next, s.regs[r]);
    case SubImm(o, imm) => WriteFrame(o, s.(pc := next), next, Wrap64(Read64(o, s.(pc := next), next) - imm));
    case _ => MemoryKept(s.mem, iset{});
  }

}
