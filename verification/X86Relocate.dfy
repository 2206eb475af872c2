/**
  Relocation of function prologues on x86-64: which instructions can be moved, what each
  becomes at its new address, and the loop that moves at least a patch length of them.
  The methods follow the branches of the original translator; the functions say, in terms
  of the decoder of X86Machine alone, what those branches have to produce.
  */
module X86Relocate {
  import opened Bytes
  import opened X86Machine

  datatype Status = Ok | Unsupported | BufferTooSmall | NoMemory | ProtectFailed

  const REX_W: Byte := 0x48
  const REX_B: Byte := 0x41

  // ----- what relocation has to do, by decoded instruction -----

  /** The instructions, with their REX prefix, that can be moved. */
  predicate Movable(rex: Byte, i: Instr) {
    match i
    case Endbr64 => rex == 0
    case Push(_) => rex == 0 || rex == REX_B
    case Pop(_) => rex == 0 || rex == REX_B
    case MovImm(_, _) => rex == 0
    case MovStore(o, r) =>
      rex == REX_W && ((o == Register(RBP) && r == RSP) || (o.Mem? && o.sib && (o.mod == 1 || o.mod == 2)))
    case MovLoad(r, o) => rex == REX_W && o.RipRelative? && r != RSP && r != RBP
    case SubImm(o, _) => rex == REX_W && o == Register(RSP)
    case CmpImm32(o, _) => rex == 0 && o.RipRelative?
    case Jcc(_, _) => rex == 0
    case JmpRel(_) => false
    case JmpInd(o) =>
      (rex == 0 || rex == REX_B) && (o.Register? || (o.Mem? && !(o.mod == 0 && o.sib)))
  }

  /** movabs $addr, %reg; mov (%reg), %reg */
  function MovCode(r: RegNo, addr: Word): seq<Byte>
    requires r < 8
  {
    [REX_W, 0xB8 + r] + LE64(addr) + [REX_W, 0x8B, r * 8 + r]
  }

  /** push %rax; movabs $addr, %rax; cmpl $imm, (%rax); pop %rax */
  function CmpCode(addr: Word, imm: Word32): seq<Byte> {
    [0x50, REX_W, 0xB8] + LE64(addr) + [0x81, 0x38] + LE32(imm) + [0x58]
  }

  /** jCC L1; jmp L2; L1: jmp *(%rip); .quad addr; L2: */
  function JccCode(cc: Cond, addr: Word): seq<Byte> {
    [0x70 + cc, 2, 0xEB, 0x0E, 0xFF, 0x25, 0, 0, 0, 0] + LE64(addr)
  }

  /** The code that replaces an instruction whose successor is at `next`. */
  function Translate(i: Instr, bytes: seq<Byte>, next: Word): seq<Byte> {
    if i.MovLoad? && i.from.RipRelative? && i.r < 8 then MovCode(i.r, Wrap64(next + i.from.disp))
    else if i.CmpImm32? && i.dst.RipRelative? then CmpCode(Wrap64(next + i.dst.disp), i.imm32)
    else if i.Jcc? then JccCode(i.cc, Wrap64(next + i.rel))
    else bytes
  }

  /** One moved instruction: where it was, what it was, and its replacement. */
  datatype Piece = Piece(pc: Word, instr: Instr, len: nat, code: seq<Byte>)

  function PieceAt(m: Memory, pc: Word): (p: Option<Piece>)
    ensures p.Some? ==> p.value.pc == pc && 0 < p.value.len <= MAX_INSTR
  {
    var w := WindowAt(m, pc);
    match Decode(w)
    case None => None
    case Some(d) =>
      if Movable(RexOf(w), d.instr)
      then Some(Piece(pc, d.instr, d.len, Translate(d.instr, w[..d.len], Next(pc, d.len))))
      else None
  }

  /** No instruction past this address may be moved along with the piece. */
  function LimitOf(p: Piece): Word {
    if p.instr.Jcc? then Wrap64(Next(p.pc, p.len) + p.instr.rel)
    else if p.instr.JmpInd? then Next(p.pc, p.len)
    else TWO64 - 1
  }

  // ----- the decoder, opcode by opcode -----

  lemma RipForm(w: Window, p: nat, rex: Byte)
    requires p <= 3
    ensures var m := DecodeModRM(w, p, rex);
            if w[p] / 64 == 0 && w[p] % 8 == 5
            then m == ModRM(w[p] / 8 % 8 + 8 * RexR(rex), RipRelative(Signed32(U32(w, p + 1))), 5)
            else !m.rm.RipRelative?
  {
    hide U32, Signed32, Signed8;
  }

  lemma RegisterForm(w: Window, p: nat, rex: Byte)
    requires p <= 3
    ensures var m := DecodeModRM(w, p, rex);
            m.reg % 8 == w[p] / 8 % 8 &&
            if w[p] / 64 == 3
            then m == ModRM(w[p] / 8 % 8 + 8 * RexR(rex), Register(w[p] % 8 + 8 * RexB(rex)), 1)
            else !m.rm.Register?
  {
    hide U32, Signed32, Signed8;
  }

  lemma MemoryForm(w: Window, p: nat, rex: Byte)
    requires p <= 3 && w[p] / 64 != 3 && !(w[p] / 64 == 0 && w[p] % 8 == 5)
    ensures var m := DecodeModRM(w, p, rex);
            m.rm.Mem? && m.rm.mod == w[p] / 64 && m.rm.sib == (w[p] % 8 == 4) &&
            (m.rm.mod == 1 ==> m.len == (if m.rm.sib then 3 else 2)) &&
            (m.rm.mod == 2 ==> m.len == (if m.rm.sib then 6 else 5)) &&
            (m.rm.mod == 0 && !m.rm.sib ==> m.len == 1)
  {
    hide U32, Signed32, Signed8;
  }

  lemma OneByteModRM(w: Window, p: nat)
    requires p <= 1 && RexOf(w) == (if p == 0 then 0 else w[0]) && (p == 1 ==> w[0] / 16 == 4)
    ensures var m := DecodeModRM(w, p + 1, RexOf(w));
            (w[p] == 0x89 && RexW(RexOf(w)) ==> Decode(w) == Some(Decoded(MovStore(m.rm, m.reg), p + 1 + m.len))) &&
            (w[p] == 0x8B && RexW(RexOf(w)) ==> Decode(w) == Some(Decoded(MovLoad(m.reg, m.rm), p + 1 + m.len))) &&
            (w[p] == 0x81 || w[p] == 0x83 ==> Decode(w) == DecodeGroup1(w, p, RexOf(w))) &&
            (w[p] == 0xFF ==>
              Decode(w) == if m.reg % 8 == 4 then Some(Decoded(JmpInd(m.rm), p + 1 + m.len)) else None)
  {
    hide DecodeModRM, DecodeGroup1;
  }

  lemma OpcodeTable(w: Window)
    ensures var rex := RexOf(w);
            var p := if rex == 0 then 0 else 1;
            var op := w[p];
            var d := Decode(w);
            if rex == 0 && op == 0xF3 && w[1] == 0x0F && w[2] == 0x1E && w[3] == 0xFA then
              d == Some(Decoded(Endbr64, 4))
            else if (rex == 0 || rex == REX_B) && op / 16 == 5 then
              d.Some? && (d.value.instr.Push? || d.value.instr.Pop?) && d.value.len == p + 1
            else if rex == 0 && op / 8 == 0xB8 / 8 then
              d.Some? && d.value.instr.MovImm? && d.value.len == 5
            else if rex == 0 && op / 16 == 7 then
              d == Some(Decoded(Jcc(op % 16, Signed8(w[1])), 2))
            else if (rex == REX_W && op in {0x81, 0x83, 0x89, 0x8B}) || (rex == 0 && op == 0x81) ||
                    ((rex == 0 || rex == REX_B) && op == 0xFF) then
              true
            else
              d.Some? ==> !Movable(rex, d.value.instr)
  {
    hide DecodeModRM, DecodeGroup1, U32, U64;
  }

  /** Extra bytes after the ModR/M byte of a register or based memory operand. */
  function Extra(modrm: Byte): nat {
    (if modrm / 64 != 3 && modrm % 8 == 4 then 1 else 0) +
    (if modrm / 64 == 1 then 1 else if modrm / 64 == 2 then 4 else 0)
  }

  lemma JumpForm(w: Window, p: nat)
    requires p <= 1 && RexOf(w) == (if p == 0 then 0 else REX_B) && (p == 1 ==> w[0] == REX_B) && w[p] == 0xFF
    ensures var mod, rm := w[p + 1] / 64, w[p + 1] % 8;
            if w[p + 1] / 8 % 8 == 4 && !(mod == 0 && (rm == 4 || rm == 5))
            then Decode(w).Some? && Decode(w).value.instr.JmpInd? &&
                 Movable(RexOf(w), Decode(w).value.instr) && Decode(w).value.len == p + 2 + Extra(w[p + 1])
            else Decode(w).Some? ==> !Movable(RexOf(w), Decode(w).value.instr)
  {
    hide Decode, DecodeModRM;
    OneByteModRM(w, p);
    RegisterForm(w, p + 1, RexOf(w));
    RipForm(w, p + 1, RexOf(w));
    if w[p + 1] / 64 != 3 && !(w[p + 1] / 64 == 0 && w[p + 1] % 8 == 5) {
      MemoryForm(w, p + 1, RexOf(w));
    }
  }

  /** The piece at an address, from the instruction decoded there. */
  lemma PieceHere(m: Memory, start: Word)
    requires start + MAX_INSTR < TWO64
    ensures var w := WindowAt(m, start);
            match Decode(w)
            case None => PieceAt(m, start) == None
            case Some(d) =>
              PieceAt(m, start) ==
              if Movable(RexOf(w), d.instr)
              then Some(Piece(start, d.instr, d.len, Translate(d.instr, Fetch(m, start, d.len), start + d.len)))
              else None
  {
    hide Decode, Translate, Movable, RexOf, Fetch;
    var w := WindowAt(m, start);
    if Decode(w).Some? {
      FetchPrefix(m, start, MAX_INSTR, Decode(w).value.len);
    }
  }

  lemma JccPiece(m: Memory, start: Word)
    requires start + MAX_INSTR < TWO64 && 0x70 <= m(start) <= 0x7F
    ensures var target := Wrap64(start + 2 + Signed8(m(Wrap64(start + 1))));
            PieceAt(m, start).Some? &&
            var p := PieceAt(m, start).value;
            p.len == 2 && p.code == JccCode(m(start) - 0x70, target) && LimitOf(p) == target
  {
    hide Decode, PieceAt, JccCode, MovCode, CmpCode, Movable, RexOf, WindowAt, Fetch, Signed8;
    WindowHead(m, start);
    JccForm(WindowAt(m, start));
    PieceHere(m, start);
  }

  lemma WindowHead(m: Memory, start: Word)
    ensures WindowAt(m, start)[0] == m(start) && WindowAt(m, start)[1] == m(Wrap64(start + 1))
  {
    assert Wrap64(start + 0) == start;
  }

  lemma JccForm(w: Window)
    requires 0x70 <= w[0] <= 0x7F
    ensures Decode(w) == Some(Decoded(Jcc(w[0] - 0x70, Signed8(w[1])), 2))
    ensures Movable(RexOf(w), Jcc(w[0] - 0x70, Signed8(w[1])))
  {
    hide Decode, Signed8;
    OpcodeTable(w);
  }

  lemma JumpPiece(m: Memory, start: Word, p: nat)
    requires start + MAX_INSTR < TWO64 && p <= 1
    requires var w := WindowAt(m, start);
             RexOf(w) == (if p == 0 then 0 else REX_B) && w[p] == 0xFF
    ensures var modrm := WindowAt(m, start)[p + 1];
            var len := p + 2 + Extra(modrm);
            if modrm / 8 % 8 == 4 && !(modrm / 64 == 0 && (modrm % 8 == 4 || modrm % 8 == 5))
            then PieceAt(m, start).Some? && PieceAt(m, start).value.len == len &&
                 PieceAt(m, start).value.code == Fetch(m, start, len) &&
                 LimitOf(PieceAt(m, start).value) == start + len
            else PieceAt(m, start).None?
  {
    hide Decode, PieceAt, Movable, Extra, MovCode, CmpCode, JccCode, Fetch;
    JumpForm(WindowAt(m, start), p);
    PieceHere(m, start);
  }

  // ----- which encodings are moved -----

  /** Bytes of an indirect jump whose ModR/M byte ends at n, or 0 if it is not moved. */
  function JumpBytes(modrm: Byte, n: nat): nat {
    var mod, rm := modrm / 64, modrm % 8;
    if modrm / 8 % 8 != 4 || (mod == 0 && (rm == 4 || rm == 5)) then 0
    else if mod == 0 || mod == 3 then n
    else n + (if rm == 4 then 1 else 0) + (if mod == 1 then 1 else 4)
  }

  /** Bytes of an instruction with the prefix 48, or 0 if it is not moved. */
  function WideBytes(op: Byte, modrm: Byte): nat {
    if op == 0x81 && modrm == 0xEC then 7
    else if op == 0x83 && modrm == 0xEC then 4
    else if op == 0x89 && modrm == 0xE5 then 3
    else if op == 0x89 && modrm % 8 == 4 && modrm / 64 == 1 then 5
    else if op == 0x89 && modrm % 8 == 4 && modrm / 64 == 2 then 8
    else if op == 0x8B && modrm / 64 == 0 && modrm % 8 == 5 && modrm / 8 != 4 && modrm / 8 != 5 then 7
    else 0
  }

  /** Bytes of the instruction at the front of a window, or 0 if it is not moved. */
  function AcceptedBytes(w: Window): nat {
    if w[0] == 0xF3 then (if w[1] == 0x0F && w[2] == 0x1E && w[3] == 0xFA then 4 else 0)
    else if 0x50 <= w[0] <= 0x5F then 1
    else if 0x70 <= w[0] <= 0x7F then 2
    else if 0xB8 <= w[0] <= 0xBF then 5
    else if w[0] == 0x81 then (if w[1] == 0x3D then 10 else 0)
    else if w[0] == 0xFF then JumpBytes(w[1], 2)
    else if w[0] == 0x41 then (if 0x50 <= w[1] <= 0x5F then 2 else if w[1] == 0xFF then JumpBytes(w[2], 3) else 0)
    else if w[0] == 0x48 then WideBytes(w[1], w[2])
    else 0
  }

  /** Bytes of its replacement: expanded for RIP-relative operands and conditional jumps, else copied. */
  function EmittedBytes(w: Window): nat {
    if w[0] == 0x48 && w[1] == 0x8B then 13
    else if w[0] == 0x81 || 0x70 <= w[0] <= 0x7F then 18
    else AcceptedBytes(w)
  }

  /** No instruction past this address may be moved along, as far as the bytes at pc say. */
  function LimitBytes(w: Window, pc: Word): Word {
    if 0x70 <= w[0] <= 0x7F then Wrap64(pc + 2 + Signed8(w[1]))
    else if w[0] == 0xFF || (w[0] == 0x41 && w[1] == 0xFF) then Wrap64(pc + AcceptedBytes(w))
    else TWO64 - 1
  }

  /** The instruction decoded is movable, as long and of the kind as the bytes say. */
  predicate Agreed(w: Window) {
    var d, n := Decode(w), AcceptedBytes(w);
    && (d.Some? && Movable(RexOf(w), d.value.instr) <==> n > 0)
    && (n > 0 ==> d.value.len == n && KindAgreed(w, n, d.value.instr))
  }

  predicate KindAgreed(w: Window, n: nat, i: Instr) {
    && (i.MovLoad? <==> w[0] == 0x48 && w[1] == 0x8B) && (i.MovLoad? ==> i.from.RipRelative? && i.r < 8)
    && (i.CmpImm32? <==> w[0] == 0x81) && (i.CmpImm32? ==> i.dst.RipRelative?)
    && (i.Jcc? <==> 0x70 <= w[0] <= 0x7F) && (i.Jcc? ==> n == 2 && i.rel == Signed8(w[1]))
    && (i.JmpInd? <==> w[0] == 0xFF || (w[0] == 0x41 && w[1] == 0xFF))
  }

  lemma WideStoreAgreed(w: Window)
    requires w[0] == REX_W && w[1] == 0x89
    ensures Agreed(w)
  {
    hide Decode, DecodeModRM;
    OneByteModRM(w, 1);
    RegisterForm(w, 2, REX_W);
    RipForm(w, 2, REX_W);
    if w[2] / 64 != 3 && !(w[2] / 64 == 0 && w[2] % 8 == 5) {
      MemoryForm(w, 2, REX_W);
    }
  }

  lemma WideLoadAgreed(w: Window)
    requires w[0] == REX_W && w[1] == 0x8B
    ensures Agreed(w)
  {
    hide Decode, DecodeModRM, U32;
    OneByteModRM(w, 1);
    RipForm(w, 2, REX_W);
  }

  lemma WideGroupAgreed(w: Window)
    requires w[0] == REX_W && (w[1] == 0x81 || w[1] == 0x83)
    ensures Agreed(w)
  {
    hide Decode, DecodeModRM, U32;
    OneByteModRM(w, 1);
    RegisterForm(w, 2, REX_W);
  }

  lemma CompareAgreed(w: Window)
    requires w[0] == 0x81
    ensures Agreed(w)
  {
    hide Decode, DecodeModRM, U32;
    OneByteModRM(w, 0);
    RipForm(w, 1, 0);
    RegisterForm(w, 1, 0);
  }

  lemma JumpAgreed(w: Window, p: nat)
    requires p <= 1 && w[p] == 0xFF && (p == 1 ==> w[0] == REX_B)
    ensures Agreed(w)
  {
    hide Decode, Movable;
    JumpForm(w, p);
  }

  /** Exactly these encodings are moved, and they are as long as that. */
  lemma EncodingsAgreed(w: Window)
    ensures Agreed(w)
  {
    if w[0] == REX_W && w[1] == 0x89 {
      WideStoreAgreed(w);
    } else if w[0] == REX_W && w[1] == 0x8B {
      WideLoadAgreed(w);
    } else if w[0] == REX_W && (w[1] == 0x81 || w[1] == 0x83) {
      WideGroupAgreed(w);
    } else if w[0] == 0x81 {
      CompareAgreed(w);
    } else if w[0] == 0xFF {
      JumpAgreed(w, 0);
    } else if w[0] == REX_B && w[1] == 0xFF {
      JumpAgreed(w, 1);
    } else {
      OtherAgreed(w);
    }
  }

  lemma OtherAgreed(w: Window)
    requires !(w[0] == REX_W && w[1] in {0x81, 0x83, 0x89, 0x8B})
    requires w[0] != 0x81 && w[0] != 0xFF && !(w[0] == REX_B && w[1] == 0xFF)
    ensures Agreed(w)
  {
    hide Decode;
    OpcodeTable(w);
  }

  /**
    For every memory and address: an instruction is moved if and only if its bytes are one of the
    encodings above, and then that many bytes are read and that many emitted.
    */
  lemma AcceptedExactly(m: Memory, start: Word)
    requires start + MAX_INSTR < TWO64
    ensures var w, p := WindowAt(m, start), PieceAt(m, start);
            && (p.Some? <==> AcceptedBytes(w) > 0)
            && (p.Some? ==> p.value.len == AcceptedBytes(w) && |p.value.code| == EmittedBytes(w) &&
                            LimitOf(p.value) == LimitBytes(w, start))
  {
    hide Decode, PieceAt, AcceptedBytes, Movable, RexOf, WindowAt, LE64, LE32, Signed8, Fetch;
    var w := WindowAt(m, start);
    EncodingsAgreed(w);
    PieceHere(m, start);
    FetchLength(m, start, AcceptedBytes(w));
    assert Decode(w).Some? ==> |Fetch(m, start, Decode(w).value.len)| == Decode(w).value.len by {
      if Decode(w).Some? {
        FetchLength(m, start, Decode(w).value.len);
      }
    }
  }

  lemma FetchLength(m: Memory, a: Word, n: nat)
    ensures |Fetch(m, a, n)| == n
  {}

  // ----- the translator -----

  class RelocateContext {
    const mem: Memory
    var srcP: int
    var srcEnd: Word
    const dst: array<Byte>
    var dstP: nat
    const dstEnd: nat

    ghost predicate Valid()
      reads this
    {
      dstP <= dstEnd <= dst.Length
    }

    constructor (mem: Memory, src: Word, dst: array<Byte>, max: nat)
      requires max <= dst.Length
      ensures Valid() && this.mem == mem && this.dst == dst && dstEnd == max
      ensures srcP == src && srcEnd == TWO64 - 1 && dstP == 0
    {
      this.mem, this.dst, this.dstEnd := mem, dst, max;
      srcP, srcEnd, dstP := src, TWO64 - 1, 0;
    }

    method Take8() returns (b: Byte)
      modifies this`srcP
      ensures srcP == old(srcP) + 1 && b == mem(Wrap64(old(srcP)))
    {
      b := mem(Wrap64(srcP));
      srcP := srcP + 1;
    }

    method Take32() returns (v: Word32)
      modifies this`srcP
      ensures srcP == old(srcP) + 4 && v == U32(Fetch(mem, old(srcP), 4), 0)
    {
      v := U32(Fetch(mem, srcP, 4), 0);
      srcP := srcP + 4;
    }

    /** What reading the instruction at `start` has to leave behind. */
    twostate predicate Translated(start: Word, ok: bool, code: seq<Byte>)
      reads this
    {
      var p := PieceAt(mem, start);
      ok == p.Some? &&
      (ok ==> srcP == start + p.value.len && code == p.value.code &&
              srcEnd == Min(old(srcEnd), LimitOf(p.value)))
    }

    /** After the opcode: the window at `start` with its REX prefix and opcode read. */
    ghost predicate AfterOpcode(start: Word, rex: Byte, opcode: Byte)
      reads this
    {
      var w := WindowAt(mem, start);
      start + MAX_INSTR < TWO64 && rex == RexOf(w) &&
      srcP == start + (if rex == 0 then 1 else 2) && opcode == w[srcP - start - 1]
    }

    function Copied(start: Word, end: int): seq<Byte>
      requires start <= end
    {
      Fetch(mem, start, end - start)
    }

    method GroupOne(start: Word, rex: Byte, opcode: Byte) returns (ok: bool, code: seq<Byte>)
      requires AfterOpcode(start, rex, opcode) && rex == REX_W && (opcode == 0x81 || opcode == 0x83)
      modifies this`srcP, this`srcEnd
      ensures Translated(start, ok, code)
    {
      hide Decode, DecodeModRM, U32, PieceAt;
      ghost var w := WindowAt(mem, start);
      OneByteModRM(w, 1);
      RegisterForm(w, 2, rex);
      PieceHere(mem, start);
      var modrm := Take8();
      if modrm == 0xEC {
        if opcode == 0x83 {
          var _ := Take8();
        } else {
          var _ := Take32();
        }
        return true, Copied(start, srcP);
      }
      return false, [];
    }

    method MovToMemory(start: Word, rex: Byte, opcode: Byte) returns (ok: bool, code: seq<Byte>)
      requires AfterOpcode(start, rex, opcode) && rex == REX_W && opcode == 0x89
      modifies this`srcP, this`srcEnd
      ensures Translated(start, ok, code)
    {
      hide Decode, DecodeModRM, U32, PieceAt;
      ghost var w := WindowAt(mem, start);
      OneByteModRM(w, 1);
      RegisterForm(w, 2, rex);
      RipForm(w, 2, rex);
      if w[2] / 64 != 3 && !(w[2] / 64 == 0 && w[2] % 8 == 5) {
        MemoryForm(w, 2, rex);
      }
      PieceHere(mem, start);
      var modrm := Take8();
      var mod := modrm / 64;
      if modrm == 0xE5 {
        return true, Copied(start, srcP);
      }
      if mod != 3 && modrm % 8 == 4 {
        var _ := Take8();
        if mod == 1 {
          var _ := Take8();
          return true, Copied(start, srcP);
        } else if mod == 2 {
          var _ := Take32();
          return true, Copied(start, srcP);
        }
      }
      return false, [];
    }

    method MovFromMemory(start: Word, rex: Byte, opcode: Byte) returns (ok: bool, code: seq<Byte>)
      requires AfterOpcode(start, rex, opcode) && rex == REX_W && opcode == 0x8B
      modifies this`srcP, this`srcEnd
      ensures Translated(start, ok, code)
    {
      hide Decode, DecodeModRM, U32, PieceAt, MovCode, CmpCode, Address, Fetch;
      ghost var w := WindowAt(mem, start);
      OneByteModRM(w, 1);
      RipForm(w, 2, rex);
      PieceHere(mem, start);
      var modrm := Take8();
      var mod := modrm / 64;
      if mod == 0 && modrm % 8 == 5 {
        var reg := modrm / 8 % 8;
        if reg != RSP && reg != RBP {
          FetchInside(mem, start, MAX_INSTR, 3);
          var disp32 := Take32();
          return true, MovCode(reg, Wrap64(srcP + Signed32(disp32)));
        }
      }
      return false, [];
    }

    method CompareImmediate(start: Word, rex: Byte, opcode: Byte) returns (ok: bool, code: seq<Byte>)
      requires AfterOpcode(start, rex, opcode) && rex == 0 && opcode == 0x81
      modifies this`srcP, this`srcEnd
      ensures Translated(start, ok, code)
    {
      hide Decode, DecodeModRM, U32, PieceAt, MovCode, CmpCode, Address, Fetch;
      ghost var w := WindowAt(mem, start);
      OneByteModRM(w, 0);
      RipForm(w, 1, rex);
      RegisterForm(w, 1, rex);
      PieceHere(mem, start);
      var modrm := Take8();
      if modrm == 0x3D {
        FetchInside(mem, start, MAX_INSTR, 2);
        FetchInside(mem, start, MAX_INSTR, 6);
        var disp32 := Take32();
        var imm32 := Take32();
        return true, CmpCode(Wrap64(srcP + Signed32(disp32)), imm32);
      }
      return false, [];
    }

    method SkipOperand(modrm: Byte)
      modifies this`srcP
      ensures srcP == old(srcP) + Extra(modrm)
    {
      var mod := modrm / 64;
      if mod != 3 {
        if modrm % 8 == 4 {
          var _ := Take8();
        }
        if mod == 1 {
          var _ := Take8();
        } else if mod == 2 {
          var _ := Take32();
        }
      }
    }

    method JumpIndirect(start: Word, rex: Byte, opcode: Byte) returns (ok: bool, code: seq<Byte>)
      requires AfterOpcode(start, rex, opcode) && (rex == 0 || rex == REX_B) && opcode == 0xFF
      modifies this`srcP, this`srcEnd
      ensures Translated(start, ok, code)
    {
      hide PieceAt, LimitOf, Extra;
      ghost var w := WindowAt(mem, start);
      ghost var p := if rex == 0 then 0 else 1;
      JumpPiece(mem, start, p);
      var modrm := Take8();
      assert modrm == w[p + 1];
      var mod, rm, reg := modrm / 64, modrm % 8, modrm / 8 % 8;
      if reg == 4 {
        if mod == 0 && (rm == 5 || rm == 4) {
          return false, [];
        }
        SkipOperand(modrm);
        srcEnd := Min(srcEnd, srcP);
        return true, Copied(start, srcP);
      }
      return false, [];
    }

    method ConditionalJump(start: Word, rex: Byte, opcode: Byte) returns (ok: bool, code: seq<Byte>)
      requires AfterOpcode(start, rex, opcode) && rex == 0 && 0x70 <= opcode <= 0x7F
      modifies this`srcP, this`srcEnd
      ensures Translated(start, ok, code)
    {
      hide PieceAt, JccCode, LimitOf;
      JccPiece(mem, start);
      var disp8 := Take8();
      var jmpdest := Wrap64(srcP + Signed8(disp8));
      srcEnd := Min(srcEnd, jmpdest);
      return true, JccCode(opcode - 0x70, jmpdest);
    }

    /** Reads the opcode and the REX prefix in front of it, if any. */
    method ReadOpcode() returns (rex: Byte, opcode: Byte)
      requires 0 <= srcP && srcP + MAX_INSTR < TWO64
      modifies this`srcP
      ensures AfterOpcode(old(srcP), rex, opcode)
    {
      opcode := Take8();
      if opcode / 16 == 4 {
        rex := opcode;
        opcode := Take8();
      } else {
        rex := 0;
      }
    }

    /** Reads one instruction and produces its replacement. */
    method TranslateOne() returns (ok: bool, code: seq<Byte>)
      requires 0 <= srcP && srcP + MAX_INSTR < TWO64
      modifies this`srcP, this`srcEnd
      ensures Translated(old(srcP), ok, code)
      ensures var w := WindowAt(mem, old(srcP));
              && (ok <==> AcceptedBytes(w) > 0)
              && (ok ==> srcP == old(srcP) + AcceptedBytes(w) && |code| == EmittedBytes(w) &&
                         srcEnd == Min(old(srcEnd), LimitBytes(w, old(srcP))))
    {
      hide Decode, PieceAt, MovCode, CmpCode, JccCode, U32, AcceptedBytes, EmittedBytes, LimitBytes;
      var start := srcP;
      ghost var w := WindowAt(mem, start);
      AcceptedExactly(mem, start);
      OpcodeTable(w);
      PieceHere(mem, start);

      var rex, opcode := ReadOpcode();
      var tail := Fetch(mem, srcP, 3);
      assert rex == 0 ==> tail[0] == w[1] && tail[1] == w[2] && tail[2] == w[3];
      if rex == 0 && opcode == 0xF3 && tail == [0x0F, 0x1E, 0xFA] {
        srcP := srcP + 3;
        return true, Copied(start, srcP);
      } else if (rex == 0 || rex == REX_B) && opcode / 16 == 5 {
        return true, Copied(start, srcP);
      } else if rex == REX_W && (opcode == 0x81 || opcode == 0x83) {
        ok, code := GroupOne(start, rex, opcode);
      } else if rex == REX_W && opcode == 0x89 {
        ok, code := MovToMemory(start, rex, opcode);
      } else if rex == REX_W && opcode == 0x8B {
        ok, code := MovFromMemory(start, rex, opcode);
      } else if rex == 0 && opcode / 8 == 0xB8 / 8 {
        var _ := Take32();
        return true, Copied(start, srcP);
      } else if rex == 0 && opcode == 0x81 {
        ok, code := CompareImmediate(start, rex, opcode);
      } else if rex == 0 && 0x70 <= opcode <= 0x7F {
        ok, code := ConditionalJump(start, rex, opcode);
      } else if (rex == 0 || rex == REX_B) && opcode == 0xFF {
        ok, code := JumpIndirect(start, rex, opcode);
      } else {
        return false, [];
      }
    }

    /** Moves one instruction into the destination buffer. */
    method RelocateOne() returns (status: Status)
      requires Valid() && 0 <= srcP && srcP + MAX_INSTR < TWO64
      modifies this, dst
      ensures Valid()
      ensures var p := PieceAt(mem, old(srcP));
              status == (if p.None? then Unsupported
                         else if old(dstP) + |p.value.code| > dstEnd then BufferTooSmall else Ok)
      ensures status == Ok ==>
                var p := PieceAt(mem, old(srcP)).value;
                && srcP == p.pc + p.len && srcEnd == Min(old(srcEnd), LimitOf(p))
                && dstP == old(dstP) + |p.code| && dst[..dstP] == old(dst[..dstP]) + p.code
    {
      hide PieceAt, LimitOf;
      var ok, code := TranslateOne();
      if !ok {
        return Unsupported;
      }
      if dstP + |code| > dstEnd {
        return BufferTooSmall;
      }
      forall i | 0 <= i < |code| {
        dst[dstP + i] := code[i];
      }
      dstP := dstP + |code|;
      status := Ok;
    }
  }

  // ----- the relocation loop -----

  datatype Outcome = Done(pieces: seq<Piece>) | Failed(status: Status)

  /** The pieces moved from pc until at least `goal` is reached. */
  function Relocate(m: Memory, pc: int, goal: int, limit: Word, room: nat): Outcome
    requires 0 <= pc && goal + MAX_INSTR <= TWO64
    decreases goal - pc
  {
    if pc >= goal then Done([])
    else match PieceAt(m, pc)
      case None => Failed(Unsupported)
      case Some(p) =>
        var lim := Min(limit, LimitOf(p));
        if |p.code| > room then Failed(BufferTooSmall)
        else if pc + p.len > lim then Failed(Unsupported)
        else Prepend([p], Relocate(m, pc + p.len, goal, lim, room - |p.code|))
  }

  function Prepend(ps: seq<Piece>, o: Outcome): Outcome {
    match o
    case Failed(_) => o
    case Done(qs) => Done(ps + qs)
  }

  function LenOf(ps: seq<Piece>): nat {
    if ps == [] then 0 else ps[0].len + LenOf(ps[1..])
  }

  function CodeOf(ps: seq<Piece>): seq<Byte> {
    if ps == [] then [] else ps[0].code + CodeOf(ps[1..])
  }

  /** One round of the loop, seen from the pieces already done. */
  lemma RelocateUnfold(m: Memory, pc: int, goal: int, limit: Word, room: nat, done: seq<Piece>)
    requires 0 <= pc && goal + MAX_INSTR <= TWO64
    ensures Prepend([], Relocate(m, pc, goal, limit, room)) == Relocate(m, pc, goal, limit, room) && CodeOf([]) == []
    ensures pc >= goal ==> Prepend(done, Relocate(m, pc, goal, limit, room)) == Done(done)
    ensures pc < goal ==>
      Prepend(done, Relocate(m, pc, goal, limit, room)) ==
      match PieceAt(m, pc)
      case None => Failed(Unsupported)
      case Some(p) =>
        if |p.code| > room then Failed(BufferTooSmall)
        else if pc + p.len > Min(limit, LimitOf(p)) then Failed(Unsupported)
        else Prepend(done + [p], Relocate(m, pc + p.len, goal, Min(limit, LimitOf(p)), room - |p.code|))
  {
    hide PieceAt, LimitOf, Prepend;
    PrependNone(Relocate(m, pc, goal, limit, room));
    if pc < goal && PieceAt(m, pc).Some? {
      var p := PieceAt(m, pc).value;
      var lim := Min(limit, LimitOf(p));
      if |p.code| <= room && pc + p.len <= lim {
        PrependTwice(done, [p], Relocate(m, pc + p.len, goal, lim, room - |p.code|));
      }
    }
    PrependEnd(done);
  }

  lemma PrependNone(o: Outcome)
    ensures Prepend([], o) == o && CodeOf([]) == []
  {
    assert o.Done? ==> [] + o.pieces == o.pieces;
  }

  lemma PrependTwice(ps: seq<Piece>, qs: seq<Piece>, o: Outcome)
    ensures Prepend(ps, Prepend(qs, o)) == Prepend(ps + qs, o)
  {
    assert o.Done? ==> ps + (qs + o.pieces) == ps + qs + o.pieces;
  }

  lemma PrependEnd(ps: seq<Piece>)
    ensures Prepend(ps, Done([])) == Done(ps) && forall s :: Prepend(ps, Failed(s)) == Failed(s)
  {
    assert ps + [] == ps;
  }

  lemma CodeOfCons(p: Piece, qs: seq<Piece>)
    ensures CodeOf([p] + qs) == p.code + CodeOf(qs) && LenOf([p] + qs) == p.len + LenOf(qs)
  {
    assert ([p] + qs)[1..] == qs;
  }

  lemma {:induction false} Snoc(ps: seq<Piece>, p: Piece)
    ensures LenOf(ps + [p]) == LenOf(ps) + p.len && CodeOf(ps + [p]) == CodeOf(ps) + p.code
  {
    if ps == [] {
      assert ps + [p] == [p] && CodeOf([p]) == p.code + CodeOf([]);
    } else {
      assert (ps + [p])[1..] == ps[1..] + [p];
      Snoc(ps[1..], p);
      assert ps[0].code + (CodeOf(ps[1..]) + p.code) == CodeOf(ps) + p.code;
    }
  }

  /** Moves at least minLen bytes of code from src into dst. */
  method RelocateCode(mem: Memory, src: Word, minLen: nat, dst: array<Byte>, max: nat)
    returns (status: Status, dstLen: nat, srcLen: nat)
    requires src + minLen + MAX_INSTR <= TWO64 && max <= dst.Length
    modifies dst
    ensures match Relocate(mem, src, src + minLen, TWO64 - 1, max)
            case Failed(s) => status == s != Ok
            case Done(ps) => status == Ok && srcLen == LenOf(ps) && dstLen == |CodeOf(ps)| <= max &&
                             dst[..dstLen] == CodeOf(ps)
  {
    hide PieceAt, LimitOf, CodeOf, Relocate;
    var ctx := new RelocateContext(mem, src, dst, max);
    ghost var done: seq<Piece> := [];
    ghost var goal := src + minLen;
    RelocateUnfold(mem, src, goal, TWO64 - 1, max, done);
    while ctx.srcP < src + minLen
      invariant ctx.Valid() && ctx.mem == mem && ctx.dst == dst && ctx.dstEnd == max
      invariant Relocate(mem, src, goal, TWO64 - 1, max) ==
                Prepend(done, Relocate(mem, ctx.srcP, goal, ctx.srcEnd, max - ctx.dstP))
      invariant 0 <= ctx.srcP == src + LenOf(done)
      invariant ctx.dstP == |CodeOf(done)| && dst[..ctx.dstP] == CodeOf(done)
    {
      ghost var p := PieceAt(mem, ctx.srcP);
      RelocateUnfold(mem, ctx.srcP, goal, ctx.srcEnd, max - ctx.dstP, done);
      status := ctx.RelocateOne();
      if status != Ok {
        return status, 0, 0;
      }
      if ctx.srcP > ctx.srcEnd {
        return Unsupported, 0, 0;
      }
      Snoc(done, p.value);
      done := done + [p.value];
    }
    RelocateUnfold(mem, ctx.srcP, goal, ctx.srcEnd, max - ctx.dstP, done);
    return Ok, ctx.dstP, ctx.srcP - src;
  }

  /** The walk over the code, by its bytes alone. */
  predicate Walks(m: Memory, pc: int, goal: int, limit: Word, room: nat)
    requires 0 <= pc && goal + MAX_INSTR <= TWO64
    decreases goal - pc
  {
    pc >= goal ||
    (var w := WindowAt(m, pc);
     var n, lim := AcceptedBytes(w), Min(limit, LimitBytes(w, pc));
     n > 0 && EmittedBytes(w) <= room && pc + n <= lim && Walks(m, pc + n, goal, lim, room - EmittedBytes(w)))
  }

  /** Code is moved if and only if every instruction up to the goal is one of the encodings, within room and limits. */
  lemma {:induction false} RelocatesExactly(m: Memory, pc: int, goal: int, limit: Word, room: nat)
    requires 0 <= pc && goal + MAX_INSTR <= TWO64
    ensures Relocate(m, pc, goal, limit, room).Done? <==> Walks(m, pc, goal, limit, room)
    decreases goal - pc
  {
    hide PieceAt, LimitOf, AcceptedBytes, EmittedBytes, LimitBytes, WindowAt;
    if pc < goal {
      AcceptedExactly(m, pc);
      var w := WindowAt(m, pc);
      var n, lim := AcceptedBytes(w), Min(limit, LimitBytes(w, pc));
      if n > 0 && EmittedBytes(w) <= room && pc + n <= lim {
        RelocatesExactly(m, pc + n, goal, lim, room - EmittedBytes(w));
      }
    }
  }

  // ----- what a successful relocation guarantees -----

  /** The pieces are the consecutive instructions of m from pc on. */
  ghost predicate Chain(m: Memory, pc: int, ps: seq<Piece>)
    decreases |ps|
  {
    ps == [] ||
    (0 <= pc < TWO64 && PieceAt(m, pc) == Some(ps[0]) && Chain(m, pc + ps[0].len, ps[1..]))
  }

  lemma NoLength()
    ensures LenOf([]) == 0 && CodeOf([]) == []
  {}

  /**
    The moved prefix is a whole number of instructions covering at least the patch and no
    instruction more than needed; it fits the buffer; every moved conditional jump goes to
    or past the end of the prefix; and an indirect jump can only be the last instruction.
    */
  ghost predicate GoodPrefix(m: Memory, pc: int, goal: int, limit: Word, room: int, ps: seq<Piece>) {
    var end := pc + LenOf(ps);
    && Chain(m, pc, ps) && goal <= end && |CodeOf(ps)| <= room
    && (ps != [] ==> end <= limit && LenOf(ps[..|ps| - 1]) < goal - pc)
    && (forall k :: 0 <= k < |ps| && ps[k].instr.Jcc? ==> end <= LimitOf(ps[k]))
    && (forall k :: 0 <= k < |ps| && ps[k].instr.JmpInd? ==> k == |ps| - 1)
  }

  lemma {:induction false} RelocatedPrefix(m: Memory, pc: int, goal: int, limit: Word, room: nat)
    requires 0 <= pc && goal + MAX_INSTR <= TWO64
    requires Relocate(m, pc, goal, limit, room).Done?
    ensures GoodPrefix(m, pc, goal, limit, room, Relocate(m, pc, goal, limit, room).pieces)
    decreases goal - pc
  {
    hide PieceAt, LenOf, CodeOf, LimitOf, Chain, GoodPrefix;
    if pc < goal {
      var p := PieceAt(m, pc).value;
      var lim := Min(limit, LimitOf(p));
      RelocatedPrefix(m, pc + p.len, goal, lim, room - |p.code|);
      var qs := Relocate(m, pc + p.len, goal, lim, room - |p.code|).pieces;
      PrefixCons(m, pc, goal, limit, room, p, qs);
    } else {
      EmptyPrefix(m, pc, goal, limit, room);
    }
  }

  lemma EmptyPrefix(m: Memory, pc: int, goal: int, limit: Word, room: nat)
    requires goal <= pc
    ensures GoodPrefix(m, pc, goal, limit, room, [])
  {}

  /** Nothing follows an indirect jump. */
  lemma LastIfIndirect(m: Memory, pc: int, p: Piece, qs: seq<Piece>)
    requires 0 <= pc < TWO64 && PieceAt(m, pc) == Some(p) && Chain(m, pc + p.len, qs)
    requires qs != [] ==> pc + p.len + LenOf(qs) <= LimitOf(p)
    ensures p.instr.JmpInd? ==> qs == []
  {
    hide PieceAt;
    if qs != [] {
      assert LenOf(qs) == qs[0].len + LenOf(qs[1..]);
    }
  }

  lemma PrefixCons(m: Memory, pc: int, goal: int, limit: Word, room: nat, p: Piece, qs: seq<Piece>)
    requires 0 <= pc < goal && pc < TWO64 && PieceAt(m, pc) == Some(p)
    requires pc + p.len <= Min(limit, LimitOf(p)) && |p.code| <= room
    requires GoodPrefix(m, pc + p.len, goal, Min(limit, LimitOf(p)), room - |p.code|, qs)
    ensures GoodPrefix(m, pc, goal, limit, room, [p] + qs)
  {
    hide PieceAt, LenOf, CodeOf, LimitOf;
    LastIfIndirect(m, pc, p, qs);
    var ps := [p] + qs;
    assert ps[1..] == qs;
    CodeOfCons(p, qs);
    NoLength();
    assert qs == [] ==> ps[..|ps| - 1] == [];
    if qs != [] {
      assert ps[..|ps| - 1] == [p] + qs[..|qs| - 1];
      CodeOfCons(p, qs[..|qs| - 1]);
    }
    assert forall k :: 0 < k < |ps| ==> ps[k] == qs[k - 1];
  }
}
