/**
  The trampoline that stands in for the patched start of a function: how it is built from
  relocated instructions, and a simulation showing that running it does what running the
  displaced instructions did.
  */
module X86Trampoline {
  import opened Bytes
  import opened X86Machine
  import opened X86Relocate

  // ----- code in memory -----

  ghost predicate HoldsAt(m: Memory, a: int, bytes: seq<Byte>) {
    Fetch(m, a, |bytes|) == bytes
  }

  lemma FetchWrap(m: Memory, a: int, n: nat)
    ensures Fetch(m, Wrap64(a), n) == Fetch(m, a, n)
  {
    var s, t := Fetch(m, Wrap64(a), n), Fetch(m, a, n);
    forall i | 0 <= i < n
      ensures s[i] == t[i]
    {
      WrapShift(Wrap64(a) + i, a / TWO64);
    }
  }

  lemma HoldsPart(m: Memory, a: int, bytes: seq<Byte>, i: nat, j: nat)
    requires HoldsAt(m, a, bytes) && i <= j <= |bytes|
    ensures HoldsAt(m, Wrap64(a + i), bytes[i..j])
  {
    FetchWrap(m, a + i, j - i);
    var s, t := Fetch(m, a, |bytes|), Fetch(m, a + i, j - i);
    forall k | 0 <= k < j - i
      ensures t[k] == bytes[i..j][k]
    {
      assert s[i + k] == bytes[i + k];
    }
  }

  /** Code survives whatever happens outside its own bytes. */
  lemma HoldsStable(m1: Memory, m2: Memory, changed: iset<Word>, a: int, bytes: seq<Byte>)
    requires HoldsAt(m1, a, bytes) && |bytes| <= TWO64
    requires AgreeOutside(m1, m2, changed) && Range(a, |bytes|) !! changed
    ensures HoldsAt(m2, a, bytes)
  {
    FetchAgree(m1, m2, changed, a, |bytes|);
  }

  lemma WindowStarts(m: Memory, a: Word, bytes: seq<Byte>)
    requires HoldsAt(m, a, bytes)
    ensures forall i :: 0 <= i < MAX_INSTR && i < |bytes| ==> WindowAt(m, a)[i] == bytes[i]
  {
    var w, s := WindowAt(m, a), Fetch(m, a, |bytes|);
    forall i | 0 <= i < MAX_INSTR && i < |bytes|
      ensures w[i] == bytes[i]
    {
      assert s[i] == m(Wrap64(a + i));
    }
  }

  // ----- decoding what the translator emits -----

  lemma DecodesMovabs(w: Window, r: RegNo, addr: Word)
    requires r < 8 && w[0] == 0x48 && w[1] == 0xB8 + r && w[2..10] == LE64(addr)
    ensures Decode(w) == Some(Decoded(MovImm(r, addr), 10))
  {
    hide U32, U64, LE64, DecodeModRM, DecodeGroup1;
    RoundTrip64(addr, w, 2);
  }

  lemma DecodesLoadThrough(w: Window, r: RegNo)
    requires r < 8 && r != RSP && r != RBP && w[0] == 0x48 && w[1] == 0x8B && w[2] == r * 8 + r
    ensures Decode(w) == Some(Decoded(MovLoad(r, Mem(0, false, Some(r), None, 0, 0)), 3))
  {
    hide U32, U64;
    assert w[2] / 64 == 0 && w[2] % 8 == r && w[2] / 8 % 8 == r;
  }

  lemma DecodesCmpRax(w: Window, imm: Word32)
    requires w[0] == 0x81 && w[1] == 0x38 && w[2..6] == LE32(imm)
    ensures Decode(w) == Some(Decoded(CmpImm32(Mem(0, false, Some(RAX), None, 0, 0), imm), 6))
  {
    hide U32, U64, LE32;
    RoundTrip32(imm, w, 2);
  }

  lemma DecodesPushPopRax(w: Window)
    ensures w[0] == 0x50 ==> Decode(w) == Some(Decoded(Push(RAX), 1))
    ensures w[0] == 0x58 ==> Decode(w) == Some(Decoded(Pop(RAX), 1))
  {
    hide U32, U64;
  }

  lemma DecodesJcc(w: Window, cc: Cond)
    requires w[0] == 0x70 + cc && w[1] == 2
    ensures Decode(w) == Some(Decoded(Jcc(cc, 2), 2))
  {
    hide U32, U64, DecodeModRM, DecodeGroup1;
  }

  lemma DecodesSkip(w: Window)
    requires w[0] == 0xEB && w[1] == 0x0E
    ensures Decode(w) == Some(Decoded(JmpRel(14), 2))
  {
    hide U32, U64, DecodeModRM, DecodeGroup1;
  }

  lemma DecodesJmpRip(w: Window, disp: Word32)
    requires w[0] == 0xFF && w[1] == 0x25 && w[2..6] == LE32(disp)
    ensures Decode(w) == Some(Decoded(JmpInd(RipRelative(Signed32(disp))), 6))
  {
    hide U32, U64, LE32;
    RoundTrip32(disp, w, 2);
  }

  // ----- simulating one instruction -----

  /** The eight bytes below the stack pointer. */
  ghost function RedZone(s: State): iset<Word> { Range(SpOf(s.regs) - 8, 8) }

  /** What the replacement of a piece overwrites beyond the instruction's own writes. */
  ghost function Clobbered(p: Piece, s: State): iset<Word> {
    if p.instr.CmpImm32? then RedZone(s) else iset{}
  }

  function After(p: Piece): Word { Next(p.pc, p.len) }

  ghost function DeadAfter(p: Piece, s: State, dead: iset<Word>): iset<Word> {
    dead + Clobbered(p, s) - Writes(p.instr, s, After(p))
  }

  /** The instruction's data is clear of dead bytes, and nothing it does touches guarded code. */
  ghost predicate SafeAt(p: Piece, s: State, dead: iset<Word>, guard: iset<Word>) {
    && Reads(p.instr, s, After(p)) !! dead + Clobbered(p, s)
    && Writes(p.instr, s, After(p)) !! guard
    && Clobbered(p, s) !! guard
  }

  /** Control does not fall through to the next instruction. */
  predicate Leaves(p: Piece, s: State) {
    p.instr.JmpInd? || (p.instr.Jcc? && Holds(p.instr.cc, s.flags))
  }

  lemma Read64Alike(o: Operand, s: State, t: State, ns: Word, nt: Word, dead: iset<Word>)
    requires !o.RipRelative? && Alike(s, t, dead) && OperandRange(o, s.regs, ns, 8) !! dead
    ensures Read64(o, s, ns) == Read64(o, t, nt)
  {
    if o.Mem? {
      FetchAgree(s.mem, t.mem, dead, Address(o, s.regs, ns), 8);
    }
  }

  lemma Write64Alike(o: Operand, s: State, t: State, ns: Word, nt: Word, v: Word, dead: iset<Word>)
    requires !o.RipRelative? && Alike(s, t, dead)
    ensures Alike(Write64(o, s, ns, v), Write64(o, t, nt, v), dead - OperandRange(o, s.regs, ns, 8))
  {
    if o.Mem? {
      StoreAgree(s.mem, t.mem, dead, Address(o, s.regs, ns), LE64(v));
    }
  }

  /** An instruction that does not mention its own address acts alike on alike states. */
  lemma ExecAlike(i: Instr, s: State, t: State, ns: Word, nt: Word, dead: iset<Word>)
    requires PositionFree(i) && !i.CmpImm32? && Alike(s, t, dead) && Reads(i, s, ns) !! dead
    ensures Alike(Exec(i, s, ns), Exec(i, t, nt), dead - Writes(i, s, ns))
    ensures if i.JmpInd? then Exec(i, s, ns).pc == Exec(i, t, nt).pc
            else Exec(i, s, ns).pc == ns && Exec(i, t, nt).pc == nt
  {
    hide LE64, Address, SubFlags, U32;
    var s1, t1 := s.(pc := ns), t.(pc := nt);
    match i
    case Push(r) =>
      RangeWrap(SpOf(s.regs) - 8, 8);
      StoreAgree(s.mem, t.mem, dead, Wrap64(SpOf(s.regs) - 8), LE64(s.regs[r]));
    case Pop(r) =>
      FetchAgree(s.mem, t.mem, dead, s.regs[RSP], 8);
    case MovStore(o, r) =>
      Write64Alike(o, s1, t1, ns, nt, s.regs[r], dead);
    case MovLoad(_, o) =>
      Read64Alike(o, s1, t1, ns, nt, dead);
    case SubImm(o, imm) =>
      Read64Alike(o, s1, t1, ns, nt, dead);
      Write64Alike(o, s1, t1, ns, nt, Wrap64(Read64(o, s1, ns) - imm), dead);
    case JmpInd(o) =>
      Read64Alike(o, s1, t1, ns, nt, dead);
    case _ =>
  }

  /** What running a replacement must achieve, started in t while the original is in s. */
  ghost predicate Simulates(p: Piece, s: State, t: State, dead: iset<Word>, u: State) {
    var s' := Exec(p.instr, s, After(p));
    && Alike(s', u, DeadAfter(p, s, dead))
    && u.pc == (if Leaves(p, s) then s'.pc else Wrap64(t.pc + |p.code|))
    && AgreeOutside(t.mem, u.mem, Writes(p.instr, s, After(p)) + Clobbered(p, s))
  }

  /** A piece to move, with both machines about to execute it. */
  ghost predicate Facing(p: Piece, s: State, t: State, dead: iset<Word>, guard: iset<Word>) {
    && PieceAt(s.mem, s.pc) == Some(p)
    && Alike(s, t, dead) && SafeAt(p, s, dead, guard)
    && HoldsAt(t.mem, t.pc, p.code) && Range(t.pc, |p.code|) <= guard
  }

  predicate Rewritten(i: Instr) { i.MovLoad? || i.CmpImm32? || i.Jcc? }

  lemma StepFrom(t: State, d: Decoded)
    requires Decode(WindowAt(t.mem, t.pc)) == Some(d)
    ensures Step(t) == Some(Exec(d.instr, t, Next(t.pc, d.len)))
  {
    hide Decode, Exec;
  }

  lemma SimulateCopy(p: Piece, s: State, t: State, dead: iset<Word>, guard: iset<Word>) returns (u: State)
    requires Facing(p, s, t, dead, guard) && !Rewritten(p.instr)
    ensures Step(t) == Some(u) && Simulates(p, s, t, dead, u)
  {
    hide Decode, DecodeModRM, DecodeGroup1, Exec, Step;
    var w, v := WindowAt(s.mem, s.pc), WindowAt(t.mem, t.pc);
    assert p.code == w[..p.len];
    WindowStarts(t.mem, t.pc, p.code);
    assert AgreeTo(w, v, p.len);
    DecodePrefix(w, v);
    var nt := Next(t.pc, p.len);
    StepFrom(t, Decoded(p.instr, p.len));
    ExecAlike(p.instr, s, t, After(p), nt, dead);
    ExecFrame(p.instr, t, nt);
    assert Writes(p.instr, t, nt) == Writes(p.instr, s, After(p));
    u := Exec(p.instr, t, nt);
  }

  /** What the replacement of each rewritten instruction looks like. */
  lemma PieceShape(m: Memory, pc: Word)
    requires PieceAt(m, pc).Some?
    ensures var p := PieceAt(m, pc).value;
            && (p.instr.MovLoad? ==>
                  p.instr.r < 8 && p.instr.r != RSP && p.instr.r != RBP && p.instr.from.RipRelative? &&
                  p.code == MovCode(p.instr.r, Wrap64(After(p) + p.instr.from.disp)))
            && (p.instr.CmpImm32? ==>
                  p.instr.dst.RipRelative? &&
                  p.code == CmpCode(Wrap64(After(p) + p.instr.dst.disp), p.instr.imm32))
            && (p.instr.Jcc? ==> p.code == JccCode(p.instr.cc, Wrap64(After(p) + p.instr.rel)))
  {
    hide MovCode, CmpCode, JccCode, DecodeModRM, DecodeGroup1;
    var w := WindowAt(m, pc);
    RipForm(w, 2, RexOf(w));
  }

  // ----- running what the translator emits -----

  lemma StepMovabs(t: State, r: RegNo, addr: Word)
    requires r < 8 && HoldsAt(t.mem, t.pc, [0x48, 0xB8 + r] + LE64(addr))
    ensures Step(t) == Some(t.(pc := Wrap64(t.pc + 10), regs := t.regs[r := addr]))
  {
    hide Decode, Step, LE64;
    var w, code := WindowAt(t.mem, t.pc), [0x48, 0xB8 + r] + LE64(addr);
    WindowStarts(t.mem, t.pc, code);
    assert w[2..10] == LE64(addr) by {
      assert forall i :: 0 <= i < 8 ==> w[2..10][i] == w[2 + i] == code[2 + i] == LE64(addr)[i];
    }
    DecodesMovabs(w, r, addr);
    StepFrom(t, Decoded(MovImm(r, addr), 10));
  }

  lemma StepLoadThrough(t: State, r: RegNo)
    requires r < 8 && r != RSP && r != RBP && HoldsAt(t.mem, t.pc, [0x48, 0x8B, r * 8 + r])
    ensures Step(t) == Some(t.(pc := Wrap64(t.pc + 3), regs := t.regs[r := Load64(t.mem, t.regs[r])]))
  {
    hide Decode, Step, Load64;
    WindowStarts(t.mem, t.pc, [0x48, 0x8B, r * 8 + r]);
    DecodesLoadThrough(WindowAt(t.mem, t.pc), r);
    StepFrom(t, Decoded(MovLoad(r, Mem(0, false, Some(r), None, 0, 0)), 3));
  }

  lemma StepPushRax(t: State)
    requires HoldsAt(t.mem, t.pc, [0x50])
    ensures var sp := Wrap64(SpOf(t.regs) - 8);
            Step(t) == Some(t.(pc := Wrap64(t.pc + 1), regs := t.regs[RSP := sp],
                               mem := Store(t.mem, sp, LE64(t.regs[RAX]))))
  {
    hide Decode, Step, LE64;
    WindowStarts(t.mem, t.pc, [0x50]);
    DecodesPushPopRax(WindowAt(t.mem, t.pc));
    StepFrom(t, Decoded(Push(RAX), 1));
  }

  lemma StepPopRax(t: State)
    requires HoldsAt(t.mem, t.pc, [0x58])
    ensures Step(t) == Some(t.(pc := Wrap64(t.pc + 1),
                               regs := t.regs[RSP := Wrap64(SpOf(t.regs) + 8)][RAX := Load64(t.mem, t.regs[RSP])]))
  {
    hide Decode, Step, Load64;
    WindowStarts(t.mem, t.pc, [0x58]);
    DecodesPushPopRax(WindowAt(t.mem, t.pc));
    StepFrom(t, Decoded(Pop(RAX), 1));
  }

  lemma StepCmpRax(t: State, imm: Word32)
    requires HoldsAt(t.mem, t.pc, [0x81, 0x38] + LE32(imm))
    ensures Step(t) == Some(t.(pc := Wrap64(t.pc + 6),
                               flags := SubFlags(Load32(t.mem, t.regs[RAX]), imm, TWO32)))
  {
    hide Decode, Step, Load32, LE32, SubFlags;
    var w, code := WindowAt(t.mem, t.pc), [0x81, 0x38] + LE32(imm);
    WindowStarts(t.mem, t.pc, code);
    assert w[2..6] == LE32(imm) by {
      assert forall i :: 0 <= i < 4 ==> w[2..6][i] == w[2 + i] == code[2 + i] == LE32(imm)[i];
    }
    DecodesCmpRax(w, imm);
    StepFrom(t, Decoded(CmpImm32(Mem(0, false, Some(RAX), None, 0, 0), imm), 6));
  }

  lemma StepShortJcc(t: State, cc: Cond)
    requires HoldsAt(t.mem, t.pc, [0x70 + cc, 2])
    ensures Step(t) == Some(t.(pc := Wrap64(t.pc + (if Holds(cc, t.flags) then 4 else 2))))
  {
    hide Decode, Step, Holds;
    WindowStarts(t.mem, t.pc, [0x70 + cc, 2]);
    DecodesJcc(WindowAt(t.mem, t.pc), cc);
    StepFrom(t, Decoded(Jcc(cc, 2), 2));
    WrapTwice(t.pc + 2, 2);
  }

  lemma StepSkip(t: State)
    requires HoldsAt(t.mem, t.pc, [0xEB, 0x0E])
    ensures Step(t) == Some(t.(pc := Wrap64(t.pc + 16)))
  {
    hide Decode, Step;
    WindowStarts(t.mem, t.pc, [0xEB, 0x0E]);
    DecodesSkip(WindowAt(t.mem, t.pc));
    StepFrom(t, Decoded(JmpRel(14), 2));
    WrapTwice(t.pc + 2, 14);
  }

  /** jmp *disp(%rip) goes to the address stored at disp past the instruction. */
  lemma StepJmpRip(t: State, disp: Word32, dest: Word)
    requires HoldsAt(t.mem, t.pc, [0xFF, 0x25] + LE32(disp))
    requires HoldsAt(t.mem, Wrap64(t.pc + 6 + Signed32(disp)), LE64(dest))
    ensures Step(t) == Some(t.(pc := dest))
  {
    hide Decode, Step, Load64, LE32, LE64;
    var w, code := WindowAt(t.mem, t.pc), [0xFF, 0x25] + LE32(disp);
    WindowStarts(t.mem, t.pc, code);
    assert w[2..6] == LE32(disp) by {
      assert forall i :: 0 <= i < 4 ==> w[2..6][i] == w[2 + i] == code[2 + i] == LE32(disp)[i];
    }
    DecodesJmpRip(w, disp);
    StepFrom(t, Decoded(JmpInd(RipRelative(Signed32(disp))), 6));
    WrapTwice(t.pc + 6, Signed32(disp));
    LoadHeld64(t.mem, Wrap64(t.pc + 6 + Signed32(disp)), dest);
  }

  lemma LoadHeld64(m: Memory, a: Word, v: Word)
    requires HoldsAt(m, a, LE64(v))
    ensures Load64(m, a) == v
  {
    hide LE64, U32;
    var f := Fetch(m, a, 8);
    assert f[0..8] == f;
    RoundTrip64(v, f, 0);
  }

  lemma Steps2(t: State, t1: State, u: State)
    requires Step(t) == Some(t1) && Step(t1) == Some(u)
    ensures Steps(t, 2) == Some(u)
  {
    hide Step;
    assert Steps(t1, 1) == Steps(u, 0);
  }

  /** The two-instruction load reads the same quadword the RIP-relative load did. */
  lemma RunMovCode(t: State, r: RegNo, addr: Word)
    requires r < 8 && r != RSP && r != RBP && HoldsAt(t.mem, t.pc, MovCode(r, addr))
    ensures Steps(t, 2) == Some(t.(pc := Wrap64(t.pc + 13), regs := t.regs[r := Load64(t.mem, addr)]))
  {
    hide Step, Steps, LE64, Load64;
    var code := MovCode(r, addr);
    HoldsPart(t.mem, t.pc, code, 0, 10);
    assert code[0..10] == [0x48, 0xB8 + r] + LE64(addr);
    StepMovabs(t, r, addr);
    var t1 := t.(pc := Wrap64(t.pc + 10), regs := t.regs[r := addr]);
    HoldsPart(t.mem, t.pc, code, 10, 13);
    assert code[10..13] == [0x48, 0x8B, r * 8 + r];
    StepLoadThrough(t1, r);
    WrapTwice(t.pc + 10, 3);
    assert t1.regs[r := Load64(t.mem, addr)] == t.regs[r := Load64(t.mem, addr)];
    Steps2(t, t1, t.(pc := Wrap64(t.pc + 13), regs := t.regs[r := Load64(t.mem, addr)]));
  }

  lemma RunJccTaken(t: State, cc: Cond, addr: Word)
    requires HoldsAt(t.mem, t.pc, JccCode(cc, addr)) && Holds(cc, t.flags)
    ensures Steps(t, 2) == Some(t.(pc := addr))
  {
    hide Step, Steps, LE64, LE32, Holds, HoldsAt, JccCode;
    var code := JccCode(cc, addr);
    JccBytes(cc, addr);
    HoldsPart(t.mem, t.pc, code, 0, 2);
    StepShortJcc(t, cc);
    var t1 := t.(pc := Wrap64(t.pc + 4));
    HoldsPart(t.mem, t.pc, code, 4, 10);
    ZeroLE32();
    assert code[4..10] == [0xFF, 0x25] + LE32(0);
    HoldsPart(t.mem, t.pc, code, 10, 18);
    WrapTwice(t.pc + 4, 6);
    StepJmpRip(t1, 0, addr);
    Steps2(t, t1, t.(pc := addr));
  }

  lemma JccBytes(cc: Cond, addr: Word)
    ensures var code := JccCode(cc, addr);
            && |code| == 18 && code[0..2] == [0x70 + cc, 2] && code[2..4] == [0xEB, 0x0E]
            && code[4..10] == [0xFF, 0x25, 0, 0, 0, 0] && code[10..18] == LE64(addr)
  {
    hide LE64;
  }

  lemma RunJccSkipped(t: State, cc: Cond, addr: Word)
    requires HoldsAt(t.mem, t.pc, JccCode(cc, addr)) && !Holds(cc, t.flags)
    ensures Steps(t, 2) == Some(t.(pc := Wrap64(t.pc + 18)))
  {
    hide Step, Steps, LE64, LE32, Holds, HoldsAt, JccCode;
    var code := JccCode(cc, addr);
    JccBytes(cc, addr);
    HoldsPart(t.mem, t.pc, code, 0, 2);
    StepShortJcc(t, cc);
    var t1 := t.(pc := Wrap64(t.pc + 2));
    HoldsPart(t.mem, t.pc, code, 2, 4);
    StepSkip(t1);
    WrapTwice(t.pc + 2, 16);
    Steps2(t, t1, t.(pc := Wrap64(t.pc + 18)));
  }

  lemma ZeroLE32()
    ensures LE32(0) == [0, 0, 0, 0]
  {}

  /** push %rax; movabs $addr, %rax */
  lemma RunCmpEntry(t: State, addr: Word, imm: Word32)
    requires HoldsAt(t.mem, t.pc, CmpCode(addr, imm)) && RedZone(t) !! Range(t.pc, 18)
    ensures var sp := Wrap64(SpOf(t.regs) - 8);
            var m := Store(t.mem, sp, LE64(t.regs[RAX]));
            HoldsAt(m, t.pc, CmpCode(addr, imm)) &&
            Steps(t, 2) == Some(State(Wrap64(t.pc + 11), t.regs[RSP := sp][RAX := addr], t.flags, m))
  {
    hide Step, Steps, LE64, LE32, Store, CmpCode, HoldsAt, RedZone, Range;
    var code := CmpCode(addr, imm);
    var sp := Wrap64(SpOf(t.regs) - 8);
    var m := Store(t.mem, sp, LE64(t.regs[RAX]));
    CmpBytes(addr, imm);
    PushKeeps(t, code);
    HoldsPart(t.mem, t.pc, code, 0, 1);
    StepPushRax(t);
    var t1 := t.(pc := Wrap64(t.pc + 1), regs := t.regs[RSP := sp], mem := m);
    HoldsPart(m, t.pc, code, 1, 11);
    StepMovabs(t1, RAX, addr);
    WrapTwice(t.pc + 1, 10);
    Steps2(t, t1, State(Wrap64(t.pc + 11), t.regs[RSP := sp][RAX := addr], t.flags, m));
  }

  lemma CmpBytes(addr: Word, imm: Word32)
    ensures var code := CmpCode(addr, imm);
            && |code| == 18 && code[0..1] == [0x50] && code[1..11] == [0x48, 0xB8 + RAX] + LE64(addr)
            && code[11..17] == [0x81, 0x38] + LE32(imm) && code[17..18] == [0x58]
  {
    hide LE64, LE32;
  }

  /** Pushing %rax leaves the code alone. */
  lemma PushKeeps(t: State, code: seq<Byte>)
    requires HoldsAt(t.mem, t.pc, code) && |code| <= TWO64 && RedZone(t) !! Range(t.pc, |code|)
    ensures HoldsAt(Store(t.mem, Wrap64(SpOf(t.regs) - 8), LE64(t.regs[RAX])), t.pc, code)
  {
    hide LE64, Store, HoldsAt;
    var sp := Wrap64(SpOf(t.regs) - 8);
    RangeWrap(SpOf(t.regs) - 8, 8);
    StoreFrame(t.mem, sp, LE64(t.regs[RAX]));
    HoldsStable(t.mem, Store(t.mem, sp, LE64(t.regs[RAX])), RedZone(t), t.pc, code);
  }

  /** cmpl $imm, (%rax); pop %rax */
  lemma RunCmpExit(t2: State, base: Word, addr: Word, imm: Word32)
    requires HoldsAt(t2.mem, base, CmpCode(addr, imm))
    requires t2.pc == Wrap64(base + 11) && t2.regs[RAX] == addr
    ensures Steps(t2, 2) ==
            Some(State(Wrap64(base + 18),
                       t2.regs[RSP := Wrap64(SpOf(t2.regs) + 8)][RAX := Load64(t2.mem, t2.regs[RSP])],
                       SubFlags(Load32(t2.mem, addr), imm, TWO32), t2.mem))
  {
    hide Step, Steps, LE64, LE32, Load64, Load32, SubFlags, CmpCode, HoldsAt;
    var code := CmpCode(addr, imm);
    CmpBytes(addr, imm);
    HoldsPart(t2.mem, base, code, 11, 17);
    StepCmpRax(t2, imm);
    WrapTwice(base + 11, 6);
    var t3 := t2.(pc := Wrap64(base + 17), flags := SubFlags(Load32(t2.mem, addr), imm, TWO32));
    HoldsPart(t2.mem, base, code, 17, 18);
    StepPopRax(t3);
    WrapTwice(base + 17, 1);
    Steps2(t2, t3, State(Wrap64(base + 18),
                         t2.regs[RSP := Wrap64(SpOf(t2.regs) + 8)][RAX := Load64(t2.mem, t2.regs[RSP])],
                         t3.flags, t2.mem));
  }

  /** The expanded compare sets the flags and changes nothing but the red zone. */
  lemma RunCmpCode(t: State, addr: Word, imm: Word32)
    requires HoldsAt(t.mem, t.pc, CmpCode(addr, imm))
    requires RedZone(t) !! Range(t.pc, 18) && RedZone(t) !! Range(addr, 4)
    ensures Steps(t, 4) == Some(t.(pc := Wrap64(t.pc + 18),
                                   flags := SubFlags(Load32(t.mem, addr), imm, TWO32),
                                   mem := Store(t.mem, Wrap64(SpOf(t.regs) - 8), LE64(t.regs[RAX]))))
  {
    hide Step, Steps, LE64, LE32, Load64, SubFlags, CmpCode, Store, U32, HoldsAt;
    var rax, sp := t.regs[RAX], Wrap64(SpOf(t.regs) - 8);
    var m := Store(t.mem, sp, LE64(rax));
    RunCmpEntry(t, addr, imm);
    var t2 := State(Wrap64(t.pc + 11), t.regs[RSP := sp][RAX := addr], t.flags, m);
    RunCmpExit(t2, t.pc, addr, imm);
    RedZoneLoads(t, addr);
    WrapTwice(SpOf(t.regs) - 8, 8);
    assert t2.regs[RSP := Wrap64(SpOf(t2.regs) + 8)][RAX := rax] == t.regs;
    StepsCompose(t, 2, 2);
  }

  /** After pushing %rax: it can be popped back, and loads elsewhere see the old memory. */
  lemma RedZoneLoads(t: State, addr: Word)
    requires RedZone(t) !! Range(addr, 4)
    ensures var sp := Wrap64(SpOf(t.regs) - 8);
            var m := Store(t.mem, sp, LE64(t.regs[RAX]));
            Load64(m, sp) == t.regs[RAX] && Load32(m, addr) == Load32(t.mem, addr)
  {
    hide LE64, U32;
    var rax, sp := t.regs[RAX], Wrap64(SpOf(t.regs) - 8);
    var m := Store(t.mem, sp, LE64(rax));
    StoreFetch(t.mem, sp, LE64(rax));
    LoadHeld64(m, sp, rax);
    RangeWrap(SpOf(t.regs) - 8, 8);
    StoreFrame(t.mem, sp, LE64(rax));
    FetchAgree(t.mem, m, RedZone(t), addr, 4);
  }

  lemma SimulateMov(p: Piece, s: State, t: State, dead: iset<Word>, guard: iset<Word>) returns (u: State)
    requires Facing(p, s, t, dead, guard) && p.instr.MovLoad?
    ensures Steps(t, 2) == Some(u) && Simulates(p, s, t, dead, u)
  {
    hide PieceAt, Steps, LE64, U64, MovCode;
    PieceShape(s.mem, s.pc);
    var r, addr := p.instr.r, Wrap64(After(p) + p.instr.from.disp);
    RunMovCode(t, r, addr);
    FetchAgree(s.mem, t.mem, dead, addr, 8);
    MovCodeLength(r, addr);
    u := t.(pc := Wrap64(t.pc + 13), regs := t.regs[r := Load64(t.mem, addr)]);
  }

  lemma MovCodeLength(r: RegNo, addr: Word)
    requires r < 8
    ensures |MovCode(r, addr)| == 13
  {}

  lemma SimulateJcc(p: Piece, s: State, t: State, dead: iset<Word>, guard: iset<Word>) returns (u: State)
    requires Facing(p, s, t, dead, guard) && p.instr.Jcc?
    ensures Steps(t, 2) == Some(u) && Simulates(p, s, t, dead, u)
  {
    hide PieceAt, Steps, LE64, Holds;
    PieceShape(s.mem, s.pc);
    var cc, addr := p.instr.cc, Wrap64(After(p) + p.instr.rel);
    if Holds(cc, t.flags) {
      RunJccTaken(t, cc, addr);
    } else {
      RunJccSkipped(t, cc, addr);
    }
    u := t.(pc := if Holds(cc, t.flags) then addr else Wrap64(t.pc + 18));
  }

  lemma SimulateCmp(p: Piece, s: State, t: State, dead: iset<Word>, guard: iset<Word>) returns (u: State)
    requires Facing(p, s, t, dead, guard) && p.instr.CmpImm32?
    ensures Steps(t, 4) == Some(u) && Simulates(p, s, t, dead, u)
  {
    hide PieceAt, Steps, LE64, LE32, SubFlags, U32;
    PieceShape(s.mem, s.pc);
    var addr, imm := Wrap64(After(p) + p.instr.dst.disp), p.instr.imm32;
    var sp := Wrap64(SpOf(t.regs) - 8);
    RunCmpCode(t, addr, imm);
    FetchAgree(s.mem, t.mem, dead, addr, 4);
    RangeWrap(SpOf(t.regs) - 8, 8);
    StoreFrame(t.mem, sp, LE64(t.regs[RAX]));
    u := t.(pc := Wrap64(t.pc + 18), flags := SubFlags(Load32(t.mem, addr), imm, TWO32),
            mem := Store(t.mem, sp, LE64(t.regs[RAX])));
  }

  /** Every piece: its replacement does what the instruction does. */
  lemma SimulatePiece(p: Piece, s: State, t: State, dead: iset<Word>, guard: iset<Word>) returns (k: nat, u: State)
    requires Facing(p, s, t, dead, guard)
    ensures Steps(t, k) == Some(u) && Simulates(p, s, t, dead, u)
  {
    hide Facing, Simulates, Step;
    if p.instr.MovLoad? {
      u := SimulateMov(p, s, t, dead, guard);
      k := 2;
    } else if p.instr.Jcc? {
      u := SimulateJcc(p, s, t, dead, guard);
      k := 2;
    } else if p.instr.CmpImm32? {
      u := SimulateCmp(p, s, t, dead, guard);
      k := 4;
    } else {
      u := SimulateCopy(p, s, t, dead, guard);
      k := 1;
      assert Steps(t, 1) == Steps(u, 0);
    }
  }

  // ----- simulating a whole prefix -----

  /** Every instruction the original executes in the prefix is safe where it runs. */
  ghost predicate Disciplined(ps: seq<Piece>, s: State, dead: iset<Word>, guard: iset<Word>)
    decreases |ps|
  {
    ps == [] ||
    (SafeAt(ps[0], s, dead, guard) &&
     (!Leaves(ps[0], s) ==>
        Disciplined(ps[1..], Exec(ps[0].instr, s, After(ps[0])), DeadAfter(ps[0], s, dead), guard)))
  }

  /** How many instructions of the prefix the original executes before leaving it. */
  function StepsTaken(ps: seq<Piece>, s: State): nat
    decreases |ps|
  {
    if ps == [] then 0
    else if Leaves(ps[0], s) then 1
    else 1 + StepsTaken(ps[1..], Exec(ps[0].instr, s, After(ps[0])))
  }

  /** Bytes whose contents may differ once the original has left the prefix. */
  ghost function FinalDead(ps: seq<Piece>, s: State, dead: iset<Word>): iset<Word>
    decreases |ps|
  {
    if ps == [] then dead
    else if Leaves(ps[0], s) then DeadAfter(ps[0], s, dead)
    else FinalDead(ps[1..], Exec(ps[0].instr, s, After(ps[0])), DeadAfter(ps[0], s, dead))
  }

  /** No indirect jumps, and every conditional jump goes to `end` or beyond. */
  predicate JumpsClear(ps: seq<Piece>, end: Word) {
    forall k :: 0 <= k < |ps| ==> !ps[k].instr.JmpInd? && (ps[k].instr.Jcc? ==> end <= LimitOf(ps[k]))
  }

  lemma JumpTarget(p: Piece, s: State)
    requires p.instr.Jcc? && Holds(p.instr.cc, s.flags)
    ensures Exec(p.instr, s, After(p)).pc == LimitOf(p)
  {}

  lemma PieceStable(m1: Memory, m2: Memory, changed: iset<Word>, pc: Word)
    requires PieceAt(m1, pc).Some? && AgreeOutside(m1, m2, changed)
    requires Range(pc, PieceAt(m1, pc).value.len) !! changed
    ensures PieceAt(m2, pc) == PieceAt(m1, pc)
  {
    hide Decode, Movable, Translate;
    var n := PieceAt(m1, pc).value.len;
    var w, v := WindowAt(m1, pc), WindowAt(m2, pc);
    FetchAgree(m1, m2, changed, pc, n);
    var f, g := Fetch(m1, pc, n), Fetch(m2, pc, n);
    assert forall i :: 0 <= i < n ==> w[i] == f[i] == g[i] == v[i];
    DecodePrefix(w, v);
    assert w[..n] == v[..n];
  }

  lemma {:induction false} ChainStable(m1: Memory, m2: Memory, changed: iset<Word>, pc: int, ps: seq<Piece>)
    requires Chain(m1, pc, ps) && AgreeOutside(m1, m2, changed)
    requires 0 <= pc && pc + LenOf(ps) < TWO64 && Range(pc, LenOf(ps)) !! changed
    ensures Chain(m2, pc, ps)
    decreases |ps|
  {
    hide PieceAt, Range;
    if ps != [] {
      var n := ps[0].len;
      RangeParts(pc, n, LenOf(ps));
      PieceStable(m1, m2, changed, pc);
      ChainStable(m1, m2, changed, pc + n, ps[1..]);
    }
  }

  lemma RangeParts(a: int, n: nat, total: nat)
    requires n <= total < TWO64
    ensures Range(a, n) <= Range(a, total) && Range(a + n, total - n) <= Range(a, total)
  {
    forall x: Word | InRange(x, a + n, total - n)
      ensures InRange(x, a, total)
    {
      WrapTwice(x - a - n, n);
    }
  }

  /** jmp *disp(%rip), back to the first instruction not moved. */
  function JumpBack(disp: Word32): seq<Byte> { [0xFF, 0x25] + LE32(disp) }

  /** The trampoline still ahead of t: the rest of the pieces, then the jump back to `end`. */
  ghost predicate Ahead(ps: seq<Piece>, t: State, slot: Word, disp: Word32, end: Word, guard: iset<Word>) {
    var code := CodeOf(ps) + JumpBack(disp);
    && |code| < TWO64 && HoldsAt(t.mem, t.pc, code) && Range(t.pc, |code|) <= guard
    && slot == Wrap64(t.pc + |code| + Signed32(disp))
    && HoldsAt(t.mem, slot, LE64(end)) && Range(slot, 8) <= guard
  }

  lemma AheadFacing(ps: seq<Piece>, t: State, slot: Word, disp: Word32, end: Word, guard: iset<Word>)
    requires ps != [] && Ahead(ps, t, slot, disp, end, guard)
    ensures HoldsAt(t.mem, t.pc, ps[0].code) && Range(t.pc, |ps[0].code|) <= guard
  {
    hide LE32, LE64;
    var code := CodeOf(ps) + JumpBack(disp);
    HoldsPart(t.mem, t.pc, code, 0, |ps[0].code|);
    assert code[0..|ps[0].code|] == ps[0].code;
    RangeParts(t.pc, |ps[0].code|, |code|);
    assert Wrap64(t.pc + 0) == t.pc;
  }

  lemma AheadNext(ps: seq<Piece>, t: State, u: State, slot: Word, disp: Word32, end: Word, guard: iset<Word>,
                  changed: iset<Word>)
    requires ps != [] && Ahead(ps, t, slot, disp, end, guard)
    requires AgreeOutside(t.mem, u.mem, changed) && changed !! guard
    requires u.pc == Wrap64(t.pc + |ps[0].code|)
    ensures Ahead(ps[1..], u, slot, disp, end, guard)
  {
    hide LE32, LE64, HoldsAt, Range, Wrap64, AgreeOutside;
    var n := |ps[0].code|;
    var code := CodeOf(ps) + JumpBack(disp);
    var rest := CodeOf(ps[1..]) + JumpBack(disp);
    assert code == ps[0].code + rest;
    HoldsStable(t.mem, u.mem, changed, t.pc, code);
    HoldsPart(u.mem, t.pc, code, n, |code|);
    assert code[n..|code|] == rest;
    RangeParts(t.pc, n, |code|);
    RangeWrap(t.pc + n, |rest|);
    HoldsStable(t.mem, u.mem, changed, slot, LE64(end));
    WrapTwice(t.pc + n, |rest| + Signed32(disp));
  }

  /**
    From any pair of alike states, the trampoline reaches the address at which the original
    leaves the prefix, with the same registers and flags and the same memory but for dead bytes.
    */
  lemma {:induction false} SimulateRun(
    ps: seq<Piece>, s: State, t: State, dead: iset<Word>, guard: iset<Word>,
    slot: Word, disp: Word32, end: Word) returns (k: nat, v: State, u: State)
    requires Chain(s.mem, s.pc, ps) && s.pc + LenOf(ps) == end
    requires Range(s.pc, LenOf(ps)) <= guard
    requires Alike(s, t, dead) && Disciplined(ps, s, dead, guard)
    requires Ahead(ps, t, slot, disp, end, guard)
    ensures Steps(s, StepsTaken(ps, s)) == Some(v) && Steps(t, k) == Some(u)
    ensures v.pc == u.pc && Alike(v, u, FinalDead(ps, s, dead))
    ensures JumpsClear(ps, end) ==> end <= v.pc
    decreases |ps|
  {
    hide PieceAt, Step, Exec, HoldsAt, LE64, LE32, Holds, Ahead, Wrap64, AgreeOutside, Range;
    if ps == [] {
      AheadBack(t, slot, disp, end, guard);
      k, v, u := 1, s, t.(pc := end);
      assert Steps(t, 1) == Steps(u, 0);
    } else {
      var p := ps[0];
      AheadFacing(ps, t, slot, disp, end, guard);
      OriginalStep(p, s);
      var s' := Exec(p.instr, s, After(p));
      var k1, u1 := SimulatePiece(p, s, t, dead, guard);
      if Leaves(p, s) {
        k, v, u := k1, s', u1;
        assert Steps(s, 1) == Steps(s', 0);
        if JumpsClear(ps, end) {
          JumpTarget(p, s);
        }
      } else {
        var changed := Writes(p.instr, s, After(p)) + Clobbered(p, s);
        AheadNext(ps, t, u1, slot, disp, end, guard, changed);
        RangeParts(s.pc, p.len, LenOf(ps));
        ExecFrame(p.instr, s, After(p));
        FallsThrough(p, s);
        assert Chain(s.mem, s.pc + p.len, ps[1..]);
        ChainStable(s.mem, s'.mem, Writes(p.instr, s, After(p)), s.pc + p.len, ps[1..]);
        var k2;
        k2, v, u := SimulateRun(ps[1..], s', u1, DeadAfter(p, s, dead), guard, slot, disp, end);
        StepsCompose(t, k1, k2);
        k := k1 + k2;
      }
    }
  }

  lemma AheadBack(t: State, slot: Word, disp: Word32, end: Word, guard: iset<Word>)
    requires Ahead([], t, slot, disp, end, guard)
    ensures Step(t) == Some(t.(pc := end))
  {
    hide LE32, LE64, Step;
    assert CodeOf([]) + JumpBack(disp) == JumpBack(disp);
    StepJmpRip(t, disp, end);
  }

  lemma OriginalStep(p: Piece, s: State)
    requires PieceAt(s.mem, s.pc) == Some(p)
    ensures Step(s) == Some(Exec(p.instr, s, After(p)))
  {
    hide Decode, Exec, Movable, Translate;
  }

  lemma FallsThrough(p: Piece, s: State)
    requires PieceAt(s.mem, s.pc) == Some(p) && !Leaves(p, s) && s.pc + p.len < TWO64
    ensures Exec(p.instr, s, After(p)).pc == s.pc + p.len
  {
    hide Decode, Translate;
  }

  // ----- the trampoline block -----

  const CMP_XLT_LEN: nat := 18
  const JCC_XLT_LEN: nat := 18
  const JMP_BACK_LEN: nat := 6

  /** Room reserved for relocated code. */
  function MaxCodeLen(patchLen: nat): nat {
    var n := patchLen + CMP_XLT_LEN + JCC_XLT_LEN;
    if n > 64 then n else 64
  }

  function Moved(m: Memory, func: Word, patchLen: nat): Outcome
    requires func + patchLen + MAX_INSTR <= TWO64
  {
    Relocate(m, func, func + patchLen, TWO64 - 1, MaxCodeLen(patchLen))
  }

  /** Displacement from the end of the jump back to the address slot in front of the code. */
  function BackDisp(codeLen: nat): Word32
    requires codeLen < 0x4000_0000
  {
    TWO32 - (codeLen + JMP_BACK_LEN + 8)
  }

  /** The jump-back address, the relocated code, and the jump back. */
  function Block(back: Word, code: seq<Byte>): seq<Byte>
    requires |code| < 0x4000_0000
  {
    LE64(back) + code + JumpBack(BackDisp(|code|))
  }

  /** Builds the block for the function at func, or reports that there is no room or it cannot be moved. */
  method ConstructOrigFunc(mem: Memory, func: Word, patchLen: nat, codeMemory: bool)
    returns (status: Status, block: array<Byte>, used: nat)
    requires func + patchLen + MAX_INSTR <= TWO64 && patchLen < 0x1000_0000
    ensures status == NoMemory <==> !codeMemory
    ensures codeMemory ==>
            match Moved(mem, func, patchLen)
            case Failed(_) => status == Unsupported
            case Done(ps) =>
              status == Ok && |CodeOf(ps)| <= MaxCodeLen(patchLen) && func + LenOf(ps) < TWO64 &&
              used <= block.Length == 8 + MaxCodeLen(patchLen) + JMP_BACK_LEN &&
              block[..used] == Block(func + LenOf(ps), CodeOf(ps))
  {
    hide Relocate, LE64, LE32, CodeOf;
    var max := MaxCodeLen(patchLen);
    if !codeMemory {
      block := new Byte[0];
      return NoMemory, block, 0;
    }
    block := new Byte[8 + max + JMP_BACK_LEN];
    var code := new Byte[max];
    var s, codeLen, prefixLen := RelocateCode(mem, func, patchLen, code, max);
    if s != Ok {
      return Unsupported, block, 0;
    }
    assert prefixLen < TWO64 - func by {
      MovedFits(mem, func, patchLen);
    }
    var bytes := LE64(func + prefixLen) + code[..codeLen] + JumpBack(BackDisp(codeLen));
    forall i | 0 <= i < |bytes| {
      block[i] := bytes[i];
    }
    status, used := Ok, |bytes|;
  }

  /** A successful relocation never reaches the last address. */
  lemma MovedFits(m: Memory, func: Word, patchLen: nat)
    requires func + patchLen + MAX_INSTR <= TWO64 && Moved(m, func, patchLen).Done?
    ensures func + LenOf(Moved(m, func, patchLen).pieces) < TWO64
  {
    hide PieceAt;
    RelocatedPrefix(m, func, func + patchLen, TWO64 - 1, MaxCodeLen(patchLen));
  }

  // ----- the main results -----

  /** Everything that must stay intact: the moved prefix and the trampoline block. */
  ghost function Guarded(func: Word, ps: seq<Piece>, base: Word): iset<Word> {
    Range(func, LenOf(ps)) + Range(base, 8 + |CodeOf(ps)| + JMP_BACK_LEN)
  }

  /**
    The trampoline at base + 8 behaves like the code it displaced, for every source code,
    patch length and machine state: once the original leaves the prefix, the trampoline has
    reached the same address with the same registers, flags and live memory.  If the prefix
    has no indirect jump, that address is not among the overwritten bytes.
    */
  lemma TrampolineBehaves(s: State, t: State, patchLen: nat, base: Word, dead: iset<Word>)
    returns (k: nat, v: State, u: State)
    requires s.pc + patchLen + MAX_INSTR <= TWO64 && patchLen < 0x1000_0000
    requires Moved(s.mem, s.pc, patchLen).Done?
    requires var ps := Moved(s.mem, s.pc, patchLen).pieces;
             && |CodeOf(ps)| < 0x4000_0000 && s.pc + LenOf(ps) < TWO64
             && HoldsAt(t.mem, base, Block(s.pc + LenOf(ps), CodeOf(ps)))
             && Disciplined(ps, s, dead, Guarded(s.pc, ps, base))
    requires t.pc == Wrap64(base + 8) && Alike(s, t, dead)
    ensures var ps := Moved(s.mem, s.pc, patchLen).pieces;
            && Steps(s, StepsTaken(ps, s)) == Some(v) && Steps(t, k) == Some(u)
            && v.pc == u.pc && Alike(v, u, FinalDead(ps, s, dead))
            && ((forall i :: 0 <= i < |ps| ==> !ps[i].instr.JmpInd?) ==> s.pc + patchLen <= s.pc + LenOf(ps) <= v.pc)
  {
    hide Relocate, LE64, LE32, HoldsAt, PieceAt, Steps, Disciplined, FinalDead;
    var ps := Moved(s.mem, s.pc, patchLen).pieces;
    RelocatedPrefix(s.mem, s.pc, s.pc + patchLen, TWO64 - 1, MaxCodeLen(patchLen));
    var end := s.pc + LenOf(ps);
    var disp := BackDisp(|CodeOf(ps)|);
    BlockAhead(ps, t, base, end, Guarded(s.pc, ps, base));
    k, v, u := SimulateRun(ps, s, t, dead, Guarded(s.pc, ps, base), base, disp, end);
  }

  lemma BlockAhead(ps: seq<Piece>, t: State, base: Word, end: Word, guard: iset<Word>)
    requires |CodeOf(ps)| < 0x4000_0000 && HoldsAt(t.mem, base, Block(end, CodeOf(ps)))
    requires t.pc == Wrap64(base + 8) && Range(base, 8 + |CodeOf(ps)| + JMP_BACK_LEN) <= guard
    ensures Ahead(ps, t, base, BackDisp(|CodeOf(ps)|), end, guard)
  {
    hide LE64, LE32, HoldsAt, Range;
    var n := |CodeOf(ps)|;
    var disp := BackDisp(n);
    var block := Block(end, CodeOf(ps));
    var code := CodeOf(ps) + JumpBack(disp);
    HoldsPart(t.mem, base, block, 0, 8);
    assert block[0..8] == LE64(end) && Wrap64(base + 0) == base;
    HoldsPart(t.mem, base, block, 8, |block|);
    assert block[8..|block|] == code;
    RangeParts(base, 8, |block|);
    RangeWrap(base + 8, |code|);
    WrapTwice(base + 8, |code| + Signed32(disp));
  }

  /** The eight bytes below the stack pointer at each compare the original executes in the prefix. */
  ghost function RedZones(ps: seq<Piece>, s: State): iset<Word>
    decreases |ps|
  {
    if ps == [] then iset{}
    else Clobbered(ps[0], s) +
         if Leaves(ps[0], s) then iset{} else RedZones(ps[1..], Exec(ps[0].instr, s, After(ps[0])))
  }

  /** What may differ afterwards is what could before, and those bytes. */
  lemma {:induction false} DeadBelowStack(ps: seq<Piece>, s: State, dead: iset<Word>)
    ensures FinalDead(ps, s, dead) <= dead + RedZones(ps, s)
    decreases |ps|
  {
    hide Exec, Leaves, Writes, Clobbered;
    if ps != [] && !Leaves(ps[0], s) {
      DeadBelowStack(ps[1..], Exec(ps[0].instr, s, After(ps[0])), DeadAfter(ps[0], s, dead));
    }
  }

  /** Only compares leave bytes behind that may differ. */
  lemma {:induction false} DeadWithoutCompare(ps: seq<Piece>, s: State, dead: iset<Word>)
    requires forall i :: 0 <= i < |ps| ==> !ps[i].instr.CmpImm32?
    ensures FinalDead(ps, s, dead) <= dead
    decreases |ps|
  {
    hide Exec, Leaves, Writes;
    if ps != [] && !Leaves(ps[0], s) {
      DeadWithoutCompare(ps[1..], Exec(ps[0].instr, s, After(ps[0])), DeadAfter(ps[0], s, dead));
    }
  }

  /** Memory once the block is in place and the function start is overwritten. */
  function PatchedMemory(m: Memory, func: Word, patch: seq<Byte>, base: Word, block: seq<Byte>): Memory {
    Store(Store(m, base, block), func, patch)
  }

  /**
    After patching: calling the trampoline in patched memory does what calling the function
    did in the memory before, for every register and flag contents.
    */
  lemma PatchKeepsMeaning(m: Memory, regs: Regs, flags: Flags, func: Word, patch: seq<Byte>, base: Word)
    returns (k: nat, v: State, u: State)
    requires func + |patch| + MAX_INSTR <= TWO64 && |patch| < 0x1000_0000
    requires Moved(m, func, |patch|).Done?
    requires var ps := Moved(m, func, |patch|).pieces;
             && |CodeOf(ps)| < 0x4000_0000 && func + LenOf(ps) < TWO64
             && var n := 8 + |CodeOf(ps)| + JMP_BACK_LEN;
             && Range(func, |patch|) !! Range(base, n)
             && Disciplined(ps, State(func, regs, flags, m), Range(func, |patch|) + Range(base, n),
                            Guarded(func, ps, base))
    ensures var ps := Moved(m, func, |patch|).pieces;
            var block := Block(func + LenOf(ps), CodeOf(ps));
            var s := State(func, regs, flags, m);
            var t := State(Wrap64(base + 8), regs, flags, PatchedMemory(m, func, patch, base, block));
            && Steps(s, StepsTaken(ps, s)) == Some(v) && Steps(t, k) == Some(u) && v.pc == u.pc
            && Alike(v, u, FinalDead(ps, s, Range(func, |patch|) + Range(base, |block|)))
  {
    hide Relocate, LE64, LE32, Steps, Disciplined, FinalDead, Range, CodeOf, Store, StepsTaken;
    var ps := Moved(m, func, |patch|).pieces;
    var block := Block(func + LenOf(ps), CodeOf(ps));
    var m1 := Store(m, base, block);
    var m2 := Store(m1, func, patch);
    StoreFrame(m, base, block);
    StoreFrame(m1, func, patch);
    StoreFetch(m, base, block);
    HoldsStable(m1, m2, Range(func, |patch|), base, block);
    var s, t := State(func, regs, flags, m), State(Wrap64(base + 8), regs, flags, m2);
    k, v, u := TrampolineBehaves(s, t, |patch|, base, Range(func, |patch|) + Range(base, |block|));
  }

  // ----- an everyday function -----

  /** endbr64; push %rbp */
  const PROLOGUE: seq<Byte> := [0xF3, 0x0F, 0x1E, 0xFA, 0x55]

  function ProloguePieces(func: Word): seq<Piece>
    requires func + 5 <= TWO64 - 1
  {
    [Piece(func, Endbr64, 4, [0xF3, 0x0F, 0x1E, 0xFA]), Piece(func + 4, Push(RBP), 1, [0x55])]
  }

  lemma ProloguePiece(m: Memory, func: Word)
    requires func + 5 <= TWO64 - 1 && HoldsAt(m, func, PROLOGUE)
    ensures PieceAt(m, func) == Some(ProloguePieces(func)[0]) && PieceAt(m, func + 4) == Some(ProloguePieces(func)[1])
  {
    hide PieceAt, HoldsAt;
    EndbrPiece(m, func);
    HoldsPart(m, func, PROLOGUE, 4, 5);
    assert PROLOGUE[4..5] == [0x55] && Wrap64(func + 4) == func + 4;
    PushPiece(m, func + 4);
  }

  lemma EndbrPiece(m: Memory, func: Word)
    requires HoldsAt(m, func, PROLOGUE)
    ensures PieceAt(m, func) == Some(Piece(func, Endbr64, 4, [0xF3, 0x0F, 0x1E, 0xFA]))
  {
    hide U32, U64, DecodeModRM, DecodeGroup1, HoldsAt, Fetch;
    WindowStarts(m, func, PROLOGUE);
    assert WindowAt(m, func)[..4] == [0xF3, 0x0F, 0x1E, 0xFA];
  }

  lemma PushPiece(m: Memory, a: Word)
    requires HoldsAt(m, a, [0x55])
    ensures PieceAt(m, a) == Some(Piece(a, Push(RBP), 1, [0x55]))
  {
    hide U32, U64, DecodeModRM, DecodeGroup1, HoldsAt, Fetch;
    WindowStarts(m, a, [0x55]);
    assert WindowAt(m, a)[..1] == [0x55];
  }

  /**
    The most common function start can be patched: it is moved as it is, and the conditions for
    keeping its meaning come down to the stack being apart from the code.
    */
  lemma PrologueMoves(m: Memory, regs: Regs, flags: Flags, func: Word, base: Word)
    requires func + 5 + MAX_INSTR <= TWO64 && HoldsAt(m, func, PROLOGUE)
    requires Range(SpOf(regs) - 8, 8) !! Range(func, 5) + Range(base, 19)
    ensures Moved(m, func, 5) == Done(ProloguePieces(func))
    ensures |CodeOf(ProloguePieces(func))| == LenOf(ProloguePieces(func)) == 5
    ensures Disciplined(ProloguePieces(func), State(func, regs, flags, m), Range(func, 5) + Range(base, 19),
                        Guarded(func, ProloguePieces(func), base))
  {
    hide PieceAt, Range;
    var ps := ProloguePieces(func);
    ProloguePiece(m, func);
    var s := State(func, regs, flags, m);
    assert ps[1..] == [ps[1]] && ps[1..][1..] == [];
    NoLength();
    assert CodeOf(ps[1..]) == ps[1].code + [] == [0x55];
    assert LenOf(ps[1..]) == 1;
    assert Relocate(m, func + 5, func + 5, TWO64 - 1, MaxCodeLen(5) - 5) == Done([]);
    assert Relocate(m, func + 4, func + 5, TWO64 - 1, MaxCodeLen(5) - 4) == Done([ps[1]]);
    assert [ps[0]] + [ps[1]] == ps;
    assert Exec(Endbr64, s, After(ps[0])) == s.(pc := After(ps[0]));
    assert Disciplined(ps[1..], s.(pc := After(ps[0])), DeadAfter(ps[0], s, Range(func, 5) + Range(base, 19)),
                       Guarded(func, ps, base));
  }
}
