/**
  Overwriting the entry of a live function: the jump that is written there, the
  lock-copy-unlock protocol that writes it, and restore points.
  */
module CodePatch {
  import opened Bytes
  import opened X86Machine
  import opened X86Relocate
  import opened X86Trampoline

  // ----- the patch -----

  const INT32_MAX: int := 0x7FFF_FFFF
  const NEAR_LEN: nat := 5
  const FAR_LEN: nat := 12

  function Signed64(w: Word): int { if w < 0x8000_0000_0000_0000 then w else w - TWO64 }

  /** Distance from the end of a near jump at func to the hook. */
  function Displacement(func: Word, hook: Word): int { Signed64(Wrap64(hook - (func + NEAR_LEN))) }

  predicate UsesFarJump(func: Word, hook: Word, forceFar: bool) {
    forceFar || Labs(Displacement(func, hook)) > INT32_MAX
  }

  function NearPatch(disp: int): seq<Byte> { [0xE9] + LE32(disp % TWO32) }

  function FarPatch(hook: Word): seq<Byte> { [0x48, 0xB8] + LE64(hook) + [0xFF, 0xE0] }

  function PatchFor(func: Word, hook: Word, forceFar: bool): seq<Byte> {
    if UsesFarJump(func, hook, forceFar) then FarPatch(hook) else NearPatch(Displacement(func, hook))
  }

  lemma DecodesNear(w: Window, disp: int)
    requires w[..5] == NearPatch(disp)
    ensures Decode(w) == Some(Decoded(JmpRel(Signed32(disp % TWO32)), 5))
  {
    hide U32, LE32, DecodeModRM, DecodeGroup1;
    assert w[1..5] == w[..5][1..5] == LE32(disp % TWO32);
    assert w[0] == w[..5][0];
    RoundTrip32(disp % TWO32, w, 1);
  }

  lemma RunNear(s: State, disp: int)
    requires HoldsAt(s.mem, s.pc, NearPatch(disp))
    ensures Step(s) == Some(s.(pc := Wrap64(s.pc + 5 + Signed32(disp % TWO32))))
  {
    hide Decode, LE32, Step;
    var w := WindowAt(s.mem, s.pc);
    WindowStarts(s.mem, s.pc, NearPatch(disp));
    assert w[..5] == NearPatch(disp);
    DecodesNear(w, disp);
    StepFrom(s, Decoded(JmpRel(Signed32(disp % TWO32)), 5));
    WrapTwice(s.pc + 5, Signed32(disp % TWO32));
  }

  lemma DecodesJmpRax(w: Window)
    requires w[0] == 0xFF && w[1] == 0xE0
    ensures Decode(w) == Some(Decoded(JmpInd(Register(RAX)), 2))
  {
    hide U32, U64;
  }

  lemma RunFar(s: State, hook: Word)
    requires HoldsAt(s.mem, s.pc, FarPatch(hook))
    ensures Steps(s, 2) == Some(s.(pc := hook, regs := s.regs[RAX := hook]))
  {
    hide Decode, LE64, Step, Steps;
    var code := FarPatch(hook);
    HoldsPart(s.mem, s.pc, code, 0, 10);
    assert code[0..10] == [0x48, 0xB8 + RAX] + LE64(hook);
    StepMovabs(s, RAX, hook);
    var t := s.(pc := Wrap64(s.pc + 10), regs := s.regs[RAX := hook]);
    HoldsPart(s.mem, s.pc, code, 10, 12);
    assert code[10..12] == [0xFF, 0xE0];
    WindowStarts(t.mem, t.pc, code[10..12]);
    DecodesJmpRax(WindowAt(t.mem, t.pc));
    StepFrom(t, Decoded(JmpInd(Register(RAX)), 2));
    Steps2(s, t, s.(pc := hook, regs := s.regs[RAX := hook]));
  }

  /** The 32-bit displacement of a near jump leads to the hook unless it was INT64_MIN. */
  lemma NearLands(func: Word, hook: Word)
    requires !UsesFarJump(func, hook, false)
    ensures Wrap64(func + 5 + Signed32(Displacement(func, hook) % TWO32)) == hook
            <==> Displacement(func, hook) != INT64_MIN
  {
    var disp := Displacement(func, hook);
    DisplacementLands(func, hook);
    if disp == INT64_MIN {
      assert Signed32(disp % TWO32) == 0;
      WrapShift(func + 5, 0);
    } else {
      assert Signed32(disp % TWO32) == disp;
    }
  }

  lemma DisplacementLands(func: Word, hook: Word)
    ensures Wrap64(func + NEAR_LEN + Displacement(func, hook)) == hook
  {
    var d := hook - (func + NEAR_LEN);
    var k := d / TWO64 + (if Wrap64(d) < 0x8000_0000_0000_0000 then 0 else 1);
    assert Displacement(func, hook) == d - TWO64 * k;
    WrapShift(hook, -k);
  }

  /**
    A thread at a fully patched entry gets to the hook.  The far jump clobbers %rax only; the
    near jump changes nothing, and goes to the hook exactly when the distance is not the one
    value whose absolute value cannot be represented.
    */
  lemma PatchReachesHook(s: State, hook: Word, forceFar: bool)
    requires HoldsAt(s.mem, s.pc, PatchFor(s.pc, hook, forceFar))
    ensures UsesFarJump(s.pc, hook, forceFar) ==>
              Steps(s, 2) == Some(s.(pc := hook, regs := s.regs[RAX := hook]))
    ensures !UsesFarJump(s.pc, hook, forceFar) ==>
              (Steps(s, 1) == Some(s.(pc := hook)) <==> Displacement(s.pc, hook) != INT64_MIN)
  {
    hide LE32, LE64, Step, Displacement, Labs, Signed32;
    var disp := Displacement(s.pc, hook);
    if UsesFarJump(s.pc, hook, forceFar) {
      RunFar(s, hook);
    } else {
      RunNear(s, disp);
      NearLands(s.pc, hook);
      var t := s.(pc := Wrap64(s.pc + 5 + Signed32(disp % TWO32)));
      assert Steps(s, 1) == Steps(t, 0) == Some(t);
    }
  }

  /** User space on x86-64 ends at 2^47. */
  const USER_END: int := 0x8000_0000_0000

  /** Between user-space addresses the near jump is taken exactly within 2 GB, and always lands. */
  lemma UserSpaceLands(s: State, hook: Word, forceFar: bool)
    requires s.pc < USER_END && hook < USER_END && HoldsAt(s.mem, s.pc, PatchFor(s.pc, hook, forceFar))
    ensures UsesFarJump(s.pc, hook, forceFar) <==>
            forceFar || hook - (s.pc + NEAR_LEN) > INT32_MAX || s.pc + NEAR_LEN - hook > INT32_MAX
    ensures if UsesFarJump(s.pc, hook, forceFar) then Steps(s, 2) == Some(s.(pc := hook, regs := s.regs[RAX := hook]))
            else Steps(s, 1) == Some(s.(pc := hook))
  {
    hide Steps, PatchFor, UsesFarJump;
    PatchReachesHook(s, hook, forceFar);
    NearEnough(s.pc, hook);
  }

  lemma NearEnough(func: Word, hook: Word)
    requires func < USER_END && hook < USER_END
    ensures Displacement(func, hook) == hook - (func + NEAR_LEN) != INT64_MIN
    ensures UsesFarJump(func, hook, false) <==>
            hook - (func + NEAR_LEN) > INT32_MAX || func + NEAR_LEN - hook > INT32_MAX
    ensures forall far :: UsesFarJump(func, hook, far) <==> far || UsesFarJump(func, hook, false)
  {
    var d := hook - (func + NEAR_LEN);
    assert Wrap64(d) == if d < 0 then d + TWO64 else d;
  }

  /** The one failing distance, from the last address below 2^63 that leaves room for the jump to address 0. */
  lemma NearMissInput()
    ensures Displacement(0x7FFF_FFFF_FFFF_FFFB, 0) == INT64_MIN && !UsesFarJump(0x7FFF_FFFF_FFFF_FFFB, 0, false)
  {
    assert Wrap64(0 - (0x7FFF_FFFF_FFFF_FFFB + NEAR_LEN)) == 0x8000_0000_0000_0000;
  }

  // ----- the lock, copy, unlock protocol -----

  const SELF_JUMP: seq<Byte> := [0xEB, 0xFE]
  const LOCK_LEN: nat := 2

  datatype Phase = Before | Locked | Patched

  /** The patcher: code memory, how far it has come, and which payload bytes are written. */
  datatype Patcher = Patcher(mem: Memory, phase: Phase, written: set<nat>)

  /** One visible write: the two-byte swaps are atomic, the payload is copied in any order. */
  datatype Action = Lock | Copy(i: nat) | Unlock

  predicate Enabled(s: Patcher, a: Action, patch: seq<Byte>) {
    match a
    case Lock => s.phase.Before?
    case Copy(i) => s.phase.Locked? && LOCK_LEN <= i < |patch|
    case Unlock => s.phase.Locked? && |patch| >= LOCK_LEN && forall i :: LOCK_LEN <= i < |patch| ==> i in s.written
  }

  function Apply(s: Patcher, a: Action, dst: Word, patch: seq<Byte>): Patcher
    requires Enabled(s, a, patch)
  {
    match a
    case Lock => Patcher(Store(s.mem, dst, SELF_JUMP), Locked, {})
    case Copy(i) => Patcher(Store(s.mem, Wrap64(dst + i), [patch[i]]), Locked, s.written + {i})
    case Unlock => Patcher(Store(s.mem, dst, patch[..LOCK_LEN]), Patched, s.written)
  }

  predicate Allowed(s: Patcher, actions: seq<Action>, dst: Word, patch: seq<Byte>)
    decreases |actions|
  {
    actions == [] ||
    (Enabled(s, actions[0], patch) && Allowed(Apply(s, actions[0], dst, patch), actions[1..], dst, patch))
  }

  function Run(s: Patcher, actions: seq<Action>, dst: Word, patch: seq<Byte>): Patcher
    requires Allowed(s, actions, dst, patch)
    decreases |actions|
  {
    if actions == [] then s else Run(Apply(s, actions[0], dst, patch), actions[1..], dst, patch)
  }

  function ByteAt(m: Memory, dst: Word, i: nat): Byte { m(Wrap64(dst + i)) }

  /** What memory looks like in each phase, relative to the memory before patching. */
  ghost predicate Consistent(s: Patcher, m0: Memory, dst: Word, patch: seq<Byte>) {
    && AgreeOutside(m0, s.mem, Range(dst, |patch|))
    && (s.phase.Before? ==> AgreeOutside(m0, s.mem, iset{}))
    && (s.phase.Locked? ==>
          HoldsAt(s.mem, dst, SELF_JUMP) &&
          forall i :: i in s.written ==> LOCK_LEN <= i < |patch| && ByteAt(s.mem, dst, i) == patch[i])
    && (s.phase.Patched? ==> HoldsAt(s.mem, dst, patch))
  }

  lemma ApplyConsistent(s: Patcher, a: Action, m0: Memory, dst: Word, patch: seq<Byte>)
    requires LOCK_LEN <= |patch| < TWO64 && Consistent(s, m0, dst, patch) && Enabled(s, a, patch)
    ensures Consistent(Apply(s, a, dst, patch), m0, dst, patch)
  {
    hide HoldsAt, ByteAt, Range, Store;
    match a
    case Lock =>
      LockHolds(s.mem, dst, patch);
    case Copy(i) =>
      CopyKeeps(s.mem, dst, i, patch);
    case Unlock =>
      UnlockCompletes(s.mem, dst, patch);
  }

  lemma LockHolds(m: Memory, dst: Word, patch: seq<Byte>)
    requires LOCK_LEN <= |patch| < TWO64
    ensures var m' := Store(m, dst, SELF_JUMP);
            HoldsAt(m', dst, SELF_JUMP) && AgreeOutside(m, m', Range(dst, |patch|))
  {
    StoreFetch(m, dst, SELF_JUMP);
    StoreFrame(m, dst, SELF_JUMP);
    RangeParts(dst, LOCK_LEN, |patch|);
  }

  lemma OneByteStore(m: Memory, dst: Word, i: nat, b: Byte, n: nat)
    requires i < n < TWO64
    ensures forall x: Word :: Store(m, Wrap64(dst + i), [b])(x) == if x == Wrap64(dst + i) then b else m(x)
    ensures AgreeOutside(m, Store(m, Wrap64(dst + i), [b]), Range(dst, n))
  {
    var a := Wrap64(dst + i);
    forall x: Word
      ensures Store(m, a, [b])(x) == if x == a then b else m(x)
    {
      assert Wrap64(x - a) == if x < a then x - a + TWO64 else x - a;
    }
    WrapOffset(dst, i);
    assert InRange(a, dst, n);
  }

  lemma CopyKeeps(m: Memory, dst: Word, i: nat, patch: seq<Byte>)
    requires LOCK_LEN <= i < |patch| < TWO64
    ensures var m' := Store(m, Wrap64(dst + i), [patch[i]]);
            && AgreeOutside(m, m', Range(dst, |patch|))
            && (HoldsAt(m, dst, SELF_JUMP) ==> HoldsAt(m', dst, SELF_JUMP))
            && forall j :: 0 <= j < |patch| ==>
                 ByteAt(m', dst, j) == if j == i then patch[i] else ByteAt(m, dst, j)
  {
    var m' := Store(m, Wrap64(dst + i), [patch[i]]);
    OneByteStore(m, dst, i, patch[i], |patch|);
    forall j | 0 <= j < |patch|
      ensures ByteAt(m', dst, j) == if j == i then patch[i] else ByteAt(m, dst, j)
    {
      WrapOffset(dst, j);
      WrapOffset(dst, i);
    }
    if HoldsAt(m, dst, SELF_JUMP) {
      var f, g := Fetch(m, dst, 2), Fetch(m', dst, 2);
      assert f[0] == ByteAt(m, dst, 0) == ByteAt(m', dst, 0) == g[0];
      assert f[1] == ByteAt(m, dst, 1) == ByteAt(m', dst, 1) == g[1];
    }
  }

  lemma UnlockCompletes(m: Memory, dst: Word, patch: seq<Byte>)
    requires LOCK_LEN <= |patch| < TWO64
    requires forall i :: LOCK_LEN <= i < |patch| ==> ByteAt(m, dst, i) == patch[i]
    ensures var m' := Store(m, dst, patch[..LOCK_LEN]);
            HoldsAt(m', dst, patch) && AgreeOutside(m, m', Range(dst, |patch|))
  {
    var m' := Store(m, dst, patch[..LOCK_LEN]);
    var f := Fetch(m', dst, |patch|);
    forall i | 0 <= i < |patch|
      ensures f[i] == patch[i]
    {
      WrapOffset(dst, i);
      assert i >= LOCK_LEN ==> ByteAt(m, dst, i) == patch[i];
    }
    StoreFrame(m, dst, patch[..LOCK_LEN]);
    RangeParts(dst, LOCK_LEN, |patch|);
  }

  lemma {:induction false} RunConsistent(s: Patcher, actions: seq<Action>, m0: Memory, dst: Word, patch: seq<Byte>)
    requires LOCK_LEN <= |patch| < TWO64 && Consistent(s, m0, dst, patch) && Allowed(s, actions, dst, patch)
    ensures Consistent(Run(s, actions, dst, patch), m0, dst, patch)
    decreases |actions|
  {
    hide Consistent;
    if actions != [] {
      ApplyConsistent(s, actions[0], m0, dst, patch);
      RunConsistent(Apply(s, actions[0], dst, patch), actions[1..], m0, dst, patch);
    }
  }

  /**
    At every point of every run of the patcher, a thread about to execute the entry either
    sees all memory unchanged, or decodes the self-jump and stays where it is, or finds the
    complete patch.  It never decodes a mixture of old and new bytes.
    */
  lemma EntryNeverTorn(m0: Memory, actions: seq<Action>, dst: Word, patch: seq<Byte>, thread: State)
    requires LOCK_LEN <= |patch| < TWO64 && Allowed(Patcher(m0, Before, {}), actions, dst, patch)
    requires thread.pc == dst && thread.mem == Run(Patcher(m0, Before, {}), actions, dst, patch).mem
    ensures var phase := Run(Patcher(m0, Before, {}), actions, dst, patch).phase;
            && (phase.Before? ==> forall x: Word :: thread.mem(x) == m0(x))
            && (phase.Locked? ==> Step(thread) == Some(thread))
            && (phase.Patched? ==> HoldsAt(thread.mem, dst, patch))
            && AgreeOutside(m0, thread.mem, Range(dst, |patch|))
  {
    hide Decode, Step, Run, Allowed;
    var s0 := Patcher(m0, Before, {});
    RunConsistent(s0, actions, m0, dst, patch);
    if Run(s0, actions, dst, patch).phase.Locked? {
      WindowStarts(thread.mem, dst, SELF_JUMP);
      DecodesSelfJump(WindowAt(thread.mem, dst));
      StepFrom(thread, Decoded(JmpRel(-2), 2));
      WrapTwice(dst + 2, -2);
    }
  }

  lemma DecodesSelfJump(w: Window)
    requires w[0] == 0xEB && w[1] == 0xFE
    ensures Decode(w) == Some(Decoded(JmpRel(-2), 2))
  {
    hide U32, U64, DecodeModRM, DecodeGroup1;
  }

  // ----- code memory, restore points -----

  /** The bytes a patch replaced. */
  datatype RestorePoint = RestorePoint(addr: Word, orig: seq<Byte>)

  ghost predicate SameMemory(m1: Memory, m2: Memory) { forall x: Word :: m1(x) == m2(x) }

  lemma {:induction false} RunSnoc(s: Patcher, actions: seq<Action>, a: Action, dst: Word, patch: seq<Byte>)
    requires Allowed(s, actions, dst, patch) && Enabled(Run(s, actions, dst, patch), a, patch)
    ensures Allowed(s, actions + [a], dst, patch)
    ensures Run(s, actions + [a], dst, patch) == Apply(Run(s, actions, dst, patch), a, dst, patch)
    decreases |actions|
  {
    hide Apply, Enabled;
    if actions == [] {
      assert [] + [a] == [a] && [a][1..] == [];
    } else {
      assert (actions + [a])[1..] == actions[1..] + [a];
      RunSnoc(Apply(s, actions[0], dst, patch), actions[1..], a, dst, patch);
    }
  }

  class CodeSpace {
    var mem: Memory

    constructor (m: Memory)
      ensures mem == m
    {
      mem := m;
    }

    /** The atomic 16-bit swap. */
    method ModifyCode(dst: Word, bytes: seq<Byte>)
      requires |bytes| == LOCK_LEN
      modifies this
      ensures mem == Store(old(mem), dst, bytes)
    {
      mem := Store(mem, dst, bytes);
    }

    /** Locks the entry, copies the payload behind the lock, then swaps in the first two bytes. */
    method ApplyPatchAtomic(dst: Word, patch: seq<Byte>) returns (ghost actions: seq<Action>)
      requires LOCK_LEN <= |patch| < TWO64
      modifies this
      ensures Allowed(Patcher(old(mem), Before, {}), actions, dst, patch)
      ensures var end := Run(Patcher(old(mem), Before, {}), actions, dst, patch);
              end.mem == mem && end.phase.Patched?
    {
      hide Store;
      ghost var s0 := Patcher(mem, Before, {});
      actions := [];
      ModifyCode(dst, SELF_JUMP);
      RunSnoc(s0, actions, Lock, dst, patch);
      actions := actions + [Lock];
      var i := LOCK_LEN;
      while i < |patch|
        invariant LOCK_LEN <= i <= |patch|
        invariant Allowed(s0, actions, dst, patch)
        invariant var s := Run(s0, actions, dst, patch);
                  s.mem == mem && s.phase.Locked? && forall j :: LOCK_LEN <= j < i ==> j in s.written
      {
        mem := Store(mem, Wrap64(dst + i), [patch[i]]);
        RunSnoc(s0, actions, Copy(i), dst, patch);
        actions := actions + [Copy(i)];
        i := i + 1;
      }
      ModifyCode(dst, patch[..LOCK_LEN]);
      RunSnoc(s0, actions, Unlock, dst, patch);
      actions := actions + [Unlock];
    }

    /** The page may not become writable, or may not become executable-only again. */
    method ApplyPatch(dst: Word, patch: seq<Byte>, env: Environment) returns (status: Status)
      modifies this
      ensures status == Ok <==> env.unprotect && env.reprotect
      ensures mem == if env.unprotect then Store(old(mem), dst, patch) else old(mem)
    {
      if !env.unprotect {
        return ProtectFailed;
      }
      mem := Store(mem, dst, patch);
      status := if env.reprotect then Ok else ProtectFailed;
    }

    method CreateRestorePoint(addr: Word, len: nat, env: Environment) returns (rp: Option<RestorePoint>)
      ensures rp == if env.pointMemory then Some(RestorePoint(addr, Fetch(mem, addr, len))) else None
    {
      rp := if env.pointMemory then Some(RestorePoint(addr, Fetch(mem, addr, len))) else None;
    }

    /** Puts back the bytes a patch replaced. */
    method Restore(rp: RestorePoint, env: Environment) returns (status: Status)
      modifies this
      ensures status == Ok <==> env.unprotect && env.reprotect
      ensures mem == if env.unprotect then Store(old(mem), rp.addr, rp.orig) else old(mem)
    {
      status := ApplyPatch(rp.addr, rp.orig, env);
    }

    /**
      Patches the function entry, remembering what was there.  It succeeds exactly if the trampoline,
      when wanted, can be built, and nothing fails on the way.  After a failure nothing is written,
      except that the patch is in place when only the last change of protection failed.
      */
    method Patch(func: Word, hook: Word, forceFar: bool, wantOrig: bool, wantPoint: bool, env: Environment)
      returns (status: Status, block: array<Byte>, used: nat, rp: Option<RestorePoint>)
      requires func + FAR_LEN + MAX_INSTR <= TWO64
      modifies this
      ensures var patch := PatchFor(func, hook, forceFar);
              && |patch| <= FAR_LEN
              && (status == Ok <==> Ready(old(mem), func, patch, wantOrig, wantPoint, env) && env.reprotect)
              && (if Ready(old(mem), func, patch, wantOrig, wantPoint, env)
                  then HoldsAt(mem, func, patch) && SameMemory(mem, Store(old(mem), func, patch))
                  else mem == old(mem))
              && (status == Ok && wantPoint ==> rp == Some(RestorePoint(func, Fetch(old(mem), func, |patch|))))
              && (status == Ok && wantOrig ==>
                    var ps := Moved(old(mem), func, |patch|).pieces;
                    && used <= block.Length && |CodeOf(ps)| < 0x4000_0000 && func + LenOf(ps) < TWO64
                    && block[..used] == Block(func + LenOf(ps), CodeOf(ps)))
    {
      hide LE32, LE64, Run, Allowed, Moved, CodeOf, LenOf, Consistent;
      var patch := PatchFor(func, hook, forceFar);
      PatchLength(func, hook, forceFar);
      ghost var m0 := mem;
      block, used, rp := new Byte[0], 0, None;
      if wantOrig {
        status, block, used := ConstructOrigFunc(mem, func, |patch|, env.codeMemory);
        if status != Ok {
          return;
        }
      }
      if wantPoint {
        rp := CreateRestorePoint(func, |patch|, env);
        if rp == None {
          status := NoMemory;
          return;
        }
      }
      if !env.unprotect {
        status := ProtectFailed;
        return;
      }
      ghost var actions := ApplyPatchAtomic(func, patch);
      PatchedRun(m0, actions, func, patch);
      PatchIsStore(m0, mem, func, patch);
      status := if env.reprotect then Ok else ProtectFailed;
    }
  }

  /** What the system grants: memory for the trampoline and the restore point, and changes of protection. */
  datatype Environment = Environment(codeMemory: bool, pointMemory: bool, unprotect: bool, reprotect: bool)

  /** Everything before the first write goes well. */
  ghost predicate Ready(m: Memory, func: Word, patch: seq<Byte>, wantOrig: bool, wantPoint: bool, env: Environment)
    requires func + |patch| + MAX_INSTR <= TWO64
  {
    && (wantOrig ==> env.codeMemory && Moved(m, func, |patch|).Done?)
    && (wantPoint ==> env.pointMemory) && env.unprotect
  }

  lemma PatchLength(func: Word, hook: Word, forceFar: bool)
    ensures LOCK_LEN <= |PatchFor(func, hook, forceFar)| <= FAR_LEN
  {}

  lemma PatchedRun(m0: Memory, actions: seq<Action>, dst: Word, patch: seq<Byte>)
    requires LOCK_LEN <= |patch| < TWO64 && Allowed(Patcher(m0, Before, {}), actions, dst, patch)
    requires Run(Patcher(m0, Before, {}), actions, dst, patch).phase.Patched?
    ensures var m := Run(Patcher(m0, Before, {}), actions, dst, patch).mem;
            HoldsAt(m, dst, patch) && AgreeOutside(m0, m, Range(dst, |patch|))
  {
    hide Run, Allowed;
    RunConsistent(Patcher(m0, Before, {}), actions, m0, dst, patch);
  }

  /** Memory holding the patch and otherwise unchanged is memory with the patch stored. */
  lemma PatchIsStore(m0: Memory, m: Memory, dst: Word, patch: seq<Byte>)
    requires |patch| < TWO64 && HoldsAt(m, dst, patch) && AgreeOutside(m0, m, Range(dst, |patch|))
    ensures SameMemory(m, Store(m0, dst, patch))
  {
    var f := Fetch(m, dst, |patch|);
    forall x: Word
      ensures m(x) == Store(m0, dst, patch)(x)
    {
      var k := Wrap64(x - dst);
      if k < |patch| {
        WrapShift(x, -((x - dst) / TWO64));
        assert Wrap64(dst + k) == x;
        assert f[k] == patch[k];
      } else {
        assert !InRange(x, dst, |patch|);
      }
    }
  }

  /** Memory after applying patches one after the other. */
  function PatchAll(m: Memory, patches: seq<(Word, seq<Byte>)>): Memory {
    if patches == [] then m else PatchAll(Store(m, patches[0].0, patches[0].1), patches[1..])
  }

  /** The restore points those patches created, oldest first. */
  function Points(m: Memory, patches: seq<(Word, seq<Byte>)>): seq<RestorePoint> {
    if patches == [] then []
    else [RestorePoint(patches[0].0, Fetch(m, patches[0].0, |patches[0].1|))] +
         Points(Store(m, patches[0].0, patches[0].1), patches[1..])
  }

  /** Restoring newest first. */
  function RestoreAll(m: Memory, points: seq<RestorePoint>): Memory {
    if points == [] then m
    else Store(RestoreAll(m, points[1..]), points[0].addr, points[0].orig)
  }

  /** Undoing any stack of patches, overlapping or not, in LIFO order gives back every byte. */
  lemma {:induction false} RestoreUndoes(m: Memory, patches: seq<(Word, seq<Byte>)>)
    requires forall i :: 0 <= i < |patches| ==> |patches[i].1| < TWO64
    ensures SameMemory(RestoreAll(PatchAll(m, patches), Points(m, patches)), m)
    decreases |patches|
  {
    if patches != [] {
      var (a, bytes) := patches[0];
      var m1 := Store(m, a, bytes);
      RestoreUndoes(m1, patches[1..]);
      var points := Points(m, patches);
      assert points[1..] == Points(m1, patches[1..]);
      var back := RestoreAll(PatchAll(m1, patches[1..]), points[1..]);
      RestoreOne(m, a, bytes, back);
    }
  }

  lemma RestoreOne(m: Memory, a: Word, bytes: seq<Byte>, back: Memory)
    requires |bytes| < TWO64 && SameMemory(back, Store(m, a, bytes))
    ensures SameMemory(Store(back, a, Fetch(m, a, |bytes|)), m)
  {
    var orig := Fetch(m, a, |bytes|);
    forall x: Word
      ensures Store(back, a, orig)(x) == m(x)
    {
      var k := Wrap64(x - a);
      if k < |bytes| {
        WrapShift(x, -((x - a) / TWO64));
        assert orig[k] == m(Wrap64(a + k)) == m(x);
      }
    }
  }
}
