/**
What the trampoline words compute: whatever the registers held before, the
jump at the end lands on the 64-bit address the generator was given.
*/
module Trampoline {
  import opened Bits
  import opened Isa
  import opened Patcher

  /** A 32-bit value sign-extended to 64 bits, as LUI leaves it. */
  function SignExtend32(v: u32): u64 {
    if v >= 0x8000_0000 then v + W64 - W32 else v
  }

  function T1At(i: nat): u64 {
    if i < 15 then 0x7fff_f000 else if i == 15 then 0x7fff_ffff else if i == 16 then 0xffff_fffe else 0xffff_ffff
  }

  function T2At(i: nat): u64 {
    if i == 12 then 0x7ff else if i == 13 then 0xffe else 0xfff
  }

  /** The temporaries just before word `i`. */
  ghost predicate Synth(dst: u64, i: nat, c: Core) {
    && (i == 6 ==> c.x[T0] == SignExtend32(High20(Upper(dst))))
    && (i == 7 ==> c.x[T0] % W32 == Upper(dst))
    && (8 <= i <= 18 ==> c.x[T0] == Upper(dst) * W32)
    && (i == 9 ==> c.x[T3] == SignExtend32(High20(Lower(dst))))
    && (10 <= i <= 17 ==> c.x[T3] % W32 == Lower(dst))
    && (i == 18 ==> c.x[T3] == Lower(dst))
    && (11 <= i ==> c.x[T1] == T1At(i))
    && (12 <= i ==> c.x[T2] == T2At(i))
    && (i == 19 ==> c.x[T0] == dst)
  }

  // ---- One word at a time -----------------------------------------------

  /** The carry correction cancels the sign extension of ADDI, also where it wraps. */
  lemma HalfRebuilt(v: u32)
    ensures Wrap(SignExtend32(High20(v)) + Low12(v)) % W32 == v
  {
    var low := Low12(v);
    var high := High20(v);
    assert high == v - low || high == v - low - W32;
    var sum := SignExtend32(high) + low;
    assert sum == v || sum == v - W32 || sum == v + W64 - W32 || sum == v + W64 - W32 - W32;
  }

  lemma ShiftedUp(x: u64)
    ensures Wrap(x * Pow2(32)) == x % W32 * W32
  {
    Pow2Table();
    var q, r := x / W32, x % W32;
    assert x * W32 == r * W32 + q * W64;
    DivModUnique(x * W32, W64, q, r * W32);
  }

  lemma DoubledIsShift(x: nat)
    ensures x * Pow2(1) == 2 * x
  {
    assert Pow2(1) == 2;
  }

  lemma MaskBits()
    ensures BitOr(0, 0x7ff) == 0x7ff
    ensures BitOr(0xffe, 1) == 0xfff
    ensures BitOr(0x7fff_f000, 0xfff) == 0x7fff_ffff
    ensures BitOr(0xffff_fffe, 1) == 0xffff_ffff
  {
    Pow2Table();
    assert Pow2(1) == 2;
    OrDisjoint(0x7ff, 1, 1);
    OrDisjoint(0x7_ffff, 0xfff, 12);
    OrDisjoint(0x7fff_ffff, 1, 1);
  }

  lemma MaskedHalf(x: u64)
    ensures BitAnd(x, 0xffff_ffff) == x % W32
  {
    Pow2Table();
    AndLowMask(x, 32);
  }

  lemma HalvesJoined(dst: u64)
    ensures BitOr(Upper(dst) * W32, Lower(dst)) == dst
  {
    Pow2Table();
    OrDisjoint(Upper(dst), Lower(dst), 32);
  }

  /** Every word before the jump takes the temporaries to their next value. */
  lemma SynthStep(dst: u64, i: nat, c: Core)
    requires 5 <= i < 19 && Synth(dst, i, c)
    ensures Synth(dst, i + 1, ExecReg(TrampolineInstr(dst, i), c))
  {
    hide BitOr, BitAnd, Wrap, High20, Low12, Pow2;
    if i == 6 {
      HalfRebuilt(Upper(dst));
    } else if i == 7 {
      ShiftedUp(c.x[T0]);
    } else if i == 9 {
      HalfRebuilt(Lower(dst));
    } else if i == 12 {
      DoubledIsShift(0x7ff);
    } else if i == 15 {
      DoubledIsShift(0x7fff_ffff);
    } else if i == 11 || i == 13 || i == 14 || i == 16 {
      MaskBits();
    } else if i == 17 {
      MaskedHalf(c.x[T3]);
    } else if i == 18 {
      HalvesJoined(dst);
    }
  }

  /** The register word `i` writes. */
  function Dest(i: nat): Reg {
    if i <= 7 || i == 18 then T0 else if i == 8 || i == 9 || i == 17 then T3 else if 11 <= i <= 13 then T2 else T1
  }

  lemma SynthFrame(dst: u64, i: nat, c: Core)
    requires 5 <= i < 19
    ensures var c' := ExecReg(TrampolineInstr(dst, i), c);
            && c'.f == c.f && c'.pc == Wrap(c.pc + 4)
            && forall r: Reg :: r != Dest(i) ==> c'.x[r] == c.x[r]
  {
    hide BitOr, BitAnd, Wrap, High20, Low12, Pow2;
  }

  // ---- The whole address synthesis --------------------------------------

  /** Words `i` to 19 in order. */
  function RunTrampoline(dst: u64, i: nat, c: Core): Core
    requires 5 <= i <= TRAMPOLINE_WORDS
    decreases TRAMPOLINE_WORDS - i
  {
    if i == TRAMPOLINE_WORDS then c
    else RunTrampoline(dst, i + 1, ExecReg(TrampolineInstr(dst, i), c))
  }

  /** Registers the synthesis leaves alone. */
  ghost predicate OnlyTemporaries(c: Core, c': Core) {
    && c'.f == c.f
    && forall r: Reg :: r !in {T0, T1, T2, T3} ==> c'.x[r] == c.x[r]
  }

  lemma {:induction false} SynthesisFrom(dst: u64, i: nat, c: Core)
    requires 5 <= i <= 19 && Synth(dst, i, c)
    ensures var c' := RunTrampoline(dst, i, c);
            c'.pc == dst - dst % 2 && c'.x[T0] == dst && OnlyTemporaries(c, c')
    decreases 19 - i
  {
    TrampolinePlain(dst, i);
    hide ExecReg, TrampolineInstr, Synth;
    var next := ExecReg(TrampolineInstr(dst, i), c);
    if i < 19 {
      SynthStep(dst, i, c);
      SynthFrame(dst, i, c);
      SynthesisFrom(dst, i + 1, next);
    } else {
      JumpTaken(dst, c);
      assert RunTrampoline(dst, 20, next) == next;
    }
  }

  lemma TrampolinePlain(dst: u64, i: nat)
    requires 5 <= i <= 19
    ensures Plain(TrampolineInstr(dst, i)) && !IsMem(TrampolineInstr(dst, i))
  {
  }

  lemma JumpTaken(dst: u64, c: Core)
    requires Synth(dst, 19, c)
    ensures var c' := ExecReg(TrampolineInstr(dst, 19), c);
            c'.pc == dst - dst % 2 && c'.x == c.x && c'.f == c.f && c.x[T0] == dst
  {
    assert Wrap(dst + 0) == dst;
    hide Wrap;
  }

  /**
  From any register state and for every 64-bit address, the words after the
  frame has been opened end with that address in t0 and jump to it; JALR clears
  the lowest bit, so pc is the address itself exactly when it is even.
  */
  lemma AddressSynthesisExact(dst: u64, c: Core)
    ensures var c' := RunTrampoline(dst, 5, c);
            c'.pc == dst - dst % 2 && c'.x[T0] == dst && OnlyTemporaries(c, c')
  {
    SynthesisFrom(dst, 5, c);
  }
}
