/**
src/patcher.c: the machine words vpoline writes into its shadow page. The
trampoline sits at the relocated global pointer, the three return paths just
below it. Both generators are proved against the instruction listing that the
reference decoder must read back, and the listing against what it computes.
*/
module Patcher {
  import opened Bits
  import opened Isa

  const W32: nat := 0x1_0000_0000
  const TRAMPOLINE_WORDS: nat := 20
  const RETURN_WORDS: nat := 14
  const FRAME_SIZE: nat := 304

  /** The low 12 bits of `v` as the signed immediate of ADDI. */
  function Low12(v: u32): (r: int)
    ensures -0x800 <= r < 0x800
  {
    if v % 0x1000 > 2047 then v % 0x1000 - 0x1000 else v % 0x1000
  }

  /** What LUI has to load so that adding `Low12(v)` gives `v` modulo 2^32. */
  function High20(v: u32): (r: u32) {
    (v - Low12(v)) % W32
  }

  function Upper(dst: u64): u32 { dst / W32 }
  function Lower(dst: u64): u32 { dst % W32 }

  /** The trampoline as assembly. */
  function TrampolineInstr(dst: u64, i: nat): Instr
    requires i < TRAMPOLINE_WORDS
  {
    match i
    case 0 => Addi(SP, SP, -304)
    case 1 => Store(8, T0, SP, 0)
    case 2 => Store(8, T1, SP, 8)
    case 3 => Store(8, T2, SP, 16)
    case 4 => Store(8, T3, SP, 24)
    case 5 => Lui(T0, High20(Upper(dst)))
    case 6 => Addi(T0, T0, Low12(Upper(dst)))
    case 7 => Slli(T0, T0, 32)
    case 8 => Lui(T3, High20(Lower(dst)))
    case 9 => Addi(T3, T3, Low12(Lower(dst)))
    case 10 => Lui(T1, 0x7fff_f000)
    case 11 => Ori(T2, ZERO, 0x7ff)
    case 12 => Slli(T2, T2, 1)
    case 13 => Ori(T2, T2, 1)
    case 14 => Or(T1, T1, T2)
    case 15 => Slli(T1, T1, 1)
    case 16 => Ori(T1, T1, 1)
    case 17 => And(T3, T3, T1)
    case 18 => Or(T0, T0, T3)
    case 19 => Jalr(ZERO, T0, 0)
  }

  /** The three return paths as assembly, lowest address first. */
  function ReturnInstr(k: nat): Instr
    requires k < RETURN_WORDS
  {
    match k
    // the hook handled the call
    case 0 => Load(8, true, GP, SP, 288)
    case 1 => Load(8, true, T0, SP, 0)
    case 2 => Addi(SP, SP, 304)
    case 3 => Jal(ZERO, 40)
    // the call is forwarded to the kernel
    case 4 => Ecall
    case 5 => Load(8, true, GP, SP, 288)
    case 6 => Load(8, true, T0, SP, 0)
    case 7 => Addi(SP, SP, 304)
    case 8 => Jal(ZERO, 20)
    // clone and clone3
    case 9 => Load(8, true, GP, SP, 288)
    case 10 => Load(8, true, T0, SP, 0)
    case 11 => Addi(SP, SP, 304)
    case 12 => Ecall
    case 13 => Jalr(GP, GP, 0)
  }

  // ---- Emitting the words -----------------------------------------------

  lemma ClearLow12(v: u32)
    ensures BitAnd(v, 0xffff_f000) == v - v % 0x1000
  {
    Pow2Table();
    AndHighMask(v, 12, 32);
  }

  /** The lui/addi split, with the carry into the upper part. */
  method SplitImmediate(v: u32) returns (lui: u32, addi: u32)
    ensures lui == High20(v) && lui % 0x1000 == 0
    ensures SignExtend12(addi % 0x1000) == Low12(v)
  {
    ClearLow12(v);
    hide BitAnd;
    lui := BitAnd(v, 0xffff_f000);
    addi := 0;
    if v % 4096 != 0 {
      addi := v - lui;
      if addi > 2047 {
        lui := (lui + 4096) % W32;
        addi := W32 - (4096 - addi);
      }
    }
    SplitIs(v, v / 0x1000, v % 0x1000, addi);
    hide High20, Low12, SignExtend12;
  }

  /** The two parts of `v`, with the carry when its low part counts as negative. */
  lemma SplitIs(v: u32, hi: nat, low: nat, addi: u32)
    requires v == 0x1000 * hi + low && low < 0x1000
    requires addi == if low > 2047 then W32 - (4096 - low) else low
    ensures High20(v) == (if low > 2047 then (0x1000 * hi + 4096) % W32 else 0x1000 * hi) && High20(v) % 0x1000 == 0
    ensures SignExtend12(addi % 0x1000) == Low12(v)
  {
    DivModUnique(v, 0x1000, hi, low);
    if low > 2047 {
      DivModUnique(addi, 0x1000, 0xf_ffff, low);
      CarryWraps(hi);
    } else {
      DivModUnique(addi, 0x1000, 0, low);
      DivModUnique(0x1000 * hi, 0x1000, hi, 0);
    }
  }

  lemma CarryWraps(hi: nat)
    requires hi < 0x10_0000
    ensures (0x1000 * hi + 4096) % W32 == (if hi == 0xf_ffff then 0 else 0x1000 * (hi + 1))
    ensures (0x1000 * hi + 4096) % W32 % 0x1000 == 0
  {
    if hi < 0xf_ffff { DivModUnique(0x1000 * (hi + 1), 0x1000, hi + 1, 0); }
  }

  method EncodeLui(opcode: u32, lui: u32) returns (w: u32)
    requires opcode < 0x1000 && lui % 0x1000 == 0
    ensures w == opcode + lui
  {
    Pow2Table();
    OrDisjoint(lui / 0x1000, opcode, 12);
    w := BitOr(opcode, lui);
  }

  method EncodeAddi(opcode: u32, addi: u32) returns (w: u32)
    requires opcode < 0x10_0000
    ensures w == opcode + addi % 0x1000 * 0x10_0000
  {
    Pow2Table();
    var shifted := addi * 0x10_0000 % W32;
    DivModUnique(addi * 0x10_0000, W32, addi / 0x1000, addi % 0x1000 * 0x10_0000);
    hide BitOr, Pow2;
    OrDisjoint(addi % 0x1000, opcode, 20);
    w := BitOr(opcode, shifted);
  }

  lemma OpenWords(dst: u64)
    ensures Decode32(0xed010113) == TrampolineInstr(dst, 0)
    ensures Decode32(0x00513023) == TrampolineInstr(dst, 1)
  {
  }

  lemma SaveWords(dst: u64)
    ensures Decode32(0x00613423) == TrampolineInstr(dst, 2)
    ensures Decode32(0x00713823) == TrampolineInstr(dst, 3)
    ensures Decode32(0x01c13c23) == TrampolineInstr(dst, 4)
  {
  }

  lemma StackWords(dst: u64)
    ensures Decode32(0xed010113) == TrampolineInstr(dst, 0)
    ensures Decode32(0x00513023) == TrampolineInstr(dst, 1)
    ensures Decode32(0x00613423) == TrampolineInstr(dst, 2)
    ensures Decode32(0x00713823) == TrampolineInstr(dst, 3)
    ensures Decode32(0x01c13c23) == TrampolineInstr(dst, 4)
  {
    hide Decode32, TrampolineInstr;
    OpenWords(dst);
    SaveWords(dst);
  }

  lemma MaskWords(dst: u64)
    ensures Decode32(0x02029293) == TrampolineInstr(dst, 7)
    ensures Decode32(0x7ffff337) == TrampolineInstr(dst, 10)
    ensures Decode32(0x7ff06393) == TrampolineInstr(dst, 11)
    ensures Decode32(0x00139393) == TrampolineInstr(dst, 12)
    ensures Decode32(0x0013e393) == TrampolineInstr(dst, 13)
    ensures Decode32(0x00736333) == TrampolineInstr(dst, 14)
    ensures Decode32(0x00131313) == TrampolineInstr(dst, 15)
  {
    ShiftWords(dst);
    hide Decode32;
    MaskLowWords(dst);
  }

  lemma ShiftWords(dst: u64)
    ensures Decode32(0x02029293) == TrampolineInstr(dst, 7)
    ensures Decode32(0x7ffff337) == TrampolineInstr(dst, 10)
    ensures Decode32(0x00139393) == TrampolineInstr(dst, 12)
    ensures Decode32(0x00131313) == TrampolineInstr(dst, 15)
  {
  }

  lemma MaskLowWords(dst: u64)
    ensures Decode32(0x7ff06393) == TrampolineInstr(dst, 11)
    ensures Decode32(0x0013e393) == TrampolineInstr(dst, 13)
    ensures Decode32(0x00736333) == TrampolineInstr(dst, 14)
  {
  }

  lemma JoinWords(dst: u64)
    ensures Decode32(0x00136313) == TrampolineInstr(dst, 16)
    ensures Decode32(0x006e7e33) == TrampolineInstr(dst, 17)
    ensures Decode32(0x01c2e2b3) == TrampolineInstr(dst, 18)
    ensures Decode32(0x00028067) == TrampolineInstr(dst, 19)
  {
  }

  lemma LuiWord(rd: Reg, upper: u32)
    requires upper % 0x1000 == 0 && (rd == T0 || rd == T3)
    ensures upper + 0x80 * rd + 0x37 < W32
    ensures Decode32(upper + 0x80 * rd + 0x37) == Lui(rd, upper)
  {
    var u := upper / 0x1000;
    var w: u32 := upper + 0x80 * rd + 0x37;
    DivModUnique(w, 0x1000, u, 0x80 * rd + 0x37);
    DivModUnique(w, 0x80, 32 * u + rd, 0x37);
    DivModUnique(32 * u + rd, 32, u, rd);
  }

  /** A field below bit 20 does not see the immediate above it. */
  lemma LowField(imm: nat, low: nat, d: nat, n: nat, e: nat)
    requires d > 0 && n > 0 && 0x10_0000 == d * (n * e)
    ensures (imm * 0x10_0000 + low) / d % n == low / d % n
  {
    var q, r := low / d, low % d;
    QuotientNonNegative(low, d);
    assert imm * 0x10_0000 == d * (imm * (n * e));
    assert low == d * q + r;
    assert d * (imm * (n * e)) + d * q == d * (imm * (n * e) + q);
    DivModUnique(imm * 0x10_0000 + low, d, imm * (n * e) + q, r);
    var q2, r2 := q / n, q % n;
    QuotientNonNegative(q, n);
    assert q == n * q2 + r2;
    assert imm * (n * e) == n * (imm * e);
    assert n * (imm * e) + n * q2 == n * (imm * e + q2);
    DivModUnique(imm * (n * e) + q, n, imm * e + q2, r2);
  }

  /** The fields below bit 20 do not see the immediate. */
  lemma LowFields(imm: nat, low: nat)
    requires low < 0x10_0000
    ensures var w := imm * 0x10_0000 + low;
            && w / 0x10_0000 == imm && w % 0x80 == low % 0x80 && w / 0x80 % 32 == low / 0x80 % 32
            && w / 0x1000 % 8 == low / 0x1000 % 8 && w / 0x8000 % 32 == low / 0x8000 % 32
  {
    DivModUnique(imm * 0x10_0000 + low, 0x10_0000, imm, low);
    LowField(imm, low, 1, 0x80, 0x2000);
    LowField(imm, low, 0x80, 32, 0x100);
    LowField(imm, low, 0x1000, 8, 0x20);
    LowField(imm, low, 0x8000, 32, 1);
  }

  lemma AddiWord(r: Reg, imm: nat)
    requires imm < 0x1000 && (r == T0 || r == T3)
    ensures imm * 0x10_0000 + (0x8000 * r + 0x80 * r + 0x13) < W32
    ensures Decode32(imm * 0x10_0000 + (0x8000 * r + 0x80 * r + 0x13)) == Addi(r, r, SignExtend12(imm))
  {
    LowFields(imm, 0x8000 * r + 0x80 * r + 0x13);
    var w: u32 := imm * 0x10_0000 + (0x8000 * r + 0x80 * r + 0x13);
    assert w % 0x80 == 0x13 && w / 0x80 % 32 == r && w / 0x1000 % 8 == 0 && w / 0x8000 % 32 == r;
  }

  /** The LUI and ADDI words that build the 32-bit value `v` in register `r`. */
  method EmitImmediate(r: Reg, v: u32) returns (luiWord: u32, addiWord: u32)
    requires r == T0 || r == T3
    ensures Decode32(luiWord) == Lui(r, High20(v))
    ensures Decode32(addiWord) == Addi(r, r, Low12(v))
  {
    hide Decode32;
    var lui, addi := SplitImmediate(v);
    luiWord := EncodeLui(0x80 * r + 0x37, lui);
    addiWord := EncodeAddi(0x8000 * r + 0x80 * r + 0x13, addi);
    LuiWord(r, lui);
    AddiWord(r, addi % 0x1000);
  }

  /** Words 0-4: open the frame and save t0-t3 in it. */
  method EmitFrame(t: array<u32>, dst: u64)
    requires t.Length == TRAMPOLINE_WORDS
    modifies t
    ensures forall i :: 0 <= i < 5 ==> Decode32(t[i]) == TrampolineInstr(dst, i)
  {
    hide Decode32;
    StackWords(dst);
    t[0] := 0xed010113;
    t[1] := 0x00513023;
    t[2] := 0x00613423;
    t[3] := 0x00713823;
    t[4] := 0x01c13c23;
  }

  /** Words 5-9: the two halves of the target address. */
  method EmitTarget(t: array<u32>, dst: u64)
    requires t.Length == TRAMPOLINE_WORDS
    modifies t
    ensures forall i :: 5 <= i < 10 ==> Decode32(t[i]) == TrampolineInstr(dst, i)
    ensures forall i :: 0 <= i < 5 ==> t[i] == old(t[i])
  {
    hide Decode32;
    MaskWords(dst);
    var lui, addi := EmitImmediate(T0, UpperHalf(dst));
    t[5], t[6] := lui, addi;
    t[7] := 0x02029293;
    lui, addi := EmitImmediate(T3, dst % W32);
    t[8], t[9] := lui, addi;
  }

  /** Words 10-14: the first part of the 32-bit mask. */
  method EmitMask(t: array<u32>, dst: u64)
    requires t.Length == TRAMPOLINE_WORDS
    modifies t
    ensures forall i :: 10 <= i < 15 ==> Decode32(t[i]) == TrampolineInstr(dst, i)
    ensures forall i :: 0 <= i < 10 ==> t[i] == old(t[i])
  {
    hide Decode32;
    MaskWords(dst);
    t[10] := 0x7ffff337;
    t[11] := 0x7ff06393;
    t[12] := 0x00139393;
    t[13] := 0x0013e393;
    t[14] := 0x00736333;
  }

  /** Words 15-19: finish the mask, join the halves and jump. */
  method EmitJump(t: array<u32>, dst: u64)
    requires t.Length == TRAMPOLINE_WORDS
    modifies t
    ensures forall i :: 15 <= i < 20 ==> Decode32(t[i]) == TrampolineInstr(dst, i)
    ensures forall i :: 0 <= i < 15 ==> t[i] == old(t[i])
  {
    hide Decode32;
    MaskWords(dst);
    JoinWords(dst);
    t[15] := 0x00131313;
    t[16] := 0x00136313;
    t[17] := 0x006e7e33;
    t[18] := 0x01c2e2b3;
    t[19] := 0x00028067;
  }

  /** `setup_shadow_page_trampoline`. */
  method SetupShadowPageTrampoline(trampoline: array<u32>, dst: u64)
    requires trampoline.Length == TRAMPOLINE_WORDS
    modifies trampoline
    ensures forall i :: 0 <= i < TRAMPOLINE_WORDS ==> Decode32(trampoline[i]) == TrampolineInstr(dst, i)
  {
    EmitFrame(trampoline, dst);
    EmitTarget(trampoline, dst);
    EmitMask(trampoline, dst);
    EmitJump(trampoline, dst);
  }

  /** `(dst & 0xffffffff00000000) >> 32`. */
  function UpperHalf(dst: u64): (r: u32)
    ensures r == Upper(dst)
  {
    Pow2Table();
    AndHighMask(dst, 32, 64);
    BitAnd(dst, 0xffff_ffff_0000_0000) / W32
  }

  lemma FrameReturnWords()
    ensures Decode32(0x12013183) == ReturnInstr(0) == ReturnInstr(5) == ReturnInstr(9)
    ensures Decode32(0x00013283) == ReturnInstr(1) == ReturnInstr(6) == ReturnInstr(10)
    ensures Decode32(0x13010113) == ReturnInstr(2) == ReturnInstr(7) == ReturnInstr(11)
  {
  }

  lemma JumpReturnWords()
    ensures Decode32(0x0280006f) == ReturnInstr(3)
    ensures Decode32(0x00000073) == ReturnInstr(4) == ReturnInstr(12)
    ensures Decode32(0x0140006f) == ReturnInstr(8)
    ensures Decode32(0x000181e7) == ReturnInstr(13)
  {
  }

  /** Words 0-3: the call has been handled. */
  method EmitHandledPath(b: array<u32>)
    requires b.Length == RETURN_WORDS
    modifies b
    ensures forall k :: 0 <= k < 4 ==> Decode32(b[k]) == ReturnInstr(k)
  {
    hide Decode32;
    FrameReturnWords();
    JumpReturnWords();
    b[0] := 0x12013183;
    b[1] := 0x00013283;
    b[2] := 0x13010113;
    b[3] := 0x0280006f;
  }

  /** Words 4-8: the call goes to the kernel. */
  method EmitNormalPath(b: array<u32>)
    requires b.Length == RETURN_WORDS
    modifies b
    ensures forall k :: 4 <= k < 9 ==> Decode32(b[k]) == ReturnInstr(k)
    ensures forall k :: 0 <= k < 4 ==> b[k] == old(b[k])
  {
    hide Decode32;
    FrameReturnWords();
    JumpReturnWords();
    b[4] := 0x00000073;
    b[5] := 0x12013183;
    b[6] := 0x00013283;
    b[7] := 0x13010113;
    b[8] := 0x0140006f;
  }

  /** Words 9-13: clone and clone3, and the jump all paths end in. */
  method EmitClonePath(b: array<u32>)
    requires b.Length == RETURN_WORDS
    modifies b
    ensures forall k :: 9 <= k < 14 ==> Decode32(b[k]) == ReturnInstr(k)
    ensures forall k :: 0 <= k < 9 ==> b[k] == old(b[k])
  {
    hide Decode32;
    FrameReturnWords();
    JumpReturnWords();
    b[9] := 0x12013183;
    b[10] := 0x00013283;
    b[11] := 0x13010113;
    b[12] := 0x00000073;
    b[13] := 0x000181e7;
  }

  /** `setup_return`, the word buffer. */
  method SetupReturn(beforeGp: array<u32>)
    requires beforeGp.Length == RETURN_WORDS
    modifies beforeGp
    ensures forall k :: 0 <= k < RETURN_WORDS ==> Decode32(beforeGp[k]) == ReturnInstr(k)
  {
    EmitHandledPath(beforeGp);
    EmitNormalPath(beforeGp);
    EmitClonePath(beforeGp);
  }
}
