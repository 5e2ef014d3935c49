/**
The part of RV64GC that vpoline's generated code, its assembly and its fault
handler rely on: registers, byte-addressed little-endian memory, a decoder and
one-instruction semantics.

Sections 2.2-2.6, 5.2-5.3, 11.5, 12.2-12.3 and 16.3 of the RISC-V Unprivileged
ISA, version 20191213.
*/
module Isa {
  import opened Bits

  const W64: nat := 0x1_0000_0000_0000_0000

  type u64 = n: nat | n < 0x1_0000_0000_0000_0000
  type u32 = n: nat | n < 0x1_0000_0000
  type u16 = n: nat | n < 0x1_0000
  type byte = n: nat | n < 256
  type Reg = n: nat | n < 32
  type Width = n: nat | n == 1 || n == 2 || n == 4 || n == 8 witness 1

  type Regs = s: seq<u64> | |s| == 32 witness seq(32, _ => 0)

  /** Memory holds a byte at every address; an address never written reads as 0. */
  type Mem = map<nat, byte>

  datatype Core = Core(x: Regs, f: Regs, pc: u64)

  datatype Instr =
    | Lui(rd: Reg, upper: u32)
    | Addi(rd: Reg, rs1: Reg, imm: int)
    | Ori(rd: Reg, rs1: Reg, uimm: u64)
    | Slli(rd: Reg, rs1: Reg, shamt: nat)
    | Srli(rd: Reg, rs1: Reg, shamt: nat)
    | And(rd: Reg, rs1: Reg, rs2: Reg)
    | Or(rd: Reg, rs1: Reg, rs2: Reg)
    | Jal(rd: Reg, off: int)
    | Jalr(rd: Reg, rs1: Reg, imm: int)
    | Beq(rs1: Reg, rs2: Reg, off: int)
    | Load(width: Width, signed: bool, rd: Reg, rs1: Reg, imm: int)
    | FLoad(width: Width, fd: Reg, rs1: Reg, imm: int)
    | Store(width: Width, rs2: Reg, rs1: Reg, imm: int)
    | FStore(width: Width, fs2: Reg, rs1: Reg, imm: int)
    | Ecall
    | Ebreak
    // The assembler's `la rd, symbol` and `call symbol`.
    | La(rd: Reg, addr: u64)
    | CallSymbol(addr: u64)
    | Other

  const ZERO: Reg := 0
  const RA: Reg := 1
  const SP: Reg := 2
  const GP: Reg := 3
  const TP: Reg := 4
  const T0: Reg := 5
  const T1: Reg := 6
  const T2: Reg := 7
  const A0: Reg := 10
  const A1: Reg := 11
  const A2: Reg := 12
  const A3: Reg := 13
  const A4: Reg := 14
  const A5: Reg := 15
  const A6: Reg := 16
  const A7: Reg := 17
  const T3: Reg := 28
  const T4: Reg := 29
  const T5: Reg := 30
  const T6: Reg := 31

  /** Reduction modulo 2^64. */
  function Wrap(i: int): (r: u64)
    ensures 0 <= i < W64 ==> r == i
    ensures W64 <= i < 2 * W64 ==> r == i - W64
    ensures 0 <= i + W64 < W64 ==> r == i + W64
  {
    i % W64
  }

  // ---- Registers --------------------------------------------------------

  function Get(c: Core, r: Reg): u64 {
    if r == ZERO then 0 else c.x[r]
  }

  function Set(c: Core, r: Reg, v: u64): Core {
    if r == ZERO then c else c.(x := c.x[r := v])
  }

  function SetF(c: Core, r: Reg, v: u64): Core {
    c.(f := c.f[r := v])
  }

  function Skip(c: Core, len: nat): Core {
    c.(pc := Wrap(c.pc + len))
  }

  // ---- Memory -----------------------------------------------------------

  function Byte(m: Mem, a: nat): byte {
    if a in m then m[a] else 0
  }

  function Pow256(n: nat): (p: nat)
    ensures p > 0
  {
    if n == 0 then 1 else 256 * Pow256(n - 1)
  }

  function LoadLE(m: Mem, a: nat, n: nat): (v: nat)
    ensures v < Pow256(n)
    decreases n
  {
    if n == 0 then 0 else Byte(m, a) + 256 * LoadLE(m, a + 1, n - 1)
  }

  function StoreLE(m: Mem, a: nat, n: nat, v: nat): Mem
    decreases n
  {
    if n == 0 then m else StoreLE(m[a := v % 256], a + 1, n - 1, v / 256)
  }

  ghost predicate SameOn(m: Mem, m': Mem, lo: nat, hi: nat) {
    forall a: nat :: lo <= a < hi ==> Byte(m, a) == Byte(m', a)
  }

  ghost predicate SameOutside(m: Mem, m': Mem, lo: nat, hi: nat) {
    forall a: nat :: !(lo <= a < hi) ==> Byte(m, a) == Byte(m', a)
  }

  lemma {:induction false} LoadSame(m: Mem, m': Mem, a: nat, n: nat)
    requires SameOn(m, m', a, a + n)
    ensures LoadLE(m, a, n) == LoadLE(m', a, n)
    decreases n
  {
    if n > 0 {
      assert Byte(m, a) == Byte(m', a);
      LoadSame(m, m', a + 1, n - 1);
    }
  }

  lemma {:induction false} StoreFrame(m: Mem, a: nat, n: nat, v: nat)
    ensures SameOutside(m, StoreLE(m, a, n, v), a, a + n)
    decreases n
  {
    if n > 0 { StoreFrame(m[a := v % 256], a + 1, n - 1, v / 256); }
  }

  /** What a store writes depends only on where and what, not on the memory before. */
  lemma {:induction false} StoreWrites(m: Mem, m': Mem, a: nat, n: nat, v: nat)
    ensures SameOn(StoreLE(m, a, n, v), StoreLE(m', a, n, v), a, a + n)
    decreases n
  {
    if n > 0 {
      StoreWrites(m[a := v % 256], m'[a := v % 256], a + 1, n - 1, v / 256);
      StoreFrame(m[a := v % 256], a + 1, n - 1, v / 256);
      StoreFrame(m'[a := v % 256], a + 1, n - 1, v / 256);
      assert Byte(StoreLE(m, a, n, v), a) == Byte(m[a := v % 256], a);
      assert Byte(StoreLE(m', a, n, v), a) == Byte(m'[a := v % 256], a);
    }
  }

  lemma {:induction false} LoadStored(m: Mem, a: nat, n: nat, v: nat)
    requires v < Pow256(n)
    ensures LoadLE(StoreLE(m, a, n, v), a, n) == v
    decreases n
  {
    if n > 0 {
      LoadStored(m[a := v % 256], a + 1, n - 1, v / 256);
      StoreFrame(m[a := v % 256], a + 1, n - 1, v / 256);
      assert Byte(StoreLE(m, a, n, v), a) == Byte(m[a := v % 256], a);
    }
  }

  lemma LoadElsewhere(m: Mem, a: nat, n: nat, v: nat, b: nat, k: nat)
    requires b + k <= a || a + n <= b
    ensures LoadLE(StoreLE(m, a, n, v), b, k) == LoadLE(m, b, k)
  {
    StoreFrame(m, a, n, v);
    LoadSame(m, StoreLE(m, a, n, v), b, k);
  }

  lemma WidthFits(w: Width)
    ensures Pow256(w) <= W64
    ensures Pow256(1) == 0x100 && Pow256(2) == 0x1_0000 && Pow256(4) == 0x1_0000_0000 && Pow256(8) == W64
  {
  }

  function LoadWord(m: Mem, a: nat): u32 {
    WidthFits(4);
    LoadLE(m, a, 4)
  }

  function LoadHalf(m: Mem, a: nat): u16 {
    WidthFits(2);
    LoadLE(m, a, 2)
  }

  function LoadDouble(m: Mem, a: nat): u64 {
    WidthFits(8);
    LoadLE(m, a, 8)
  }

  /** An integer load of `w` bytes, extended to 64 bits. */
  function Extend(v: nat, w: Width, signed: bool): u64
    requires v < Pow256(w)
  {
    WidthFits(w);
    if signed && 2 * v >= Pow256(w) then v + W64 - Pow256(w) else v
  }

  /** A float load of `w` bytes: narrower values are NaN-boxed with ones. */
  function NanBox(v: nat, w: Width): u64
    requires v < Pow256(w)
  {
    WidthFits(w);
    v + W64 - Pow256(w)
  }

  // ---- Decoding ---------------------------------------------------------

  function SignExtend12(v: nat): int {
    if v >= 0x800 then v - 0x1000 else v
  }

  /** The 32-bit encodings of I, F and D that occur here; everything else is `Other`. */
  function Decode32(w: u32): Instr {
    var rd: Reg := w / 0x80 % 32;
    var funct3 := w / 0x1000 % 8;
    var rs1: Reg := w / 0x8000 % 32;
    var rs2: Reg := w / 0x10_0000 % 32;
    var funct7 := w / 0x200_0000;
    var immI := SignExtend12(w / 0x10_0000);
    var immS := SignExtend12(funct7 * 32 + rd);
    match w % 0x80
    case 0x03 =>
      if funct3 < 4 then Load(WidthOf(funct3), true, rd, rs1, immI)
      else if funct3 < 7 then Load(WidthOf(funct3 - 4), false, rd, rs1, immI)
      else Other
    case 0x07 =>
      if funct3 == 2 || funct3 == 3 then FLoad(WidthOf(funct3), rd, rs1, immI) else Other
    case 0x23 =>
      if funct3 < 4 then Store(WidthOf(funct3), rs2, rs1, immS) else Other
    case 0x27 =>
      if funct3 == 2 || funct3 == 3 then FStore(WidthOf(funct3), rs2, rs1, immS) else Other
    case 0x37 => Lui(rd, w - w % 0x1000)
    case 0x13 =>
      if funct3 == 0 then Addi(rd, rs1, immI)
      else if funct3 == 6 then Ori(rd, rs1, Wrap(immI))
      else if funct3 == 1 && w / 0x400_0000 == 0 then Slli(rd, rs1, w / 0x10_0000 % 64)
      else Other
    case 0x33 =>
      if funct7 == 0 && funct3 == 6 then Or(rd, rs1, rs2)
      else if funct7 == 0 && funct3 == 7 then And(rd, rs1, rs2)
      else Other
    case 0x6f => Jal(rd, ImmJ(w))
    case 0x67 => if funct3 == 0 then Jalr(rd, rs1, immI) else Other
    case 0x73 => if w == 0x73 then Ecall else Other
    case _ => Other
  }

  function WidthOf(log: nat): Width
    requires log < 4
  {
    if log == 0 then 1 else if log == 1 then 2 else if log == 2 then 4 else 8
  }

  /** The scrambled jump offset of the J format. */
  function ImmJ(w: u32): int {
    w / 0x20_0000 % 0x400 * 2 + w / 0x10_0000 % 2 * 0x800 + w / 0x1000 % 0x100 * 0x1000
    - w / 0x8000_0000 * 0x10_0000
  }

  /** The 16-bit loads and stores of section 16.3. */
  function Decode16(h: u16): Instr {
    var rdc: Reg := 8 + h / 4 % 8;
    var rs1c: Reg := 8 + h / 0x80 % 8;
    var rd: Reg := h / 0x80 % 32;
    var rs2: Reg := h / 4 % 32;
    var immW := h / 0x400 % 8 * 8 + h / 0x40 % 2 * 4 + h / 0x20 % 2 * 0x40;
    var immD := h / 0x400 % 8 * 8 + h / 0x20 % 4 * 0x40;
    var immLwsp := h / 0x1000 % 2 * 0x20 + h / 0x10 % 8 * 4 + h / 4 % 4 * 0x40;
    var immLdsp := h / 0x1000 % 2 * 0x20 + h / 0x20 % 4 * 8 + h / 4 % 8 * 0x40;
    var immSwsp := h / 0x200 % 16 * 4 + h / 0x80 % 4 * 0x40;
    var immSdsp := h / 0x400 % 8 * 8 + h / 0x80 % 8 * 0x40;
    match (h % 4, h / 0x2000)
    case (0, 1) => FLoad(8, rdc, rs1c, immD)
    case (0, 2) => Load(4, true, rdc, rs1c, immW)
    case (0, 3) => Load(8, true, rdc, rs1c, immD)
    case (0, 5) => FStore(8, rdc, rs1c, immD)
    case (0, 6) => Store(4, rdc, rs1c, immW)
    case (0, 7) => Store(8, rdc, rs1c, immD)
    case (2, 1) => FLoad(8, rd, SP, immLdsp)
    case (2, 2) => if rd == 0 then Other else Load(4, true, rd, SP, immLwsp)
    case (2, 3) => if rd == 0 then Other else Load(8, true, rd, SP, immLdsp)
    case (2, 5) => FStore(8, rs2, SP, immSdsp)
    case (2, 6) => Store(4, rs2, SP, immSwsp)
    case (2, 7) => Store(8, rs2, SP, immSdsp)
    case _ => Other
  }

  /** Section 1.5: two low bits of ones mark an encoding longer than 16 bits. */
  predicate Is32Bit(m: Mem, pc: nat) {
    LoadHalf(m, pc) % 4 == 3
  }

  function FetchInstr(m: Mem, pc: nat): Instr {
    if Is32Bit(m, pc) then Decode32(LoadWord(m, pc)) else Decode16(LoadHalf(m, pc))
  }

  function FetchLen(m: Mem, pc: nat): nat {
    if Is32Bit(m, pc) then 4 else 2
  }

  // ---- Execution --------------------------------------------------------

  predicate IsMem(i: Instr) {
    i.Load? || i.FLoad? || i.Store? || i.FStore?
  }

  /** Effective address of a load or store. */
  function Ea(i: Instr, c: Core): u64
    requires IsMem(i)
  {
    Wrap(Get(c, i.rs1) + i.imm)
  }

  datatype Effect = Effect(core: Core, mem: Mem)

  /** A load or store of encoded length `len` whose data lies at address `a`. */
  function ExecMem(i: Instr, c: Core, m: Mem, a: nat, len: nat): Effect
    requires IsMem(i)
  {
    match i
    case Load(w, signed, rd, _, _) =>
      Effect(Skip(Set(c, rd, Extend(LoadLE(m, a, w), w, signed)), len), m)
    case FLoad(w, fd, _, _) =>
      Effect(Skip(SetF(c, fd, NanBox(LoadLE(m, a, w), w)), len), m)
    case Store(w, rs2, _, _) =>
      Effect(Skip(c, len), StoreLE(m, a, w, Get(c, rs2)))
    case FStore(w, fs2, _, _) =>
      Effect(Skip(c, len), StoreLE(m, a, w, c.f[fs2]))
  }

  /** Instructions that need neither the kernel nor the debugger. */
  predicate Plain(i: Instr) {
    !i.Ecall? && !i.Ebreak? && !i.Other?
  }

  function OrWord(a: u64, b: u64): u64 {
    Pow2Table();
    OrBound(a, b, 64);
    BitOr(a, b)
  }

  function AndWord(a: u64, b: u64): u64 {
    AndBound(a, b);
    BitAnd(a, b)
  }

  /** One 32-bit instruction, or one assembler pseudo-instruction counted as 4 bytes. */
  function Exec(i: Instr, c: Core, m: Mem): Effect
    requires Plain(i)
  {
    if IsMem(i) then ExecMem(i, c, m, Ea(i, c), 4)
    else Effect(ExecReg(i, c), m)
  }

  function ExecReg(i: Instr, c: Core): Core
    requires Plain(i) && !IsMem(i)
  {
    match i
    case Lui(rd, upper) =>
      Skip(Set(c, rd, if upper >= 0x8000_0000 then upper + W64 - 0x1_0000_0000 else upper), 4)
    case Addi(rd, rs1, imm) => Skip(Set(c, rd, Wrap(Get(c, rs1) + imm)), 4)
    case Ori(rd, rs1, uimm) => Skip(Set(c, rd, OrWord(Get(c, rs1), uimm)), 4)
    case Slli(rd, rs1, shamt) => Skip(Set(c, rd, Wrap(Get(c, rs1) * Pow2(shamt))), 4)
    case Srli(rd, rs1, shamt) => Skip(Set(c, rd, Wrap(Get(c, rs1) / Pow2(shamt))), 4)
    case And(rd, rs1, rs2) => Skip(Set(c, rd, AndWord(Get(c, rs1), Get(c, rs2))), 4)
    case Or(rd, rs1, rs2) => Skip(Set(c, rd, OrWord(Get(c, rs1), Get(c, rs2))), 4)
    case Jal(rd, off) => Set(c, rd, Wrap(c.pc + 4)).(pc := Wrap(c.pc + off))
    case Jalr(rd, rs1, imm) =>
      var target := Wrap(Get(c, rs1) + imm);
      Set(c, rd, Wrap(c.pc + 4)).(pc := target - target % 2)
    case Beq(rs1, rs2, off) =>
      if Get(c, rs1) == Get(c, rs2) then c.(pc := Wrap(c.pc + off)) else Skip(c, 4)
    case La(rd, addr) => Skip(Set(c, rd, addr), 4)
    case CallSymbol(addr) => Set(c, RA, Wrap(c.pc + 4)).(pc := addr)
  }
}
