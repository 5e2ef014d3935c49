/**
Loads and stores in the formats of the RISC-V manual, field by field, and that the
reference decoder reads every one of them back: sections 2.2, 2.6, 5.3, 11.5, 12.3
for the 32-bit formats, section 16.3 for the compressed ones.
*/
module Encoding {
  import opened Bits
  import opened Isa

  // ---- 32 bits -----------------------------------------------------------------

  /** opcode in 6:0, rd or imm[4:0] in 11:7, funct3 in 14:12, rs1 in 19:15, the rest above. */
  function Assemble(opcode: nat, low: nat, funct3: nat, rs1: nat, high: nat): nat {
    opcode + 0x80 * low + 0x1000 * funct3 + 0x8000 * rs1 + 0x10_0000 * high
  }

  lemma Fields(opcode: nat, low: nat, funct3: nat, rs1: nat, high: nat)
    requires opcode < 0x80 && low < 32 && funct3 < 8 && rs1 < 32 && high < 0x1000
    ensures var w := Assemble(opcode, low, funct3, rs1, high);
            && w < 0x1_0000_0000
            && w % 0x80 == opcode && w / 0x80 % 32 == low && w / 0x1000 % 8 == funct3 && w / 0x8000 % 32 == rs1
            && w / 0x10_0000 == high && w / 0x10_0000 % 32 == high % 32 && w / 0x200_0000 == high / 32
  {
    var w := Assemble(opcode, low, funct3, rs1, high);
    var a := rs1 + 32 * high;
    var b := funct3 + 8 * a;
    var c := low + 32 * b;
    DivModUnique(w, 0x80, c, opcode);
    DivModUnique(c, 32, b, low);
    DivModUnique(w, 0x1000, b, opcode + 0x80 * low);
    DivModUnique(b, 8, a, funct3);
    DivModUnique(w, 0x8000, a, opcode + 0x80 * low + 0x1000 * funct3);
    DivModUnique(a, 32, high, rs1);
    DivModUnique(w, 0x10_0000, high, opcode + 0x80 * low + 0x1000 * funct3 + 0x8000 * rs1);
    DivModUnique(w, 0x200_0000, high / 32, opcode + 0x80 * low + 0x1000 * funct3 + 0x8000 * rs1 + 0x10_0000 * (high % 32));
  }

  /** A displacement as twelve bits of two's complement. */
  function Imm12(imm: int): nat
    requires -0x800 <= imm < 0x800
  {
    if imm < 0 then imm + 0x1000 else imm
  }

  /** LB, LH, LW, LD, LBU, LHU, LWU; there is no unsigned doubleword. */
  function LoadFunct3(width: Width, signed: bool): nat {
    if signed then (if width == 1 then 0 else if width == 2 then 1 else if width == 4 then 2 else 3)
    else (if width == 1 then 4 else if width == 2 then 5 else if width == 4 then 6 else 7)
  }

  /** SB, SH, SW, SD; FLW and FSW are 2, FLD and FSD are 3. */
  function StoreFunct3(width: Width): nat {
    if width == 1 then 0 else if width == 2 then 1 else if width == 4 then 2 else 3
  }

  /** LOAD 0000011 and LOAD-FP 0000111 in the I format, STORE 0100011 and STORE-FP 0100111 in the S format. */
  function Encode(i: Instr): nat
    requires IsMem(i) && -0x800 <= i.imm < 0x800
  {
    var imm := Imm12(i.imm);
    match i
    case Load(w, signed, rd, rs1, _) => Assemble(0x03, rd, LoadFunct3(w, signed), rs1, imm)
    case FLoad(w, fd, rs1, _) => Assemble(0x07, fd, StoreFunct3(w), rs1, imm)
    case Store(w, rs2, rs1, _) => Assemble(0x23, imm % 32, StoreFunct3(w), rs1, rs2 + 32 * (imm / 32))
    case FStore(w, fs2, rs1, _) => Assemble(0x27, imm % 32, StoreFunct3(w), rs1, fs2 + 32 * (imm / 32))
  }

  /** Instructions that have a 32-bit encoding. */
  predicate Encodable(i: Instr) {
    && IsMem(i) && -0x800 <= i.imm < 0x800
    && (i.Load? ==> i.signed || i.width != 8)
    && (i.FLoad? || i.FStore? ==> i.width == 4 || i.width == 8)
  }

  lemma SignBack(imm: int)
    requires -0x800 <= imm < 0x800
    ensures Imm12(imm) < 0x1000 && SignExtend12(Imm12(imm)) == imm
  {
  }

  lemma Funct3Back(w: Width)
    ensures StoreFunct3(w) < 4 && WidthOf(StoreFunct3(w)) == w
    ensures LoadFunct3(w, true) < 4 && WidthOf(LoadFunct3(w, true) % 4) == w
    ensures 4 <= LoadFunct3(w, false) <= 7 && WidthOf(LoadFunct3(w, false) % 4) == w
    ensures w != 8 ==> LoadFunct3(w, false) < 7
    ensures w == 4 ==> StoreFunct3(w) == 2
    ensures w == 8 ==> StoreFunct3(w) == 3
  {
  }

  /** The decoder reads every load and store back, with its sign, width, registers and displacement. */
  lemma DecodeEncode(i: Instr)
    requires Encodable(i)
    ensures Encode(i) < 0x1_0000_0000 && Encode(i) % 4 == 3 && Decode32(Encode(i)) == i
  {
    hide Decode32, LoadFunct3, StoreFunct3, WidthOf, SignExtend12, Assemble, Imm12;
    var imm := Imm12(i.imm);
    SignBack(i.imm);
    Funct3Back(i.width);
    match i {
      case Load(w, signed, rd, rs1, _) => IFormat(0x03, rd, LoadFunct3(w, signed), rs1, imm);
      case FLoad(w, fd, rs1, _) => IFormat(0x07, fd, StoreFunct3(w), rs1, imm);
      case Store(w, rs2, rs1, _) => SFormat(0x23, rs2, StoreFunct3(w), rs1, imm);
      case FStore(w, fs2, rs1, _) => SFormat(0x27, fs2, StoreFunct3(w), rs1, imm);
    }
  }

  lemma IFormat(opcode: nat, rd: Reg, funct3: nat, rs1: Reg, imm: nat)
    requires (opcode == 0x03 || opcode == 0x07) && funct3 < 7 && imm < 0x1000
    requires opcode == 0x07 ==> funct3 == 2 || funct3 == 3
    ensures var w := Assemble(opcode, rd, funct3, rs1, imm);
            && w < 0x1_0000_0000 && w % 4 == 3
            && Decode32(w) == if opcode == 0x03
                              then Load(WidthOf(funct3 % 4), funct3 < 4, rd, rs1, SignExtend12(imm))
                              else FLoad(WidthOf(funct3), rd, rs1, SignExtend12(imm))
  {
    Fields(opcode, rd, funct3, rs1, imm);
    LowTwo(Assemble(opcode, rd, funct3, rs1, imm));
    hide Assemble, SignExtend12;
  }

  lemma SFormat(opcode: nat, rs2: Reg, funct3: nat, rs1: Reg, imm: nat)
    requires (opcode == 0x23 || opcode == 0x27) && funct3 < 4 && imm < 0x1000
    requires opcode == 0x27 ==> funct3 == 2 || funct3 == 3
    ensures var w := Assemble(opcode, imm % 32, funct3, rs1, rs2 + 32 * (imm / 32));
            && w < 0x1_0000_0000 && w % 4 == 3
            && Decode32(w) == if opcode == 0x23 then Store(WidthOf(funct3), rs2, rs1, SignExtend12(imm))
                              else FStore(WidthOf(funct3), rs2, rs1, SignExtend12(imm))
  {
    var high := rs2 + 32 * (imm / 32);
    DivModUnique(high, 32, imm / 32, rs2);
    Fields(opcode, imm % 32, funct3, rs1, high);
    LowTwo(Assemble(opcode, imm % 32, funct3, rs1, high));
    hide Assemble, SignExtend12;
  }

  lemma LowTwo(w: nat)
    ensures w % 0x80 % 4 == w % 4
  {
  }

  // ---- 16 bits -----------------------------------------------------------------

  /** Quadrant in 1:0, then fields of 3, 2, 3, 3 and 3 bits: the CL and CS formats. */
  function AssembleC(quadrant: nat, rd: nat, low: nat, rs1: nat, high: nat, funct3: nat): nat {
    quadrant + 4 * rd + 0x20 * low + 0x80 * rs1 + 0x400 * high + 0x2000 * funct3
  }

  lemma FieldsC(rd: nat, low: nat, rs1: nat, high: nat, funct3: nat)
    requires rd < 8 && low < 4 && rs1 < 8 && high < 8 && funct3 < 8
    ensures var h := AssembleC(0, rd, low, rs1, high, funct3);
            && h < 0x1_0000 && h % 4 == 0 && h / 0x2000 == funct3
            && h / 4 % 8 == rd && h / 0x80 % 8 == rs1 && h / 0x400 % 8 == high
            && h / 0x20 % 4 == low && h / 0x20 % 2 == low % 2 && h / 0x40 % 2 == low / 2
  {
    var h := AssembleC(0, rd, low, rs1, high, funct3);
    var a := high + 8 * funct3;
    var b := rs1 + 8 * a;
    var c := low + 4 * b;
    DivModUnique(h, 4, rd + 8 * c, 0);
    DivModUnique(rd + 8 * c, 8, c, rd);
    DivModUnique(h, 0x20, c, 4 * rd);
    DivModUnique(c, 4, b, low);
    DivModUnique(c, 2, low / 2 + 2 * b, low % 2);
    DivModUnique(h, 0x40, low / 2 + 2 * b, 4 * rd + 0x20 * (low % 2));
    DivModUnique(low / 2 + 2 * b, 2, b, low / 2);
    DivModUnique(h, 0x80, b, 4 * rd + 0x20 * low);
    DivModUnique(b, 8, a, rs1);
    DivModUnique(h, 0x400, a, 4 * rd + 0x20 * low + 0x80 * rs1);
    DivModUnique(a, 8, funct3, high);
    DivModUnique(h, 0x2000, funct3, 4 * rd + 0x20 * low + 0x80 * rs1 + 0x400 * high);
  }

  /** C.LW and C.SW: offset[5:3] in 12:10, offset[2|6] in 6:5; x8-x15 in three bits. */
  function EncodeCW(store: bool, reg: nat, base: nat, off: nat): nat {
    AssembleC(0, reg, off / 4 % 2 * 2 + off / 0x40, base, off / 8 % 8, if store then 6 else 2)
  }

  /** C.LD, C.SD, C.FLD and C.FSD: offset[5:3] in 12:10, offset[7:6] in 6:5. */
  function EncodeCD(store: bool, float: bool, reg: nat, base: nat, off: nat): nat {
    AssembleC(0, reg, off / 0x40, base, off / 8 % 8, (if store then 4 else 0) + (if float then 1 else 3))
  }

  lemma DecodeCW(store: bool, reg: nat, base: nat, off: nat)
    requires reg < 8 && base < 8 && off < 0x80 && off % 4 == 0
    ensures EncodeCW(store, reg, base, off) < 0x1_0000
    ensures Decode16(EncodeCW(store, reg, base, off))
            == if store then Store(4, 8 + reg, 8 + base, off) else Load(4, true, 8 + reg, 8 + base, off)
  {
    hide AssembleC, Decode16;
    OffsetCW(off);
    FieldsC(reg, off / 4 % 2 * 2 + off / 0x40, base, off / 8 % 8, if store then 6 else 2);
    ReadCW(EncodeCW(store, reg, base, off), store, off);
  }

  lemma OffsetCW(off: nat)
    requires off < 0x80 && off % 4 == 0
    ensures var low := off / 4 % 2 * 2 + off / 0x40; 0 <= low < 4 && low / 2 == off / 4 % 2 && low % 2 == off / 0x40
    ensures off / 8 % 8 * 8 + off / 4 % 2 * 4 + off / 0x40 * 0x40 == off
  {
    Digits(off, 4, 2);
    Digits(off, 8, 8);
    DivModUnique(off / 4 % 2 * 2 + off / 0x40, 2, off / 4 % 2, off / 0x40);
  }

  /** What the decoder makes of the fields of C.LW and C.SW. */
  lemma ReadCW(h: nat, store: bool, off: nat)
    requires h < 0x1_0000 && h % 4 == 0 && h / 0x2000 == if store then 6 else 2
    requires h / 0x400 % 8 * 8 + h / 0x40 % 2 * 4 + h / 0x20 % 2 * 0x40 == off
    ensures var rd, rs1 := 8 + h / 4 % 8, 8 + h / 0x80 % 8;
            Decode16(h) == if store then Store(4, rd, rs1, off) else Load(4, true, rd, rs1, off)
  {
  }

  /** A number in digits: what lies above `d`, split at `d * m`. */
  lemma Digits(n: nat, d: nat, m: nat)
    requires d > 0 && m > 0
    ensures d * m > 0 && n / d == n / (d * m) * m + n / d % m
  {
    PositiveProduct(d, m);
    var p := d * m;
    var a, e := n / p, n % p;
    var r, t := e / d, e % d;
    QuotientNonNegative(n, p);
    QuotientNonNegative(e, d);
    SmallerFactor(d, r, m, t);
    Distribute(d, m, a, r);
    DivModUnique(n, d, m * a + r, t);
    DivModUnique(m * a + r, m, a, r);
  }

  lemma PositiveProduct(d: nat, m: nat)
    requires d > 0 && m > 0
    ensures d * m > 0
  {
  }

  lemma SmallerFactor(d: nat, r: int, m: nat, t: nat)
    requires d > 0 && d * r + t < d * m
    ensures r < m
  {
    assert d * (m - r) == d * m - d * r;
  }

  lemma Distribute(d: nat, m: nat, a: nat, r: nat)
    ensures d * (m * a + r) == d * m * a + d * r && m * a >= 0
  {
    assert d * (m * a) == d * m * a;
  }

  lemma DecodeCD(store: bool, float: bool, reg: nat, base: nat, off: nat)
    requires reg < 8 && base < 8 && off < 0x100 && off % 8 == 0
    ensures EncodeCD(store, float, reg, base, off) < 0x1_0000
    ensures Decode16(EncodeCD(store, float, reg, base, off))
            == match (store, float)
               case (false, false) => Load(8, true, 8 + reg, 8 + base, off)
               case (true, false) => Store(8, 8 + reg, 8 + base, off)
               case (false, true) => FLoad(8, 8 + reg, 8 + base, off)
               case (true, true) => FStore(8, 8 + reg, 8 + base, off)
  {
    FieldsC(reg, off / 0x40, base, off / 8 % 8, (if store then 4 else 0) + (if float then 1 else 3));
    Digits(off, 8, 8);
    hide AssembleC;
  }

  /** The CI format: 5 bits in 6:2, rd in 11:7, one bit in 12. */
  function AssembleCI(low: nat, rd: nat, bit: nat, funct3: nat): nat {
    2 + 4 * low + 0x80 * rd + 0x1000 * bit + 0x2000 * funct3
  }

  lemma FieldsCI(low: nat, rd: nat, bit: nat, funct3: nat)
    requires low < 32 && rd < 32 && bit < 2 && funct3 < 8
    ensures var h := AssembleCI(low, rd, bit, funct3);
            && h < 0x1_0000 && h % 4 == 2 && h / 0x2000 == funct3
            && h / 0x80 % 32 == rd && h / 0x1000 % 2 == bit
            && h / 4 % 4 == low % 4 && h / 4 % 8 == low % 8 && h / 0x10 % 8 == low / 4 && h / 0x20 % 4 == low / 8
  {
    var h := AssembleCI(low, rd, bit, funct3);
    var a := bit + 2 * funct3;
    var b := rd + 32 * a;
    var c := low + 32 * b;
    DivModUnique(h, 4, c, 2);
    DivModUnique(c, 4, low / 4 + 8 * b, low % 4);
    DivModUnique(c, 8, low / 8 + 4 * b, low % 8);
    DivModUnique(h, 0x10, low / 4 + 8 * b, 2 + 4 * (low % 4));
    DivModUnique(low / 4 + 8 * b, 8, b, low / 4);
    DivModUnique(h, 0x20, low / 8 + 4 * b, 2 + 4 * (low % 8));
    DivModUnique(low / 8 + 4 * b, 4, b, low / 8);
    DivModUnique(h, 0x80, b, 2 + 4 * low);
    DivModUnique(b, 32, a, rd);
    DivModUnique(h, 0x1000, a, 2 + 4 * low + 0x80 * rd);
    DivModUnique(a, 2, funct3, bit);
    DivModUnique(h, 0x2000, funct3, 2 + 4 * low + 0x80 * rd + 0x1000 * bit);
  }

  /** C.LWSP: offset[5] in 12, offset[4:2|7:6] in 6:2. */
  lemma DecodeLwsp(rd: Reg, off: nat)
    requires rd != 0 && off < 0x100 && off % 4 == 0
    ensures var h := AssembleCI(off / 4 % 8 * 4 + off / 0x40, rd, off / 0x20 % 2, 2);
            h < 0x1_0000 && Decode16(h) == Load(4, true, rd, SP, off)
  {
    var low := off / 4 % 8 * 4 + off / 0x40;
    FieldsCI(low, rd, off / 0x20 % 2, 2);
    DivModUnique(low, 4, off / 4 % 8, off / 0x40);
    Digits(off, 4, 8);
    Digits(off, 0x20, 2);
    hide AssembleCI;
  }

  /** C.LDSP and C.FLDSP: offset[5] in 12, offset[4:3|8:6] in 6:2. */
  lemma DecodeLdsp(float: bool, rd: Reg, off: nat)
    requires (float || rd != 0) && off < 0x200 && off % 8 == 0
    ensures var h := AssembleCI(off / 8 % 4 * 8 + off / 0x40, rd, off / 0x20 % 2, if float then 1 else 3);
            h < 0x1_0000 && Decode16(h) == if float then FLoad(8, rd, SP, off) else Load(8, true, rd, SP, off)
  {
    var low := off / 8 % 4 * 8 + off / 0x40;
    FieldsCI(low, rd, off / 0x20 % 2, if float then 1 else 3);
    DivModUnique(low, 8, off / 8 % 4, off / 0x40);
    Digits(off, 8, 4);
    Digits(off, 0x20, 2);
    hide AssembleCI;
  }

  /** The CSS format: rs2 in 6:2, six bits in 12:7. */
  function AssembleCSS(rs2: nat, off: nat, funct3: nat): nat {
    2 + 4 * rs2 + 0x80 * off + 0x2000 * funct3
  }

  lemma FieldsCSS(rs2: nat, off: nat, funct3: nat)
    requires rs2 < 32 && off < 64 && funct3 < 8
    ensures var h := AssembleCSS(rs2, off, funct3);
            && h < 0x1_0000 && h % 4 == 2 && h / 0x2000 == funct3 && h / 4 % 32 == rs2
            && h / 0x80 % 4 == off % 4 && h / 0x80 % 8 == off % 8 && h / 0x200 % 16 == off / 4 && h / 0x400 % 8 == off / 8
  {
    var h := AssembleCSS(rs2, off, funct3);
    var a := off + 64 * funct3;
    DivModUnique(h, 4, rs2 + 32 * a, 2);
    DivModUnique(rs2 + 32 * a, 32, a, rs2);
    DivModUnique(h, 0x80, a, 2 + 4 * rs2);
    DivModUnique(a, 4, off / 4 + 16 * funct3, off % 4);
    DivModUnique(a, 8, off / 8 + 8 * funct3, off % 8);
    DivModUnique(h, 0x200, off / 4 + 16 * funct3, 2 + 4 * rs2 + 0x80 * (off % 4));
    DivModUnique(off / 4 + 16 * funct3, 16, funct3, off / 4);
    DivModUnique(h, 0x400, off / 8 + 8 * funct3, 2 + 4 * rs2 + 0x80 * (off % 8));
    DivModUnique(off / 8 + 8 * funct3, 8, funct3, off / 8);
    DivModUnique(h, 0x2000, funct3, 2 + 4 * rs2 + 0x80 * off);
  }

  /** C.SWSP: offset[5:2|7:6] in 12:7. */
  lemma DecodeSwsp(rs2: Reg, off: nat)
    requires off < 0x100 && off % 4 == 0
    ensures var h := AssembleCSS(rs2, off / 4 % 16 * 4 + off / 0x40, 6);
            h < 0x1_0000 && Decode16(h) == Store(4, rs2, SP, off)
  {
    var six := off / 4 % 16 * 4 + off / 0x40;
    FieldsCSS(rs2, six, 6);
    DivModUnique(six, 4, off / 4 % 16, off / 0x40);
    Digits(off, 4, 16);
    hide AssembleCSS;
  }

  /** C.SDSP and C.FSDSP: offset[5:3|8:6] in 12:7. */
  lemma DecodeSdsp(float: bool, rs2: Reg, off: nat)
    requires off < 0x200 && off % 8 == 0
    ensures var h := AssembleCSS(rs2, off / 8 % 8 * 8 + off / 0x40, if float then 5 else 7);
            h < 0x1_0000 && Decode16(h) == if float then FStore(8, rs2, SP, off) else Store(8, rs2, SP, off)
  {
    var six := off / 8 % 8 * 8 + off / 0x40;
    FieldsCSS(rs2, six, if float then 5 else 7);
    DivModUnique(six, 8, off / 8 % 8, off / 0x40);
    Digits(off, 8, 8);
    hide AssembleCSS;
  }
}
