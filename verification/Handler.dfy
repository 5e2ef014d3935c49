/**
src/sigsegv_handler.c: decoding and emulating the load or store that faulted on
the execute-only page. The saved context keeps pc where x0 would be.
*/
module Handler {
  import opened Bits
  import opened Isa
  import opened AccessBytes

  datatype Outcome =
    | Resumed   // the context has been updated and the thread goes on
    | Outside   // the fault is not in the execute-only range
    | Fatal     // the instruction is not supported: exit(1)

  // ---- Fields and casts -------------------------------------------------

  /** `get_field`: shift, mask, and the cut to eight bits of the result type. */
  function GetField(instr: u32, start: nat, len: nat): nat {
    BitAnd(Shr(instr, start), Pow2(len) - 1) % 256
  }

  /** For fields of at most eight bits nothing is cut off. */
  lemma FieldIs(instr: u32, start: nat, len: nat)
    requires len <= 8
    ensures GetField(instr, start, len) == instr / Pow2(start) % Pow2(len)
  {
    hide BitAnd, Pow2, Shr;
    var shifted := Shr(instr, start);
    ShrIsDiv(instr, start);
    AndLowMask(shifted, len);
    Pow2Small(len);
    assert shifted % Pow2(len) < 256;
  }

  lemma Pow2Small(len: nat)
    requires len <= 8
    ensures Pow2(len) <= 256
  {
    Pow2Add(len, 8 - len);
    assert Pow2(8) == 256 by { Pow2Add(4, 4); }
    MulAtLeast(Pow2(len), Pow2(8 - len));
  }

  lemma FieldPowers()
    ensures Pow2(0) == 1 && Pow2(2) == 4 && Pow2(3) == 8 && Pow2(5) == 32 && Pow2(7) == 0x80
    ensures Pow2(12) == 0x1000 && Pow2(13) == 0x2000 && Pow2(20) == 0x10_0000
  {
    Pow2Table();
    assert Pow2(5) == 32;
    assert Pow2(7) == 0x80;
    Pow2Add(12, 1);
  }

  /** A two's complement value of `w` bytes. */
  function ToSigned(v: nat, w: Width): int
    requires v < Pow256(w)
  {
    if 2 * v >= Pow256(w) then v - Pow256(w) else v
  }

  /** Widening a signed value to the 64-bit slot of a register. */
  lemma SignedCast(v: nat, w: Width)
    requires v < Pow256(w)
    ensures Wrap(ToSigned(v, w)) == Extend(v, w, true)
    ensures Wrap(v) == Extend(v, w, false)
  {
    WidthFits(w);
    hide Pow256;
  }

  /** Reading through a pointer to a signed integer of `w` bytes, widened to 64 bits. */
  function SignedLoad(m: Mem, a: nat, w: Width): (v: u64)
    ensures v == Extend(LoadLE(m, a, w), w, true)
  {
    SignedCast(LoadLE(m, a, w), w);
    Wrap(ToSigned(LoadLE(m, a, w), w))
  }

  /** The same through a pointer to an unsigned one. */
  function UnsignedLoad(m: Mem, a: nat, w: Width): (v: u64)
    ensures v == Extend(LoadLE(m, a, w), w, false)
  {
    SignedCast(LoadLE(m, a, w), w);
    Wrap(LoadLE(m, a, w))
  }

  lemma BoxedFloat(v: nat)
    requires v < 0x1_0000_0000
    ensures BitOr(0xffff_ffff_0000_0000, v) == v + 0xffff_ffff_0000_0000
  {
    Pow2Table();
    OrDisjoint(0xffff_ffff, v, 32);
  }

  /** A store only takes the low bytes of its operand. */
  lemma {:induction false} StoreTruncates(m: Mem, a: nat, n: nat, v: nat)
    ensures StoreLE(m, a, n, v % Pow256(n)) == StoreLE(m, a, n, v)
    decreases n
  {
    if n > 0 {
      var p := Pow256(n - 1);
      var low := v % (256 * p);
      assert low % 256 == v % 256 && low / 256 == v / 256 % p by { SplitByte(v, p); }
      StoreTruncates(m[a := v % 256], a + 1, n - 1, v / 256);
    }
  }

  lemma SplitByte(v: nat, p: nat)
    requires p > 0
    ensures v % (256 * p) % 256 == v % 256 && v % (256 * p) / 256 == v / 256 % p
  {
    var q, r := v / 256 / p, v / 256 % p;
    assert v / 256 == p * q + r;
    assert v == (256 * p) * q + (256 * r + v % 256) by {
      assert 256 * (p * q) == (256 * p) * q;
    }
    DivModUnique(v, 256 * p, q, 256 * r + v % 256);
  }

  lemma Fields32(w: u32)
    ensures GetField(w, 0, 7) == w % 0x80 && GetField(w, 12, 3) == w / 0x1000 % 8
    ensures GetField(w, 7, 5) == w / 0x80 % 32 && GetField(w, 20, 5) == w / 0x10_0000 % 32
  {
    hide GetField, Pow2;
    FieldPowers();
    FieldIs(w, 0, 7);
    FieldIs(w, 12, 3);
    FieldIs(w, 7, 5);
    FieldIs(w, 20, 5);
  }

  lemma Fields16(h: u16)
    ensures GetField(h, 0, 2) == h % 4 && GetField(h, 13, 3) == h / 0x2000
    ensures GetField(h, 2, 3) == h / 4 % 8 && GetField(h, 7, 5) == h / 0x80 % 32 && GetField(h, 2, 5) == h / 4 % 32
  {
    hide GetField, Pow2;
    FieldPowers();
    FieldIs(h, 0, 2);
    TopField(h);
    FieldIs(h, 2, 3);
    FieldIs(h, 7, 5);
    FieldIs(h, 2, 5);
  }

  lemma TopField(h: u16)
    ensures GetField(h, 13, 3) == h / 0x2000
  {
    hide GetField, Pow2;
    FieldPowers();
    FieldIs(h, 13, 3);
    assert h / 0x2000 < 8;
  }

  // ---- Range and decoding ------------------------------------------------

  /** The handler's range check. */
  predicate InXom(faultAddr: u64, page: u64, size: u64) {
    var last: u64 := Wrap(page as int + size - 1);
    page <= faultAddr <= last
  }

  function BackupAddr(faultAddr: u64, page: u64, startAddrPage: u64): u64 {
    Wrap(startAddrPage as int + faultAddr - page)
  }

  /** The operation a compressed load or store performs, its address apart. */
  function CInstr(funct3: nat, rd: Reg, rs2: Reg): Instr {
    match funct3
    case 1 => FLoad(8, rd, SP, 0)
    case 2 => Load(4, true, rd, SP, 0)
    case 3 => Load(8, true, rd, SP, 0)
    case 5 => FStore(8, rs2, SP, 0)
    case 6 => Store(4, rs2, SP, 0)
    case 7 => Store(8, rs2, SP, 0)
    case _ => Other
  }

  const RVC_REG_MAP: seq<Reg> := [8, 9, 10, 11, 12, 13, 14, 15]

  predicate Ignored32(w: u32) {
    w % 0x80 == 0x03 && w / 0x1000 % 8 == 7 && w / 0x80 % 32 == 0
  }

  predicate Ignored16(h: u16) {
    h % 4 == 2 && (h / 0x2000 == 2 || h / 0x2000 == 3) && h / 0x80 % 32 == 0
  }

  // ---- Reference --------------------------------------------------------

  /** Encodings outside the ISA's loads and stores that the handler steps over: their rd is x0. */
  predicate SteppedOver(m: Mem, pc: nat) {
    if Is32Bit(m, pc) then Ignored32(LoadWord(m, pc)) else Ignored16(LoadHalf(m, pc))
  }

  /** Instructions the handler does not give up on. */
  predicate Handles(m: Mem, pc: nat) {
    IsMem(FetchInstr(m, pc)) || SteppedOver(m, pc)
  }

  /** What the handler must make of the context, the data being at address `a`. */
  ghost function Emulated(c: Core, m: Mem, a: nat): Effect
    requires Handles(m, c.pc)
  {
    if IsMem(FetchInstr(m, c.pc)) then ExecMem(FetchInstr(m, c.pc), c, m, a, FetchLen(m, c.pc))
    else Effect(Skip(c, FetchLen(m, c.pc)), m)
  }

  /** The load or store at `a` without the step of pc. */
  function Act(i: Instr, c: Core, m: Mem, a: nat): Effect
    requires IsMem(i)
  {
    ExecMem(i, c, m, a, 0)
  }

  lemma ActThenSkip(i: Instr, c: Core, m: Mem, a: nat, len: nat)
    requires IsMem(i)
    ensures ExecMem(i, c, m, a, len).core == Skip(Act(i, c, m, a).core, len)
    ensures ExecMem(i, c, m, a, len).mem == Act(i, c, m, a).mem
    ensures Act(i, c, m, a).core.pc == c.pc
  {
    hide LoadLE, StoreLE, Extend, NanBox;
  }

  function LoadResult(c: Core, m: Mem, funct3: nat, rd: Reg, a: nat): Core
    requires funct3 < 7
  {
    var w := WidthOf(funct3 % 4);
    Set(c, rd, Extend(LoadLE(m, a, w), w, funct3 < 4))
  }

  lemma NotCompressed(h: u16)
    requires h % 4 != 3
    ensures h % 4 == 1 ==> !IsMem(Decode16(h)) && !Ignored16(h)
  {
  }

  /** The compressed decoder and the handler's field extraction name the same operation. */
  lemma CompressedAct(h: u16, c: Core, m: Mem, a: nat)
    requires h % 4 == 0 || h % 4 == 2
    ensures var funct3 := h / 0x2000;
            var i := if h % 4 == 0 then CInstr(funct3, 8 + h / 4 % 8, 8 + h / 4 % 8)
                     else CInstr(funct3, h / 0x80 % 32, h / 4 % 32);
            && (i != Other <==> IsMem(Decode16(h)) || Ignored16(h))
            && (i != Other ==> Act(i, c, m, a) == if IsMem(Decode16(h)) then Act(Decode16(h), c, m, a) else Effect(c, m))
  {
    hide LoadLE, StoreLE, Extend, NanBox;
  }

  /** x0 reads as zero and cannot be written. */
  lemma ZeroRegister(i: Instr, c: Core, m: Mem, a: nat, len: nat)
    requires IsMem(i)
    ensures i.Store? && i.rs2 == ZERO ==> ExecMem(i, c, m, a, len).mem == StoreLE(m, a, i.width, 0)
    ensures i.Load? && i.rd == ZERO ==> ExecMem(i, c, m, a, len) == Effect(Skip(c, len), m)
  {
    hide LoadLE, StoreLE, Extend, NanBox;
  }

  // ---- The saved context ------------------------------------------------

  /** `ucontext_t` together with the memory the handler reads and writes. */
  class Context {
    const gregs: array<u64>
    const fregs: array<u64>
    var mem: Mem

    ghost predicate Valid() {
      gregs.Length == 32 && fregs.Length == 32 && gregs != fregs
    }

    /** The processor the context describes: slot 0 of gregs is pc, not x0. */
    ghost function View(): Core
      requires Valid()
      reads this, gregs, fregs
    {
      Core([0] + gregs[1..], fregs[..], gregs[0])
    }

    /** `emulate_load_instruction`. */
    method EmulateLoad(funct3: nat, rd: Reg, addr: nat) returns (ok: bool)
      requires Valid() && funct3 < 8
      modifies gregs
      ensures ok <==> rd == 0 || funct3 < 7
      ensures View() == if funct3 < 7 then LoadResult(old(View()), mem, funct3, rd, addr) else old(View())
    {
      hide LoadLE, Extend, Wrap, ToSigned, Pow256;
      if rd == 0 { return true; }
      var v: u64 := 0;
      match funct3 {
        case 0 => v := SignedLoad(mem, addr, 1);
        case 1 => v := SignedLoad(mem, addr, 2);
        case 2 => v := SignedLoad(mem, addr, 4);
        case 3 => v := SignedLoad(mem, addr, 8);
        case 4 => v := UnsignedLoad(mem, addr, 1);
        case 5 => v := UnsignedLoad(mem, addr, 2);
        case 6 => v := UnsignedLoad(mem, addr, 4);
        case _ => return false;
      }
      gregs[rd] := v;
      assert View().x == old(View()).x[rd := v];
      return true;
    }

    /** `emulate_fload_instruction`. */
    method EmulateFLoad(funct3: nat, rd: Reg, addr: nat) returns (ok: bool)
      requires Valid()
      modifies fregs
      ensures ok <==> funct3 == 2 || funct3 == 3
      ensures View() == if ok then SetF(old(View()), rd, NanBox(LoadLE(mem, addr, WidthOf(funct3)), WidthOf(funct3)))
                        else old(View())
    {
      WidthFits(4);
      hide LoadLE;
      match funct3 {
        case 2 =>
          BoxedFloat(LoadLE(mem, addr, 4));
          fregs[rd] := BitOr(0xffff_ffff_0000_0000, LoadLE(mem, addr, 4));
        case 3 => fregs[rd] := LoadLE(mem, addr, 8);
        case _ => return false;
      }
      return true;
    }

    /** `emulate_store_instruction`. */
    method EmulateStore(funct3: nat, rs2: Reg, addr: nat) returns (ok: bool)
      requires Valid()
      modifies this
      ensures ok <==> funct3 < 4
      ensures View() == old(View())
      ensures mem == if ok then StoreLE(old(mem), addr, WidthOf(funct3), Get(old(View()), rs2)) else old(mem)
    {
      hide StoreLE;
      var v: u64 := if rs2 == 0 then 0 else gregs[rs2];
      WidthFits(4);
      match funct3 {
        case 0 => StoreTruncates(mem, addr, 1, v); mem := StoreLE(mem, addr, 1, v % 0x100);
        case 1 => StoreTruncates(mem, addr, 2, v); mem := StoreLE(mem, addr, 2, v % 0x1_0000);
        case 2 => StoreTruncates(mem, addr, 4, v); mem := StoreLE(mem, addr, 4, v % 0x1_0000_0000);
        case 3 => mem := StoreLE(mem, addr, 8, v);
        case _ => return false;
      }
      return true;
    }

    /** `emulate_fstore_instruction`. */
    method EmulateFStore(funct3: nat, rs2: Reg, addr: nat) returns (ok: bool)
      requires Valid()
      modifies this
      ensures ok <==> funct3 == 2 || funct3 == 3
      ensures View() == old(View())
      ensures mem == if ok then StoreLE(old(mem), addr, WidthOf(funct3), old(View()).f[rs2]) else old(mem)
    {
      hide StoreLE;
      WidthFits(4);
      var v := fregs[rs2];
      match funct3 {
        case 2 => StoreTruncates(mem, addr, 4, v); mem := StoreLE(mem, addr, 4, v % 0x1_0000_0000);
        case 3 => mem := StoreLE(mem, addr, 8, v);
        case _ => return false;
      }
      return true;
    }

    /** `emulate_c_load_store_instruction`; `reg` is one of x8-x15 or f8-f15. */
    method EmulateC(funct3: nat, reg: Reg, addr: nat) returns (ok: bool)
      requires Valid() && reg != 0
      modifies this, gregs, fregs
      ensures ok <==> CInstr(funct3, reg, reg) != Other
      ensures Effect(View(), mem)
              == if ok then Act(CInstr(funct3, reg, reg), old(View()), old(mem), addr) else Effect(old(View()), old(mem))
    {
      hide LoadLE, StoreLE, Extend;
      WidthFits(4);
      match funct3 {
        case 1 => fregs[reg] := LoadLE(mem, addr, 8);
        case 2 => gregs[reg] := SignedLoad(mem, addr, 4);
        case 3 => gregs[reg] := SignedLoad(mem, addr, 8);
        case 5 => mem := StoreLE(mem, addr, 8, fregs[reg]);
        case 6 => StoreTruncates(mem, addr, 4, gregs[reg]); mem := StoreLE(mem, addr, 4, gregs[reg] % 0x1_0000_0000);
        case 7 => mem := StoreLE(mem, addr, 8, gregs[reg]);
        case _ => return false;
      }
      return true;
    }

    /** `emulate_sp_rel_c_load_store_instruction`. */
    method EmulateSpC(funct3: nat, rd: Reg, rs2: Reg, addr: nat) returns (ok: bool)
      requires Valid()
      modifies this, gregs, fregs
      ensures ok <==> CInstr(funct3, rd, rs2) != Other
      ensures Effect(View(), mem)
              == if ok then Act(CInstr(funct3, rd, rs2), old(View()), old(mem), addr) else Effect(old(View()), old(mem))
    {
      hide LoadLE, StoreLE, Extend;
      WidthFits(4);
      match funct3 {
        case 1 => fregs[rd] := LoadLE(mem, addr, 8);
        case 2 =>
          if rd != 0 { gregs[rd] := SignedLoad(mem, addr, 4); }
        case 3 =>
          if rd != 0 { gregs[rd] := SignedLoad(mem, addr, 8); }
        case 5 => mem := StoreLE(mem, addr, 8, fregs[rs2]);
        case 6 =>
          var v := if rs2 == 0 then 0 else gregs[rs2];
          StoreTruncates(mem, addr, 4, v);
          mem := StoreLE(mem, addr, 4, v % 0x1_0000_0000);
        case 7 => mem := StoreLE(mem, addr, 8, if rs2 == 0 then 0 else gregs[rs2]);
        case _ => return false;
      }
      return true;
    }

    /** The 32-bit half of `segfault_handler`'s decoder. */
    method Emulate32(instr: u32, addr: nat) returns (ok: bool)
      requires Valid()
      modifies this, gregs, fregs
      ensures ok <==> IsMem(Decode32(instr)) || Ignored32(instr)
      ensures Effect(View(), mem)
              == if IsMem(Decode32(instr)) then Act(Decode32(instr), old(View()), old(mem), addr)
                 else Effect(old(View()), old(mem))
    {
      Fields32(instr);
      hide GetField, LoadLE, StoreLE, Extend, NanBox;
      var opcode, funct3 := GetField(instr, 0, 7), GetField(instr, 12, 3);
      match opcode {
        case 0x03 => ok := EmulateLoad(funct3, GetField(instr, 7, 5), addr);
        case 0x07 => ok := EmulateFLoad(funct3, GetField(instr, 7, 5), addr);
        case 0x23 => ok := EmulateStore(funct3, GetField(instr, 20, 5), addr);
        case 0x27 => ok := EmulateFStore(funct3, GetField(instr, 20, 5), addr);
        case _ => return false;
      }
    }

    /** The 16-bit half. */
    method Emulate16(instr: u16, addr: nat) returns (ok: bool)
      requires Valid() && instr % 4 != 3
      modifies this, gregs, fregs
      ensures ok <==> IsMem(Decode16(instr)) || Ignored16(instr)
      ensures Effect(View(), mem)
              == if IsMem(Decode16(instr)) then Act(Decode16(instr), old(View()), old(mem), addr)
                 else Effect(old(View()), old(mem))
    {
      hide GetField, Act, Decode16, Ignored16, CInstr;
      Fields16(instr);
      NotCompressed(instr);
      var opcode, funct3 := GetField(instr, 0, 2), GetField(instr, 13, 3);
      match opcode {
        case 0 =>
          var reg: Reg := RVC_REG_MAP[GetField(instr, 2, 3)];
          CompressedAct(instr, old(View()), old(mem), addr);
          ok := EmulateC(funct3, reg, addr);
        case 2 =>
          CompressedAct(instr, old(View()), old(mem), addr);
          ok := EmulateSpC(funct3, GetField(instr, 7, 5), GetField(instr, 2, 5), addr);
        case _ => return false;
      }
    }

    /**
    `segfault_handler`: the fault is redirected to the page at `startAddrPage`
    and the faulting instruction carried out there, exactly as the ISA defines
    it; everything else in the context and in memory stays as it was.
    */
    method SegfaultHandler(faultAddr: u64, retSequencePageAddr: u64, protectionSize: u64, startAddrPage: u64)
        returns (outcome: Outcome)
      requires Valid()
      modifies this, gregs, fregs
      ensures outcome.Outside? <==> !InXom(faultAddr, retSequencePageAddr, protectionSize)
      ensures outcome.Resumed? <==>
                && InXom(faultAddr, retSequencePageAddr, protectionSize)
                && Handles(old(mem), old(View()).pc)
      ensures Effect(View(), mem)
              == if outcome.Resumed?
                 then Emulated(old(View()), old(mem), BackupAddr(faultAddr, retSequencePageAddr, startAddrPage))
                 else Effect(old(View()), old(mem))
      ensures var i := FetchInstr(old(mem), old(gregs[0]));
              outcome.Resumed? && IsMem(i) ==>
                AccessDone(i, old(View()), old(mem), BackupAddr(faultAddr, retSequencePageAddr, startAddrPage),
                           FetchLen(old(mem), old(gregs[0])), View(), mem)
      ensures gregs[0] == if outcome.Resumed? then Wrap(old(gregs[0]) + FetchLen(old(mem), old(gregs[0]))) else old(gregs[0])
      ensures var i := FetchInstr(old(mem), old(gregs[0]));
              outcome.Resumed? && i.Store? && i.rs2 == ZERO ==>
                mem == StoreLE(old(mem), BackupAddr(faultAddr, retSequencePageAddr, startAddrPage), i.width, 0)
      ensures var i := FetchInstr(old(mem), old(gregs[0]));
              i.Load? && i.rd == ZERO ==> gregs[1..] == old(gregs[1..]) && fregs[..] == old(fregs[..]) && mem == old(mem)
    {
      hide LoadLE, StoreLE, Decode32, Decode16, Wrap, ExecMem, AccessDone;
      var xomStart := retSequencePageAddr;
      var xomEnd := Wrap(xomStart + protectionSize - 1);
      if faultAddr < xomStart || faultAddr > xomEnd {
        return Outside;
      }
      var offset := faultAddr - xomStart;
      var backupAddr := Wrap(startAddrPage + offset);
      var pc := gregs[0];
      var cInstr := LoadHalf(mem, pc);
      var is32bit := cInstr % 4 == 3;
      var ok;
      if is32bit {
        ok := Emulate32(LoadWord(mem, pc), backupAddr);
      } else {
        ok := Emulate16(cInstr, backupAddr);
      }
      if !ok { return Fatal; }
      label emulated:
      if IsMem(FetchInstr(old(mem), pc)) {
        ActThenSkip(FetchInstr(old(mem), pc), old(View()), old(mem), backupAddr, if is32bit then 4 else 2);
        AccessMovesBytes(FetchInstr(old(mem), pc), old(View()), old(mem), backupAddr, if is32bit then 4 else 2);
        ZeroRegister(FetchInstr(old(mem), pc), old(View()), old(mem), backupAddr, if is32bit then 4 else 2);
      }
      var pcStep := if is32bit then 4 else 2;
      gregs[0] := Wrap(gregs[0] as int + pcStep);
      assert View() == Skip(old@emulated(View()), pcStep);
      assert View().x[1..] == gregs[1..] && old(View().x[1..] == gregs[1..]);
      return Resumed;
    }
  }
}
