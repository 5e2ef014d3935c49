/**
The program as bytes: the swept text before and after `disassemble_and_rewrite`,
the code around it, and what the processor, with the fault handler behind it,
makes of each instruction it fetches there. This ties the operations of the
program model to the bytes in memory.
*/
module Rewriting {
  import opened Bits
  import opened Isa
  import opened HookCode
  import opened Program
  import opened Original
  import opened Patched
  import opened Refinement
  import opened Steps
  import opened Theorems
  import opened Completeness
  import opened Handler
  import opened Layout
  import Sweep

  // ---- Operations of a text ------------------------------------------------

  /**
  `image` is the swept text as loaded at `base`, `d` the disassembler of the sweep
  and `alu` the meaning of the instruction words that the reference does not
  decode.
  */
  datatype Text = Text(base: nat, image: seq<byte>, d: Sweep.Decoder, alu: nat -> Core -> Core)

  predicate Inside(text: Text, a: nat) {
    text.base <= a < text.base + |text.image|
  }

  /** Memory holding just the text as loaded. */
  function Loaded(text: Text): Mem {
    map a: nat | text.base <= a < text.base + |text.image| && Inside(text, a) :: text.image[a - text.base]
  }

  function FetchWord(m: Mem, pc: nat): nat {
    if Is32Bit(m, pc) then LoadWord(m, pc) else LoadHalf(m, pc)
  }

  /** What an instruction that is no access does to the processor. */
  function RegOp(i: Instr, other: Core -> Core): Core -> Core
    requires !IsMem(i)
  {
    if Plain(i) then (c: Core) => ExecReg(i, c) else other
  }

  /** The operation fetched at `pc`. */
  function OpAt(alu: nat -> Core -> Core, m: Mem, pc: nat): UserOp {
    var i := FetchInstr(m, pc);
    if i == Ecall then Direct
    else if IsMem(i) then Access(i, FetchLen(m, pc))
    else Compute(RegOp(i, alu(FetchWord(m, pc))))
  }

  /** The sweep visits an ecall that begins at `pc`. */
  ghost predicate SiteAt(text: Text, pc: nat)
    requires Sweep.ValidDecoder(text.d)
  {
    Inside(text, pc) && Sweep.SiteOffset(text.d, text.image, pc - text.base) == Sweep.At(0)
  }

  /** The instruction at `pc` is code that the sweep has not been given, and no jump through gp of the program's own. */
  ghost predicate Unswept(cfg: Config, text: Text, pc: nat) {
    && (forall a: nat :: pc <= a < pc + FetchLen(cfg.code, pc) ==> a in cfg.code && !Inside(text, a))
    && FetchInstr(cfg.code, pc) != Jalr(GP, GP, 0)
  }

  /**
  `cfg` runs this program: intercepted exactly where the sweep visits an ecall,
  otherwise as loaded, in the swept text and in the code around it.
  */
  ghost predicate RunsText(cfg: Config, text: Text) {
    && Sweep.ValidDecoder(text.d)
    && (forall a: nat :: Inside(text, a) ==>
          && a in cfg.own && a in cfg.code
          && cfg.code[a] == Sweep.Rewritten(text.d, text.image)[a - text.base])
    && (forall pc: u64 :: Inside(text, pc) ==>
          cfg.prog(pc) == if SiteAt(text, pc) then Syscall else OpAt(text.alu, Loaded(text), pc))
    && (forall pc: u64 :: !Inside(text, pc) ==> !cfg.prog(pc).Syscall?)
    && (forall pc: u64 :: Unswept(cfg, text, pc) ==> cfg.prog(pc) == OpAt(text.alu, cfg.code, pc))
  }

  // ---- Which instructions survive the rewriting ------------------------------

  /** Byte `k` of the image is the same after the sweep: the last bytes of both words are equal. */
  ghost predicate Untouched(text: Text, k: nat)
    requires Sweep.ValidDecoder(text.d) && k < |text.image|
  {
    var o := Sweep.SiteOffset(text.d, text.image, k);
    o == Sweep.NoSite || o == Sweep.At(3)
  }

  lemma UntouchedIff(text: Text, k: nat)
    requires Sweep.ValidDecoder(text.d) && k < |text.image|
    ensures Sweep.Rewritten(text.d, text.image)[k] == text.image[k] <==> Untouched(text, k)
  {
    hide Sweep.Rewritten, Sweep.ValidDecoder;
    Sweep.OnlyVisitedEcallsChange(text.d, text.image, k);
  }

  /** The instruction at `pc` lies in the text, none of its bytes is changed, and it is no jump through gp of the program's own. */
  ghost predicate Intact(text: Text, pc: nat)
    requires Sweep.ValidDecoder(text.d)
  {
    && Inside(text, pc) && pc + FetchLen(Loaded(text), pc) <= text.base + |text.image|
    && FetchInstr(Loaded(text), pc) != Jalr(GP, GP, 0)
    && forall k: nat :: pc - text.base <= k < pc - text.base + FetchLen(Loaded(text), pc) ==> Untouched(text, k)
  }

  /** An instruction's bytes are the same after the sweep exactly when none of them is changed by a visited ecall. */
  lemma InstructionKeptIff(text: Text, i: nat, n: nat)
    requires Sweep.ValidDecoder(text.d) && i + n <= |text.image|
    ensures Sweep.Rewritten(text.d, text.image)[i..i + n] == text.image[i..i + n]
            <==> forall k: nat :: i <= k < i + n ==> Untouched(text, k)
  {
    hide Sweep.Rewritten, Sweep.ValidDecoder, Untouched;
    var t, s := Sweep.Rewritten(text.d, text.image), text.image;
    forall k: nat | i <= k < i + n
      ensures t[k] == s[k] <==> Untouched(text, k)
      ensures t[i..i + n][k - i] == t[k] && s[i..i + n][k - i] == s[k]
    {
      UntouchedIff(text, k);
    }
    if t[i..i + n] == s[i..i + n] {
      forall k: nat | i <= k < i + n
        ensures Untouched(text, k)
      {
        assert t[i..i + n][k - i] == s[i..i + n][k - i];
      }
    }
  }

  /** The instruction at `pc` is a visited ecall, survives the sweep, or was never swept. */
  ghost predicate Covered(cfg: Config, text: Text, pc: nat)
    requires Sweep.ValidDecoder(text.d)
  {
    SiteAt(text, pc) || Intact(text, pc) || Unswept(cfg, text, pc)
  }

  // ---- What is fetched -----------------------------------------------------

  /** The bytes `s` are in memory from `base` on. */
  ghost predicate HoldsText(m: Mem, base: nat, s: seq<byte>) {
    forall k: nat {:trigger s[k]} :: k < |s| ==> Byte(m, base + k) == s[k]
  }

  lemma CodeHoldsText(cfg: Config, text: Text, m: Mem)
    requires RunsText(cfg, text) && HoldsCode(m, cfg.code)
    ensures HoldsText(m, text.base, Sweep.Rewritten(text.d, text.image))
  {
    hide Sweep.Rewritten, Sweep.ValidDecoder, OpAt, SiteAt, Unswept;
    forall k: nat | k < |text.image|
      ensures Byte(m, text.base + k) == Sweep.Rewritten(text.d, text.image)[k]
    {
      assert Inside(text, text.base + k);
    }
  }

  /** Unswept code is fetched from memory as it is. */
  lemma UnsweptFetched(cfg: Config, text: Text, m: Mem, pc: nat)
    requires Unswept(cfg, text, pc) && HoldsCode(m, cfg.code)
    ensures FetchInstr(m, pc) == FetchInstr(cfg.code, pc) && FetchLen(m, pc) == FetchLen(cfg.code, pc)
    ensures FetchWord(m, pc) == FetchWord(cfg.code, pc)
  {
    hide Decode32, Decode16, LoadLE;
    var n := FetchLen(cfg.code, pc);
    assert SameOn(cfg.code, m, pc, pc + n);
    LoadSame(cfg.code, m, pc, n);
    LoadSame(cfg.code, m, pc, 2);
  }

  lemma LoadedByte(text: Text, a: nat)
    requires Inside(text, a)
    ensures Byte(Loaded(text), a) == text.image[a - text.base]
  {
  }

  lemma {:induction false} SiteIsWhole(d: Sweep.Decoder, s: seq<byte>, i: nat)
    requires Sweep.ValidDecoder(d) && i < |s| && Sweep.SiteOffset(d, s, i) == Sweep.At(0)
    ensures i + 4 <= |s| && forall o: nat :: o < 4 ==> Sweep.SiteOffset(d, s, i + o) == Sweep.At(o)
    decreases |s|
  {
    var n := Sweep.StepLen(Sweep.FirstStep(d, s));
    if i >= n {
      SiteIsWhole(d, s[n..], i - n);
      forall o: nat | o < 4
        ensures Sweep.SiteOffset(d, s, i + o) == Sweep.At(o)
      {
        assert Sweep.SiteOffset(d, s[n..], i - n + o) == Sweep.At(o);
      }
    }
  }

  lemma FourBytes(m: Mem, a: nat)
    ensures LoadWord(m, a)
            == Byte(m, a) as int + 0x100 * (Byte(m, a + 1) as int + 0x100 * (Byte(m, a + 2) as int + 0x100 * Byte(m, a + 3) as int))
    ensures LoadHalf(m, a) == Byte(m, a) as int + 0x100 * Byte(m, a + 1) as int
  {
    assert LoadLE(m, a, 4) == Byte(m, a) as int + 0x100 * LoadLE(m, a + 1, 3);
    assert LoadLE(m, a + 1, 3) == Byte(m, a + 1) as int + 0x100 * LoadLE(m, a + 2, 2);
    assert LoadLE(m, a + 2, 2) == Byte(m, a + 2) as int + 0x100 * LoadLE(m, a + 3, 1);
    assert LoadLE(m, a, 2) == Byte(m, a) as int + 0x100 * LoadLE(m, a + 1, 1);
  }

  lemma SiteByte(text: Text, m: Mem, pc: nat, o: nat)
    requires Sweep.ValidDecoder(text.d) && SiteAt(text, pc) && o < 4
    requires HoldsText(m, text.base, Sweep.Rewritten(text.d, text.image))
    ensures Byte(Loaded(text), pc + o) == Sweep.ECALL[o] && Byte(m, pc + o) == Sweep.JALR[o]
  {
    hide Sweep.Rewritten, Sweep.ValidDecoder, Sweep.SiteOffset, Loaded;
    var i := pc - text.base;
    SiteIsWhole(text.d, text.image, i);
    assert Sweep.SiteOffset(text.d, text.image, i + o) == Sweep.At(o);
    Sweep.OnlyVisitedEcallsChange(text.d, text.image, i + o);
    LoadedByte(text, pc + o);
    assert Sweep.Rewritten(text.d, text.image)[i + o] == Sweep.JALR[o];
    assert text.base + (i + o) == pc + o;
  }

  /** Where the processor fetched an ecall that the sweep visits, it now fetches the jump through gp. */
  lemma SiteFetchesJump(text: Text, m: Mem, pc: nat)
    requires Sweep.ValidDecoder(text.d) && SiteAt(text, pc)
    requires HoldsText(m, text.base, Sweep.Rewritten(text.d, text.image))
    ensures FetchInstr(Loaded(text), pc) == Ecall && FetchInstr(m, pc) == Jalr(GP, GP, 0)
  {
    hide Decode32, Decode16, Sweep.Rewritten, LoadLE, Sweep.ValidDecoder, HoldsText, SiteAt, Loaded;
    SiteByte(text, m, pc, 0);
    SiteByte(text, m, pc, 1);
    SiteByte(text, m, pc, 2);
    SiteByte(text, m, pc, 3);
    FourBytes(Loaded(text), pc);
    FourBytes(m, pc);
    Sweep.WordsAreInstructions();
  }

  /** An intact instruction is fetched as before. */
  lemma IntactFetched(text: Text, m: Mem, pc: nat)
    requires Sweep.ValidDecoder(text.d) && Intact(text, pc)
    requires HoldsText(m, text.base, Sweep.Rewritten(text.d, text.image))
    ensures FetchInstr(m, pc) == FetchInstr(Loaded(text), pc) && FetchLen(m, pc) == FetchLen(Loaded(text), pc)
    ensures FetchWord(m, pc) == FetchWord(Loaded(text), pc)
  {
    hide Decode32, Decode16, Sweep.Rewritten, LoadLE, Sweep.ValidDecoder, Untouched;
    var t, n := Sweep.Rewritten(text.d, text.image), FetchLen(Loaded(text), pc);
    forall a: nat | pc <= a < pc + n
      ensures Byte(Loaded(text), a) == Byte(m, a)
    {
      var k: nat := a - text.base;
      assert Untouched(text, k);
      UntouchedIff(text, k);
      LoadedByte(text, a);
      assert t[k] == text.image[k];
      assert Byte(m, text.base + k) == t[k];
    }
    LoadSame(Loaded(text), m, pc, n);
    LoadSame(Loaded(text), m, pc, 2);
  }

  // ---- The steps of the program model are the fetched instructions ----------

  /**
  What the processor makes of the instruction at pc, read from memory; an access
  that hits the shadow page faults, and the handler carries it out.
  */
  ghost function Machine(cfg: Config, text: Text, c: Core, m: Mem): Effect
    requires ValidConfig(cfg)
  {
    var i := FetchInstr(m, c.pc);
    if i == Jalr(GP, GP, 0) then Effect(ExecReg(i, c), m)
    else if IsMem(i) then
      if InPage(cfg, Ea(i, c)) then Emulated(c, m, BackupAddr(Ea(i, c), cfg.pageLo, cfg.dataLo))
      else ExecMem(i, c, m, Ea(i, c), FetchLen(m, c.pc))
    else if Plain(i) then Exec(i, c, m)
    else Effect(ComputeOn(text.alu(FetchWord(m, c.pc)), c), m)
  }

  /** The reference's register instructions keep x0 by themselves. */
  lemma ExecKeepsZero(i: Instr, c: Core, other: Core -> Core)
    requires Plain(i) && !IsMem(i)
    ensures ComputeOn(RegOp(i, other), c) == ExecReg(i, c)
  {
    hide BitOr, BitAnd, Wrap, Pow2;
    assert ExecReg(i, c).x[ZERO] == c.x[ZERO];
    assert ComputeOn(RegOp(i, other), c).x == ExecReg(i, c).x;
  }

  /**
  With gp at least 2048 bytes from both ends of its page, every naturally aligned
  load or store relative to gp stays in the page: it faults on the shadow page as
  a whole and is redirected as a whole.
  */
  lemma GpAccessesCovered(cfg: Config, i: Instr, c: Core, k: nat, b: nat)
    requires ValidConfig(cfg) && 12 <= k && cfg.pageSize == Pow2(k)
    requires cfg.dataLo == PageOf(cfg.env.gp0, cfg.pageSize)
    requires 0x800 <= cfg.env.gp0 % cfg.pageSize <= cfg.pageSize - 0x800
    requires IsMem(i) && i.rs1 == GP && -0x800 <= i.imm < 0x800 && c.x[GP] == cfg.env.gp0
    requires NaturallyAligned(Ea(i, c), i.width)
    requires Ea(i, c) <= b < Ea(i, c) + i.width
    ensures cfg.dataLo <= b < cfg.dataLo + cfg.pageSize
    ensures var shadow := Ea(i, WithGp(c, cfg.env.gp)) + (b - Ea(i, c));
            InPage(cfg, shadow) && Translate(cfg, shadow) == b
  {
    PageAligned(cfg.env.gp0, cfg.pageSize);
    AlignedAccessInPage(Ea(i, c), i.width, cfg.dataLo, k);
    hide Pow2, NaturallyAligned;
  }

  /** The redirected access of the program model is what the fault handler does to the faulting instruction. */
  lemma HandlerCarriesOutAccess(cfg: Config, c: Core, m: Mem)
    requires ValidConfig(cfg)
    requires IsMem(FetchInstr(m, c.pc)) && InPage(cfg, Ea(FetchInstr(m, c.pc), c))
    ensures var i, len := FetchInstr(m, c.pc), FetchLen(m, c.pc);
            && InXom(Ea(i, c), cfg.pageLo, cfg.pageSize) && Handles(m, c.pc)
            && Emulated(c, m, BackupAddr(Ea(i, c), cfg.pageLo, cfg.dataLo)) == PatchedAccess(cfg, i, len, c, m)
  {
    hide FetchInstr, FetchLen, ExecMem, Ea, Wrap, SteppedOver, InPath;
  }

  lemma AccessIsFetched(cfg: Config, text: Text, c: Core, m: Mem)
    requires ValidConfig(cfg) && IsMem(FetchInstr(m, c.pc))
    ensures Machine(cfg, text, c, m) == PatchedAccess(cfg, FetchInstr(m, c.pc), FetchLen(m, c.pc), c, m)
  {
    hide FetchInstr, FetchLen, ExecMem, Ea, Wrap, Handles, Emulated, InPath, ValidConfig;
    if InPage(cfg, Ea(FetchInstr(m, c.pc), c)) { HandlerCarriesOutAccess(cfg, c, m); }
  }

  lemma CodeInMemory(cfg: Config, w: World, s: AState)
    requires ValidConfig(cfg) && Related(cfg, w, s)
    ensures HoldsCode(w.mem, cfg.code)
  {
    hide HoldsCode;
  }

  /** What an action of a thread in program code can be. */
  lemma ProgramActions(cfg: Config, w: World, s: AState, a: Action)
    requires ValidConfig(cfg) && Related(cfg, w, s) && AllOk(cfg, s) && Enabled(cfg, w, a)
    requires w.threads[a.t].flights == [] || a.Enter?
    ensures match cfg.prog(w.threads[a.t].core.pc)
            case Syscall => a.Enter?
            case Direct => a.Unseen? || a.Exit?
            case _ => a.User?
  {
    hide Related, AllOk, InPath, PathInstr, UserVisible;
    if w.threads[a.t].flights == [] { UserOutsidePath(cfg, w, s, a.t); }
  }

  /** The thread's processor and memory after a step of program code. */
  ghost function StepEffect(cfg: Config, w: World, a: Action): Effect
    requires ValidEnv(cfg.env) && Enabled(cfg, w, a) && (a.Enter? || a.User?)
  {
    var w' := Apply(cfg, w, a);
    Effect(w'.threads[a.t].core, w'.mem)
  }

  /** The action belongs to program code, or enters the path from a hook. */
  ghost predicate InProgram(w: World, a: Action)
    requires a.t in w.threads
  {
    w.threads[a.t].flights == [] || a.Enter?
  }

  /**
  The action is what the machine does with the bytes in memory: it enters the path
  exactly where it fetches the jump through gp, makes a system call unseen exactly
  where it fetches an ecall, and otherwise executes the instruction it fetches,
  through the handler where the access faults.
  */
  ghost predicate StepFetched(cfg: Config, text: Text, w: World, a: Action)
    requires ValidConfig(cfg) && Enabled(cfg, w, a)
  {
    var c, i := w.threads[a.t].core, FetchInstr(w.mem, w.threads[a.t].core.pc);
    && (i == Jalr(GP, GP, 0) <==> a.Enter?)
    && (i == Ecall <==> a.Unseen? || a.Exit?)
    && (a.Enter? || a.User? ==> Machine(cfg, text, c, w.mem) == StepEffect(cfg, w, a))
  }

  lemma StepIsFetched(cfg: Config, text: Text, w: World, s: AState, a: Action)
    requires ValidConfig(cfg) && RunsText(cfg, text) && Related(cfg, w, s) && AllOk(cfg, s)
    requires a.t in w.threads && Enabled(cfg, w, a) && InProgram(w, a) && Covered(cfg, text, w.threads[a.t].core.pc)
    ensures StepFetched(cfg, text, w, a)
  {
    hide AllOk, RunsText, Related, Covered, HoldsCode, Enabled, Apply, FetchInstr, PatchedAccess, ExecReg, ComputeOn, Machine,
      OpAt, StepEffect;
    CodeInMemory(cfg, w, s);
    ProgramActions(cfg, w, s, a);
    var c := w.threads[a.t].core;
    OperationIsFetched(cfg, text, c.pc, w.mem);
    MachineCarriesOut(cfg, text, c, w.mem);
    if a.Enter? || a.User? { ProgramStep(cfg, w, a); }
  }

  /** In every reachable state, program code at a covered instruction does what the machine does with it. */
  lemma StepsAreFetched(cfg: Config, text: Text, w0: World, s0: AState, w: World, a: Action)
    requires ValidConfig(cfg) && RunsText(cfg, text) && Reachable(cfg, w0, s0, w)
    requires a.t in w.threads && Enabled(cfg, w, a) && InProgram(w, a) && Covered(cfg, text, w.threads[a.t].core.pc)
    ensures StepFetched(cfg, text, w, a)
  {
    hide Reachable, AllOk, RunsText, Related, Covered, Enabled, StepFetched;
    var s := ReachableRelated(cfg, w0, s0, w);
    StepIsFetched(cfg, text, w, s, a);
  }

  /** The machine carries out the operation it fetches. */
  lemma MachineCarriesOut(cfg: Config, text: Text, c: Core, m: Mem)
    requires ValidConfig(cfg)
    requires cfg.prog(c.pc) == if FetchInstr(m, c.pc) == Jalr(GP, GP, 0) then Syscall else OpAt(text.alu, m, c.pc)
    ensures cfg.prog(c.pc).Syscall? <==> FetchInstr(m, c.pc) == Jalr(GP, GP, 0)
    ensures cfg.prog(c.pc).Direct? <==> FetchInstr(m, c.pc) == Ecall
    ensures match cfg.prog(c.pc)
            case Access(i, len) => IsMem(i) && Machine(cfg, text, c, m) == PatchedAccess(cfg, i, len, c, m)
            case Compute(f) => Machine(cfg, text, c, m) == Effect(ComputeOn(f, c), m)
            case Syscall => Machine(cfg, text, c, m) == Effect(ExecReg(Jalr(GP, GP, 0), c), m)
            case Direct => true
  {
    hide FetchInstr, FetchLen, FetchWord, ValidConfig, ExecReg, ComputeOn, PatchedAccess, Emulated, ExecMem, Ea, RegOp;
    var i := FetchInstr(m, c.pc);
    if IsMem(i) {
      AccessIsFetched(cfg, text, c, m);
    } else if Plain(i) {
      ExecKeepsZero(i, c, text.alu(FetchWord(m, c.pc)));
    } else {
      OtherOp(i, text.alu(FetchWord(m, c.pc)));
    }
  }

  lemma OtherOp(i: Instr, other: Core -> Core)
    requires !IsMem(i) && !Plain(i)
    ensures RegOp(i, other) == other
  {
  }

  /** What a step of program code does to its thread and to memory. */
  lemma ProgramStep(cfg: Config, w: World, a: Action)
    requires ValidEnv(cfg.env) && Enabled(cfg, w, a) && (a.Enter? || a.User?)
    ensures var c, e := w.threads[a.t].core, StepEffect(cfg, w, a);
            if a.Enter? then e == Effect(ExecReg(Jalr(GP, GP, 0), c), w.mem)
            else match cfg.prog(c.pc)
              case Access(i, len) => IsMem(i) && e == PatchedAccess(cfg, i, len, c, w.mem)
              case Compute(f) => e == Effect(ComputeOn(f, c), w.mem)
              case _ => true
  {
    hide InPath, ExecReg, PatchedAccess, ComputeOn;
  }

  /** The operation at `pc` is the one that memory holds. */
  lemma OperationIsFetched(cfg: Config, text: Text, pc: u64, m: Mem)
    requires RunsText(cfg, text) && HoldsCode(m, cfg.code) && Covered(cfg, text, pc)
    ensures cfg.prog(pc) == if FetchInstr(m, pc) == Jalr(GP, GP, 0) then Syscall else OpAt(text.alu, m, pc)
  {
    hide Decode32, Decode16, Sweep.ValidDecoder, Sweep.Rewritten, LoadLE, HoldsText, HoldsCode, Loaded, Untouched, RegOp;
    CodeHoldsText(cfg, text, m);
    if SiteAt(text, pc) {
      SiteFetchesJump(text, m, pc);
    } else if Intact(text, pc) {
      IntactFetched(text, m, pc);
    } else {
      UnsweptFetched(cfg, text, m, pc);
    }
  }

  // ---- Whole runs ------------------------------------------------------------

  /** Every step of program code in the run begins at a covered instruction. */
  ghost predicate PcsCovered(cfg: Config, text: Text, w: World, acts: seq<Action>)
    requires ValidEnv(cfg.env) && Sweep.ValidDecoder(text.d) && Runs(cfg, w, acts)
    decreases |acts|
  {
    acts == [] ||
    (&& (InProgram(w, acts[0]) ==> Covered(cfg, text, w.threads[acts[0].t].core.pc))
     && PcsCovered(cfg, text, Apply(cfg, w, acts[0]), acts[1..]))
  }

  /** Every step of program code in the run is a step of the machine. */
  ghost predicate RunFetched(cfg: Config, text: Text, w: World, acts: seq<Action>)
    requires ValidConfig(cfg) && Runs(cfg, w, acts)
    decreases |acts|
  {
    acts == [] ||
    (&& (InProgram(w, acts[0]) ==> StepFetched(cfg, text, w, acts[0]))
     && RunFetched(cfg, text, Apply(cfg, w, acts[0]), acts[1..]))
  }

  /** A run of the patched system through covered code is a run of the machine over the bytes in memory. */
  lemma {:induction false} RunIsFetched(cfg: Config, text: Text, w: World, s: AState, acts: seq<Action>)
    requires ValidConfig(cfg) && RunsText(cfg, text) && Related(cfg, w, s) && Runs(cfg, w, acts)
    requires OkAlong(cfg, s, MatchingRun(cfg, w, acts)) && PcsCovered(cfg, text, w, acts)
    ensures RunFetched(cfg, text, w, acts)
    decreases |acts|
  {
    hide Related, Enabled, Apply, AApply, AEnabled, Matching, AllOk, Covered, StepFetched, RunsText, InProgram, ARuns, AEnd;
    if acts != [] {
      var a := acts[0];
      SilentIsOriginal(cfg, w, s, a);
      if InProgram(w, a) { StepIsFetched(cfg, text, w, s, a); }
      StepRefines(cfg, w, s, a);
      var first, w1 := Matching(cfg, w, a), Apply(cfg, w, a);
      OkAfter(cfg, s, first, MatchingRun(cfg, w1, acts[1..]));
      RunIsFetched(cfg, text, w1, AEnd(cfg, s, first), acts[1..]);
    }
  }

  // ---- gp in the middle of a page -------------------------------------------

  /** A fetched load or store relative to gp has a displacement of twelve bits. */
  lemma GpDisplacement(m: Mem, pc: nat)
    ensures var i := FetchInstr(m, pc);
            IsMem(i) && i.rs1 == GP ==> -0x800 <= i.imm < 0x800
  {
    hide LoadLE;
    if Is32Bit(m, pc) { Displacement32(LoadWord(m, pc)); }
  }

  lemma Displacement32(w: u32)
    ensures var i := Decode32(w);
            IsMem(i) ==> -0x800 <= i.imm < 0x800
  {
  }

  /** Pages of 4096 bytes and gp at offset 2048, as the linker places it. */
  ghost predicate DefaultLayout(cfg: Config) {
    cfg.pageSize == 0x1000 && cfg.env.gp0 % 0x1000 == 0x800 && cfg.dataLo == PageOf(cfg.env.gp0, 0x1000)
  }

  /** In the default layout, whatever load or store is fetched: relative to gp it falls into gp's page. */
  lemma GpClauseHolds(cfg: Config, c: Core, m: Mem, pc: nat)
    requires ValidConfig(cfg) && DefaultLayout(cfg) && c.x[GP] == cfg.env.gp0 && IsMem(FetchInstr(m, pc))
    ensures GpInPage(cfg, c, FetchInstr(m, pc))
  {
    GpDisplacement(m, pc);
    hide FetchInstr, InPath;
  }

  ghost predicate AllOkButGp(cfg: Config, s: AState)
    requires ValidEnv(cfg.env)
  {
    forall t :: t in s.threads ==> OkButGp(cfg, s, t)
  }

  ghost predicate OkAlongButGp(cfg: Config, s: AState, acts: seq<AAction>)
    requires ValidEnv(cfg.env)
    decreases |acts|
  {
    && AllOkButGp(cfg, s)
    && (acts != [] && AEnabled(cfg, s, acts[0]) ==> OkAlongButGp(cfg, AApply(cfg, s, acts[0]), acts[1..]))
  }

  /** Every thread is at a covered instruction in every state of the run. */
  ghost predicate CoveredAlong(cfg: Config, text: Text, s: AState, acts: seq<AAction>)
    requires Sweep.ValidDecoder(text.d)
    decreases |acts|
  {
    && (forall t :: t in s.threads ==> Covered(cfg, text, s.threads[t].core.pc))
    && (acts != [] && AEnabled(cfg, s, acts[0]) ==> CoveredAlong(cfg, text, AApply(cfg, s, acts[0]), acts[1..]))
  }

  /** Every thread has the gp of the original program. */
  ghost predicate OriginalGp(cfg: Config, s: AState) {
    forall t :: t in s.threads ==> s.threads[t].core.x[GP] == cfg.env.gp0
  }

  lemma DecoderOf(cfg: Config, text: Text)
    requires RunsText(cfg, text)
    ensures Sweep.ValidDecoder(text.d)
  {
    hide Sweep.ValidDecoder, Sweep.Rewritten;
  }

  lemma GpClauseNow(cfg: Config, text: Text, s: AState)
    requires ValidConfig(cfg) && DefaultLayout(cfg) && RunsText(cfg, text) && OriginalGp(cfg, s) && AllOkButGp(cfg, s)
    requires forall t :: t in s.threads ==> Covered(cfg, text, s.threads[t].core.pc)
    ensures AllOk(cfg, s)
  {
    hide RunsText, Covered, OkButGp, FetchInstr, InPath, DefaultLayout, GpInPage, Ea;
    DecoderOf(cfg, text);
    forall t | t in s.threads
      ensures Ok(cfg, s, t)
    {
      var c := s.threads[t].core;
      assert Covered(cfg, text, c.pc) && OkButGp(cfg, s, t);
      OperationIsFetched(cfg, text, c.pc, cfg.code);
      var i := FetchInstr(cfg.code, c.pc);
      if IsMem(i) { GpClauseHolds(cfg, c, cfg.code, c.pc); }
    }
  }

  /** Nothing a conventional program does changes gp. */
  lemma GpStaysOriginal(cfg: Config, s: AState, a: AAction)
    requires ValidEnv(cfg.env) && OriginalGp(cfg, s) && AllOkButGp(cfg, s) && AEnabled(cfg, s, a)
    ensures OriginalGp(cfg, AApply(cfg, s, a))
  {
    hide InPath, OkBytes, ComputeOn, ExecMem, Writable, FreshChild;
    assert OkButGp(cfg, s, a.t);
    if a.AUser? && cfg.prog(s.threads[a.t].core.pc).Access? {
      var i, len := cfg.prog(s.threads[a.t].core.pc).instr, cfg.prog(s.threads[a.t].core.pc).len;
      AccessKeepsGp(i, len, s.threads[a.t].core, s.mem, Ea(i, s.threads[a.t].core));
    }
  }

  /**
  In the default layout what the conventions ask of gp-relative accesses holds by
  itself along every run through covered code.
  */
  lemma {:induction false} GpClauseAlong(cfg: Config, text: Text, s: AState, acts: seq<AAction>)
    requires ValidConfig(cfg) && DefaultLayout(cfg) && RunsText(cfg, text) && OriginalGp(cfg, s)
    requires OkAlongButGp(cfg, s, acts) && CoveredAlong(cfg, text, s, acts)
    ensures OkAlong(cfg, s, acts)
    decreases |acts|
  {
    hide RunsText, Covered, AllOkButGp, AllOk, AApply, OriginalGp, InPath, DefaultLayout, Writable, FreshChild;
    DecoderOf(cfg, text);
    GpClauseNow(cfg, text, s);
    if acts != [] && AEnabled(cfg, s, acts[0]) {
      GpStaysOriginal(cfg, s, acts[0]);
      GpClauseAlong(cfg, text, AApply(cfg, s, acts[0]), acts[1..]);
    }
  }

  lemma PageAligned(a: nat, pageSize: nat)
    requires pageSize > 0
    ensures PageOf(a, pageSize) >= 0 && PageOf(a, pageSize) % pageSize == 0
  {
    var q := a / pageSize;
    QuotientNonNegative(a, pageSize);
    assert a - a % pageSize == pageSize * q;
    DivModUnique(pageSize * q, pageSize, q, 0);
  }
}
