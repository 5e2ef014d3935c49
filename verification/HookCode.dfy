/**
`asm_syscall_hook` of src/main.c as an instruction listing, and where every
instruction of the interception path lives: the trampoline and the return
paths in the shadow page, the assembly in the library's text.

`la` and `call` are counted as one 4-byte instruction; labels are resolved to
offsets in this listing.
*/
module HookCode {
  import opened Isa
  import opened Patcher

  const HOOK_INSTRS: nat := 98
  const NR_RT_SIGRETURN: u64 := 139
  const NR_CLONE: u64 := 220
  const NR_CLONE3: u64 := 435

  /**
  Addresses fixed by initialisation: the relocated global pointer, the original
  one, `asm_syscall_hook`, `syscall_hook` and the variable
  `relocated_global_pointer`.
  */
  datatype Env = Env(gp: u64, gp0: u64, asmHook: u64, syscallHook: u64, gpVar: u64)

  ghost predicate ValidEnv(env: Env) {
    && 56 <= env.gp && env.gp + 80 < W64 && env.gp % 2 == 0
    && env.asmHook + 4 * HOOK_INSTRS < W64 && env.asmHook % 2 == 0
    && env.gpVar + 8 < W64
    && (env.asmHook + 4 * HOOK_INSTRS <= env.gp - 56 || env.gp + 80 <= env.asmHook)
  }

  // ---- Frame layout -----------------------------------------------------

  /** Caller-saved integer registers kept at 32(sp), 40(sp), ... */
  const SAVED_REGS: seq<Reg> := [RA, A1, A2, A3, A4, A5, A6, A7, T4, T5, T6]

  function SavedReg(j: nat): Reg
    requires j < 11
  {
    SAVED_REGS[j]
  }

  /** Caller-saved float registers kept at 120(sp), 128(sp), ...: fa0-fa7, ft0-ft7, ft8-ft11. */
  function SavedFReg(j: nat): Reg
    requires j < 20
  {
    if j < 8 then 10 + j else if j < 16 then j - 8 else j + 12
  }

  function Temp(j: nat): Reg
    requires j < 4
  {
    if j == 0 then T0 else if j == 1 then T1 else if j == 2 then T2 else T3
  }

  // ---- Listing ----------------------------------------------------------

  function HookInstr(env: Env, i: nat): Instr
    requires i < HOOK_INSTRS
  {
    if 6 <= i < 17 then Store(8, SavedReg(i - 6), SP, 32 + 8 * (i - 6))
    else if 17 <= i < 37 then FStore(8, SavedFReg(i - 17), SP, 120 + 8 * (i - 17))
    else if 43 <= i < 54 then Load(8, true, SavedReg(i - 43), SP, 32 + 8 * (i - 43))
    else if 54 <= i < 74 then FLoad(8, SavedFReg(i - 54), SP, 120 + 8 * (i - 54))
    else match i
      case 0 => Store(8, GP, SP, 288)
      case 1 => Addi(T1, GP, 0)
      case 2 => La(T0, env.gpVar)
      case 3 => Load(8, true, GP, T0, 0)
      case 4 => Addi(T0, ZERO, 139)
      case 5 => Beq(A7, T0, 4 * (94 - 5))
      // the save sequence is 6-36
      case 37 => Addi(A6, T1, 0)
      case 38 => CallSymbol(env.syscallHook)
      case 39 => Addi(T0, A1, 0)
      case 40 => Load(8, true, T1, SP, 8)
      case 41 => Load(8, true, T2, SP, 16)
      case 42 => Load(8, true, T3, SP, 24)
      // the restore sequence is 43-73
      case 74 => Beq(T0, ZERO, 4 * (82 - 74))
      case 75 => Srli(T0, T0, 1)
      case 76 => Beq(T0, ZERO, 4 * (78 - 76))
      case 77 => Ebreak
      // handled_ecall
      case 78 => La(T0, env.gpVar)
      case 79 => Load(8, true, T0, T0, 0)
      case 80 => Addi(T0, T0, -56)
      case 81 => Jalr(ZERO, T0, 0)
      // return_prelude
      case 82 => Addi(T0, ZERO, 220)
      case 83 => Beq(A7, T0, 4 * (90 - 83))
      case 84 => Addi(T0, ZERO, 435)
      case 85 => Beq(A7, T0, 4 * (90 - 85))
      case 86 => La(T0, env.gpVar)
      case 87 => Load(8, true, T0, T0, 0)
      case 88 => Addi(T0, T0, -40)
      case 89 => Jalr(ZERO, T0, 0)
      // do_clone
      case 90 => La(T0, env.gpVar)
      case 91 => Load(8, true, T0, T0, 0)
      case 92 => Addi(T0, T0, -20)
      case 93 => Jalr(ZERO, T0, 0)
      // do_rt_sigreturn
      case 94 => Load(8, true, T1, SP, 8)
      case 95 => Load(8, true, T2, SP, 16)
      case 96 => Load(8, true, T3, SP, 24)
      case _ => Jal(ZERO, 4 * (82 - 97))
  }

  // ---- Where the code lives ---------------------------------------------

  datatype Loc = Tramp(i: nat) | Hook(i: nat) | Ret(k: nat)

  predicate IsLoc(loc: Loc) {
    match loc
    case Tramp(i) => i < TRAMPOLINE_WORDS
    case Hook(i) => i < HOOK_INSTRS
    case Ret(k) => k < RETURN_WORDS
  }

  ghost function PcOf(env: Env, loc: Loc): (pc: u64)
    requires ValidEnv(env) && IsLoc(loc)
  {
    match loc
    case Tramp(i) => env.gp + 4 * i
    case Hook(i) => env.asmHook + 4 * i
    case Ret(k) => env.gp - 56 + 4 * k
  }

  /** The instruction listed at `loc`. */
  function InstrAt(env: Env, loc: Loc): Instr
    requires IsLoc(loc)
  {
    match loc
    case Tramp(i) => TrampolineInstr(env.asmHook, i)
    case Hook(i) => HookInstr(env, i)
    case Ret(k) => ReturnInstr(k)
  }

  /** Shadow page words and assembly are found by their address alone. */
  ghost predicate InPath(env: Env, pc: u64)
    requires ValidEnv(env)
  {
    exists loc :: IsLoc(loc) && pc == PcOf(env, loc)
  }

  ghost function LocOf(env: Env, pc: u64): (loc: Loc)
    requires ValidEnv(env) && InPath(env, pc)
    ensures IsLoc(loc) && PcOf(env, loc) == pc
  {
    var loc :| IsLoc(loc) && pc == PcOf(env, loc);
    loc
  }

  lemma LocUnique(env: Env, loc: Loc)
    requires ValidEnv(env) && IsLoc(loc)
    ensures InPath(env, PcOf(env, loc)) && LocOf(env, PcOf(env, loc)) == loc
  {
    var l := LocOf(env, PcOf(env, loc));
    assert IsLoc(l) && PcOf(env, l) == PcOf(env, loc);
  }

  /** The bytes of the shadow page hold the generated words. */
  ghost predicate PageHolds(env: Env, m: Mem)
    requires ValidEnv(env)
  {
    && (forall i: nat :: i < TRAMPOLINE_WORDS ==> Decode32(LoadWord(m, env.gp + 4 * i)) == TrampolineInstr(env.asmHook, i))
    && (forall k: nat :: k < RETURN_WORDS ==> Decode32(LoadWord(m, env.gp - 56 + 4 * k)) == ReturnInstr(k))
  }

  /** Only the bytes of the words matter. */
  lemma PageKept(env: Env, m: Mem, m': Mem)
    requires ValidEnv(env) && PageHolds(env, m) && SameOn(m, m', env.gp - 56, env.gp + 80)
    ensures PageHolds(env, m')
  {
    hide LoadLE, Decode32, TrampolineInstr, ReturnInstr;
    forall i: nat | i < TRAMPOLINE_WORDS
      ensures LoadWord(m, env.gp + 4 * i) == LoadWord(m', env.gp + 4 * i)
    {
      LoadSame(m, m', env.gp + 4 * i, 4);
    }
    forall k: nat | k < RETURN_WORDS
      ensures LoadWord(m, env.gp - 56 + 4 * k) == LoadWord(m', env.gp - 56 + 4 * k)
    {
      LoadSame(m, m', env.gp - 56 + 4 * k, 4);
    }
  }

  /** The instruction the machine fetches inside the interception path. */
  ghost function PathInstr(env: Env, m: Mem, pc: u64): Instr
    requires ValidEnv(env) && InPath(env, pc)
  {
    match LocOf(env, pc)
    case Hook(i) => HookInstr(env, i)
    case _ => Decode32(LoadWord(m, pc))
  }

  lemma Fetched(env: Env, m: Mem, loc: Loc)
    requires ValidEnv(env) && IsLoc(loc) && PageHolds(env, m)
    ensures InPath(env, PcOf(env, loc)) && PathInstr(env, m, PcOf(env, loc)) == InstrAt(env, loc)
  {
    LocUnique(env, loc);
  }
}
