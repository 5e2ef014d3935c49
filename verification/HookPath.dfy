/**
One intercepted call, instruction by instruction: what every register, every
frame slot and the dispatch state hold at each point of the trampoline, of
`asm_syscall_hook` and of the return paths, and that each instruction leads from
one point's description to the next one's.
*/
module HookPath {
  import opened Isa
  import opened Patcher
  import opened Trampoline
  import opened HookCode

  /** What has been decided about the call so far. */
  datatype Outcome =
    | Pending
    | Forward
    | Handled(v: u64)
    | Replied(v: u64)

  /**
  An interception in flight. `entry` is the processor at the patched
  instruction, before it executes; `hooks` and `ecalls` count the calls of
  `syscall_hook` and the system calls issued by the return paths.
  */
  datatype Call = Call(entry: Core, outcome: Outcome, hooks: nat, ecalls: nat)

  function ReturnAddress(call: Call): u64 { Wrap(call.entry.pc + 4) }

  function Number(call: Call): u64 { call.entry.x[A7] }

  predicate IsClone(nr: u64) { nr == NR_CLONE || nr == NR_CLONE3 }

  /** The caller has room for a frame, and its code is at even addresses. */
  ghost predicate ValidCall(call: Call) {
    call.entry.x[SP] >= FRAME_SIZE && call.entry.pc % 2 == 0
  }

  function Base(call: Call): nat
    requires ValidCall(call)
  {
    call.entry.x[SP] - FRAME_SIZE
  }

  /** What a0 holds from the moment the hook has returned. */
  function A0Value(call: Call): u64 {
    match call.outcome
    case Handled(v) => v
    case Replied(v) => v
    case _ => call.entry.x[A0]
  }

  // ---- Frame slots ------------------------------------------------------

  const GP_SLOT: nat := 36

  /** The value slot `n`, at offset 8n, is meant to keep. */
  function SlotValue(call: Call, n: nat): u64 {
    if n < 4 then call.entry.x[Temp(n)]
    else if n < 15 then call.entry.x[SavedReg(n - 4)]
    else if n < 35 then call.entry.f[SavedFReg(n - 15)]
    else ReturnAddress(call)
  }

  function SlotAt(call: Call, m: Mem, n: nat): u64
    requires ValidCall(call)
  {
    LoadDouble(m, Base(call) + 8 * n)
  }

  /** Storing one slot changes no other slot and nothing outside the frame. */
  lemma SlotWritten(call: Call, m: Mem, n: nat, v: u64)
    requires ValidCall(call) && n < 38
    ensures var m' := StoreLE(m, Base(call) + 8 * n, 8, v);
            && SlotAt(call, m', n) == v
            && (forall k: nat {:trigger SlotAt(call, m', k)} :: k != n ==> SlotAt(call, m', k) == SlotAt(call, m, k))
            && SameOutside(m, m', Base(call), Base(call) + FRAME_SIZE)
  {
    hide StoreLE, LoadLE;
    var a := Base(call) + 8 * n;
    WidthFits(8);
    LoadStored(m, a, 8, v);
    StoreFrame(m, a, 8, v);
    forall k: nat | k != n
      ensures SlotAt(call, StoreLE(m, a, 8, v), k) == SlotAt(call, m, k)
    {
      LoadElsewhere(m, a, 8, v, Base(call) + 8 * k, 8);
    }
  }

  // ---- Description of a point -------------------------------------------

  function IntIndex(r: Reg): int {
    if r == RA then 0 else if A1 <= r <= A7 then r - 10 else if r >= T4 then r - 21 else -1
  }

  function FloatIndex(r: Reg): int {
    if 10 <= r < 18 then r - 10 else if r < 8 then r + 8 else if r >= 28 then r - 12 else -1
  }

  /** sp is 304 below the caller's. */
  predicate Lowered(loc: Loc) {
    match loc
    case Tramp(i) => i >= 1
    case Hook(_) => true
    case Ret(k) => k != 3 && k != 8 && k < 12
  }

  /** Registers that hold the caller's value; sp, gp and a0 are described apart. */
  predicate Held(loc: Loc, r: Reg) {
    match loc
    case Tramp(i) =>
      && (r == T0 ==> i <= 5)
      && (r == T1 ==> i <= 10)
      && (r == T2 ==> i <= 11)
      && (r == T3 ==> i <= 8)
    case Hook(i) =>
      && r != T0
      && (r == T1 ==> 41 <= i <= 93 || i >= 95)
      && (r == T2 ==> 42 <= i <= 93 || i >= 96)
      && (r == T3 ==> 43 <= i <= 93 || i >= 97)
      && (IntIndex(r) >= 0 ==> i <= 38 || i >= 44 + IntIndex(r))
      && (r == A6 ==> i != 38)
    case Ret(k) =>
      r == T0 ==> k == 2 || k == 3 || k == 7 || k == 8 || k >= 11
  }

  predicate FHeld(loc: Loc, r: Reg) {
    loc.Hook? && FloatIndex(r) >= 0 ==> loc.i <= 38 || loc.i >= 55 + FloatIndex(r)
  }

  /** Slots that hold the caller's value and may still be read. */
  predicate Saved(loc: Loc, n: nat) {
    match loc
    case Tramp(i) => n < 4 && n + 1 < i
    case Hook(i) =>
      if i >= 82 then n == 0 || n == GP_SLOT || (n < 4 && i >= 94)
      else if n < 4 then true
      else if n < 15 then n + 2 < i
      else if n < 35 then n + 2 < i
      else n == GP_SLOT && i >= 1
    case Ret(k) => Lowered(loc) && (n == 0 || n == GP_SLOT)
  }

  function GpValue(env: Env, call: Call, loc: Loc): u64 {
    match loc
    case Tramp(_) => ReturnAddress(call)
    case Hook(i) => if i <= 3 then ReturnAddress(call) else env.gp
    case Ret(k) => if k == 0 || k == 4 || k == 5 || k == 9 then env.gp else ReturnAddress(call)
  }

  function Verdict(call: Call): u64 {
    if call.outcome.Forward? then 0 else 1
  }

  /** Values the temporaries carry between instructions. */
  ghost predicate Scratch(env: Env, call: Call, c: Core, loc: Loc)
    requires ValidEnv(env)
  {
    match loc
    case Tramp(i) => Synth(env.asmHook, i, c)
    case Hook(i) =>
      && (2 <= i <= 37 ==> c.x[T1] == ReturnAddress(call))
      && (i == 38 ==> c.x[A6] == ReturnAddress(call))
      && (i == 3 || i == 79 || i == 87 || i == 91 ==> c.x[T0] == env.gpVar)
      && (i == 5 ==> c.x[T0] == NR_RT_SIGRETURN)
      && (i == 39 ==> c.x[A1] == Verdict(call))
      && (40 <= i <= 75 ==> c.x[T0] == Verdict(call))
      && (i == 76 ==> c.x[T0] == 0)
      && (i == 80 || i == 88 || i == 92 ==> c.x[T0] == env.gp)
      && (i == 81 ==> c.x[T0] == env.gp - 56)
      && (i == 83 ==> c.x[T0] == NR_CLONE)
      && (i == 85 ==> c.x[T0] == NR_CLONE3)
      && (i == 89 ==> c.x[T0] == env.gp - 40)
      && (i == 93 ==> c.x[T0] == env.gp - 20)
    case Ret(k) => k == 4 ==> c.x[T0] == env.gp - 40
  }

  /** A call that bypasses the hook, or that the hook has passed on. */
  predicate ToForward(call: Call) {
    if Number(call) == NR_RT_SIGRETURN then call.outcome.Pending? && call.hooks == 0
    else call.outcome.Forward? && call.hooks == 1
  }

  predicate ToAnswer(call: Call) {
    Number(call) != NR_RT_SIGRETURN && call.outcome.Handled? && call.hooks == 1
  }

  predicate Forwarded(call: Call) {
    && call.outcome.Replied? && call.ecalls == 1
    && call.hooks == (if Number(call) == NR_RT_SIGRETURN then 0 else 1)
  }

  /** Which decisions have been taken at `loc`; the ebreak is at no reachable point. */
  predicate Dispatch(call: Call, loc: Loc) {
    && (match loc
        case Tramp(i) => call.outcome.Pending? && call.hooks == 0
        case Hook(i) =>
          if i <= 5 then call.outcome.Pending? && call.hooks == 0
          else if i <= 38 then call.outcome.Pending? && call.hooks == 0 && Number(call) != NR_RT_SIGRETURN
          else if i <= 74 then (ToForward(call) && Number(call) != NR_RT_SIGRETURN) || ToAnswer(call)
          else if i <= 81 then i != 77 && ToAnswer(call)
          else if i <= 93 then
            && ToForward(call)
            && (i == 84 || i == 85 ==> Number(call) != NR_CLONE)
            && (86 <= i <= 89 ==> !IsClone(Number(call)))
            && (90 <= i ==> IsClone(Number(call)))
          else ToForward(call) && Number(call) == NR_RT_SIGRETURN
        case Ret(k) =>
          if k <= 3 then ToAnswer(call)
          else if k == 4 then ToForward(call) && !IsClone(Number(call))
          else if k <= 8 then Forwarded(call) && !IsClone(Number(call))
          else if k <= 12 then ToForward(call) && IsClone(Number(call))
          else ToAnswer(call) || Forwarded(call))
    && (!call.outcome.Replied? ==> call.ecalls == 0)
  }

  ghost predicate Registers(call: Call, c: Core, loc: Loc) {
    && (forall r: Reg :: r != SP && r != GP && r != A0 && Held(loc, r) ==> c.x[r] == call.entry.x[r])
    && (forall r: Reg :: FHeld(loc, r) ==> c.f[r] == call.entry.f[r])
    && c.x[A0] == A0Value(call)
  }

  ghost predicate Slots(call: Call, m: Mem, loc: Loc)
    requires ValidCall(call)
  {
    forall n: nat {:trigger SlotAt(call, m, n)} :: n < 37 && Saved(loc, n) ==> SlotAt(call, m, n) == SlotValue(call, n)
  }

  ghost predicate Control(env: Env, call: Call, c: Core, loc: Loc)
    requires ValidEnv(env) && ValidCall(call)
  {
    && IsLoc(loc) && c.pc == PcOf(env, loc)
    && c.x[SP] == (if Lowered(loc) then Base(call) else call.entry.x[SP])
    && c.x[GP] == GpValue(env, call, loc)
    && Scratch(env, call, c, loc)
    && Dispatch(call, loc)
  }

  /** The full description of a thread at `loc` of its interception. */
  ghost predicate AtLoc(env: Env, call: Call, c: Core, m: Mem, loc: Loc)
    requires ValidEnv(env) && ValidCall(call)
  {
    Control(env, call, c, loc) && Registers(call, c, loc) && Slots(call, m, loc)
  }

  /** The point after `loc`. */
  function Next(call: Call, loc: Loc): Loc {
    match loc
    case Tramp(i) => if i == 19 then Hook(0) else Tramp(i + 1)
    case Hook(i) =>
      if i == 5 then (if Number(call) == NR_RT_SIGRETURN then Hook(94) else Hook(6))
      else if i == 74 then (if call.outcome.Forward? then Hook(82) else Hook(75))
      else if i == 76 then Hook(78)
      else if i == 81 then Ret(0)
      else if i == 83 then (if Number(call) == NR_CLONE then Hook(90) else Hook(84))
      else if i == 85 then (if Number(call) == NR_CLONE3 then Hook(90) else Hook(86))
      else if i == 89 then Ret(4)
      else if i == 93 then Ret(9)
      else if i == 97 then Hook(82)
      else Hook(i + 1)
    case Ret(k) => if k == 3 || k == 8 then Ret(13) else Ret(k + 1)
  }

  /** Points where the thread executes vpoline's own plain instructions. */
  predicate IsPlainLoc(loc: Loc) {
    IsLoc(loc) && loc != Hook(38) && loc != Hook(77) && loc != Ret(4) && loc != Ret(12) && loc != Ret(13)
  }

  ghost predicate Stepped(env: Env, call: Call, c: Core, m: Mem, loc: Loc)
    requires ValidEnv(env) && ValidCall(call) && IsPlainLoc(loc)
  {
    var e := Exec(InstrAt(env, loc), c, m);
    && IsLoc(Next(call, loc))
    && AtLoc(env, call, e.core, e.mem, Next(call, loc))
    && SameOutside(m, e.mem, Base(call), Base(call) + FRAME_SIZE)
  }

  // ---- What a step can disturb ------------------------------------------

  /** The integer register an instruction writes; x0 when it writes none. */
  function WrittenReg(i: Instr): Reg {
    if i.Lui? || i.Addi? || i.Ori? || i.Slli? || i.Srli? || i.And? || i.Or? || i.Jal? || i.Jalr? || i.Load? || i.La?
    then i.rd else ZERO
  }

  lemma ExecWrites(i: Instr, c: Core, m: Mem)
    requires Plain(i) && !i.CallSymbol?
    ensures var e := Exec(i, c, m);
            && (forall r: Reg :: r == ZERO || r != WrittenReg(i) ==> e.core.x[r] == c.x[r])
            && (forall r: Reg :: !(i.FLoad? && r == i.fd) ==> e.core.f[r] == c.f[r])
            && (!i.Store? && !i.FStore? ==> e.mem == m)
  {
    hide Wrap, OrWord, AndWord, LoadLE, StoreLE, Extend, NanBox;
  }

  /** The slot that the instruction at `loc` fills, if it is a store. */
  function StoredSlot(loc: Loc): nat {
    match loc
    case Tramp(i) => if 1 <= i <= 4 then i - 1 else 37
    case Hook(i) => if i == 0 then GP_SLOT else if 6 <= i <= 36 then i - 2 else 37
    case Ret(_) => 37
  }

  lemma SavedIndex(j: nat)
    requires j < 11
    ensures IntIndex(SavedReg(j)) == j && SavedReg(j) !in {ZERO, SP, GP, A0, T0, T1, T2, T3}
  {
  }

  lemma SavedRegOfIndex(r: Reg)
    requires IntIndex(r) >= 0
    ensures IntIndex(r) < 11 && SavedReg(IntIndex(r)) == r
  {
  }

  lemma SavedFRegOfIndex(r: Reg)
    requires FloatIndex(r) >= 0
    ensures FloatIndex(r) < 20 && SavedFReg(FloatIndex(r)) == r
  {
  }

  /** Only what the instruction writes can newly hold a caller's value. */
  lemma TrampHeldStep(env: Env, call: Call, i: nat, r: Reg)
    requires i < 20 && Held(Next(call, Tramp(i)), r) && r != SP && r != GP && r != A0
    ensures Held(Tramp(i), r)
  {
  }

  lemma HookHeldStep(env: Env, call: Call, i: nat, r: Reg)
    requires IsPlainLoc(Hook(i)) && Dispatch(call, Hook(i))
    requires Held(Next(call, Hook(i)), r) && r != SP && r != GP && r != A0
    requires r == ZERO || r != WrittenReg(HookInstr(env, i))
    ensures Held(Hook(i), r)
  {
    if 43 <= i <= 53 && IntIndex(r) == i - 43 { SavedRegOfIndex(r); }
  }

  lemma HookFHeldStep(env: Env, call: Call, i: nat, r: Reg)
    requires IsPlainLoc(Hook(i)) && Dispatch(call, Hook(i))
    requires FHeld(Next(call, Hook(i)), r)
    requires !(HookInstr(env, i).FLoad? && r == HookInstr(env, i).fd)
    ensures FHeld(Hook(i), r)
  {
    if 54 <= i <= 73 && FloatIndex(r) == i - 54 { SavedFRegOfIndex(r); }
  }

  lemma RetHeldStep(call: Call, k: nat, r: Reg)
    requires IsPlainLoc(Ret(k))
    requires Held(Next(call, Ret(k)), r) && r != SP && r != GP && r != A0
    requires r != WrittenReg(ReturnInstr(k)) || r == ZERO
    ensures Held(Ret(k), r)
  {
  }

  lemma SavedStep(call: Call, loc: Loc, n: nat)
    requires IsPlainLoc(loc) && Dispatch(call, loc) && n < 37 && Saved(Next(call, loc), n) && n != StoredSlot(loc)
    ensures Saved(loc, n)
  {
  }

  /** A register or float register reloaded at `loc` gets the caller's value. */
  ghost predicate Reloads(env: Env, call: Call, c: Core, m: Mem, loc: Loc)
    requires IsPlainLoc(loc)
  {
    var i := InstrAt(env, loc);
    var e := Exec(i, c, m);
    var r := WrittenReg(i);
    && (r != ZERO && r != SP && r != GP && Held(Next(call, loc), r) ==> e.core.x[r] == call.entry.x[r])
    && (i.FLoad? ==> e.core.f[i.fd] == call.entry.f[i.fd])
  }

  /** Memory stays, or the stored slot gets the caller's value. */
  ghost predicate Stores(env: Env, call: Call, c: Core, m: Mem, loc: Loc)
    requires ValidCall(call) && IsPlainLoc(loc)
  {
    var m' := Exec(InstrAt(env, loc), c, m).mem;
    if StoredSlot(loc) == 37 then m' == m
    else m' == StoreLE(m, Base(call) + 8 * StoredSlot(loc), 8, SlotValue(call, StoredSlot(loc)))
  }

  ghost predicate Moves(env: Env, call: Call, c: Core, m: Mem, loc: Loc)
    requires ValidEnv(env) && ValidCall(call) && IsPlainLoc(loc)
  {
    && Control(env, call, Exec(InstrAt(env, loc), c, m).core, Next(call, loc))
    && Reloads(env, call, c, m, loc)
    && Stores(env, call, c, m, loc)
  }

  lemma RegistersStep(env: Env, call: Call, c: Core, m: Mem, loc: Loc)
    requires IsPlainLoc(loc) && Registers(call, c, loc) && Dispatch(call, loc)
    requires Reloads(env, call, c, m, loc)
    ensures Registers(call, Exec(InstrAt(env, loc), c, m).core, Next(call, loc))
  {
    PlainInstr(env, loc);
    A0NotWritten(env, loc);
    hide Held, FHeld, Dispatch, InstrAt, Next, Exec;
    var i, next := InstrAt(env, loc), Next(call, loc);
    ExecWrites(i, c, m);
    var c' := Exec(i, c, m).core;
    forall r: Reg | r != SP && r != GP && r != A0 && Held(next, r)
      ensures c'.x[r] == call.entry.x[r]
    {
      if r == ZERO || r != WrittenReg(i) {
        match loc
        case Tramp(k) => TrampHeldStep(env, call, k, r);
        case Hook(k) => HookHeldStep(env, call, k, r);
        case Ret(k) => RetHeldStep(call, k, r);
      }
    }
    forall r: Reg | FHeld(next, r)
      ensures c'.f[r] == call.entry.f[r]
    {
      if !(i.FLoad? && r == i.fd) && loc.Hook? { HookFHeldStep(env, call, loc.i, r); }
    }
  }

  lemma A0NotWritten(env: Env, loc: Loc)
    requires IsPlainLoc(loc)
    ensures WrittenReg(InstrAt(env, loc)) != A0
  {
  }

  lemma SlotsStep(call: Call, m: Mem, m': Mem, loc: Loc)
    requires ValidCall(call) && IsPlainLoc(loc) && Slots(call, m, loc) && Dispatch(call, loc)
    requires if StoredSlot(loc) == 37 then m' == m
             else m' == StoreLE(m, Base(call) + 8 * StoredSlot(loc), 8, SlotValue(call, StoredSlot(loc)))
    ensures Slots(call, m', Next(call, loc)) && SameOutside(m, m', Base(call), Base(call) + FRAME_SIZE)
  {
    var s := StoredSlot(loc);
    if s != 37 { SlotWritten(call, m, s, SlotValue(call, s)); }
    forall n: nat | n < 37 && Saved(Next(call, loc), n)
      ensures SlotAt(call, m', n) == SlotValue(call, n)
    {
      hide Saved, Dispatch, Next, StoreLE, SlotAt, SlotValue, StoredSlot;
      if n != s {
        SavedStep(call, loc, n);
        assert SlotAt(call, m, n) == SlotValue(call, n);
      }
    }
  }

  lemma PlainInstr(env: Env, loc: Loc)
    requires IsPlainLoc(loc)
    ensures IsLoc(loc) && Plain(InstrAt(env, loc)) && !InstrAt(env, loc).CallSymbol?
  {
  }

  lemma Assembled(env: Env, call: Call, c: Core, m: Mem, loc: Loc)
    requires ValidEnv(env) && ValidCall(call) && IsPlainLoc(loc) && AtLoc(env, call, c, m, loc)
    requires Moves(env, call, c, m, loc)
    ensures Stepped(env, call, c, m, loc)
  {
    hide Held, FHeld, Saved, Scratch, Dispatch, Exec, Next, Registers, Slots, StoreLE, SlotValue, StoredSlot,
      GpValue, Lowered, PcOf, InstrAt, IsPlainLoc, Reloads;
    PlainInstr(env, loc);
    RegistersStep(env, call, c, m, loc);
    SlotsStep(call, m, Exec(InstrAt(env, loc), c, m).mem, loc);
  }

  // ---- Loads and stores of the frame -------------------------------------

  /** A doubleword load delivers the stored doubleword, integer or float. */
  lemma DoubleIsItself(m: Mem, a: nat)
    ensures LoadLE(m, a, 8) < Pow256(8)
    ensures Extend(LoadLE(m, a, 8), 8, true) == LoadDouble(m, a)
    ensures NanBox(LoadLE(m, a, 8), 8) == LoadDouble(m, a)
  {
    WidthFits(8);
  }

  /** A load from a saved slot brings the caller's value back. */
  lemma SlotLoaded(call: Call, c: Core, m: Mem, rd: Reg, n: nat)
    requires ValidCall(call) && n < 37 && rd != ZERO
    requires c.x[SP] == Base(call) && SlotAt(call, m, n) == SlotValue(call, n)
    ensures Exec(Load(8, true, rd, SP, 8 * n), c, m)
            == Effect(Skip(c.(x := c.x[rd := SlotValue(call, n)]), 4), m)
  {
    hide LoadLE, Extend, Wrap, SlotValue, Pow256;
    DoubleIsItself(m, Base(call) + 8 * n);
  }

  lemma SlotFLoaded(call: Call, c: Core, m: Mem, fd: Reg, n: nat)
    requires ValidCall(call) && n < 37
    requires c.x[SP] == Base(call) && SlotAt(call, m, n) == SlotValue(call, n)
    ensures Exec(FLoad(8, fd, SP, 8 * n), c, m)
            == Effect(Skip(c.(f := c.f[fd := SlotValue(call, n)]), 4), m)
  {
    hide LoadLE, NanBox, Wrap, SlotValue, Pow256;
    DoubleIsItself(m, Base(call) + 8 * n);
  }

  lemma SlotStored(call: Call, c: Core, m: Mem, rs: Reg, n: nat)
    requires ValidCall(call) && n < 37 && rs != ZERO && c.x[SP] == Base(call)
    ensures Exec(Store(8, rs, SP, 8 * n), c, m)
            == Effect(Skip(c, 4), StoreLE(m, Base(call) + 8 * n, 8, c.x[rs]))
  {
    hide StoreLE, Wrap;
  }

  lemma SlotFStored(call: Call, c: Core, m: Mem, fs: Reg, n: nat)
    requires ValidCall(call) && n < 37 && c.x[SP] == Base(call)
    ensures Exec(FStore(8, fs, SP, 8 * n), c, m)
            == Effect(Skip(c, 4), StoreLE(m, Base(call) + 8 * n, 8, c.f[fs]))
  {
    hide StoreLE, Wrap;
  }

  lemma GpVariableLoaded(env: Env, c: Core, m: Mem, rd: Reg)
    requires ValidEnv(env) && rd != ZERO
    requires c.x[T0] == env.gpVar && LoadDouble(m, env.gpVar) == env.gp
    ensures Exec(Load(8, true, rd, T0, 0), c, m)
            == Effect(Skip(c.(x := c.x[rd := env.gp]), 4), m)
  {
    hide LoadLE, Extend, Wrap, Pow256;
    DoubleIsItself(m, env.gpVar);
  }

  /** The decisions at a point determine those at the next. */
  lemma DispatchStep(call: Call, loc: Loc)
    requires IsPlainLoc(loc) && Dispatch(call, loc)
    ensures IsLoc(Next(call, loc)) && Dispatch(call, Next(call, loc))
  {
  }

  // ---- Trampoline -------------------------------------------------------

  lemma TrampolineOpens(env: Env, call: Call, c: Core, m: Mem)
    requires ValidEnv(env) && ValidCall(call) && Control(env, call, c, Tramp(0))
    ensures Moves(env, call, c, m, Tramp(0))
  {
    DispatchStep(call, Tramp(0));
    hide Wrap, LoadLE, StoreLE, Dispatch;
  }

  lemma NoSynthYet(dst: u64, i: nat, c: Core)
    requires i <= 5
    ensures Synth(dst, i, c)
  {
  }

  lemma TrampolineSaves(env: Env, call: Call, c: Core, m: Mem, i: nat)
    requires ValidEnv(env) && ValidCall(call) && 1 <= i <= 4 && Control(env, call, c, Tramp(i))
    requires c.x[Temp(i - 1)] == SlotValue(call, i - 1)
    ensures Moves(env, call, c, m, Tramp(i))
  {
    hide Wrap, LoadLE, StoreLE, Exec, SlotValue, ReturnAddress, Synth, Dispatch;
    DispatchStep(call, Tramp(i));
    SlotStored(call, c, m, Temp(i - 1), i - 1);
    assert Synth(env.asmHook, i + 1, Skip(c, 4)) by { NoSynthYet(env.asmHook, i + 1, Skip(c, 4)); }
  }

  lemma SynthDest(dst: u64, i: nat)
    requires 5 <= i < 19
    ensures var w := TrampolineInstr(dst, i); !IsMem(w) && Plain(w) && WrittenReg(w) == Dest(i)
  {
  }

  lemma TrampolineBuilds(env: Env, call: Call, c: Core, m: Mem, i: nat)
    requires ValidEnv(env) && ValidCall(call) && 5 <= i < 19 && Control(env, call, c, Tramp(i))
    ensures Moves(env, call, c, m, Tramp(i))
  {
    DispatchStep(call, Tramp(i));
    SynthStep(env.asmHook, i, c);
    SynthFrame(env.asmHook, i, c);
    SynthDest(env.asmHook, i);
    hide Wrap, Synth, TrampolineInstr, ExecReg, Dispatch;
  }

  lemma TrampolineJumps(env: Env, call: Call, c: Core, m: Mem)
    requires ValidEnv(env) && ValidCall(call) && Control(env, call, c, Tramp(19))
    ensures Moves(env, call, c, m, Tramp(19))
  {
    DispatchStep(call, Tramp(19));
    hide Wrap, LoadLE, StoreLE, Dispatch;
  }

  // ---- asm_syscall_hook -------------------------------------------------

  lemma HookParksReturnAddress(env: Env, call: Call, c: Core, m: Mem)
    requires ValidEnv(env) && ValidCall(call) && Control(env, call, c, Hook(0))
    ensures Moves(env, call, c, m, Hook(0))
  {
    DispatchStep(call, Hook(0));
    SlotStored(call, c, m, GP, GP_SLOT);
    hide Wrap, LoadLE, StoreLE, Exec, Dispatch;
  }

  lemma HookReloadsGp(env: Env, call: Call, c: Core, m: Mem)
    requires ValidEnv(env) && ValidCall(call) && Control(env, call, c, Hook(3))
    requires LoadDouble(m, env.gpVar) == env.gp
    ensures Moves(env, call, c, m, Hook(3))
  {
    hide Wrap, LoadLE, StoreLE, Exec, LoadDouble, ReturnAddress, Dispatch;
    DispatchStep(call, Hook(3));
    GpVariableLoaded(env, c, m, GP);
  }

  lemma HookCopiesReturnAddress(env: Env, call: Call, c: Core, m: Mem, i: nat)
    requires ValidEnv(env) && ValidCall(call) && (i == 1 || i == 2 || i == 4) && Control(env, call, c, Hook(i))
    ensures Moves(env, call, c, m, Hook(i))
  {
    DispatchStep(call, Hook(i));
    hide Wrap, LoadLE, StoreLE, ReturnAddress, Dispatch;
  }

  lemma HookTestsBypass(env: Env, call: Call, c: Core, m: Mem)
    requires ValidEnv(env) && ValidCall(call) && Control(env, call, c, Hook(5))
    requires c.x[A7] == Number(call)
    ensures Moves(env, call, c, m, Hook(5))
  {
    DispatchStep(call, Hook(5));
    hide Wrap, LoadLE, StoreLE;
  }

  lemma HookSavesInt(env: Env, call: Call, c: Core, m: Mem, i: nat)
    requires ValidEnv(env) && ValidCall(call) && 6 <= i <= 16 && Control(env, call, c, Hook(i))
    requires c.x[SavedReg(i - 6)] == SlotValue(call, i - 2)
    ensures Moves(env, call, c, m, Hook(i))
  {
    hide Wrap, LoadLE, StoreLE, Exec, HookInstr, Dispatch, SavedReg, SlotValue, ReturnAddress;
    DispatchStep(call, Hook(i));
    SavedIndex(i - 6);
    IntListed(env, i);
    SlotStored(call, c, m, SavedReg(i - 6), i - 2);
  }

  /** The instructions that save and restore integer registers. */
  lemma IntListed(env: Env, i: nat)
    requires 6 <= i <= 16 || 40 <= i <= 53
    ensures i <= 16 ==> HookInstr(env, i) == Store(8, SavedReg(i - 6), SP, 8 * (i - 2))
    ensures 40 <= i <= 42 ==> HookInstr(env, i) == Load(8, true, Temp(i - 39), SP, 8 * (i - 39))
    ensures 43 <= i ==> HookInstr(env, i) == Load(8, true, SavedReg(i - 43), SP, 8 * (i - 39))
  {
    hide SavedReg;
  }

  lemma IntSlot(call: Call, i: nat)
    requires 40 <= i <= 53
    ensures SlotValue(call, i - 39) == call.entry.x[if i <= 42 then Temp(i - 39) else SavedReg(i - 43)]
  {
    hide SavedReg, Temp;
  }

  lemma HookSavesFloat(env: Env, call: Call, c: Core, m: Mem, i: nat)
    requires ValidEnv(env) && ValidCall(call) && 17 <= i <= 36 && Control(env, call, c, Hook(i))
    requires c.f[SavedFReg(i - 17)] == SlotValue(call, i - 2)
    ensures Moves(env, call, c, m, Hook(i))
  {
    DispatchStep(call, Hook(i));
    SlotFStored(call, c, m, SavedFReg(i - 17), i - 2);
    assert HookInstr(env, i) == FStore(8, SavedFReg(i - 17), SP, 8 * (i - 2));
    hide Wrap, LoadLE, StoreLE, Exec, HookInstr, Dispatch;
  }

  lemma HookPassesReturnAddress(env: Env, call: Call, c: Core, m: Mem)
    requires ValidEnv(env) && ValidCall(call) && Control(env, call, c, Hook(37))
    ensures Moves(env, call, c, m, Hook(37))
  {
    DispatchStep(call, Hook(37));
    hide Wrap, LoadLE, StoreLE, Dispatch;
  }

  lemma HookKeepsVerdict(env: Env, call: Call, c: Core, m: Mem)
    requires ValidEnv(env) && ValidCall(call) && Control(env, call, c, Hook(39))
    ensures Moves(env, call, c, m, Hook(39))
  {
    DispatchStep(call, Hook(39));
    hide Wrap, LoadLE, StoreLE, Dispatch;
  }

  lemma HookRestoresTemps(env: Env, call: Call, c: Core, m: Mem, i: nat)
    requires ValidEnv(env) && ValidCall(call) && 40 <= i <= 42 && Control(env, call, c, Hook(i))
    requires SlotAt(call, m, i - 39) == SlotValue(call, i - 39)
    ensures Moves(env, call, c, m, Hook(i))
  {
    hide Wrap, LoadLE, StoreLE, Exec, HookInstr, SlotAt, SlotValue, Held, ReturnAddress, Dispatch;
    DispatchStep(call, Hook(i));
    IntListed(env, i);
    IntSlot(call, i);
    SlotLoaded(call, c, m, Temp(i - 39), i - 39);
  }

  lemma HookRestoresInt(env: Env, call: Call, c: Core, m: Mem, i: nat)
    requires ValidEnv(env) && ValidCall(call) && 43 <= i <= 53 && Control(env, call, c, Hook(i))
    requires SlotAt(call, m, i - 39) == SlotValue(call, i - 39)
    ensures Moves(env, call, c, m, Hook(i))
  {
    hide Wrap, LoadLE, StoreLE, Exec, HookInstr, SlotAt, SlotValue, Held, ReturnAddress, Dispatch, SavedReg;
    DispatchStep(call, Hook(i));
    SavedIndex(i - 43);
    IntListed(env, i);
    IntSlot(call, i);
    SlotLoaded(call, c, m, SavedReg(i - 43), i - 39);
  }

  lemma HookRestoresFloat(env: Env, call: Call, c: Core, m: Mem, i: nat)
    requires ValidEnv(env) && ValidCall(call) && 54 <= i <= 73 && Control(env, call, c, Hook(i))
    requires SlotAt(call, m, i - 39) == SlotValue(call, i - 39)
    ensures Moves(env, call, c, m, Hook(i))
  {
    hide Wrap, LoadLE, StoreLE, Exec;
    DispatchStep(call, Hook(i));
    SlotFLoaded(call, c, m, SavedFReg(i - 54), i - 39);
    assert HookInstr(env, i) == FLoad(8, SavedFReg(i - 54), SP, 8 * (i - 39));
    hide HookInstr, Dispatch;
  }

  lemma HookDispatches(env: Env, call: Call, c: Core, m: Mem, i: nat)
    requires ValidEnv(env) && ValidCall(call) && 74 <= i <= 76 && Control(env, call, c, Hook(i))
    ensures Moves(env, call, c, m, Hook(i))
  {
    DispatchStep(call, Hook(i));
    assert Bits.Pow2(1) == 2;
    hide Wrap, LoadLE, StoreLE;
  }

  lemma HookSelectsClone(env: Env, call: Call, c: Core, m: Mem, i: nat)
    requires ValidEnv(env) && ValidCall(call) && 82 <= i <= 85 && Control(env, call, c, Hook(i))
    requires c.x[A7] == Number(call)
    ensures Moves(env, call, c, m, Hook(i))
  {
    DispatchStep(call, Hook(i));
    hide Wrap, LoadLE, StoreLE;
  }

  lemma HookAddressesGp(env: Env, call: Call, c: Core, m: Mem, i: nat)
    requires ValidEnv(env) && ValidCall(call) && (i == 78 || i == 86 || i == 90) && Control(env, call, c, Hook(i))
    ensures Moves(env, call, c, m, Hook(i))
  {
    DispatchStep(call, Hook(i));
    hide Wrap, LoadLE, StoreLE, Dispatch;
  }

  lemma GpReadInstr(env: Env, i: nat)
    requires i == 79 || i == 87 || i == 91
    ensures HookInstr(env, i) == Load(8, true, T0, T0, 0)
  {
  }

  lemma HookReadsGp(env: Env, call: Call, c: Core, m: Mem, i: nat)
    requires ValidEnv(env) && ValidCall(call) && (i == 79 || i == 87 || i == 91) && Control(env, call, c, Hook(i))
    requires LoadDouble(m, env.gpVar) == env.gp
    ensures Moves(env, call, c, m, Hook(i))
  {
    hide Wrap, Exec, ReturnAddress, LoadDouble, HookInstr, Dispatch, SlotValue;
    DispatchStep(call, Hook(i));
    GpVariableLoaded(env, c, m, T0);
    GpReadInstr(env, i);
  }

  lemma HookOffsetsGp(env: Env, call: Call, c: Core, m: Mem, i: nat)
    requires ValidEnv(env) && ValidCall(call) && (i == 80 || i == 88 || i == 92) && Control(env, call, c, Hook(i))
    ensures Moves(env, call, c, m, Hook(i))
  {
    DispatchStep(call, Hook(i));
    hide Wrap, LoadLE, StoreLE, Dispatch;
  }

  lemma HookLeaves(env: Env, call: Call, c: Core, m: Mem, i: nat)
    requires ValidEnv(env) && ValidCall(call) && (i == 81 || i == 89 || i == 93) && Control(env, call, c, Hook(i))
    ensures Moves(env, call, c, m, Hook(i))
  {
    DispatchStep(call, Hook(i));
    hide Wrap, LoadLE, StoreLE, Dispatch;
  }

  lemma BypassInstr(env: Env, call: Call, i: nat)
    requires 94 <= i <= 96
    ensures HookInstr(env, i) == Load(8, true, Temp(i - 93), SP, 8 * (i - 93))
    ensures SlotValue(call, i - 93) == call.entry.x[Temp(i - 93)]
  {
  }

  lemma HookBypassReloads(env: Env, call: Call, c: Core, m: Mem, i: nat)
    requires ValidEnv(env) && ValidCall(call) && 94 <= i <= 96 && Control(env, call, c, Hook(i))
    requires SlotAt(call, m, i - 93) == SlotValue(call, i - 93)
    ensures Moves(env, call, c, m, Hook(i))
  {
    hide Wrap, Exec, HookInstr, SlotAt, SlotValue, Held, ReturnAddress, Dispatch;
    DispatchStep(call, Hook(i));
    BypassInstr(env, call, i);
    SlotLoaded(call, c, m, Temp(i - 93), i - 93);
  }

  lemma HookBypassJumps(env: Env, call: Call, c: Core, m: Mem)
    requires ValidEnv(env) && ValidCall(call) && Control(env, call, c, Hook(97))
    ensures Moves(env, call, c, m, Hook(97))
  {
    DispatchStep(call, Hook(97));
    hide Wrap, LoadLE, StoreLE, Dispatch;
  }

  // ---- Return paths -----------------------------------------------------

  lemma ReturnReloadsGp(env: Env, call: Call, c: Core, m: Mem, k: nat)
    requires ValidEnv(env) && ValidCall(call) && (k == 0 || k == 5 || k == 9) && Control(env, call, c, Ret(k))
    requires SlotAt(call, m, GP_SLOT) == SlotValue(call, GP_SLOT)
    ensures Moves(env, call, c, m, Ret(k))
  {
    DispatchStep(call, Ret(k));
    SlotLoaded(call, c, m, GP, GP_SLOT);
    assert SlotValue(call, GP_SLOT) == ReturnAddress(call);
    assert ReturnInstr(k) == Load(8, true, GP, SP, 8 * GP_SLOT);
    hide Wrap, LoadLE, StoreLE, Exec, SlotAt, SlotValue, ReturnAddress, ReturnInstr, Held, Dispatch;
  }

  lemma ReturnReloadsT0(env: Env, call: Call, c: Core, m: Mem, k: nat)
    requires ValidEnv(env) && ValidCall(call) && (k == 1 || k == 6 || k == 10) && Control(env, call, c, Ret(k))
    requires SlotAt(call, m, 0) == SlotValue(call, 0)
    ensures Moves(env, call, c, m, Ret(k))
  {
    DispatchStep(call, Ret(k));
    SlotLoaded(call, c, m, T0, 0);
    assert SlotValue(call, 0) == call.entry.x[T0];
    assert ReturnInstr(k) == Load(8, true, T0, SP, 8 * 0);
    hide Wrap, LoadLE, StoreLE, Exec, SlotAt, SlotValue, ReturnAddress, ReturnInstr, Held, Dispatch;
  }

  lemma ReturnClosesFrame(env: Env, call: Call, c: Core, m: Mem, k: nat)
    requires ValidEnv(env) && ValidCall(call) && (k == 2 || k == 7 || k == 11) && Control(env, call, c, Ret(k))
    ensures Moves(env, call, c, m, Ret(k))
  {
    DispatchStep(call, Ret(k));
    hide Wrap, LoadLE, StoreLE, Dispatch;
  }

  lemma ReturnMeets(env: Env, call: Call, c: Core, m: Mem, k: nat)
    requires ValidEnv(env) && ValidCall(call) && (k == 3 || k == 8) && Control(env, call, c, Ret(k))
    ensures Moves(env, call, c, m, Ret(k))
  {
    DispatchStep(call, Ret(k));
    hide Wrap, LoadLE, StoreLE, Dispatch;
  }

  // ---- Every plain instruction ------------------------------------------

  lemma TrampolineMoves(env: Env, call: Call, c: Core, m: Mem, i: nat)
    requires ValidEnv(env) && ValidCall(call) && i < 20 && AtLoc(env, call, c, m, Tramp(i))
    ensures Moves(env, call, c, m, Tramp(i))
  {
    hide Moves;
    if i == 0 {
      TrampolineOpens(env, call, c, m);
    } else if i <= 4 {
      TrampolineSaves(env, call, c, m, i);
    } else if i < 19 {
      TrampolineBuilds(env, call, c, m, i);
    } else {
      TrampolineJumps(env, call, c, m);
    }
  }

  lemma HookMoves(env: Env, call: Call, c: Core, m: Mem, i: nat)
    requires ValidEnv(env) && ValidCall(call) && IsPlainLoc(Hook(i)) && AtLoc(env, call, c, m, Hook(i))
    requires LoadDouble(m, env.gpVar) == env.gp
    ensures Moves(env, call, c, m, Hook(i))
  {
    hide Moves, Control, LoadLE;
    if i == 0 {
      HookParksReturnAddress(env, call, c, m);
    } else if i == 3 {
      HookReloadsGp(env, call, c, m);
    } else if i <= 4 {
      HookCopiesReturnAddress(env, call, c, m, i);
    } else if i == 5 {
      HookTestsBypass(env, call, c, m);
    } else if i <= 16 {
      SavedIndex(i - 6);
      HookSavesInt(env, call, c, m, i);
    } else if i <= 36 {
      HookSavesFloat(env, call, c, m, i);
    } else if i == 37 {
      HookPassesReturnAddress(env, call, c, m);
    } else if i == 39 {
      HookKeepsVerdict(env, call, c, m);
    } else if i <= 42 {
      HookRestoresTemps(env, call, c, m, i);
    } else if i <= 53 {
      HookRestoresInt(env, call, c, m, i);
    } else if i <= 73 {
      HookRestoresFloat(env, call, c, m, i);
    } else if i <= 76 {
      HookDispatches(env, call, c, m, i);
    } else if i == 78 || i == 86 || i == 90 {
      HookAddressesGp(env, call, c, m, i);
    } else if i == 79 || i == 87 || i == 91 {
      HookReadsGp(env, call, c, m, i);
    } else if i == 80 || i == 88 || i == 92 {
      HookOffsetsGp(env, call, c, m, i);
    } else if i == 81 || i == 89 || i == 93 {
      HookLeaves(env, call, c, m, i);
    } else if i <= 85 {
      HookSelectsClone(env, call, c, m, i);
    } else if i <= 96 {
      HookBypassReloads(env, call, c, m, i);
    } else {
      HookBypassJumps(env, call, c, m);
    }
  }

  lemma ReturnMoves(env: Env, call: Call, c: Core, m: Mem, k: nat)
    requires ValidEnv(env) && ValidCall(call) && IsPlainLoc(Ret(k)) && AtLoc(env, call, c, m, Ret(k))
    ensures Moves(env, call, c, m, Ret(k))
  {
    hide Moves, Control, LoadLE;
    if k == 0 || k == 5 || k == 9 {
      ReturnReloadsGp(env, call, c, m, k);
    } else if k == 1 || k == 6 || k == 10 {
      ReturnReloadsT0(env, call, c, m, k);
    } else if k == 3 || k == 8 {
      ReturnMeets(env, call, c, m, k);
    } else {
      ReturnClosesFrame(env, call, c, m, k);
    }
  }

  /**
  Wherever a thread is in its interception, the next plain instruction leads to
  a point whose description holds, and writes nothing outside its own frame.
  */
  lemma PathStep(env: Env, call: Call, c: Core, m: Mem, loc: Loc)
    requires ValidEnv(env) && ValidCall(call) && IsPlainLoc(loc) && AtLoc(env, call, c, m, loc)
    requires LoadDouble(m, env.gpVar) == env.gp
    ensures Stepped(env, call, c, m, loc)
  {
    hide Moves, AtLoc, Stepped, LoadLE;
    match loc {
      case Tramp(i) => TrampolineMoves(env, call, c, m, i);
      case Hook(i) => HookMoves(env, call, c, m, i);
      case Ret(k) => ReturnMoves(env, call, c, m, k);
    }
    Assembled(env, call, c, m, loc);
  }
}
