/**
The system vpoline makes of the program: any number of threads run the patched
text, the trampoline, `asm_syscall_hook`, hooks and the return paths over one
memory, interleaved instruction by instruction.

Where a thread is follows from its pc; `flights` records, outermost first, the
interceptions it has entered and not yet left, for the statements about it.
*/
module Patched {
  import opened Isa
  import opened Patcher
  import opened HookCode
  import opened HookPath
  import opened Interception
  import opened Program
  import opened Original

  /** `hook` holds the processor at the call of `syscall_hook` while the hook runs. */
  datatype Flight = Flight(call: Call, hook: Option<Core>)

  datatype Thread = Thread(core: Core, flights: seq<Flight>, lo: nat, hi: nat)

  /** `log` has the program's system calls, `inner` those made by hooks through patched code. */
  datatype World = World(mem: Mem, threads: map<nat, Thread>, log: seq<Event>, inner: seq<Request>)

  datatype Action =
    | User(t: nat)
    | Enter(t: nat)
    | Path(t: nat)
    | HookRuns(t: nat, core: Core, writes: map<nat, byte>)
    | HookReturns(t: nat, core: Core, answer: HookAnswer)
    | Kernel(t: nat, reply: u64, writes: map<nat, byte>, child: Option<Child>)
    | Unseen(t: nat, reply: u64, writes: map<nat, byte>, child: Option<Child>)
    | Exit(t: nat)

  function Top(th: Thread): Flight
    requires th.flights != []
  {
    th.flights[|th.flights| - 1]
  }

  function Pop(th: Thread): seq<Flight>
    requires th.flights != []
  {
    th.flights[..|th.flights| - 1]
  }

  function WithTop(th: Thread, f: Flight): Thread
    requires th.flights != []
  {
    th.(flights := Pop(th) + [f])
  }

  predicate Hooking(th: Thread) { th.flights != [] && Top(th).hook.Some? }

  /** sp of the program's code: the current one, or the one it had at its patched system call. */
  function CallerSp(th: Thread): u64 {
    if th.flights == [] then th.core.x[SP] else th.flights[0].call.entry.x[SP]
  }

  predicate BelowCaller(threads: map<nat, Thread>, a: nat) {
    exists t :: t in threads && InRange(a, threads[t].lo, CallerSp(threads[t]))
  }

  /** Where hook code of `th` may write without the program noticing: vpoline's memory or its own stack. */
  predicate Scratchpad(cfg: Config, lo: nat, hi: nat, a: nat) {
    !Fixed(cfg, a) && (a in cfg.own || InRange(a, lo, hi))
  }

  /** Memory of the program that may be written on its behalf. */
  predicate UserVisible(cfg: Config, w: World, a: nat) {
    !Guarded(cfg, a) && !BelowCaller(w.threads, a)
  }

  ghost predicate FreshThread(cfg: Config, w: World, c: Child) {
    && c.id !in w.threads
    && c.lo <= c.sp <= c.hi && FRAME_SIZE <= c.sp
    && (forall t :: t in w.threads ==> Disjoint(c.lo, c.hi, w.threads[t].lo, w.threads[t].hi))
    && (forall a :: Guarded(cfg, a) ==> !InRange(a, c.lo, c.hi))
  }

  /** The part of a thread's stack that its current hook or its system call may use. */
  function RoomLo(th: Thread): nat {
    if th.flights == [] || Hooking(th) then th.lo else Top(th).call.entry.x[SP]
  }

  function RoomHi(th: Thread): nat {
    if th.flights == [] then th.hi
    else if Hooking(th) then FrameBase(Top(th).call)
    else if |th.flights| == 1 then th.lo
    else FrameBase(th.flights[|th.flights| - 2].call)
  }

  function FrameBase(call: Call): nat {
    if call.entry.x[SP] >= FRAME_SIZE then call.entry.x[SP] - FRAME_SIZE else 0
  }

  // ---- Steps ------------------------------------------------------------

  ghost predicate Enabled(cfg: Config, w: World, a: Action)
    requires ValidEnv(cfg.env)
  {
    && a.t in w.threads
    && var th := w.threads[a.t];
       var pc := th.core.pc;
       match a
       case User(_) =>
         && !InPath(cfg.env, pc) && th.flights == []
         && var op := cfg.prog(pc); op.Compute? || (op.Access? && IsMem(op.instr))
       case Enter(_) =>
         && !InPath(cfg.env, pc)
         && if th.flights == [] then cfg.prog(pc).Syscall? else HookMayCall(cfg, th)
       case Path(_) =>
         InPath(cfg.env, pc) && Plain(PathInstr(cfg.env, w.mem, pc))
       case HookRuns(_, core, writes) =>
         && !InPath(cfg.env, pc) && Hooking(th)
         && core.x[GP] == th.core.x[GP] && core.x[ZERO] == th.core.x[ZERO]
         && th.lo <= core.x[SP] <= RoomHi(th)
         && !InPath(cfg.env, core.pc)
         && (forall b :: b in writes ==> Scratchpad(cfg, RoomLo(th), RoomHi(th), b) || UserVisible(cfg, w, b))
       case HookReturns(_, core, answer) =>
         !InPath(cfg.env, pc) && Hooking(th) && ReturnsFrom(Top(th).hook.value, core, answer)
       case Kernel(_, _, writes, child) =>
         && InPath(cfg.env, pc) && PathInstr(cfg.env, w.mem, pc).Ecall?
         && (forall b :: b in writes ==>
               UserVisible(cfg, w, b) || (|th.flights| > 1 && Scratchpad(cfg, RoomLo(th), RoomHi(th), b)))
         && (child.Some? ==> |th.flights| == 1 && IsClone(th.core.x[A7]) && FreshThread(cfg, w, child.value))
       case Unseen(_, _, writes, child) =>
         && AtDirect(cfg, th)
         && (forall b :: b in writes ==> UserVisible(cfg, w, b))
         && (child.Some? ==> IsClone(th.core.x[A7]) && FreshThread(cfg, w, child.value))
       case Exit(_) =>
         AtDirect(cfg, th) || (|th.flights| == 1 && InPath(cfg.env, pc) && PathInstr(cfg.env, w.mem, pc).Ecall?)
  }

  /** Program code reaches an ecall that has not been rewritten. */
  ghost predicate AtDirect(cfg: Config, th: Thread)
    requires ValidEnv(cfg.env)
  {
    th.flights == [] && !InPath(cfg.env, th.core.pc) && cfg.prog(th.core.pc).Direct?
  }

  /** Hook code reaches a patched system call of its own; it leaves rt_sigreturn alone. */
  ghost predicate HookMayCall(cfg: Config, th: Thread)
    requires ValidEnv(cfg.env)
  {
    && Hooking(th) && cfg.prog(th.core.pc).Syscall? && !InPath(cfg.env, Wrap(th.core.pc + 4))
    && th.core.pc % 2 == 0 && th.lo + FRAME_SIZE <= th.core.x[SP]
    && th.core.x[A7] != NR_RT_SIGRETURN
  }

  /** One instruction of the path, with the record of calls brought up to date. */
  ghost function PathThread(cfg: Config, th: Thread, c: Core): Thread
    requires ValidEnv(cfg.env)
  {
    if th.flights == [] then th.(core := c)
    else if th.core.pc == PcOf(cfg.env, Ret(13)) then th.(core := c, flights := Pop(th))
    else if th.core.pc == PcOf(cfg.env, Hook(38)) then
      WithTop(th, Flight(Top(th).call.(hooks := Top(th).call.hooks + 1), Some(c))).(core := c)
    else th.(core := c)
  }

  /** A thread born at the system call of a thread in flight. */
  function ChildOf(call: Call, c: Core, child: Child): Thread {
    var core := AfterEcall(c, 0);
    var entry := call.entry.(x := call.entry.x[SP := child.sp][TP := child.tp]);
    Thread(core.(x := core.x[SP := child.sp][TP := child.tp]),
           [Flight(Answered(call, 0).(entry := entry), None)],
           child.lo, child.hi)
  }

  ghost function KernelWorld(w: World, t: nat, reply: u64, writes: map<nat, byte>, child: Option<Child>): World
    requires t in w.threads
  {
    var th := w.threads[t];
    var c := AfterEcall(th.core, reply);
    if th.flights == [] then w.(mem := w.mem + writes, threads := w.threads[t := th.(core := c)])
    else
      var th' := WithTop(th, Top(th).(call := Answered(Top(th).call, reply))).(core := c);
      var threads := w.threads[t := th'];
      World(w.mem + writes,
            if child.Some? then threads[child.value.id := ChildOf(Top(th).call, th.core, child.value)] else threads,
            if |th.flights| == 1 then w.log + [Asked(t, RequestOf(th.core), reply, writes, child)] else w.log,
            if |th.flights| == 1 then w.inner else w.inner + [RequestOf(th.core)])
  }

  /** A thread born at a system call that has not been rewritten. */
  function DirectChild(c: Core, child: Child): Thread {
    var born := ChildThread(c, child);
    Thread(born.core, [], born.lo, born.hi)
  }

  function UnseenWorld(w: World, t: nat, reply: u64, writes: map<nat, byte>, child: Option<Child>): World
    requires t in w.threads
  {
    var th := w.threads[t];
    var threads := w.threads[t := th.(core := AfterSyscall(th.core, reply))];
    w.(mem := w.mem + writes,
       threads := if child.Some? then threads[child.value.id := DirectChild(th.core, child.value)] else threads,
       log := w.log + [Asked(t, RequestOf(th.core), reply, writes, child)])
  }

  ghost function Apply(cfg: Config, w: World, a: Action): World
    requires ValidEnv(cfg.env) && Enabled(cfg, w, a)
  {
    var th := w.threads[a.t];
    match a
    case User(t) =>
      (match cfg.prog(th.core.pc)
       case Access(i, len) =>
         var e := PatchedAccess(cfg, i, len, th.core, w.mem);
         w.(mem := e.mem, threads := w.threads[t := th.(core := e.core)])
       case Compute(f) => w.(threads := w.threads[t := th.(core := ComputeOn(f, th.core))])
       case _ => w)
    case Enter(t) =>
      w.(threads := w.threads[t := th.(core := ExecReg(Jalr(GP, GP, 0), th.core),
                                       flights := th.flights + [Flight(Call(th.core, Pending, 0, 0), None)])])
    case Path(t) =>
      var e := Exec(PathInstr(cfg.env, w.mem, th.core.pc), th.core, w.mem);
      w.(mem := e.mem, threads := w.threads[t := PathThread(cfg, th, e.core)])
    case HookRuns(t, core, writes) =>
      w.(mem := w.mem + writes, threads := w.threads[t := th.(core := core)])
    case HookReturns(t, core, answer) =>
      var call := Decided(Top(th).call, Top(th).hook.value, answer);
      var th' := WithTop(th, Flight(call, None)).(core := core);
      w.(threads := w.threads[t := th'],
         log := if |th.flights| == 1 && !Forwards(answer)
                then w.log + [Interposed(t, RequestOf(call.entry), core.x[A0])] else w.log)
    case Kernel(t, reply, writes, child) => KernelWorld(w, t, reply, writes, child)
    case Unseen(t, reply, writes, child) => UnseenWorld(w, t, reply, writes, child)
    case Exit(t) => w.(threads := w.threads - {t}, log := w.log + [Ended(t, RequestOf(th.core))])
  }

  ghost predicate Runs(cfg: Config, w: World, acts: seq<Action>)
    requires ValidEnv(cfg.env)
    decreases |acts|
  {
    acts == [] || (Enabled(cfg, w, acts[0]) && Runs(cfg, Apply(cfg, w, acts[0]), acts[1..]))
  }

  ghost function End(cfg: Config, w: World, acts: seq<Action>): World
    requires ValidEnv(cfg.env) && Runs(cfg, w, acts)
    decreases |acts|
  {
    if acts == [] then w else End(cfg, Apply(cfg, w, acts[0]), acts[1..])
  }

  // ---- Invariant --------------------------------------------------------

  /** Once clone or clone3 has been answered, its frame is closed. */
  predicate Framed(call: Call) {
    !(call.outcome.Replied? && IsClone(Number(call)))
  }

  /** Call `j` of a thread lies below the one before it, in the thread's stack. */
  ghost predicate NestedAt(cfg: Config, th: Thread, j: int)
    requires ValidEnv(cfg.env) && 0 <= j < |th.flights|
  {
    var call := th.flights[j].call;
    && ValidCall(call)
    && call.entry.x[GP] == cfg.env.gp
    && Number(call) != NR_RT_SIGRETURN
    && th.lo <= (if Framed(call) then FrameBase(call) else call.entry.x[SP])
    && call.entry.x[SP] <= (if j == 0 then th.hi else FrameBase(th.flights[j - 1].call))
    && (if j == 0 then cfg.prog(call.entry.pc).Syscall? else !InPath(cfg.env, ReturnAddress(call)))
  }

  /** The in-flight calls of a thread nest down its stack. */
  ghost predicate Nested(cfg: Config, th: Thread)
    requires ValidEnv(cfg.env)
  {
    forall j :: 0 <= j < |th.flights| ==> NestedAt(cfg, th, j)
  }

  ghost predicate FlightInv(cfg: Config, th: Thread, m: Mem, j: int)
    requires ValidEnv(cfg.env) && 0 <= j < |th.flights|
  {
    var fl := th.flights[j];
    && ValidCall(fl.call)
    && if fl.hook.Some? then InHook(cfg.env, fl.call, m, fl.hook.value)
       else j == |th.flights| - 1 && InPath(cfg.env, th.core.pc)
            && AtLoc(cfg.env, fl.call, th.core, m, LocOf(cfg.env, th.core.pc))
  }

  ghost predicate ThreadInv(cfg: Config, th: Thread, m: Mem)
    requires ValidEnv(cfg.env)
  {
    && Nested(cfg, th)
    && (forall j :: 0 <= j < |th.flights| ==> FlightInv(cfg, th, m, j))
    && (th.flights == [] ==> th.core.x[GP] == cfg.env.gp)
    && (Hooking(th) ==>
          && th.core.x[GP] == cfg.env.gp
          && th.lo <= th.core.x[SP] <= FrameBase(Top(th).call)
          && !InPath(cfg.env, th.core.pc))
  }

  ghost predicate StacksApart(cfg: Config, threads: map<nat, Thread>) {
    && (forall t, u :: t in threads && u in threads && t != u ==>
          Disjoint(threads[t].lo, threads[t].hi, threads[u].lo, threads[u].hi))
    && (forall t, a :: t in threads && Guarded(cfg, a) ==> !InRange(a, threads[t].lo, threads[t].hi))
  }

  ghost predicate Inv(cfg: Config, w: World)
    requires ValidConfig(cfg)
  {
    && PageHolds(cfg.env, w.mem)
    && LoadDouble(w.mem, cfg.env.gpVar) == cfg.env.gp
    && HoldsCode(w.mem, cfg.code)
    && StacksApart(cfg, w.threads)
    && (forall t :: t in w.threads ==> ThreadInv(cfg, w.threads[t], w.mem))
  }
}
