/**
The specification system: the original, unpatched program with any number of
threads, on top of a kernel that may answer a system call in any way or end the
thread, and with an interposer that may answer one instead of the kernel or write
user memory while a thread waits at its system call. Without the last two kinds
of action it is the original program.

`dead` is the set of stack bytes that have been below their thread's sp since
they were last written.
*/
module Original {
  import opened Isa
  import opened Patcher
  import opened HookCode
  import opened HookPath
  import opened Interception
  import opened Program

  datatype AThread = AThread(core: Core, lo: nat, hi: nat)

  datatype Child = Child(id: nat, sp: u64, tp: u64, lo: nat, hi: nat)

  datatype Option<T> = None | Some(value: T)

  datatype Event =
    | Asked(t: nat, request: Request, reply: u64, writes: map<nat, byte>, child: Option<Child>)
    | Interposed(t: nat, request: Request, reply: u64)
    | Ended(t: nat, request: Request)

  datatype AState = AState(mem: Mem, threads: map<nat, AThread>, dead: set<nat>, log: seq<Event>)

  datatype AAction =
    | AUser(t: nat)
    | AKernel(t: nat, reply: u64, writes: map<nat, byte>, child: Option<Child>)
    | AExit(t: nat)
    | AAnswer(t: nat, v: u64)
    | AHookWrite(t: nat, writes: map<nat, byte>)

  /** Actions of the program without an interposer. */
  predicate IsOriginal(a: AAction) { a.AUser? || a.AKernel? || a.AExit? }

  predicate InRange(a: nat, lo: nat, hi: nat) { lo <= a < hi }

  function Span(lo: nat, hi: nat): set<nat> {
    set a: nat | lo <= a < hi && InRange(a, lo, hi)
  }

  /** `a` is in some thread's stack, below its sp. */
  predicate Below(threads: map<nat, AThread>, a: nat) {
    exists t :: t in threads && InRange(a, threads[t].lo, threads[t].core.x[SP])
  }

  function BelowOf(th: AThread): set<nat> {
    Span(th.lo, th.core.x[SP])
  }

  predicate Disjoint(lo: nat, hi: nat, lo': nat, hi': nat) {
    hi <= lo' || hi' <= lo
  }

  /** Memory the kernel or an interposer may write on the program's behalf. */
  predicate Writable(cfg: Config, s: AState, writes: map<nat, byte>) {
    forall a :: a in writes ==> !Guarded(cfg, a) && !Below(s.threads, a)
  }

  /** A new thread gets an id and a stack of its own. */
  ghost predicate FreshChild(cfg: Config, s: AState, c: Child) {
    && c.id !in s.threads
    && c.lo <= c.sp <= c.hi && FRAME_SIZE <= c.sp
    && (forall t :: t in s.threads ==> Disjoint(c.lo, c.hi, s.threads[t].lo, s.threads[t].hi))
    && (forall a :: Guarded(cfg, a) ==> !InRange(a, c.lo, c.hi))
  }

  ghost predicate AEnabled(cfg: Config, s: AState, a: AAction) {
    && a.t in s.threads
    && var op := cfg.prog(s.threads[a.t].core.pc);
       match a
       case AUser(t) => op.Compute? || (op.Access? && IsMem(op.instr))
       case AKernel(t, _, writes, child) =>
         && (op.Syscall? || op.Direct?)
         && Writable(cfg, s, writes)
         && (child.Some? ==> IsClone(s.threads[t].core.x[A7]) && FreshChild(cfg, s, child.value))
       case AExit(_) => op.Syscall? || op.Direct?
       case AAnswer(t, _) => op.Syscall?
       case AHookWrite(t, writes) => op.Syscall? && Writable(cfg, s, writes)
  }

  /** The processor after a system call answered with `v`. */
  function AfterSyscall(c: Core, v: u64): Core {
    c.(x := c.x[A0 := v], pc := Wrap(c.pc + 4))
  }

  function ChildThread(parent: Core, c: Child): AThread {
    var core := AfterSyscall(parent, 0);
    AThread(core.(x := core.x[SP := c.sp][TP := c.tp]), c.lo, c.hi)
  }

  function AccessRange(i: Instr, c: Core): set<nat>
    requires IsMem(i)
  {
    Span(Ea(i, c), Ea(i, c) + i.width)
  }

  function AApply(cfg: Config, s: AState, a: AAction): AState
    requires a.t in s.threads
    requires a.AUser? ==> var op := cfg.prog(s.threads[a.t].core.pc); op.Compute? || (op.Access? && IsMem(op.instr))
  {
    var th := s.threads[a.t];
    match a
    case AUser(t) =>
      (match cfg.prog(th.core.pc)
       case Access(i, len) =>
         var e := ExecMem(i, th.core, s.mem, Ea(i, th.core), len);
         s.(mem := e.mem,
            threads := s.threads[t := th.(core := e.core)],
            dead := s.dead + BelowOf(th) - (if IsStore(i) then AccessRange(i, th.core) else {}))
       case Compute(f) =>
         s.(threads := s.threads[t := th.(core := ComputeOn(f, th.core))], dead := s.dead + BelowOf(th))
       case _ => s)
    case AKernel(t, reply, writes, child) =>
      var threads := s.threads[t := th.(core := AfterSyscall(th.core, reply))];
      AState(s.mem + writes,
             if child.Some? then threads[child.value.id := ChildThread(th.core, child.value)] else threads,
             s.dead - writes.Keys,
             s.log + [Asked(t, RequestOf(th.core), reply, writes, child)])
    case AExit(t) =>
      s.(threads := s.threads - {t}, dead := s.dead + BelowOf(th), log := s.log + [Ended(t, RequestOf(th.core))])
    case AAnswer(t, v) =>
      s.(threads := s.threads[t := th.(core := AfterSyscall(th.core, v))],
         log := s.log + [Interposed(t, RequestOf(th.core), v)])
    case AHookWrite(t, writes) =>
      s.(mem := s.mem + writes, dead := s.dead - writes.Keys)
  }

  // ---- Conventions the program keeps ------------------------------------

  /**
  The next operation of thread `t` respects the calling convention and vpoline's
  memory and uses gp only as the base of an access.
  */
  ghost predicate OkButGp(cfg: Config, s: AState, t: nat)
    requires ValidEnv(cfg.env) && t in s.threads
  {
    var th := s.threads[t];
    && th.lo <= th.core.x[SP] <= th.hi
    && !InPath(cfg.env, th.core.pc)
    && match cfg.prog(th.core.pc)
       case Access(i, len) => IsMem(i) ==> GpOnlyBase(i) && OkBytes(cfg, s, t, i)
       case Compute(f) => GpUnused(cfg, f, th.core)
       case Syscall =>
         && th.core.pc % 2 == 0
         && th.lo + FRAME_SIZE <= th.core.x[SP]
         && th.core.x[A7] != NR_RT_SIGRETURN
       case Direct => th.core.x[A7] != NR_RT_SIGRETURN
  }

  /** An access relative to gp stays in gp's page. */
  predicate GpInPage(cfg: Config, c: Core, i: Instr)
    requires IsMem(i)
  {
    i.rs1 == GP ==> InRange(Ea(i, c), cfg.dataLo, cfg.dataLo + cfg.pageSize) && -0x800 <= i.imm < 0x800
  }

  ghost predicate Ok(cfg: Config, s: AState, t: nat)
    requires ValidEnv(cfg.env) && t in s.threads
  {
    var c := s.threads[t].core;
    && OkButGp(cfg, s, t)
    && (var op := cfg.prog(c.pc); op.Access? && IsMem(op.instr) ==> GpInPage(cfg, c, op.instr))
  }

  /**
  Accesses stay out of vpoline's memory; loads read no dead byte, and stores write
  neither code nor below another thread's sp.
  */
  ghost predicate OkBytes(cfg: Config, s: AState, t: nat, i: Instr)
    requires t in s.threads && IsMem(i)
  {
    var ea := Ea(i, s.threads[t].core);
    forall a: nat :: ea <= a < ea + i.width ==> OkByte(cfg, s, t, IsStore(i), a)
  }

  ghost predicate OkAccess(cfg: Config, s: AState, t: nat, i: Instr)
    requires t in s.threads && IsMem(i)
  {
    OkBytes(cfg, s, t, i) && GpInPage(cfg, s.threads[t].core, i)
  }

  ghost predicate OkByte(cfg: Config, s: AState, t: nat, store: bool, a: nat) {
    && a !in cfg.own
    && if store then
         && a !in cfg.code
         && forall u :: u in s.threads && u != t ==> !InRange(a, s.threads[u].lo, s.threads[u].core.x[SP])
       else a !in s.dead && !Below(s.threads, a)
  }

  ghost predicate AllOk(cfg: Config, s: AState)
    requires ValidEnv(cfg.env)
  {
    forall t :: t in s.threads ==> Ok(cfg, s, t)
  }

  // ---- Runs -------------------------------------------------------------

  ghost predicate ARuns(cfg: Config, s: AState, acts: seq<AAction>)
    decreases |acts|
  {
    acts == [] || (AEnabled(cfg, s, acts[0]) && ARuns(cfg, AApply(cfg, s, acts[0]), acts[1..]))
  }

  ghost function AEnd(cfg: Config, s: AState, acts: seq<AAction>): AState
    requires ARuns(cfg, s, acts)
    decreases |acts|
  {
    if acts == [] then s else AEnd(cfg, AApply(cfg, s, acts[0]), acts[1..])
  }

  ghost predicate AllOriginal(acts: seq<AAction>) {
    forall i :: 0 <= i < |acts| ==> IsOriginal(acts[i])
  }

  /** Every thread keeps the conventions in every state of this run. */
  ghost predicate OkAlong(cfg: Config, s: AState, acts: seq<AAction>)
    requires ValidEnv(cfg.env)
    decreases |acts|
  {
    && AllOk(cfg, s)
    && (acts != [] && AEnabled(cfg, s, acts[0]) ==> OkAlong(cfg, AApply(cfg, s, acts[0]), acts[1..]))
  }
}
