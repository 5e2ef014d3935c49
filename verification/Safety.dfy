/**
What holds in every state that any run of the patched system reaches.
*/
module Safety {
  import opened Isa
  import opened Patcher
  import opened HookCode
  import opened HookPath
  import opened Interception
  import opened Program
  import opened Original
  import opened Patched
  import opened Refinement
  import opened Steps
  import opened Theorems

  /** gp is the relocated one throughout program code and throughout every hook, at any depth. */
  lemma GpStaysRelocated(cfg: Config, w0: World, s0: AState, w: World, t: nat)
    requires ValidConfig(cfg) && Reachable(cfg, w0, s0, w) && t in w.threads
    requires w.threads[t].flights == [] || Hooking(w.threads[t])
    ensures w.threads[t].core.x[GP] == cfg.env.gp
  {
    hide Reachable, AllOk;
    var s := ReachableRelated(cfg, w0, s0, w);
    assert ThreadInv(cfg, w.threads[t], w.mem);
  }

  /** What an interception in flight gives back when its last jump executes. */
  ghost predicate GivesBack(call: Call, c: Core) {
    && c.pc == ReturnAddress(call)
    && c.f == call.entry.f
    && (forall r: Reg :: r != A0 ==> c.x[r] == call.entry.x[r])
    && c.x[A0] == A0Value(call)
  }

  /**
  Whichever thread and whichever depth: a thread at the word below the relocated
  gp resumes just after its own innermost patched instruction, with its caller's
  whole context, and that call has run the hook exactly once and has reached the
  kernel exactly once unless the hook answered it.
  */
  lemma ReturnsToOwnSite(cfg: Config, w0: World, s0: AState, w: World, t: nat)
    requires ValidConfig(cfg) && Reachable(cfg, w0, s0, w) && t in w.threads
    requires w.threads[t].core.pc == cfg.env.gp - 4
    ensures w.threads[t].flights != [] && Enabled(cfg, w, Path(t))
    ensures var th, th' := w.threads[t], Apply(cfg, w, Path(t)).threads[t];
            && th'.flights == Pop(th) && GivesBack(Top(th).call, th'.core)
            && Apply(cfg, w, Path(t)).mem == w.mem
    ensures var call := Top(w.threads[t]).call;
            call.hooks == 1 && call.ecalls == if call.outcome.Handled? then 0 else 1
  {
    hide Reachable, AllOk, AtLoc, Related;
    var s := ReachableRelated(cfg, w0, s0, w);
    var th := w.threads[t];
    assert th.core.pc == PcOf(cfg.env, Ret(13));
    LocUnique(cfg.env, Ret(13));
    var loc := PathOnly(cfg, w, s, t);
    AtLocPc(cfg.env, Top(th).call, th.core, w.mem, loc);
    LocUnique(cfg.env, loc);
    RelatedThread(cfg, w, s, t);
    ReturnInv(cfg, th, w.mem, PathThread(cfg, th, ExecReg(Jalr(GP, GP, 0), th.core)));
    assert NestedAt(cfg, th, |th.flights| - 1);
    CountsAtReturn(cfg.env, Top(th).call, th.core, w.mem);
  }

  lemma RelatedThread(cfg: Config, w: World, s: AState, t: nat)
    requires ValidConfig(cfg) && Related(cfg, w, s) && t in w.threads
    ensures ThreadInv(cfg, w.threads[t], w.mem)
  {
  }

  lemma CountsAtReturn(env: Env, call: Call, c: Core, m: Mem)
    requires ValidEnv(env) && ValidCall(call) && AtLoc(env, call, c, m, Ret(13)) && Number(call) != NR_RT_SIGRETURN
    ensures call.hooks == 1 && call.ecalls == if call.outcome.Handled? then 0 else 1
  {
    hide Registers, Slots;
  }

  lemma CountsOnPath(env: Env, call: Call, c: Core, m: Mem, loc: Loc)
    requires ValidEnv(env) && ValidCall(call) && AtLoc(env, call, c, m, loc)
    ensures Number(call) == NR_RT_SIGRETURN ==> call.hooks == 0 && !call.outcome.Handled? && loc != Hook(38)
    ensures Number(call) != NR_RT_SIGRETURN ==> call.hooks == if BeforeHook(loc) then 0 else 1
    ensures call.ecalls == if call.outcome.Replied? then 1 else 0
    ensures InstrAt(env, loc).Ecall? ==> call.ecalls == 0 && !call.outcome.Handled?
  {
    hide Registers, Slots, Scratch;
  }

  /** The call of `syscall_hook` and everything before it. */
  predicate BeforeHook(loc: Loc) {
    loc.Tramp? || (loc.Hook? && loc.i <= 38)
  }

  /**
  In every reachable state, for every call in flight: the hook has been called
  once if its call lies behind, and never twice; the kernel has been asked once if
  it has replied, and is about to be asked only if it has not been asked before
  and no hook has answered.
  */
  lemma ExactlyOnce(cfg: Config, w0: World, s0: AState, w: World, t: nat, j: nat)
    requires ValidConfig(cfg) && Reachable(cfg, w0, s0, w) && t in w.threads && j < |w.threads[t].flights|
    ensures var th := w.threads[t];
            var call := th.flights[j].call;
            if th.flights[j].hook.Some? then call.hooks == 1 && call.ecalls == 0 && call.outcome.Pending?
            else
              && j == |th.flights| - 1 && InPath(cfg.env, th.core.pc)
              && call.hooks == (if BeforeHook(LocOf(cfg.env, th.core.pc)) then 0 else 1)
              && call.ecalls == (if call.outcome.Replied? then 1 else 0)
              && (PathInstr(cfg.env, w.mem, th.core.pc).Ecall? ==> call.ecalls == 0 && call.outcome.Forward?)
  {
    hide Reachable, AllOk, AtLoc, PathInstr, StacksApart, SameThreads, SameMemory, HoldsCode, LoadDouble, PageHolds, InPath;
    var s := ReachableRelated(cfg, w0, s0, w);
    var th := w.threads[t];
    RelatedThread(cfg, w, s, t);
    assert FlightInv(cfg, th, w.mem, j) && NestedAt(cfg, th, j);
    if th.flights[j].hook.None? {
      var loc := LocOf(cfg.env, th.core.pc);
      CountsOnPath(cfg.env, th.flights[j].call, th.core, w.mem, loc);
      Fetched(cfg.env, w.mem, loc);
      EcallForwards(cfg.env, th.flights[j].call, th.core, w.mem, loc);
    }
  }

  lemma EcallForwards(env: Env, call: Call, c: Core, m: Mem, loc: Loc)
    requires ValidEnv(env) && ValidCall(call) && AtLoc(env, call, c, m, loc) && Number(call) != NR_RT_SIGRETURN
    ensures IsLoc(loc) && (InstrAt(env, loc).Ecall? ==> call.outcome.Forward?)
  {
    AtLocPc(env, call, c, m, loc);
    if InstrAt(env, loc).Ecall? { EcallLoc(env, loc); }
    hide Registers, Slots, Scratch;
  }

  /** Where each of the three return paths begins, as a distance below the relocated gp. */
  function EntryOffset(k: nat): int {
    if k == 0 then 56 else if k == 4 then 40 else 20
  }

  /**
  The three jumps out of `asm_syscall_hook` land on the first word of the path
  meant for the call: the handled one, the normal one and the clone one.
  */
  lemma ReturnEntries(env: Env, call: Call, c: Core, m: Mem, loc: Loc)
    requires ValidEnv(env) && ValidCall(call) && AtLoc(env, call, c, m, loc) && LoadDouble(m, env.gpVar) == env.gp
    requires loc == Hook(81) || loc == Hook(89) || loc == Hook(93)
    ensures var k := if call.outcome.Handled? then 0 else if IsClone(Number(call)) then 9 else 4;
            var e := Exec(InstrAt(env, loc), c, m);
            e.mem == m && e.core.pc == env.gp - EntryOffset(k) && AtLoc(env, call, e.core, e.mem, Ret(k))
  {
    hide AtLoc, ExecReg, LoadDouble;
    ExitMatchesCall(env, call, c, m, loc);
    PathStep(env, call, c, m, loc);
    var e := Exec(InstrAt(env, loc), c, m);
    AtLocPc(env, call, e.core, e.mem, Next(call, loc));
  }

  lemma ExitMatchesCall(env: Env, call: Call, c: Core, m: Mem, loc: Loc)
    requires ValidEnv(env) && ValidCall(call) && AtLoc(env, call, c, m, loc)
    requires loc == Hook(81) || loc == Hook(89) || loc == Hook(93)
    ensures loc == if call.outcome.Handled? then Hook(81) else if IsClone(Number(call)) then Hook(93) else Hook(89)
  {
    hide Registers, Slots, Scratch;
  }

  /** No two calls whose frames are open, of one thread or of two, share a byte of stack. */
  lemma FramesPairwiseDisjoint(cfg: Config, w0: World, s0: AState, w: World, t: nat, j: nat, u: nat, k: nat)
    requires ValidConfig(cfg) && Reachable(cfg, w0, s0, w)
    requires t in w.threads && j < |w.threads[t].flights| && u in w.threads && k < |w.threads[u].flights|
    requires Framed(w.threads[t].flights[j].call) && Framed(w.threads[u].flights[k].call)
    requires t != u || j < k
    ensures var b, b' := FrameBase(w.threads[t].flights[j].call), FrameBase(w.threads[u].flights[k].call);
            Disjoint(b, b + FRAME_SIZE, b', b' + FRAME_SIZE)
  {
    hide Reachable, AllOk, FlightInv, PageHolds, LoadDouble, SameThreads, SameMemory;
    var s := ReachableRelated(cfg, w0, s0, w);
    var th, th' := w.threads[t], w.threads[u];
    RelatedThread(cfg, w, s, t);
    RelatedThread(cfg, w, s, u);
    assert NestedAt(cfg, th, j) && NestedAt(cfg, th', k) && NestedAt(cfg, th, 0) && NestedAt(cfg, th', 0);
    DeeperIsLower(cfg, th, 0, j);
    DeeperIsLower(cfg, th', 0, k);
    if t == u {
      assert NestedAt(cfg, th, j + 1);
      DeeperIsLower(cfg, th, j + 1, k);
    }
  }

  /** A thread on the interception path can always go on: the ebreak is never reached. */
  lemma NeverStuck(cfg: Config, w0: World, s0: AState, w: World, t: nat, reply: u64)
    requires ValidConfig(cfg) && Reachable(cfg, w0, s0, w) && t in w.threads
    requires InPath(cfg.env, w.threads[t].core.pc)
    ensures Enabled(cfg, w, Path(t)) || Enabled(cfg, w, Kernel(t, reply, map[], None))
    ensures w.threads[t].core.pc != PcOf(cfg.env, Hook(77))
  {
    hide Reachable, AllOk, Related, PathInstr, PcOf, InPath;
    var s := ReachableRelated(cfg, w0, s0, w);
    var loc := PathOnly(cfg, w, s, t);
    var th := w.threads[t];
    NotAtEbreak(cfg.env, Top(th).call, th.core, w.mem, loc);
    OtherPc(cfg.env, loc, Hook(77));
  }

  lemma NotAtEbreak(env: Env, call: Call, c: Core, m: Mem, loc: Loc)
    requires ValidEnv(env) && ValidCall(call) && AtLoc(env, call, c, m, loc)
    ensures IsLoc(loc) && c.pc == PcOf(env, loc) && loc != Hook(77)
    ensures Plain(InstrAt(env, loc)) || InstrAt(env, loc).Ecall?
  {
    hide Registers, Slots, Scratch;
  }

  // ---- An interception ends ---------------------------------------------

  /** A bound on the instructions of its own that a call still has to execute. */
  function Rank(loc: Loc): int {
    match loc
    case Tramp(i) => 219 - i
    case Hook(i) =>
      if i <= 77 then 176 - i else if i <= 81 then 121 - i else if i <= 93 then 153 - i else 177 - i
    case Ret(k) => if k == 13 then 0 else 20 - k
  }

  lemma NextIsLower(env: Env, call: Call, c: Core, m: Mem, loc: Loc)
    requires ValidEnv(env) && ValidCall(call) && AtLoc(env, call, c, m, loc) && loc != Ret(13)
    ensures 0 <= Rank(Next(call, loc)) < Rank(loc) < 220
  {
    hide Registers, Slots, Scratch;
  }

  /** The acting thread after its action. */
  ghost function ThreadAfter(cfg: Config, w: World, a: Action): Thread
    requires ValidEnv(cfg.env) && Enabled(cfg, w, a) && (a.Path? || a.Kernel?)
  {
    Apply(cfg, w, a).threads[a.t]
  }

  /** A thread on the path has called the hook, or is closer to the last jump. */
  ghost predicate Advances(cfg: Config, th: Thread, th': Thread)
    requires ValidEnv(cfg.env)
  {
    if th.core.pc == PcOf(cfg.env, Hook(38)) then Hooking(th')
    else
      && InPath(cfg.env, th.core.pc) && InPath(cfg.env, th'.core.pc) && |th'.flights| == |th.flights|
      && 0 <= Rank(LocOf(cfg.env, th'.core.pc)) < Rank(LocOf(cfg.env, th.core.pc)) < 220
  }

  /**
  In every reachable state, a thread on the path that is not at the last jump is
  brought closer to it by its next instruction, or by the kernel's answer, unless
  that instruction is the call of the hook.
  */
  lemma EveryStepAdvances(cfg: Config, w0: World, s0: AState, w: World, t: nat, a: Action)
    requires ValidConfig(cfg) && Reachable(cfg, w0, s0, w) && t in w.threads
    requires InPath(cfg.env, w.threads[t].core.pc) && w.threads[t].core.pc != cfg.env.gp - 4
    requires a.t == t && (a.Path? || a.Kernel?) && Enabled(cfg, w, a)
    ensures Advances(cfg, w.threads[t], ThreadAfter(cfg, w, a))
  {
    hide Reachable, AllOk, AtLoc, Related, PathInstr, InPath, Rank, Next, Enabled, ThreadAfter, InstrAt;
    var s := ReachableRelated(cfg, w0, s0, w);
    var th := w.threads[t];
    var loc := PathOnly(cfg, w, s, t);
    var call := Top(th).call;
    AtLocPc(cfg.env, call, th.core, w.mem, loc);
    LocUnique(cfg.env, loc);
    if loc == Hook(38) {
      OtherPc(cfg.env, Hook(38), Ret(13));
      HookEntered(cfg, w, a);
    } else {
      assert loc != Ret(13);
      OtherPc(cfg.env, loc, Hook(38));
      NextIsLower(cfg.env, call, th.core, w.mem, loc);
      OneOn(cfg, w, s, t, a, loc);
    }
  }

  lemma HookEntered(cfg: Config, w: World, a: Action)
    requires ValidEnv(cfg.env) && (a.Path? || a.Kernel?) && Enabled(cfg, w, a) && w.threads[a.t].flights != []
    requires w.threads[a.t].core.pc == PcOf(cfg.env, Hook(38)) && PcOf(cfg.env, Hook(38)) != PcOf(cfg.env, Ret(13))
    requires InPath(cfg.env, w.threads[a.t].core.pc)
    requires PathInstr(cfg.env, w.mem, w.threads[a.t].core.pc) == InstrAt(cfg.env, Hook(38))
    ensures Hooking(ThreadAfter(cfg, w, a))
  {
    hide PathInstr, InPath, PcOf, ExecReg;
  }

  /** The thread is at the next point of its path. */
  lemma OneOn(cfg: Config, w: World, s: AState, t: nat, a: Action, loc: Loc)
    requires ValidConfig(cfg) && Related(cfg, w, s) && AllOk(cfg, s) && t in w.threads && OnPath(cfg, w.threads[t], w.mem, loc)
    requires InPath(cfg.env, w.threads[t].core.pc)
    requires PathInstr(cfg.env, w.mem, w.threads[t].core.pc) == InstrAt(cfg.env, loc)
    requires loc != Hook(38) && loc != Ret(13) && a.t == t && (a.Path? || a.Kernel?) && Enabled(cfg, w, a)
    ensures var th' := ThreadAfter(cfg, w, a);
            && |th'.flights| == |w.threads[t].flights| && InPath(cfg.env, th'.core.pc)
            && LocOf(cfg.env, th'.core.pc) == Next(Top(w.threads[t]).call, loc)
  {
    hide AllOk, AtLoc, PathInstr, InPath, Next, SameThreads, SameMemory, StacksApart, PageHolds, LoadDouble, HoldsCode,
      ThreadInv, InstrAt, Exec, UserVisible, PcOf;
    var th := w.threads[t];
    var call := Top(th).call;
    AtLocPc(cfg.env, call, th.core, w.mem, loc);
    if a.Path? {
      assert IsPlainLoc(loc) by { NotAtEcall(cfg.env, loc); }
      var e, next := PathEffect(cfg, th, w.mem, loc);
      AtLocPc(cfg.env, call, e.core, e.mem, next);
      LocUnique(cfg.env, next);
    } else {
      EcallLoc(cfg.env, loc);
      KernelAnswers(cfg.env, call, th.core, w.mem, loc, a.reply);
      AtLocPc(cfg.env, Answered(call, a.reply), AfterEcall(th.core, a.reply), w.mem, Next(call, loc));
      LocUnique(cfg.env, Next(call, loc));
    }
  }

  lemma NotAtEcall(env: Env, loc: Loc)
    requires IsLoc(loc) && Plain(InstrAt(env, loc)) && loc != Hook(38) && loc != Ret(13)
    ensures IsPlainLoc(loc)
  {
  }

  // ---- Stack pointer at the kernel ---------------------------------------

  lemma SpAtEcall(env: Env, call: Call, c: Core, m: Mem, loc: Loc)
    requires ValidEnv(env) && ValidCall(call) && AtLoc(env, call, c, m, loc) && InstrAt(env, loc).Ecall?
    ensures c.x[SP] as int + (if IsClone(Number(call)) then 0 else 304) == call.entry.x[SP]
    ensures c.x[SP] % 16 == call.entry.x[SP] % 16
    ensures RequestOf(c) == RequestOf(call.entry)
  {
    AtLocPc(env, call, c, m, loc);
    EcallLoc(env, loc);
    NotDoneYet(env, call, c, m, loc);
    RequestUnchanged(env, call, c, m, loc);
    hide Registers, Slots, Dispatch, RequestOf;
  }

  /**
  In every reachable state, the kernel is about to find the caller's sp if and
  only if the caller asks for clone or clone3; otherwise it finds 304 less.
  */
  lemma SpAtKernel(cfg: Config, w0: World, s0: AState, w: World, t: nat)
    requires ValidConfig(cfg) && Reachable(cfg, w0, s0, w) && t in w.threads
    requires InPath(cfg.env, w.threads[t].core.pc) && PathInstr(cfg.env, w.mem, w.threads[t].core.pc).Ecall?
    ensures w.threads[t].flights != []
    ensures var entry, c := Top(w.threads[t]).call.entry, w.threads[t].core;
            && RequestOf(c) == RequestOf(entry)
            && c.x[SP] as int + (if IsClone(entry.x[A7]) then 0 else 304) == entry.x[SP]
            && c.x[SP] % 16 == entry.x[SP] % 16
  {
    hide Reachable, AllOk, AtLoc, Related, PathInstr, InPath, RequestOf, InstrAt;
    var s := ReachableRelated(cfg, w0, s0, w);
    var th := w.threads[t];
    var loc := PathOnly(cfg, w, s, t);
    SpAtEcall(cfg.env, Top(th).call, th.core, w.mem, loc);
  }
}
