/**
Every action of the patched system keeps the relation to the specification.
*/
module Steps {
  import opened Isa
  import opened Patcher
  import opened HookCode
  import opened HookPath
  import opened Interception
  import opened Program
  import opened Original
  import opened Patched
  import opened Refinement

  // ---- Stacks -----------------------------------------------------------

  lemma AbsSp(cfg: Config, th: Thread)
    ensures AbsThread(cfg, th).core.x[SP] == CallerSp(th)
  {
  }

  lemma BelowAgrees(cfg: Config, w: World, s: AState, a: nat)
    requires SameThreads(cfg, w, s)
    ensures Below(s.threads, a) <==> BelowCaller(w.threads, a)
  {
    forall t | t in w.threads
      ensures s.threads[t].lo == w.threads[t].lo && s.threads[t].core.x[SP] == CallerSp(w.threads[t])
    {
      AbsSp(cfg, w.threads[t]);
    }
  }

  lemma CallerInStack(cfg: Config, w: World, s: AState, t: nat)
    requires ValidConfig(cfg) && Related(cfg, w, s) && AllOk(cfg, s) && t in w.threads
    ensures CallerSp(w.threads[t]) <= w.threads[t].hi
  {
    assert Ok(cfg, s, t);
    AbsSp(cfg, w.threads[t]);
    assert ThreadInv(cfg, w.threads[t], w.mem);
  }

  /** Writing below one's own caller's sp disturbs nobody and is not seen. */
  lemma StackWrite(cfg: Config, w: World, s: AState, t: nat, m': Mem, lo: nat, hi: nat)
    requires ValidConfig(cfg) && Related(cfg, w, s) && AllOk(cfg, s) && t in w.threads
    requires w.threads[t].lo <= lo && hi <= CallerSp(w.threads[t])
    requires SameOutside(w.mem, m', lo, hi)
    ensures FixedKept(cfg, w.mem, m')
    ensures forall u :: u in w.threads && u != t ==> BelowKept(w.threads[u], w.mem, m')
    ensures SameMemory(cfg, m', s)
  {
    CallerInStack(cfg, w, s, t);
    forall u | u in w.threads && u != t
      ensures BelowKept(w.threads[u], w.mem, m')
    {
      CallerInStack(cfg, w, s, u);
    }
    AbsSp(cfg, w.threads[t]);
    assert forall a: nat :: lo <= a < hi ==> InRange(a, w.threads[t].lo, w.threads[t].hi);
    assert forall a: nat :: lo <= a < hi ==> InRange(a, s.threads[t].lo, s.threads[t].core.x[SP]);
  }

  /** Frames further out lie above the current one. */
  lemma OuterFramesKept(cfg: Config, th: Thread, m: Mem, m': Mem, j: nat)
    requires ValidEnv(cfg.env) && Nested(cfg, th) && j + 1 < |th.flights|
    requires SameOutside(m, m', FrameBase(Top(th).call), FrameBase(Top(th).call) + FRAME_SIZE)
    ensures SameOn(m, m', FrameBase(th.flights[j].call), FrameBase(th.flights[j].call) + FRAME_SIZE)
  {
    assert NestedAt(cfg, th, j + 1) && NestedAt(cfg, th, |th.flights| - 1) && NestedAt(cfg, th, j);
    DeeperIsLower(cfg, th, j + 1, |th.flights| - 1);
  }

  // ---- Path -------------------------------------------------------------

  /** A thread executing the path, seen through its innermost call. */
  ghost predicate OnPath(cfg: Config, th: Thread, m: Mem, loc: Loc)
    requires ValidEnv(cfg.env)
  {
    && th.flights != [] && Top(th).hook.None? && ValidCall(Top(th).call)
    && AtLoc(cfg.env, Top(th).call, th.core, m, loc)
  }

  lemma PathOnly(cfg: Config, w: World, s: AState, t: nat) returns (loc: Loc)
    requires ValidConfig(cfg) && Related(cfg, w, s) && AllOk(cfg, s) && t in w.threads
    requires InPath(cfg.env, w.threads[t].core.pc)
    ensures OnPath(cfg, w.threads[t], w.mem, loc)
    ensures PathInstr(cfg.env, w.mem, w.threads[t].core.pc) == InstrAt(cfg.env, loc)
  {
    hide AtLoc, PathInstr, InHook, OkBytes, GpInPage, SameMemory, StacksApart, PageHolds, LoadDouble, HoldsCode, Decode32, InPath;
    var th := w.threads[t];
    loc := LocOf(cfg.env, th.core.pc);
    InFlightOnPath(cfg, w, s, t);
    assert FlightInv(cfg, th, w.mem, |th.flights| - 1);
    Fetched(cfg.env, w.mem, loc);
  }

  /** Program code is not on the path, so a thread there has entered it. */
  lemma InFlightOnPath(cfg: Config, w: World, s: AState, t: nat)
    requires ValidConfig(cfg) && Related(cfg, w, s) && AllOk(cfg, s) && t in w.threads
    requires InPath(cfg.env, w.threads[t].core.pc)
    ensures ThreadInv(cfg, w.threads[t], w.mem) && PageHolds(cfg.env, w.mem)
    ensures w.threads[t].flights != [] && Top(w.threads[t]).hook.None?
  {
    hide InPath, OkBytes, GpInPage, SameMemory, StacksApart, PageHolds, LoadDouble, HoldsCode, AtLoc, InHook;
    assert Ok(cfg, s, t);
    assert ThreadInv(cfg, w.threads[t], w.mem);
  }

  lemma OnPathInv(cfg: Config, th: Thread, th': Thread, m: Mem, m': Mem, loc: Loc)
    requires ValidConfig(cfg) && ThreadInv(cfg, th, m) && th.flights != [] && Top(th).hook.None?
    requires th'.lo == th.lo && th'.hi == th.hi && |th'.flights| == |th.flights|
    requires Pop(th') == Pop(th) && Top(th').hook.None?
    requires Top(th').call.entry == Top(th).call.entry && (Framed(Top(th').call) ==> Framed(Top(th).call))
    requires SameOutside(m, m', FrameBase(Top(th).call), FrameBase(Top(th).call) + FRAME_SIZE)
    requires ValidCall(Top(th).call) && AtLoc(cfg.env, Top(th').call, th'.core, m', loc)
    ensures ThreadInv(cfg, th', m')
  {
    hide AtLoc, PcOf, InPath, Slots;
    AtLocPc(cfg.env, Top(th').call, th'.core, m', loc);
    LocUnique(cfg.env, loc);
    var n := |th.flights| - 1;
    forall j | 0 <= j < n
      ensures th'.flights[j] == th.flights[j] && FlightInv(cfg, th', m', j)
    {
      assert th'.flights[j] == Pop(th')[j] == Pop(th)[j];
      assert FlightInv(cfg, th, m, j);
      OuterFramesKept(cfg, th, m, m', j);
      SlotsKept(th.flights[j].call, m, m', Hook(39));
    }
    assert FlightInv(cfg, th', m', n);
    NestedSameEntries(cfg, th, th');
    hide FlightInv;
  }

  /** A step of thread `t` matched by the specification going from `s` to `s'`. */
  lemma Matched(cfg: Config, w: World, s: AState, t: nat, th': Thread, w': World, s': AState)
    requires ValidConfig(cfg) && Related(cfg, w, s) && t in w.threads
    requires th'.lo == w.threads[t].lo && th'.hi == w.threads[t].hi
    requires w'.threads == w.threads[t := th'] && w'.log == s'.log
    requires ThreadInv(cfg, th', w'.mem)
    requires FixedKept(cfg, w.mem, w'.mem) && SameMemory(cfg, w'.mem, s')
    requires forall u :: u in w.threads && u != t ==> BelowKept(w.threads[u], w.mem, w'.mem)
    requires s'.threads == s.threads[t := AbsThread(cfg, th')]
    ensures Related(cfg, w', s')
  {
    hide Inv, ThreadInv, FixedKept, SameMemory, BelowKept, AbsThread;
    InvAfter(cfg, w, t, th', w');
  }

  /** A step of thread `t` that the program cannot notice. */
  lemma Unnoticed(cfg: Config, w: World, s: AState, t: nat, th': Thread, w': World)
    requires ValidConfig(cfg) && Related(cfg, w, s) && t in w.threads
    requires th'.lo == w.threads[t].lo && th'.hi == w.threads[t].hi
    requires w'.threads == w.threads[t := th'] && w'.log == w.log
    requires ThreadInv(cfg, th', w'.mem)
    requires FixedKept(cfg, w.mem, w'.mem) && SameMemory(cfg, w'.mem, s)
    requires forall u :: u in w.threads && u != t ==> BelowKept(w.threads[u], w.mem, w'.mem)
    requires AbsThread(cfg, th') == AbsThread(cfg, w.threads[t])
    ensures Related(cfg, w', s)
  {
    hide Inv, ThreadInv, FixedKept, SameMemory, BelowKept, AbsThread;
    assert s.threads == s.threads[t := AbsThread(cfg, th')];
    Matched(cfg, w, s, t, th', w', s);
  }

  lemma AtLocPc(env: Env, call: Call, c: Core, m: Mem, loc: Loc)
    requires ValidEnv(env) && ValidCall(call) && AtLoc(env, call, c, m, loc)
    ensures IsLoc(loc) && c.pc == PcOf(env, loc)
  {
    hide Registers, Slots, Scratch, Dispatch;
  }

  lemma OtherPc(env: Env, loc: Loc, loc': Loc)
    requires ValidEnv(env) && IsLoc(loc) && IsLoc(loc') && loc != loc'
    ensures PcOf(env, loc) != PcOf(env, loc')
  {
    LocUnique(env, loc);
    LocUnique(env, loc');
  }

  /** What `PathStep` says about a thread's next plain instruction. */
  lemma PathEffect(cfg: Config, th: Thread, m: Mem, loc: Loc) returns (e: Effect, next: Loc)
    requires ValidConfig(cfg) && OnPath(cfg, th, m, loc) && IsPlainLoc(loc)
    requires LoadDouble(m, cfg.env.gpVar) == cfg.env.gp
    ensures Plain(InstrAt(cfg.env, loc)) && e == Exec(InstrAt(cfg.env, loc), th.core, m)
    ensures next == Next(Top(th).call, loc) && AtLoc(cfg.env, Top(th).call, e.core, e.mem, next)
    ensures SameOutside(m, e.mem, FrameBase(Top(th).call), FrameBase(Top(th).call) + FRAME_SIZE)
    ensures th.core.pc == PcOf(cfg.env, loc)
    ensures PcOf(cfg.env, loc) != PcOf(cfg.env, Ret(13)) && PcOf(cfg.env, loc) != PcOf(cfg.env, Hook(38))
  {
    hide AtLoc, Exec, LoadDouble, InstrAt, Next, PcOf;
    PlainInstr(cfg.env, loc);
    PathStep(cfg.env, Top(th).call, th.core, m, loc);
    AtLocPc(cfg.env, Top(th).call, th.core, m, loc);
    OtherPc(cfg.env, loc, Ret(13));
    OtherPc(cfg.env, loc, Hook(38));
    e, next := Exec(InstrAt(cfg.env, loc), th.core, m), Next(Top(th).call, loc);
  }

  lemma PlainStep(cfg: Config, w: World, s: AState, t: nat, loc: Loc)
    requires ValidConfig(cfg) && Related(cfg, w, s) && AllOk(cfg, s) && Enabled(cfg, w, Path(t))
    requires OnPath(cfg, w.threads[t], w.mem, loc) && IsPlainLoc(loc)
    requires PathInstr(cfg.env, w.mem, w.threads[t].core.pc) == InstrAt(cfg.env, loc)
    ensures Related(cfg, Apply(cfg, w, Path(t)), s)
  {
    hide AtLoc, Exec, InstrAt, PcOf, FixedKept, SameMemory, BelowKept, SameThreads, StacksApart, PageHolds, LoadDouble,
      PathInstr, FlightInv, AllOk;
    var th := w.threads[t];
    var call := Top(th).call;
    var e, next := PathEffect(cfg, th, w.mem, loc);
    var w' := Apply(cfg, w, Path(t));
    var th' := th.(core := e.core);
    assert w'.threads == w.threads[t := th'] && w'.mem == e.mem && w'.log == w.log;
    assert ThreadInv(cfg, th, w.mem);
    assert NestedAt(cfg, th, |th.flights| - 1);
    PlainIsFramed(cfg.env, call, th.core, w.mem, loc);
    DeeperIsLower(cfg, th, 0, |th.flights| - 1);
    StackWrite(cfg, w, s, t, e.mem, FrameBase(call), FrameBase(call) + FRAME_SIZE);
    OnPathInv(cfg, th, th', w.mem, e.mem, next);
    assert AbsThread(cfg, th') == AbsThread(cfg, th);
    Unnoticed(cfg, w, s, t, th', w');
  }

  lemma PlainIsFramed(env: Env, call: Call, c: Core, m: Mem, loc: Loc)
    requires ValidEnv(env) && ValidCall(call) && AtLoc(env, call, c, m, loc) && IsPlainLoc(loc)
    ensures Framed(call)
  {
    hide Registers, Slots, Scratch;
  }

  /** Without a memory change only the thread itself matters. */
  lemma NothingWritten(cfg: Config, w: World)
    ensures FixedKept(cfg, w.mem, w.mem)
    ensures forall u :: u in w.threads ==> BelowKept(w.threads[u], w.mem, w.mem)
  {
  }

  /** The calls further out are in their hooks and do not depend on the processor. */
  lemma OuterFlights(cfg: Config, th: Thread, m: Mem, j: nat)
    requires ValidConfig(cfg) && ThreadInv(cfg, th, m) && j < |th.flights|
    requires j + 1 < |th.flights| || Hooking(th)
    ensures ValidCall(th.flights[j].call)
    ensures th.flights[j].hook.Some? && InHook(cfg.env, th.flights[j].call, m, th.flights[j].hook.value)
  {
    hide InHook, AtLoc;
    assert FlightInv(cfg, th, m, j);
  }

  lemma HookCallInv(cfg: Config, th: Thread, m: Mem, th': Thread)
    requires ValidConfig(cfg) && ThreadInv(cfg, th, m) && OnPath(cfg, th, m, Hook(38))
    requires th' == PathThread(cfg, th, ExecReg(CallSymbol(cfg.env.syscallHook), th.core))
    ensures ThreadInv(cfg, th', m) && AbsThread(cfg, th') == AbsThread(cfg, th)
    ensures th'.lo == th.lo && th'.hi == th.hi
  {
    hide AtLoc, PcOf, InHook;
    var n := |th.flights| - 1;
    var call := Top(th).call;
    var c := ExecReg(CallSymbol(cfg.env.syscallHook), th.core);
    assert NestedAt(cfg, th, n);
    HookCalled(cfg.env, call, th.core, m);
    AtLocPc(cfg.env, call, th.core, m, Hook(38));
    OtherPc(cfg.env, Hook(38), Ret(13));
    AtHookCall(cfg.env, call, th.core, m);
    assert th'.flights[n] == Flight(call.(hooks := 1), Some(c));
    forall j | 0 <= j < n
      ensures th'.flights[j] == th.flights[j] && FlightInv(cfg, th', m, j)
    {
      OuterFlights(cfg, th, m, j);
    }
    assert FlightInv(cfg, th', m, n);
    NestedSameEntries(cfg, th, th');
    hide FlightInv;
  }

  lemma AtHookCall(env: Env, call: Call, c: Core, m: Mem)
    requires ValidEnv(env) && ValidCall(call) && AtLoc(env, call, c, m, Hook(38))
    ensures call.hooks == 0 && call.outcome.Pending? && c.x[GP] == env.gp && c.x[SP] == Base(call)
  {
  }

  lemma HookCallStep(cfg: Config, w: World, s: AState, t: nat)
    requires ValidConfig(cfg) && Related(cfg, w, s) && Enabled(cfg, w, Path(t))
    requires OnPath(cfg, w.threads[t], w.mem, Hook(38))
    requires PathInstr(cfg.env, w.mem, w.threads[t].core.pc) == CallSymbol(cfg.env.syscallHook)
    ensures Related(cfg, Apply(cfg, w, Path(t)), s)
  {
    hide AtLoc, PathInstr, ThreadInv, SameMemory, SameThreads, StacksApart, PageHolds, LoadDouble, PathThread, AbsThread,
      FixedKept, BelowKept, ExecReg, InPath;
    var th := w.threads[t];
    var w' := Apply(cfg, w, Path(t));
    var th' := w'.threads[t];
    assert w' == w.(threads := w.threads[t := th']);
    NothingWritten(cfg, w);
    HookCallInv(cfg, th, w.mem, th');
    Unnoticed(cfg, w, s, t, th', w');
  }

  lemma DoneAtReturn(env: Env, call: Call, c: Core, m: Mem)
    requires ValidEnv(env) && ValidCall(call) && AtLoc(env, call, c, m, Ret(13))
    ensures call.outcome.Handled? || call.outcome.Replied?
  {
    hide Registers, Slots;
  }

  /** Leaving the innermost call resumes the code that made it. */
  lemma ReturnInv(cfg: Config, th: Thread, m: Mem, th': Thread)
    requires ValidConfig(cfg) && ThreadInv(cfg, th, m) && OnPath(cfg, th, m, Ret(13))
    requires th' == PathThread(cfg, th, ExecReg(Jalr(GP, GP, 0), th.core))
    ensures ThreadInv(cfg, th', m) && AbsThread(cfg, th') == AbsThread(cfg, th)
    ensures th'.core == Resumed(Top(th).call)
    ensures th'.lo == th.lo && th'.hi == th.hi
  {
    hide AtLoc, PcOf, InHook, ExecReg;
    var n := |th.flights| - 1;
    var call := Top(th).call;
    assert NestedAt(cfg, th, n);
    Returns(cfg.env, call, th.core, m);
    AtLocPc(cfg.env, call, th.core, m, Ret(13));
    DoneAtReturn(cfg.env, call, th.core, m);
    assert th' == th.(core := Resumed(call), flights := Pop(th));
    forall j | 0 <= j < n
      ensures th'.flights[j] == th.flights[j] && FlightInv(cfg, th', m, j)
    {
      OuterFlights(cfg, th, m, j);
    }
    NestedSameEntries(cfg, th, th');
    if n > 0 {
      OuterFlights(cfg, th, m, n - 1);
      assert Top(th') == th.flights[n - 1];
    }
    hide FlightInv, Nested;
  }

  lemma ReturnStep(cfg: Config, w: World, s: AState, t: nat)
    requires ValidConfig(cfg) && Related(cfg, w, s) && Enabled(cfg, w, Path(t))
    requires OnPath(cfg, w.threads[t], w.mem, Ret(13))
    requires PathInstr(cfg.env, w.mem, w.threads[t].core.pc) == Jalr(GP, GP, 0)
    ensures Related(cfg, Apply(cfg, w, Path(t)), s)
  {
    hide AtLoc, PathInstr, ThreadInv, SameMemory, SameThreads, StacksApart, PageHolds, LoadDouble, PathThread, AbsThread,
      FixedKept, BelowKept, ExecReg, InPath;
    var th := w.threads[t];
    var w' := Apply(cfg, w, Path(t));
    var th' := w'.threads[t];
    assert w' == w.(threads := w.threads[t := th']);
    NothingWritten(cfg, w);
    ReturnInv(cfg, th, w.mem, th');
    Unnoticed(cfg, w, s, t, th', w');
  }

  lemma PathIsUnnoticed(cfg: Config, w: World, s: AState, t: nat)
    requires ValidConfig(cfg) && Related(cfg, w, s) && AllOk(cfg, s) && Enabled(cfg, w, Path(t))
    ensures Related(cfg, Apply(cfg, w, Path(t)), s)
  {
    hide AtLoc, PathInstr, ThreadInv, SameMemory, SameThreads, StacksApart, PageHolds, LoadDouble, InPath, Inv, Apply, AllOk;
    var loc := PathOnly(cfg, w, s, t);
    AtLocPc(cfg.env, Top(w.threads[t]).call, w.threads[t].core, w.mem, loc);
    if loc == Hook(38) {
      HookCallStep(cfg, w, s, t);
    } else if loc == Ret(13) {
      ReturnStep(cfg, w, s, t);
    } else {
      PlainStep(cfg, w, s, t, loc);
    }
  }

  // ---- Entering ---------------------------------------------------------

  lemma EnterInv(cfg: Config, th: Thread, m: Mem, th': Thread)
    requires ValidConfig(cfg) && ThreadInv(cfg, th, m) && th.core.x[GP] == cfg.env.gp
    requires th.flights == [] || Hooking(th)
    requires th.core.pc % 2 == 0 && th.lo + FRAME_SIZE <= th.core.x[SP] && th.core.x[A7] != NR_RT_SIGRETURN
    requires if th.flights == [] then cfg.prog(th.core.pc).Syscall? && th.core.x[SP] <= th.hi
             else !InPath(cfg.env, Wrap(th.core.pc + 4)) && th.core.x[SP] <= FrameBase(Top(th).call)
    requires th' == th.(core := ExecReg(Jalr(GP, GP, 0), th.core),
                        flights := th.flights + [Flight(Call(th.core, Pending, 0, 0), None)])
    ensures ThreadInv(cfg, th', m) && AbsThread(cfg, th') == AbsThread(cfg, th)
  {
    hide AtLoc, PcOf, InHook, ExecReg, Wrap, InPath;
    var n := |th.flights|;
    var call := Call(th.core, Pending, 0, 0);
    Enters(cfg.env, th.core, m);
    AtLocPc(cfg.env, call, th'.core, m, Tramp(0));
    LocUnique(cfg.env, Tramp(0));
    assert th'.flights[n] == Flight(call, None);
    forall j | 0 <= j < n
      ensures th'.flights[j] == th.flights[j] && FlightInv(cfg, th', m, j)
    {
      OuterFlights(cfg, th, m, j);
    }
    assert FlightInv(cfg, th', m, n);
    forall j | 0 <= j <= n
      ensures NestedAt(cfg, th', j)
    {
      if j < n { assert NestedAt(cfg, th, j); }
    }
    hide FlightInv;
  }

  /** What the conventions say about a program thread at its system call. */
  lemma CallerReady(cfg: Config, w: World, s: AState, t: nat)
    requires ValidConfig(cfg) && Related(cfg, w, s) && AllOk(cfg, s) && t in w.threads && w.threads[t].flights == []
    requires cfg.prog(w.threads[t].core.pc).Syscall?
    ensures var th := w.threads[t];
            && th.core.x[GP] == cfg.env.gp && th.core.pc % 2 == 0 && th.core.x[A7] != NR_RT_SIGRETURN
            && th.lo + FRAME_SIZE <= th.core.x[SP] <= th.hi
  {
    hide Inv, SameThreads, SameMemory, InPath;
    UserCore(cfg, w, s, t);
    assert Ok(cfg, s, t);
  }

  lemma EnterIsUnnoticed(cfg: Config, w: World, s: AState, t: nat)
    requires ValidConfig(cfg) && Related(cfg, w, s) && AllOk(cfg, s) && Enabled(cfg, w, Enter(t))
    ensures Related(cfg, Apply(cfg, w, Enter(t)), s)
  {
    hide SameMemory, SameThreads, StacksApart, PageHolds, LoadDouble, HoldsCode, FixedKept, BelowKept, ExecReg, InPath,
      FlightInv, Nested, Wrap, AllOk;
    var th := w.threads[t];
    if th.flights == [] { CallerReady(cfg, w, s, t); }
    assert ThreadInv(cfg, th, w.mem);
    var w' := Apply(cfg, w, Enter(t));
    var th' := w'.threads[t];
    NothingWritten(cfg, w);
    EnterInv(cfg, th, w.mem, th');
    hide ThreadInv, AbsThread, Inv;
    Unnoticed(cfg, w, s, t, th', w');
  }

  // ---- Program code ------------------------------------------------------

  /** The thread's processor in the original program. */
  lemma UserCore(cfg: Config, w: World, s: AState, t: nat)
    requires ValidConfig(cfg) && Related(cfg, w, s) && t in w.threads && w.threads[t].flights == []
    ensures t in s.threads && s.threads[t] == AbsThread(cfg, w.threads[t])
    ensures s.threads[t].core == WithGp(w.threads[t].core, cfg.env.gp0)
    ensures w.threads[t].core == WithGp(s.threads[t].core, cfg.env.gp)
    ensures w.threads[t].core.x[GP] == cfg.env.gp
  {
    assert ThreadInv(cfg, w.threads[t], w.mem);
    var c := w.threads[t].core;
    assert WithGp(WithGp(c, cfg.env.gp0), cfg.env.gp).x == c.x;
  }

  lemma UserInv(cfg: Config, th: Thread, m: Mem)
    requires ValidConfig(cfg) && th.flights == [] && th.core.x[GP] == cfg.env.gp
    ensures ThreadInv(cfg, th, m)
  {
  }

  /** Moving sp makes no byte visible again. */
  lemma HiddenStays(s: AState, t: nat, th': AThread, dead': set<nat>, a: nat)
    requires t in s.threads && a !in dead' && !Below(s.threads[t := th'], a)
    requires s.dead + BelowOf(s.threads[t]) <= dead'
    ensures a !in s.dead && !Below(s.threads, a)
  {
    forall u | u in s.threads
      ensures !InRange(a, s.threads[u].lo, s.threads[u].core.x[SP])
    {
      assert u in s.threads[t := th'];
    }
  }

  lemma ComputeMatched(cfg: Config, w: World, s: AState, t: nat)
    requires ValidConfig(cfg) && Related(cfg, w, s) && AllOk(cfg, s) && Enabled(cfg, w, User(t))
    requires cfg.prog(w.threads[t].core.pc).Compute?
    ensures AEnabled(cfg, s, AUser(t)) && Related(cfg, Apply(cfg, w, User(t)), AApply(cfg, s, AUser(t)))
  {
    hide Inv, ThreadInv, FixedKept, BelowKept, Below, ComputeOn, InPath, OkBytes;
    UserCore(cfg, w, s, t);
    var th := w.threads[t];
    var f := cfg.prog(th.core.pc).f;
    assert Ok(cfg, s, t) && GpUnused(cfg, f, s.threads[t].core);
    GpSwapped(ComputeOn(f, s.threads[t].core), cfg.env.gp, cfg.env.gp0);
    hide AllOk, Ok, OkButGp;
    var w', s' := Apply(cfg, w, User(t)), AApply(cfg, s, AUser(t));
    var th' := th.(core := ComputeOn(f, th.core));
    forall a: nat | a !in cfg.own && a !in s'.dead && !Below(s'.threads, a)
      ensures Byte(w'.mem, a) == Byte(s'.mem, a)
    {
      HiddenStays(s, t, s'.threads[t], s'.dead, a);
    }
    UserInv(cfg, th', w.mem);
    NothingWritten(cfg, w);
    Matched(cfg, w, s, t, th', w', s');
  }

  /** Same address, same registers: the original access and the patched one, faulting or not. */
  lemma AccessSame(cfg: Config, w: World, s: AState, t: nat)
    requires ValidConfig(cfg) && Related(cfg, w, s) && AllOk(cfg, s) && Enabled(cfg, w, User(t))
    requires cfg.prog(w.threads[t].core.pc).Access?
    ensures t in s.threads
    ensures var th, i, len := w.threads[t], cfg.prog(w.threads[t].core.pc).instr, cfg.prog(w.threads[t].core.pc).len;
            var ea := Ea(i, s.threads[t].core);
            var e := PatchedAccess(cfg, i, len, th.core, w.mem);
            var e0 := ExecMem(i, s.threads[t].core, s.mem, ea, len);
            && e0.core == WithGp(e.core, cfg.env.gp0) && e.core.x[GP] == cfg.env.gp
            && (if IsStore(i) then
                  && SameOn(e.mem, e0.mem, ea, ea + i.width)
                  && SameOutside(w.mem, e.mem, ea, ea + i.width)
                  && SameOutside(s.mem, e0.mem, ea, ea + i.width)
                else e.mem == w.mem && e0.mem == s.mem)
  {
    UserCore(cfg, w, s, t);
    var th := w.threads[t];
    var c := s.threads[t].core;
    var i, len := cfg.prog(th.core.pc).instr, cfg.prog(th.core.pc).len;
    var ea := Ea(i, c);
    assert GpOnlyBase(i) by { assert Ok(cfg, s, t); }
    AccessTarget(cfg, w, s, t);
    hide Inv, SameThreads, SameMemory, InPath, AllOk, Ea, ExecMem, Translate, IsStore;
    AccessBlindToGp(i, len, c, w.mem, ea, cfg.env.gp);
    var e1 := ExecMem(i, c, w.mem, ea, len);
    if IsStore(i) {
      StoreIgnoresMemory(i, len, c, w.mem, s.mem, ea);
      StoreIgnoresMemory(i, len, c, s.mem, w.mem, ea);
    } else {
      LoadDependsOnRange(i, len, c, w.mem, s.mem, ea);
      LoadKeepsMemory(i, len, c, w.mem, ea);
      LoadKeepsMemory(i, len, c, s.mem, ea);
    }
    AccessKeepsGp(i, len, c, s.mem, ea);
    GpSwapped(e1.core, cfg.env.gp, cfg.env.gp0);
  }

  /** The access hits the same bytes on both sides, and a load finds the same values there. */
  lemma AccessTarget(cfg: Config, w: World, s: AState, t: nat)
    requires ValidConfig(cfg) && Related(cfg, w, s) && AllOk(cfg, s) && Enabled(cfg, w, User(t))
    requires cfg.prog(w.threads[t].core.pc).Access?
    ensures t in s.threads
    ensures var i, ea := cfg.prog(w.threads[t].core.pc).instr, Ea(cfg.prog(w.threads[t].core.pc).instr, s.threads[t].core);
            && Translate(cfg, Ea(i, w.threads[t].core)) == ea
            && (!IsStore(i) ==> SameOn(w.mem, s.mem, ea, ea + i.width))
  {
    hide Inv, SameThreads, InPath, Ea, Translate, Below;
    UserCore(cfg, w, s, t);
    var c := s.threads[t].core;
    var i := cfg.prog(c.pc).instr;
    var ea := Ea(i, c);
    assert Ok(cfg, s, t) && OkAccess(cfg, s, t, i);
    hide Ok, AllOk;
    assert !InPage(cfg, ea) by {
      assert OkByte(cfg, s, t, IsStore(i), ea);
      assert InPage(cfg, ea) ==> ea in cfg.own;
    }
    forall a: nat | ea <= a < ea + i.width
      ensures !IsStore(i) ==> Byte(w.mem, a) == Byte(s.mem, a)
    {
      assert OkByte(cfg, s, t, IsStore(i), a);
    }
    SameTarget(cfg, i, c);
  }

  lemma LoadKeepsMemory(i: Instr, len: nat, c: Core, m: Mem, a: nat)
    requires IsMem(i) && !IsStore(i)
    ensures ExecMem(i, c, m, a, len).mem == m
  {
  }

  lemma GpSwapped(c: Core, gp: u64, gp0: u64)
    requires c.x[GP] == gp0
    ensures WithGp(WithGp(c, gp), gp0) == c
  {
    assert WithGp(WithGp(c, gp), gp0).x == c.x;
  }

  lemma AccessKeepsGp(i: Instr, len: nat, c: Core, m: Mem, a: nat)
    requires GpOnlyBase(i)
    ensures ExecMem(i, c, m, a, len).core.x[GP] == c.x[GP]
  {
    hide LoadLE, StoreLE, Extend, NanBox, Wrap;
  }

  lemma AccessMatched(cfg: Config, w: World, s: AState, t: nat)
    requires ValidConfig(cfg) && Related(cfg, w, s) && AllOk(cfg, s) && Enabled(cfg, w, User(t))
    requires cfg.prog(w.threads[t].core.pc).Access?
    ensures AEnabled(cfg, s, AUser(t)) && Related(cfg, Apply(cfg, w, User(t)), AApply(cfg, s, AUser(t)))
  {
    hide Inv, ThreadInv, FixedKept, BelowKept, Below, InPath, ExecMem, PatchedAccess, Ea, OkBytes, GpInPage;
    UserCore(cfg, w, s, t);
    AccessSame(cfg, w, s, t);
    var th := w.threads[t];
    var c := s.threads[t].core;
    var i, len := cfg.prog(th.core.pc).instr, cfg.prog(th.core.pc).len;
    var ea := Ea(i, c);
    assert Ok(cfg, s, t) && OkAccess(cfg, s, t, i);
    hide Ok, AllOk, OkAccess, OkButGp;
    var w', s' := Apply(cfg, w, User(t)), AApply(cfg, s, AUser(t));
    var th' := th.(core := PatchedAccess(cfg, i, len, th.core, w.mem).core);
    forall a: nat | a !in cfg.own && a !in s'.dead && !Below(s'.threads, a)
      ensures Byte(w'.mem, a) == Byte(s'.mem, a)
    {
      if !(IsStore(i) && ea <= a < ea + i.width) {
        HiddenStays(s, t, s'.threads[t], s.dead + BelowOf(s.threads[t]), a);
      }
    }
    AccessDisturbsNobody(cfg, w, s, t, w'.mem, i);
    UserInv(cfg, th', w'.mem);
    Matched(cfg, w, s, t, th', w', s');
  }

  lemma AccessDisturbsNobody(cfg: Config, w: World, s: AState, t: nat, m': Mem, i: Instr)
    requires ValidConfig(cfg) && SameThreads(cfg, w, s) && t in s.threads && IsMem(i) && OkAccess(cfg, s, t, i)
    requires var ea := Ea(i, s.threads[t].core);
             if IsStore(i) then SameOutside(w.mem, m', ea, ea + i.width) else m' == w.mem
    ensures FixedKept(cfg, w.mem, m')
    ensures forall u :: u in w.threads && u != t ==> BelowKept(w.threads[u], w.mem, m')
  {
    hide Ea;
    forall a: nat | Fixed(cfg, a)
      ensures Byte(w.mem, a) == Byte(m', a)
    {
      var ea := Ea(i, s.threads[t].core);
      if ea <= a < ea + i.width { assert OkByte(cfg, s, t, IsStore(i), a); }
    }
    forall u | u in w.threads && u != t
      ensures BelowKept(w.threads[u], w.mem, m')
    {
      AbsSp(cfg, w.threads[u]);
      var ea := Ea(i, s.threads[t].core);
      forall a: nat | InRange(a, w.threads[u].lo, CallerSp(w.threads[u]))
        ensures Byte(w.mem, a) == Byte(m', a)
      {
        assert u in s.threads && InRange(a, s.threads[u].lo, s.threads[u].core.x[SP]);
        if ea <= a < ea + i.width { assert OkByte(cfg, s, t, IsStore(i), a); }
      }
    }
  }

  // ---- Writes made by hooks and by the kernel ------------------------------

  lemma MergedByte(m: Mem, writes: map<nat, byte>, a: nat)
    ensures Byte(m + writes, a) == if a in writes then writes[a] else Byte(m, a)
  {
  }

  /** Writes a hook, or the kernel on behalf of thread `t`, may make. */
  ghost predicate Permitted(cfg: Config, w: World, t: nat, writes: map<nat, byte>)
    requires t in w.threads
  {
    forall b :: b in writes ==>
      || (w.threads[t].flights != [] && Scratchpad(cfg, RoomLo(w.threads[t]), RoomHi(w.threads[t]), b))
      || UserVisible(cfg, w, b)
  }

  /** The room for scratch data is in the thread's own stack, below the program's sp. */
  lemma RoomInStack(cfg: Config, th: Thread, a: nat)
    requires ValidEnv(cfg.env) && Nested(cfg, th) && th.flights != [] && InRange(a, RoomLo(th), RoomHi(th))
    ensures InRange(a, th.lo, CallerSp(th)) && InRange(a, th.lo, th.hi)
  {
    var n := |th.flights| - 1;
    assert NestedAt(cfg, th, n) && NestedAt(cfg, th, 0);
    DeeperIsLower(cfg, th, 0, n);
    if n > 0 {
      assert NestedAt(cfg, th, n - 1);
      DeeperIsLower(cfg, th, 0, n - 1);
    }
  }

  /** ... and outside every frame. */
  lemma RoomOutsideFrames(cfg: Config, th: Thread, a: nat, j: nat)
    requires ValidEnv(cfg.env) && Nested(cfg, th) && j < |th.flights| && InRange(a, RoomLo(th), RoomHi(th))
    ensures !InRange(a, FrameBase(th.flights[j].call), FrameBase(th.flights[j].call) + FRAME_SIZE)
  {
    var n := |th.flights| - 1;
    assert NestedAt(cfg, th, n) && NestedAt(cfg, th, j);
    if j < n {
      assert NestedAt(cfg, th, n - 1);
      DeeperIsLower(cfg, th, j, n - 1);
      DeeperIsLower(cfg, th, j, n);
    }
  }

  lemma FrameInStack(cfg: Config, th: Thread, a: nat, j: nat)
    requires ValidEnv(cfg.env) && Nested(cfg, th) && j < |th.flights| && Framed(th.flights[j].call)
    requires InRange(a, FrameBase(th.flights[j].call), FrameBase(th.flights[j].call) + FRAME_SIZE)
    ensures InRange(a, th.lo, CallerSp(th)) && InRange(a, th.lo, th.hi)
  {
    assert NestedAt(cfg, th, j) && NestedAt(cfg, th, 0);
    DeeperIsLower(cfg, th, 0, j);
  }

  lemma WritesKeepFrames(cfg: Config, w: World, t: nat, writes: map<nat, byte>)
    requires ValidConfig(cfg) && Inv(cfg, w) && t in w.threads && Permitted(cfg, w, t, writes)
    ensures FramesKept(w.threads[t], w.mem, w.mem + writes)
  {
    var th := w.threads[t];
    assert ThreadInv(cfg, th, w.mem);
    hide ThreadInv;
    forall j, a: nat |
        && 0 <= j < |th.flights| && Framed(th.flights[j].call)
        && InRange(a, FrameBase(th.flights[j].call), FrameBase(th.flights[j].call) + FRAME_SIZE)
      ensures a !in writes
    {
      assert Nested(cfg, th) by { assert ThreadInv(cfg, th, w.mem); }
      FrameInStack(cfg, th, a, j);
      assert !Guarded(cfg, a);
      if InRange(a, RoomLo(th), RoomHi(th)) { RoomOutsideFrames(cfg, th, a, j); }
    }
    forall j | 0 <= j < |th.flights| && Framed(th.flights[j].call)
      ensures SameOn(w.mem, w.mem + writes, FrameBase(th.flights[j].call), FrameBase(th.flights[j].call) + FRAME_SIZE)
    {
      assert forall a: nat ::
        InRange(a, FrameBase(th.flights[j].call), FrameBase(th.flights[j].call) + FRAME_SIZE) ==> a !in writes;
    }
  }

  lemma WritesDisturbNobody(cfg: Config, w: World, s: AState, t: nat, writes: map<nat, byte>)
    requires ValidConfig(cfg) && Related(cfg, w, s) && AllOk(cfg, s)
    requires t in w.threads && Permitted(cfg, w, t, writes)
    ensures FixedKept(cfg, w.mem, w.mem + writes)
    ensures forall u :: u in w.threads && u != t ==> BelowKept(w.threads[u], w.mem, w.mem + writes)
  {
    hide SameMemory, SameThreads, PageHolds, LoadDouble, HoldsCode, AllOk, FlightInv, Nested, InPath;
    var th := w.threads[t];
    assert Nested(cfg, th) by { assert ThreadInv(cfg, th, w.mem); }
    hide ThreadInv;
    forall u | u in w.threads && u != t
      ensures BelowKept(w.threads[u], w.mem, w.mem + writes)
    {
      CallerInStack(cfg, w, s, u);
      forall a: nat | InRange(a, w.threads[u].lo, CallerSp(w.threads[u]))
        ensures a !in writes
      {
        assert InRange(a, w.threads[u].lo, w.threads[u].hi) && !Guarded(cfg, a);
        if th.flights != [] && InRange(a, RoomLo(th), RoomHi(th)) { RoomInStack(cfg, th, a); }
      }
    }
  }

  /** The part of the writes that reaches the program's memory. */
  ghost function Visible(cfg: Config, w: World, writes: map<nat, byte>): map<nat, byte> {
    map b | b in writes && UserVisible(cfg, w, b) :: writes[b]
  }

  lemma VisibleWritable(cfg: Config, w: World, s: AState, writes: map<nat, byte>)
    requires SameThreads(cfg, w, s)
    ensures Writable(cfg, s, Visible(cfg, w, writes))
  {
    forall a | a in Visible(cfg, w, writes)
      ensures !Guarded(cfg, a) && !Below(s.threads, a)
    {
      BelowAgrees(cfg, w, s, a);
    }
  }

  /** Memory after the writes agrees with the specification after the visible ones. */
  lemma WritesMatched(cfg: Config, w: World, s: AState, t: nat, writes: map<nat, byte>, s': AState)
    requires ValidConfig(cfg) && Related(cfg, w, s)
    requires t in w.threads && Permitted(cfg, w, t, writes)
    requires s'.mem == s.mem + Visible(cfg, w, writes)
    requires s.dead - Visible(cfg, w, writes).Keys <= s'.dead
    requires forall a: nat :: Below(s.threads, a) ==> Below(s'.threads, a)
    ensures SameMemory(cfg, w.mem + writes, s')
  {
    hide PageHolds, LoadDouble, HoldsCode, StacksApart, FlightInv, Nested, SameThreads, InPath, BelowCaller;
    var th := w.threads[t];
    assert Nested(cfg, th) by { assert ThreadInv(cfg, th, w.mem); }
    hide Inv;
    forall a: nat | a !in cfg.own && a !in s'.dead && !Below(s'.threads, a)
      ensures Byte(w.mem + writes, a) == Byte(s'.mem, a)
    {
      BelowAgrees(cfg, w, s, a);
      if a in writes && !UserVisible(cfg, w, a) {
        RoomInStack(cfg, th, a);
        assert false;
      }
    }
  }

  // ---- Hooks ------------------------------------------------------------

  /** While a hook runs, the program is still at its system call. */
  lemma AtSyscall(cfg: Config, w: World, s: AState, t: nat)
    requires ValidConfig(cfg) && Related(cfg, w, s) && t in w.threads
    requires Hooking(w.threads[t]) || |w.threads[t].flights| > 1
    ensures t in s.threads
    ensures s.threads[t].core == WithGp(w.threads[t].flights[0].call.entry, cfg.env.gp0)
    ensures cfg.prog(s.threads[t].core.pc).Syscall?
  {
    var th := w.threads[t];
    assert ThreadInv(cfg, th, w.mem);
    OuterFlights(cfg, th, w.mem, 0);
    assert NestedAt(cfg, th, 0);
  }

  lemma HookingInv(cfg: Config, th: Thread, m: Mem, c: Core)
    requires ValidConfig(cfg) && ThreadInv(cfg, th, m) && Hooking(th)
    requires c.x[GP] == cfg.env.gp && th.lo <= c.x[SP] <= FrameBase(Top(th).call) && !InPath(cfg.env, c.pc)
    ensures ThreadInv(cfg, th.(core := c), m)
  {
    var th' := th.(core := c);
    forall j | 0 <= j < |th.flights|
      ensures FlightInv(cfg, th', m, j)
    {
      OuterFlights(cfg, th, m, j);
    }
    NestedSameEntries(cfg, th, th');
    hide FlightInv, Nested;
  }

  lemma HookRunsInv(cfg: Config, w: World, t: nat, core: Core, writes: map<nat, byte>)
    requires ValidConfig(cfg) && Inv(cfg, w) && Enabled(cfg, w, HookRuns(t, core, writes))
    ensures Permitted(cfg, w, t, writes)
    ensures ThreadInv(cfg, w.threads[t].(core := core), w.mem + writes)
  {
    var th := w.threads[t];
    assert ThreadInv(cfg, th, w.mem);
    WritesKeepFrames(cfg, w, t, writes);
    hide Inv, FlightInv, Nested, FramesKept, InPath;
    ThreadInvKept(cfg, th, w.mem, w.mem + writes);
    HookingInv(cfg, th, w.mem + writes, core);
  }

  lemma NoVisibleWrite(cfg: Config, s: AState, t: nat, writes: map<nat, byte>)
    requires t in s.threads && writes == map[]
    ensures AApply(cfg, s, AHookWrite(t, writes)) == s
  {
    assert s.mem + writes == s.mem;
    assert s.dead - writes.Keys == s.dead;
  }

  /** Hook code that writes nothing the program can see goes unnoticed; other writes are an interposer's. */
  lemma HookRunsMatched(cfg: Config, w: World, s: AState, t: nat, core: Core, writes: map<nat, byte>)
    requires ValidConfig(cfg) && Related(cfg, w, s) && AllOk(cfg, s) && Enabled(cfg, w, HookRuns(t, core, writes))
    ensures var a := AHookWrite(t, Visible(cfg, w, writes));
            AEnabled(cfg, s, a) && Related(cfg, Apply(cfg, w, HookRuns(t, core, writes)), AApply(cfg, s, a))
  {
    hide FixedKept, BelowKept, Below, InPath, SameMemory, Visible, AllOk, AbsThread, ThreadInv, Writable, Permitted, Inv;
    var th := w.threads[t];
    var a := AHookWrite(t, Visible(cfg, w, writes));
    AtSyscall(cfg, w, s, t);
    VisibleWritable(cfg, w, s, writes);
    var w', s' := Apply(cfg, w, HookRuns(t, core, writes)), AApply(cfg, s, a);
    var th' := th.(core := core);
    HookRunsInv(cfg, w, t, core, writes);
    WritesDisturbNobody(cfg, w, s, t, writes);
    WritesMatched(cfg, w, s, t, writes, s');
    HookingAbs(cfg, th, th');
    assert s'.threads == s.threads[t := AbsThread(cfg, th')];
    Matched(cfg, w, s, t, th', w', s');
  }

  lemma HookingAbs(cfg: Config, th: Thread, th': Thread)
    requires th.flights != [] && th'.flights == th.flights && th'.lo == th.lo && th'.hi == th.hi
    ensures AbsThread(cfg, th') == AbsThread(cfg, th)
  {
  }

  lemma HookReturnInv(cfg: Config, th: Thread, m: Mem, c: Core, answer: HookAnswer, th': Thread)
    requires ValidConfig(cfg) && ThreadInv(cfg, th, m) && Hooking(th) && ReturnsFrom(Top(th).hook.value, c, answer)
    requires th' == WithTop(th, Flight(Decided(Top(th).call, Top(th).hook.value, answer), None)).(core := c)
    ensures ThreadInv(cfg, th', m)
  {
    hide AtLoc, PcOf, InHook, ReturnsFrom;
    var n := |th.flights| - 1;
    var call, start := Top(th).call, Top(th).hook.value;
    var call' := Decided(call, start, answer);
    OuterFlights(cfg, th, m, n);
    PendingInHook(cfg.env, call, m, start);
    HookReturned(cfg.env, call, start, answer, c, m);
    AtLocPc(cfg.env, call', c, m, Hook(39));
    LocUnique(cfg.env, Hook(39));
    assert th'.flights[n] == Flight(call', None);
    forall j | 0 <= j < n
      ensures th'.flights[j] == th.flights[j] && FlightInv(cfg, th', m, j)
    {
      OuterFlights(cfg, th, m, j);
    }
    assert FlightInv(cfg, th', m, n);
    NestedSameEntries(cfg, th, th');
    hide FlightInv;
  }

  lemma PendingInHook(env: Env, call: Call, m: Mem, start: Core)
    requires ValidEnv(env) && ValidCall(call) && InHook(env, call, m, start)
    ensures call.outcome.Pending?
  {
  }

  lemma HookReturnThread(cfg: Config, w: World, t: nat, core: Core, answer: HookAnswer)
    requires ValidConfig(cfg) && Inv(cfg, w) && Enabled(cfg, w, HookReturns(t, core, answer))
    ensures var th, th' := w.threads[t], Apply(cfg, w, HookReturns(t, core, answer)).threads[t];
            && th' == WithTop(th, Flight(Decided(Top(th).call, Top(th).hook.value, answer), None)).(core := core)
            && ThreadInv(cfg, th', w.mem) && Top(th).call.outcome.Pending?
  {
    hide ReturnsFrom, Nested, FlightInv, InPath, PageHolds, LoadDouble, StacksApart;
    var th := w.threads[t];
    assert ThreadInv(cfg, th, w.mem);
    OuterFlights(cfg, th, w.mem, |th.flights| - 1);
    HookReturnInv(cfg, th, w.mem, core, answer, Apply(cfg, w, HookReturns(t, core, answer)).threads[t]);
  }

  /** A hook's own answer to the program's call is the interposer's. */
  lemma AnswerMatched(cfg: Config, w: World, s: AState, t: nat, core: Core, answer: HookAnswer)
    requires ValidConfig(cfg) && Related(cfg, w, s) && Enabled(cfg, w, HookReturns(t, core, answer))
    requires |w.threads[t].flights| == 1 && !Forwards(answer)
    ensures AEnabled(cfg, s, AAnswer(t, core.x[A0]))
    ensures Related(cfg, Apply(cfg, w, HookReturns(t, core, answer)), AApply(cfg, s, AAnswer(t, core.x[A0])))
  {
    hide FixedKept, BelowKept, Below, InPath, SameMemory, Inv, ThreadInv, AbsThread, SyscallHook;
    AtSyscall(cfg, w, s, t);
    HookReturnThread(cfg, w, t, core, answer);
    NothingWritten(cfg, w);
    var w', s' := Apply(cfg, w, HookReturns(t, core, answer)), AApply(cfg, s, AAnswer(t, core.x[A0]));
    var th' := w'.threads[t];
    AnswerAbs(cfg, w.threads[t], th', core, answer);
    assert s'.threads == s.threads[t := AbsThread(cfg, th')];
    SameBelow(cfg, w, s, s', t);
    Matched(cfg, w, s, t, th', w', s');
  }

  /** Forwarding, and any verdict inside a hook, goes unnoticed. */
  lemma ForwardUnnoticed(cfg: Config, w: World, s: AState, t: nat, core: Core, answer: HookAnswer)
    requires ValidConfig(cfg) && Related(cfg, w, s) && Enabled(cfg, w, HookReturns(t, core, answer))
    requires |w.threads[t].flights| > 1 || Forwards(answer)
    ensures Related(cfg, Apply(cfg, w, HookReturns(t, core, answer)), s)
  {
    hide FixedKept, BelowKept, Below, InPath, SameMemory, Inv, ThreadInv, ReturnsFrom, AbsThread;
    HookReturnThread(cfg, w, t, core, answer);
    NothingWritten(cfg, w);
    var w' := Apply(cfg, w, HookReturns(t, core, answer));
    ForwardAbs(cfg, w.threads[t], w'.threads[t], answer);
    Unnoticed(cfg, w, s, t, w'.threads[t], w');
  }

  lemma AnswerAbs(cfg: Config, th: Thread, th': Thread, core: Core, answer: HookAnswer)
    requires Hooking(th) && |th.flights| == 1 && !Forwards(answer)
    requires (core.x[A0], core.x[A1]) == SyscallHook(Top(th).hook.value.x[A0], answer)
    requires th' == WithTop(th, Flight(Decided(Top(th).call, Top(th).hook.value, answer), None)).(core := core)
    ensures AbsThread(cfg, th')
            == AbsThread(cfg, th).(core := AfterSyscall(WithGp(th.flights[0].call.entry, cfg.env.gp0), core.x[A0]))
  {
    var call := th'.flights[0].call;
    assert call.entry == th.flights[0].call.entry && A0Value(call) == core.x[A0];
    assert WithGp(Resumed(call), cfg.env.gp0).x
        == AfterSyscall(WithGp(th.flights[0].call.entry, cfg.env.gp0), core.x[A0]).x;
  }

  lemma ForwardAbs(cfg: Config, th: Thread, th': Thread, answer: HookAnswer)
    requires Hooking(th) && !(|th.flights| == 1 && !Forwards(answer))
    requires |th.flights| == 1 ==> th.flights[0].call.outcome.Pending?
    requires |th'.flights| == |th.flights| && th'.lo == th.lo && th'.hi == th.hi
    requires th'.flights == WithTop(th, Flight(Decided(Top(th).call, Top(th).hook.value, answer), None)).flights
    ensures AbsThread(cfg, th') == AbsThread(cfg, th)
  {
    if |th.flights| > 1 {
      assert th'.flights[0] == th.flights[0];
    }
  }

  /** Answering a call moves no sp, so it hides and shows nothing. */
  lemma SameBelow(cfg: Config, w: World, s: AState, s': AState, t: nat)
    requires SameMemory(cfg, w.mem, s) && t in s.threads
    requires s'.mem == s.mem && s'.dead == s.dead && s'.threads.Keys == s.threads.Keys
    requires forall u :: u in s.threads ==>
      s'.threads[u].lo == s.threads[u].lo && s'.threads[u].core.x[SP] == s.threads[u].core.x[SP]
    ensures SameMemory(cfg, w.mem, s')
  {
    forall a: nat | !Below(s'.threads, a)
      ensures !Below(s.threads, a)
    {
      assert forall u :: u in s.threads ==> u in s'.threads;
    }
  }

  // ---- Kernel -----------------------------------------------------------

  lemma EcallLoc(env: Env, loc: Loc)
    requires IsLoc(loc) && InstrAt(env, loc).Ecall?
    ensures loc == Ret(4) || loc == Ret(12)
  {
  }

  /** The thread after its system call, before memory changes. */
  lemma KernelInv(cfg: Config, th: Thread, m: Mem, loc: Loc, reply: u64, th': Thread)
    requires ValidConfig(cfg) && ThreadInv(cfg, th, m) && OnPath(cfg, th, m, loc) && (loc == Ret(4) || loc == Ret(12))
    requires th' == WithTop(th, Top(th).(call := Answered(Top(th).call, reply))).(core := AfterEcall(th.core, reply))
    ensures ThreadInv(cfg, th', m)
  {
    hide AtLoc, PcOf, InHook;
    var n := |th.flights| - 1;
    var call := Top(th).call;
    KernelAnswers(cfg.env, call, th.core, m, loc, reply);
    NotDoneYet(cfg.env, call, th.core, m, loc);
    AtLocPc(cfg.env, Answered(call, reply), th'.core, m, Next(call, loc));
    LocUnique(cfg.env, Next(call, loc));
    assert th'.flights[n] == Flight(Answered(call, reply), None);
    forall j | 0 <= j < n
      ensures th'.flights[j] == th.flights[j] && FlightInv(cfg, th', m, j)
    {
      OuterFlights(cfg, th, m, j);
    }
    assert FlightInv(cfg, th', m, n);
    NestedSameEntries(cfg, th, th');
    hide FlightInv;
  }

  lemma SameEntriesKeepFrames(th: Thread, th': Thread, m: Mem, m': Mem)
    requires FramesKept(th, m, m') && |th'.flights| == |th.flights|
    requires forall j :: 0 <= j < |th.flights| ==>
               && th'.flights[j].call.entry == th.flights[j].call.entry
               && (Framed(th'.flights[j].call) ==> Framed(th.flights[j].call))
    ensures FramesKept(th', m, m')
  {
  }

  /** The thread after its system call and the kernel's writes. */
  lemma KernelThread(cfg: Config, w: World, s: AState, t: nat, reply: u64, writes: map<nat, byte>, child: Option<Child>)
      returns (loc: Loc)
    requires ValidConfig(cfg) && Related(cfg, w, s) && AllOk(cfg, s)
    requires Enabled(cfg, w, Kernel(t, reply, writes, child))
    ensures OnPath(cfg, w.threads[t], w.mem, loc) && (loc == Ret(4) || loc == Ret(12))
    ensures Permitted(cfg, w, t, writes)
    ensures var th := w.threads[t];
            ThreadInv(cfg,
                      WithTop(th, Top(th).(call := Answered(Top(th).call, reply))).(core := AfterEcall(th.core, reply)),
                      w.mem + writes)
  {
    hide AtLoc, FlightInv, Nested, InPath, PathInstr, SameMemory, SameThreads, AllOk, PageHolds, LoadDouble, StacksApart,
      FramesKept, AfterEcall, Answered;
    loc := PathOnly(cfg, w, s, t);
    var th := w.threads[t];
    AtLocPc(cfg.env, Top(th).call, th.core, w.mem, loc);
    EcallLoc(cfg.env, loc);
    assert ThreadInv(cfg, th, w.mem);
    hide Inv;
    var th' := WithTop(th, Top(th).(call := Answered(Top(th).call, reply))).(core := AfterEcall(th.core, reply));
    KernelInv(cfg, th, w.mem, loc, reply, th');
    WritesKeepFrames(cfg, w, t, writes);
    NotDoneYet(cfg.env, Top(th).call, th.core, w.mem, loc);
    AnsweredEntry(Top(th).call, reply);
    SameEntriesKeepFrames(th, th', w.mem, w.mem + writes);
    ThreadInvKept(cfg, th', w.mem, w.mem + writes);
  }

  lemma AnsweredEntry(call: Call, reply: u64)
    ensures Answered(call, reply).entry == call.entry
  {
  }

  /** A system call made inside a hook: the program sees at most what the kernel wrote for it. */
  lemma InnerKernelMatched(cfg: Config, w: World, s: AState, t: nat, reply: u64, writes: map<nat, byte>)
    requires ValidConfig(cfg) && Related(cfg, w, s) && AllOk(cfg, s) && Enabled(cfg, w, Kernel(t, reply, writes, None))
    requires |w.threads[t].flights| > 1
    ensures var a := AHookWrite(t, Visible(cfg, w, writes));
            AEnabled(cfg, s, a) && Related(cfg, Apply(cfg, w, Kernel(t, reply, writes, None)), AApply(cfg, s, a))
  {
    hide FixedKept, BelowKept, Below, InPath, SameMemory, Visible, AllOk, ThreadInv, Writable, Permitted, Inv,
      AfterEcall, Answered;
    var th := w.threads[t];
    var a := AHookWrite(t, Visible(cfg, w, writes));
    AtSyscall(cfg, w, s, t);
    VisibleWritable(cfg, w, s, writes);
    var _ := KernelThread(cfg, w, s, t, reply, writes, None);
    var w', s' := Apply(cfg, w, Kernel(t, reply, writes, None)), AApply(cfg, s, a);
    var th' := w'.threads[t];
    WritesDisturbNobody(cfg, w, s, t, writes);
    WritesMatched(cfg, w, s, t, writes, s');
    assert th'.flights[0] == th.flights[0];
    assert AbsThread(cfg, th') == AbsThread(cfg, th);
    hide AbsThread;
    assert s'.threads == s.threads[t := AbsThread(cfg, th')];
    Matched(cfg, w, s, t, th', w', s');
  }

  /** The program's own system call reaches the kernel unchanged and its answer comes back unchanged. */
  lemma KernelMatched(cfg: Config, w: World, s: AState, t: nat, reply: u64, writes: map<nat, byte>)
    requires ValidConfig(cfg) && Related(cfg, w, s) && AllOk(cfg, s) && Enabled(cfg, w, Kernel(t, reply, writes, None))
    requires |w.threads[t].flights| == 1
    ensures var a := AKernel(t, reply, writes, None);
            AEnabled(cfg, s, a) && Related(cfg, Apply(cfg, w, Kernel(t, reply, writes, None)), AApply(cfg, s, a))
  {
    hide FixedKept, BelowKept, Below, InPath, SameMemory, Visible, AllOk, ThreadInv, Writable, Permitted, Inv, AtLoc,
      AbsThread, AfterEcall, PathInstr;
    var th := w.threads[t];
    var a := AKernel(t, reply, writes, None);
    var loc := KernelThread(cfg, w, s, t, reply, writes, None);
    CallerAtKernel(cfg, w, s, t, loc);
    VisibleWritable(cfg, w, s, writes);
    AllVisible(cfg, w, t, writes);
    var w', s' := Apply(cfg, w, Kernel(t, reply, writes, None)), AApply(cfg, s, a);
    var th' := w'.threads[t];
    WritesDisturbNobody(cfg, w, s, t, writes);
    ReplyAbs(cfg, th, th', reply);
    assert s'.threads == s.threads[t := AbsThread(cfg, th')];
    SpUnmoved(s, s', t);
    WritesMatched(cfg, w, s, t, writes, s');
    Matched(cfg, w, s, t, th', w', s');
  }

  lemma AllVisible(cfg: Config, w: World, t: nat, writes: map<nat, byte>)
    requires forall b :: b in writes ==> UserVisible(cfg, w, b)
    ensures Visible(cfg, w, writes) == writes
  {
  }

  lemma SpUnmoved(s: AState, s': AState, t: nat)
    requires t in s.threads && t in s'.threads && s'.threads.Keys >= s.threads.Keys
    requires forall u :: u in s.threads && u != t ==> s'.threads[u] == s.threads[u]
    requires s'.threads[t].lo == s.threads[t].lo && s'.threads[t].core.x[SP] == s.threads[t].core.x[SP]
    ensures forall a: nat :: Below(s.threads, a) ==> Below(s'.threads, a)
  {
    forall a: nat | Below(s.threads, a)
      ensures Below(s'.threads, a)
    {
      var u :| u in s.threads && InRange(a, s.threads[u].lo, s.threads[u].core.x[SP]);
      assert InRange(a, s'.threads[u].lo, s'.threads[u].core.x[SP]);
    }
  }

  /** At its kernel entry the thread stands for the program at its system call. */
  lemma CallerAtKernel(cfg: Config, w: World, s: AState, t: nat, loc: Loc)
    requires ValidConfig(cfg) && Related(cfg, w, s) && t in w.threads && |w.threads[t].flights| == 1
    requires OnPath(cfg, w.threads[t], w.mem, loc) && (loc == Ret(4) || loc == Ret(12))
    ensures t in s.threads
    ensures var call := w.threads[t].flights[0].call;
            && s.threads[t].core == WithGp(call.entry, cfg.env.gp0)
            && s.threads[t].lo == w.threads[t].lo && s.threads[t].hi == w.threads[t].hi
            && cfg.prog(s.threads[t].core.pc).Syscall?
            && RequestOf(w.threads[t].core) == RequestOf(s.threads[t].core)
            && w.threads[t].core.x[A7] == s.threads[t].core.x[A7]
  {
    var th := w.threads[t];
    assert ThreadInv(cfg, th, w.mem) && NestedAt(cfg, th, 0);
    RequestUnchanged(cfg.env, th.flights[0].call, th.core, w.mem, loc);
    NotDoneYet(cfg.env, th.flights[0].call, th.core, w.mem, loc);
  }

  lemma NotDoneYet(env: Env, call: Call, c: Core, m: Mem, loc: Loc)
    requires ValidEnv(env) && ValidCall(call) && AtLoc(env, call, c, m, loc) && (loc == Ret(4) || loc == Ret(12))
    ensures call.outcome.Forward? || call.outcome.Pending?
    ensures loc == Ret(12) <==> IsClone(Number(call))
  {
    hide Registers, Slots;
  }

  lemma ReplyAbs(cfg: Config, th: Thread, th': Thread, reply: u64)
    requires |th.flights| == 1 && th'.lo == th.lo && th'.hi == th.hi
    requires th'.flights == [Top(th).(call := Answered(Top(th).call, reply))]
    ensures AbsThread(cfg, th')
            == AThread(AfterSyscall(WithGp(th.flights[0].call.entry, cfg.env.gp0), reply), th.lo, th.hi)
  {
    var call := th'.flights[0].call;
    assert WithGp(Resumed(call), cfg.env.gp0).x
        == AfterSyscall(WithGp(th.flights[0].call.entry, cfg.env.gp0), reply).x;
  }

  // ---- Ecalls that have not been rewritten ---------------------------------

  /** The processor after a system call, whichever gp it has. */
  lemma ReplyBlindToGp(c: Core, reply: u64, gp: u64)
    ensures WithGp(AfterSyscall(c, reply), gp) == AfterSyscall(WithGp(c, gp), reply)
    ensures RequestOf(WithGp(c, gp)) == RequestOf(c)
  {
    assert WithGp(AfterSyscall(c, reply), gp).x == AfterSyscall(WithGp(c, gp), reply).x;
  }

  /** A system call that vpoline does not see is the original one. */
  lemma UnseenMatched(cfg: Config, w: World, s: AState, t: nat, reply: u64, writes: map<nat, byte>)
    requires ValidConfig(cfg) && Related(cfg, w, s) && AllOk(cfg, s) && Enabled(cfg, w, Unseen(t, reply, writes, None))
    ensures var a := AKernel(t, reply, writes, None);
            AEnabled(cfg, s, a) && Related(cfg, Apply(cfg, w, Unseen(t, reply, writes, None)), AApply(cfg, s, a))
  {
    hide FixedKept, BelowKept, Below, InPath, SameMemory, Visible, AllOk, ThreadInv, Writable, Inv, UserVisible;
    UserCore(cfg, w, s, t);
    ReplyBlindToGp(w.threads[t].core, reply, cfg.env.gp0);
    VisibleWritable(cfg, w, s, writes);
    AllVisible(cfg, w, t, writes);
    var w', s' := Apply(cfg, w, Unseen(t, reply, writes, None)), AApply(cfg, s, AKernel(t, reply, writes, None));
    var th' := w'.threads[t];
    WritesDisturbNobody(cfg, w, s, t, writes);
    SpUnmoved(s, s', t);
    WritesMatched(cfg, w, s, t, writes, s');
    UserInv(cfg, th', w'.mem);
    Matched(cfg, w, s, t, th', w', s');
  }

  // ---- A thread ends --------------------------------------------------------

  lemma Gone(cfg: Config, w: World, s: AState, t: nat, w': World, s': AState)
    requires ValidConfig(cfg) && Related(cfg, w, s) && t in w.threads
    requires w'.mem == w.mem && w'.threads == w.threads - {t}
    requires s'.mem == s.mem && s'.threads == s.threads - {t} && s'.dead == s.dead + BelowOf(s.threads[t])
    requires w'.log == s'.log
    ensures Related(cfg, w', s')
  {
    hide ThreadInv, AbsThread, PageHolds, LoadDouble, HoldsCode;
    forall a: nat | a !in s'.dead && !Below(s'.threads, a)
      ensures !Below(s.threads, a)
    {
      forall u | u in s.threads
        ensures !InRange(a, s.threads[u].lo, s.threads[u].core.x[SP])
      {
        if u != t { assert u in s'.threads; }
      }
    }
    assert Inv(cfg, w');
  }

  lemma ExitMatched(cfg: Config, w: World, s: AState, t: nat)
    requires ValidConfig(cfg) && Related(cfg, w, s) && AllOk(cfg, s) && Enabled(cfg, w, Exit(t))
    ensures AEnabled(cfg, s, AExit(t)) && Related(cfg, Apply(cfg, w, Exit(t)), AApply(cfg, s, AExit(t)))
  {
    hide InPath, PathInstr, SameMemory, AllOk, Inv, AtLoc, BelowOf;
    if w.threads[t].flights == [] {
      UserCore(cfg, w, s, t);
      ReplyBlindToGp(w.threads[t].core, 0, cfg.env.gp0);
    } else {
      var loc := PathOnly(cfg, w, s, t);
      AtLocPc(cfg.env, Top(w.threads[t]).call, w.threads[t].core, w.mem, loc);
      EcallLoc(cfg.env, loc);
      CallerAtKernel(cfg, w, s, t, loc);
    }
    Gone(cfg, w, s, t, Apply(cfg, w, Exit(t)), AApply(cfg, s, AExit(t)));
  }
}
