/**
`syscall_no_intercept` of src/main.c, and a hook that uses it: answering a
system call through it is the same as forwarding the call.
*/
module NoIntercept {
  import opened Isa
  import opened Patcher
  import opened HookCode
  import opened HookPath
  import opened Interception
  import opened Program
  import opened Original
  import opened Patched
  import opened Refinement
  import opened Steps
  import opened Safety
  import opened Completeness

  /** Seven moves, the system call, the return. */
  function NoInterceptInstr(i: nat): Instr
    requires i < 9
  {
    match i
    case 0 => Addi(A7, A0, 0)
    case 1 => Addi(A0, A1, 0)
    case 2 => Addi(A1, A2, 0)
    case 3 => Addi(A2, A3, 0)
    case 4 => Addi(A3, A4, 0)
    case 5 => Addi(A4, A5, 0)
    case 6 => Addi(A5, A6, 0)
    case 7 => Ecall
    case 8 => Jalr(ZERO, RA, 0)
  }

  function RunMoves(i: nat, c: Core): Core
    requires i <= 7
    decreases 7 - i
  {
    if i == 7 then c else RunMoves(i + 1, ExecReg(NoInterceptInstr(i), c))
  }

  /** The registers before move `i`, for a function called with `c0`. */
  ghost predicate Moved(c0: Core, c: Core, i: nat) {
    && i <= 7
    && (forall r: Reg :: c.x[r] == c0.x[MovedFrom(r, i)])
    && c.f == c0.f
  }

  /** The register whose first value `r` holds after `i` moves. */
  function MovedFrom(r: Reg, i: nat): Reg {
    if r == A7 && i >= 1 then A0 else if A0 <= r < A6 && r + 1 < A0 + i then r + 1 else r
  }

  lemma MoveCopies(c: Core, dst: Reg, src: Reg)
    requires dst != ZERO && src != ZERO
    ensures ExecReg(Addi(dst, src, 0), c) == Skip(c.(x := c.x[dst := c.x[src]]), 4)
  {
    hide Wrap;
    assert Wrap(c.x[src]) == c.x[src];
  }

  lemma OneMove(c0: Core, c: Core, i: nat)
    requires Moved(c0, c, i) && i < 7
    ensures Moved(c0, ExecReg(NoInterceptInstr(i), c), i + 1)
  {
    var dst: Reg, src: Reg := if i == 0 then A7 else A0 + i - 1, A0 + i;
    assert NoInterceptInstr(i) == Addi(dst, src, 0);
    MoveCopies(c, dst, src);
    assert c.x[src] == c0.x[src];
    hide NoInterceptInstr, ExecReg;
  }

  lemma {:induction false} MovesFrom(c0: Core, c: Core, i: nat)
    requires i <= 7 && Moved(c0, c, i)
    ensures Moved(c0, RunMoves(i, c), 7)
    decreases 7 - i
  {
    hide Moved;
    if i < 7 {
      OneMove(c0, c, i);
      MovesFrom(c0, ExecReg(NoInterceptInstr(i), c), i + 1);
    }
  }

  lemma MovesDone(c: Core)
    ensures var c' := RunMoves(0, c);
            && RequestOf(c') == Request(c.x[A0], [c.x[A1], c.x[A2], c.x[A3], c.x[A4], c.x[A5], c.x[A6]])
            && c'.x[RA] == c.x[RA] && c'.f == c.f
            && (forall q: Reg :: CalleeSaved(q) ==> c'.x[q] == c.x[q])
  {
    hide RunMoves;
    assert Moved(c, c, 0);
    MovesFrom(c, c, 0);
    var c' := RunMoves(0, c);
    assert c'.x[A7] == c.x[A0];
    assert c'.x[A0] == c.x[A1] && c'.x[A1] == c.x[A2] && c'.x[A2] == c.x[A3];
    assert c'.x[A3] == c.x[A4] && c'.x[A4] == c.x[A5] && c'.x[A5] == c.x[A6];
  }

  /** What `syscall_no_intercept`, called with `c`, returns when the kernel answers `reply`. */
  function NoInterceptReturns(c: Core, reply: u64): Core {
    ExecReg(NoInterceptInstr(8), AfterEcall(RunMoves(0, c), reply))
  }

  lemma ReturnsToRa(c: Core)
    requires c.x[RA] % 2 == 0
    ensures ExecReg(Jalr(ZERO, RA, 0), c) == c.(pc := c.x[RA])
  {
    assert Wrap(c.x[RA] + 0) == c.x[RA];
    hide Wrap;
  }

  /**
  Called with a number and six arguments, the function asks the kernel for
  exactly that and returns the kernel's answer to its caller.
  */
  lemma AsksAndReturns(c: Core, reply: u64)
    requires c.x[RA] % 2 == 0
    ensures var c' := RunMoves(0, c);
            && RequestOf(c') == Request(c.x[A0], [c.x[A1], c.x[A2], c.x[A3], c.x[A4], c.x[A5], c.x[A6]])
            && var r := NoInterceptReturns(c, reply);
               && r.pc == c.x[RA] && r.x[A0] == reply && r.f == c.f
               && (forall q: Reg :: CalleeSaved(q) ==> r.x[q] == c.x[q])
  {
    hide Wrap, RunMoves, RequestOf;
    MovesDone(c);
    var r := AfterEcall(RunMoves(0, c), reply);
    assert NoInterceptInstr(8) == Jalr(ZERO, RA, 0);
    ReturnsToRa(r);
  }

  /** A hook called as `syscall_hook` calls it, handing all its arguments on. */
  ghost predicate PassesArguments(start: Core, c: Core) {
    c.x[A0] == start.x[A7] && forall r: Reg :: A0 <= r <= A5 ==> c.x[r + 1] == start.x[r]
  }

  /** Seen from the program: the kernel's writes and the hook's answer add up to the kernel's own action. */
  lemma AnswerIsKernelAction(cfg: Config, s: AState, t: nat, reply: u64, writes: map<nat, byte>)
    requires AEnabled(cfg, s, AHookWrite(t, writes))
    ensures AEnabled(cfg, s, AKernel(t, reply, writes, None))
    ensures AEnabled(cfg, AApply(cfg, s, AHookWrite(t, writes)), AAnswer(t, reply))
    ensures var handled := AApply(cfg, AApply(cfg, s, AHookWrite(t, writes)), AAnswer(t, reply));
            var forwarded := AApply(cfg, s, AKernel(t, reply, writes, None));
            handled.mem == forwarded.mem && handled.threads == forwarded.threads && handled.dead == forwarded.dead
  {
  }

  // ---- Two ways to have a call carried out ---------------------------------

  /** Thread `t` is in the hook of its one call in flight. */
  ghost predicate InOuterHook(w: World, t: nat) {
    t in w.threads && |w.threads[t].flights| == 1 && Hooking(w.threads[t])
  }

  /** The hook makes the system call itself, stores the result and returns 0. */
  lemma AnsweredByHook(cfg: Config, w: World, s: AState, t: nat, core: Core, ret: Core, reply: u64, scratch: map<nat, byte>)
      returns (path: seq<Action>, w': World)
    requires ValidConfig(cfg) && Related(cfg, w, s) && InOuterHook(w, t) && Enabled(cfg, w, HookRuns(t, core, scratch))
    requires ReturnsFrom(Top(w.threads[t]).hook.value, ret, Returned(0, reply))
    requires AllOk(cfg, s) && AEnabled(cfg, s, AKernel(t, reply, Visible(cfg, w, scratch), None))
    requires AllOk(cfg, AApply(cfg, s, AKernel(t, reply, Visible(cfg, w, scratch), None)))
    ensures Leads(cfg, w, [HookRuns(t, core, scratch)] + ([HookReturns(t, ret, Returned(0, reply))] + path), w')
    ensures OnlyPath(path, t) && OnlyMoved(w, w', t) && OnlyFrame(Top(w.threads[t]).call, w.mem + scratch, w'.mem)
    ensures var call := Top(w.threads[t]).call;
            && w'.threads[t] == w.threads[t].(core := Resumed(Answered(call, reply)), flights := [])
            && w'.log == w.log + [Interposed(t, RequestOf(call.entry), reply)]
  {
    hide Related, AllOk, InPath, Goes, AEnabled, AApply, Visible, UserVisible, ReturnsFrom, Scratchpad, Resumed, OnlyPath,
      OnlyFrame, Leads;
    var call, start := Top(w.threads[t]).call, Top(w.threads[t]).hook.value;
    var runs, returns' := HookRuns(t, core, scratch), HookReturns(t, ret, Returned(0, reply));
    HookRunsMatched(cfg, w, s, t, core, scratch);
    AnswerIsKernelAction(cfg, s, t, reply, Visible(cfg, w, scratch));
    EnabledHere(cfg, s, AHookWrite(t, Visible(cfg, w, scratch)));
    EnabledHere(cfg, AApply(cfg, s, AHookWrite(t, Visible(cfg, w, scratch))), AAnswer(t, reply));
    var w1, s1 := Apply(cfg, w, runs), AApply(cfg, s, AHookWrite(t, Visible(cfg, w, scratch)));
    AnswerMatched(cfg, w1, s1, t, ret, Returned(0, reply));
    var w2 := Apply(cfg, w1, returns');
    assert ret.x[A0] == reply by { ResultIsReturned(start, ret, reply); }
    var s2 := AApply(cfg, s1, AAnswer(t, reply));
    OkSame(cfg, AApply(cfg, s, AKernel(t, reply, Visible(cfg, w, scratch), None)), s2);
    path, w' := Finish(cfg, w2, s2, t, Decided(call, start, Returned(0, reply)));
    GoesLeads(cfg, w2, path, w');
    LeadsFirst(cfg, w1, returns', path, w');
    LeadsFirst(cfg, w, runs, [returns'] + path, w');
    SameResult(call, start, reply);
    SameFrame(call, Decided(call, start, Returned(0, reply)), w2.mem, w'.mem);
    RelatedLog(cfg, w', s2);
    LogOfAnswer(cfg, w, s, t, reply, Visible(cfg, w, scratch));
  }

  lemma ResultIsReturned(start: Core, ret: Core, reply: u64)
    requires ReturnsFrom(start, ret, Returned(0, reply))
    ensures ret.x[A0] == reply
  {
  }

  lemma RelatedLog(cfg: Config, w: World, s: AState)
    requires ValidConfig(cfg) && Related(cfg, w, s)
    ensures w.log == s.log
  {
  }

  /** The answered and the forwarded call give the caller the same processor. */
  lemma SameResult(call: Call, start: Core, reply: u64)
    ensures Resumed(Decided(call, start, Returned(0, reply))) == Resumed(Answered(call, reply))
  {
  }

  /** What the two ways leave in the log: the caller's own request and the same answer. */
  lemma LogOfAnswer(cfg: Config, w: World, s: AState, t: nat, reply: u64, writes: map<nat, byte>)
    requires ValidConfig(cfg) && Related(cfg, w, s) && InOuterHook(w, t)
    ensures t in s.threads
    ensures var request := RequestOf(Top(w.threads[t]).call.entry);
            && AApply(cfg, AApply(cfg, s, AHookWrite(t, writes)), AAnswer(t, reply)).log
               == w.log + [Interposed(t, request, reply)]
            && AApply(cfg, s, AKernel(t, reply, writes, None)).log
               == w.log + [Asked(t, request, reply, writes, None)]
  {
    hide Related;
    AtSyscall(cfg, w, s, t);
    RelatedLog(cfg, w, s);
    ReplyBlindToGp(w.threads[t].flights[0].call.entry, 0, cfg.env.gp0);
  }

  /** The hook returns another code, and the return path makes the system call. */
  lemma LetThrough(cfg: Config, w: World, s: AState, t: nat, ret: Core, answer: HookAnswer, reply: u64, writes: map<nat, byte>)
      returns (path: seq<Action>, path': seq<Action>, w': World)
    requires ValidConfig(cfg) && Related(cfg, w, s) && InOuterHook(w, t) && Enabled(cfg, w, HookReturns(t, ret, answer))
    requires Forwards(answer) && !IsClone(Number(Top(w.threads[t]).call))
    requires AllOk(cfg, s) && AEnabled(cfg, s, AKernel(t, reply, writes, None))
    requires AllOk(cfg, AApply(cfg, s, AKernel(t, reply, writes, None)))
    ensures Leads(cfg, w, [HookReturns(t, ret, answer)] + (path + ([Kernel(t, reply, writes, None)] + path')), w')
    ensures OnlyPath(path, t) && OnlyPath(path', t) && OnlyMoved(w, w', t)
    ensures var call := Top(w.threads[t]).call;
            && w'.threads[t] == w.threads[t].(core := Resumed(Answered(call, reply)), flights := [])
            && w'.log == w.log + [Asked(t, RequestOf(call.entry), reply, writes, None)]
            && exists m :: OnlyFrame(call, w.mem, m) && OnlyFrame(call, m + writes, w'.mem)
  {
    hide Related, AllOk, InPath, Goes, AEnabled, AApply, Enabled, Apply, Resumed, PathInstr, AtLoc, InstrAt, Leads, OnlyPath,
      OnlyFrame;
    var a := AKernel(t, reply, writes, None);
    EnabledHere(cfg, s, a);
    var call := Top(w.threads[t]).call.(outcome := Forward);
    AfterForward(cfg, w, s, t, ret, answer);
    var w1 := Apply(cfg, w, HookReturns(t, ret, answer));
    var w2, loc;
    path, w2, loc := DriveCall(cfg, w1, s, t, call);
    EcallOfNormalPath(cfg.env);
    path', w' := KernelReplies(cfg, w2, s, t, call, loc, reply, writes);
    GoesLeads(cfg, w1, path, w2);
    LeadsThen(cfg, w1, path, w2, [Kernel(t, reply, writes, None)] + path', w');
    LeadsFirst(cfg, w, HookReturns(t, ret, answer), path + ([Kernel(t, reply, writes, None)] + path'), w');
    RelatedLog(cfg, w', AApply(cfg, s, a));
    LogOfAnswer(cfg, w, s, t, reply, writes);
    SameReply(Top(w.threads[t]).call, call, reply);
    SameFrame(Top(w.threads[t]).call, call, w.mem, w2.mem);
    SameFrame(Top(w.threads[t]).call, call, w2.mem + writes, w'.mem);
  }

  lemma AfterForward(cfg: Config, w: World, s: AState, t: nat, ret: Core, answer: HookAnswer)
    requires ValidConfig(cfg) && Related(cfg, w, s) && InOuterHook(w, t) && Enabled(cfg, w, HookReturns(t, ret, answer))
    requires Forwards(answer)
    ensures var w' := Apply(cfg, w, HookReturns(t, ret, answer));
            var call := Top(w.threads[t]).call.(outcome := Forward);
            && Related(cfg, w', s) && Carrying(w', t, call) && OnlyMoved(w, w', t) && w'.mem == w.mem
            && w'.threads[t] == w.threads[t].(core := ret, flights := [Flight(call, None)])
  {
    hide Related, InPath, ReturnsFrom;
    ForwardUnnoticed(cfg, w, s, t, ret, answer);
    assert Pop(w.threads[t]) == [];
  }

  /** The kernel answers, and the call returns. */
  lemma KernelReplies(cfg: Config, w: World, s: AState, t: nat, call: Call, loc: Loc, reply: u64, writes: map<nat, byte>)
      returns (path: seq<Action>, w': World)
    requires ValidConfig(cfg) && Related(cfg, w, s) && AllOk(cfg, s) && Carrying(w, t, call)
    requires AEnabled(cfg, s, AKernel(t, reply, writes, None)) && AllOk(cfg, AApply(cfg, s, AKernel(t, reply, writes, None)))
    requires InPath(cfg.env, w.threads[t].core.pc) && OnPath(cfg, w.threads[t], w.mem, loc)
    requires (loc == Ret(4) || loc == Ret(12)) && PathInstr(cfg.env, w.mem, w.threads[t].core.pc).Ecall?
    ensures Leads(cfg, w, [Kernel(t, reply, writes, None)] + path, w') && OnlyPath(path, t) && OnlyMoved(w, w', t)
    ensures Related(cfg, w', AApply(cfg, s, AKernel(t, reply, writes, None)))
    ensures w'.threads[t] == w.threads[t].(core := Resumed(Answered(call, reply)), flights := [])
    ensures OnlyFrame(call, w.mem + writes, w'.mem)
  {
    hide Related, AllOk, InPath, Goes, AEnabled, AApply, Resumed, PathInstr, AtLoc, UserVisible, AfterEcall;
    var a, k := AKernel(t, reply, writes, None), Kernel(t, reply, writes, None);
    EnabledHere(cfg, s, a);
    KernelCanAnswer(cfg, w, s, a, call, loc);
    KernelMatched(cfg, w, s, t, reply, writes);
    var w1 := Apply(cfg, w, k);
    path, w' := Finish(cfg, w1, AApply(cfg, s, a), t, Answered(call, reply));
    assert Leads(cfg, w1, path, w') by { GoesLeads(cfg, w1, path, w'); }
    LeadsFirst(cfg, w, k, path, w');
  }

  lemma EcallOfNormalPath(env: Env)
    ensures InstrAt(env, Ret(4)).Ecall?
  {
  }

  lemma SameFrame(call: Call, call': Call, m: Mem, m': Mem)
    requires call'.entry == call.entry && OnlyFrame(call', m, m')
    ensures OnlyFrame(call, m, m')
  {
  }

  lemma SameReply(call: Call, call': Call, reply: u64)
    requires call'.entry == call.entry
    ensures Resumed(Answered(call', reply)) == Resumed(Answered(call, reply))
  {
  }

  /**
  Handling equals forwarding. A thread is in the hook of its call. One hook calls
  `syscall_no_intercept` with its arguments, stores the result and returns 0; the
  other returns a code other than 0. Given the same answer and the same writes
  by the kernel, both runs bring the thread back to its program with the same
  processor and the same memory, its own stack below sp and vpoline's memory
  apart, and the kernel is asked for the same thing.
  */
  lemma HandlingEqualsForwarding(cfg: Config, w: World, s: AState, t: nat, c: Core, core: Core, retA: Core, retB: Core,
                                 code: int, result: u64, reply: u64, scratch: map<nat, byte>, writes: map<nat, byte>)
      returns (pathA: seq<Action>, wA: World, pathB: seq<Action>, pathB': seq<Action>, wB: World)
    requires ValidConfig(cfg) && Related(cfg, w, s) && InOuterHook(w, t) && !IsClone(Number(Top(w.threads[t]).call))
    requires OkAlong(cfg, s, [AKernel(t, reply, writes, None)])
    requires PassesArguments(Top(w.threads[t]).hook.value, c) && c.x[RA] % 2 == 0
    requires Enabled(cfg, w, HookRuns(t, core, scratch)) && Visible(cfg, w, scratch) == writes
    requires ReturnsFrom(Top(w.threads[t]).hook.value, retA, Returned(0, NoInterceptReturns(c, reply).x[A0]))
    requires ReturnsFrom(Top(w.threads[t]).hook.value, retB, Returned(code, result)) && code != 0
    ensures var stored := NoInterceptReturns(c, reply).x[A0];
            Leads(cfg, w, [HookRuns(t, core, scratch)] + ([HookReturns(t, retA, Returned(0, stored))] + pathA), wA)
    ensures Leads(cfg, w, [HookReturns(t, retB, Returned(code, result))]
                          + (pathB + ([Kernel(t, reply, writes, None)] + pathB')), wB)
    ensures OnlyPath(pathA, t) && OnlyPath(pathB, t) && OnlyPath(pathB', t)
    ensures wA.threads == wB.threads && t in wA.threads && wA.threads[t].flights == []
    ensures forall a: nat :: a !in cfg.own && !InRange(a, w.threads[t].lo, CallerSp(w.threads[t])) ==>
              Byte(wA.mem, a) == Byte(wB.mem, a)
    ensures var request := RequestOf(RunMoves(0, c));
            && wA.log == w.log + [Interposed(t, request, reply)]
            && wB.log == w.log + [Asked(t, request, reply, writes, None)]
  {
    hide Related, AllOk, Visible, UserVisible, ReturnsFrom, Leads, OnlyPath, OnlyFrame, AEnabled, AApply, RunMoves, Resumed,
      InPath, Scratchpad, PassesArguments, NoInterceptReturns;
    AsksAndReturns(c, reply);
    CanBeAsked(cfg, w, s, t, reply, core, scratch);
    OneStepOk(cfg, s, AKernel(t, reply, writes, None));
    pathA, wA := AnsweredByHook(cfg, w, s, t, core, retA, reply, scratch);
    pathB, pathB', wB := LetThrough(cfg, w, s, t, retB, Returned(code, result), reply, writes);
    var call := Top(w.threads[t]).call;
    var m :| OnlyFrame(call, w.mem, m) && OnlyFrame(call, m + writes, wB.mem);
    SameVisibleMemory(cfg, w, s, t, core, scratch, m, wA.mem, wB.mem);
    AsksForTheCaller(cfg, w, s, t, c);
    assert wA.threads == wB.threads;
  }

  lemma OneStepOk(cfg: Config, s: AState, a: AAction)
    requires ValidEnv(cfg.env) && OkAlong(cfg, s, [a]) && AEnabled(cfg, s, a)
    ensures AllOk(cfg, s) && AllOk(cfg, AApply(cfg, s, a))
  {
    hide AllOk, AEnabled, AApply;
    assert [a][0] == a;
  }

  lemma CanBeAsked(cfg: Config, w: World, s: AState, t: nat, reply: u64, core: Core, scratch: map<nat, byte>)
    requires ValidConfig(cfg) && Related(cfg, w, s) && InOuterHook(w, t) && Enabled(cfg, w, HookRuns(t, core, scratch))
    ensures AEnabled(cfg, s, AKernel(t, reply, Visible(cfg, w, scratch), None))
    ensures !InPath(cfg.env, w.threads[t].core.pc)
  {
    hide InPath, Visible, Inv, SameMemory, UserVisible, Scratchpad;
    AtSyscall(cfg, w, s, t);
    VisibleWritable(cfg, w, s, scratch);
  }

  /** The request of `syscall_no_intercept`, handed the hook's arguments, is the caller's. */
  lemma AsksForTheCaller(cfg: Config, w: World, s: AState, t: nat, c: Core)
    requires ValidConfig(cfg) && Related(cfg, w, s) && InOuterHook(w, t)
    requires PassesArguments(Top(w.threads[t]).hook.value, c) && c.x[RA] % 2 == 0
    ensures RequestOf(RunMoves(0, c)) == RequestOf(Top(w.threads[t]).call.entry)
  {
    hide RunMoves, Wrap, Slots, Related;
    RelatedThread(cfg, w, s, t);
    OuterFlights(cfg, w.threads[t], w.mem, 0);
    var start := Top(w.threads[t]).hook.value;
    MovesDone(c);
    assert c.x[A0 + 1] == start.x[A0] && c.x[A1 + 1] == start.x[A1] && c.x[A2 + 1] == start.x[A2];
    assert c.x[A3 + 1] == start.x[A3] && c.x[A4 + 1] == start.x[A4] && c.x[A5 + 1] == start.x[A5];
  }

  lemma SameVisibleMemory(cfg: Config, w: World, s: AState, t: nat, core: Core, scratch: map<nat, byte>, m: Mem, mA: Mem, mB: Mem)
    requires ValidConfig(cfg) && Related(cfg, w, s) && InOuterHook(w, t) && Enabled(cfg, w, HookRuns(t, core, scratch))
    requires var call := Top(w.threads[t]).call;
             && OnlyFrame(call, w.mem + scratch, mA)
             && OnlyFrame(call, w.mem, m) && OnlyFrame(call, m + Visible(cfg, w, scratch), mB)
    ensures forall a: nat :: a !in cfg.own && !InRange(a, w.threads[t].lo, CallerSp(w.threads[t])) ==>
              Byte(mA, a) == Byte(mB, a)
  {
    hide Related, InPath, UserVisible;
    var th := w.threads[t];
    RelatedThread(cfg, w, s, t);
    assert NestedAt(cfg, th, 0);
    forall a: nat | a !in cfg.own && !InRange(a, th.lo, CallerSp(th))
      ensures Byte(mA, a) == Byte(mB, a)
    {
      assert !InRange(a, FrameBase(Top(th).call), FrameBase(Top(th).call) + FRAME_SIZE);
      if InRange(a, RoomLo(th), RoomHi(th)) { RoomInStack(cfg, th, a); }
      assert a in scratch ==> UserVisible(cfg, w, a);
      MergedByte(w.mem, scratch, a);
      MergedByte(m, Visible(cfg, w, scratch), a);
    }
  }
}
