/**
What hooks may do, and that the interception lets them: return with anything in
the registers the calling convention does not protect, and make intercepted calls
of their own, at any depth.
*/
module Reentry {
  import opened Isa
  import opened HookCode
  import opened HookPath
  import opened Interception
  import opened Program
  import opened Original
  import opened Patched
  import opened Refinement
  import opened Steps
  import opened Safety
  import opened Completeness

  // ---- The calling convention --------------------------------------------------

  /** Registers a function gives back: x0, sp (x2), gp (x3), tp (x4), s0-s11 (x8, x9, x18-x27). */
  predicate Preserved(r: Reg) {
    r == 0 || r == 2 || r == 3 || r == 4 || r == 8 || r == 9 || 18 <= r <= 27
  }

  /** fs0-fs11 (f8, f9, f18-f27). */
  predicate FPreserved(r: Reg) {
    r == 8 || r == 9 || 18 <= r <= 27
  }

  /** A function called with `start` may have returned with `c`: to ra (x1), whatever the other registers hold. */
  ghost predicate MayReturn(start: Core, c: Core) {
    && c.pc == start.x[1] - start.x[1] % 2
    && (forall r: Reg :: Preserved(r) ==> c.x[r] == start.x[r])
    && (forall r: Reg :: FPreserved(r) ==> c.f[r] == start.f[r])
  }

  /** The pair `syscall_hook` returns in a0 (x10) and a1 (x11). */
  predicate ReturnsPair(start: Core, c: Core, answer: HookAnswer) {
    match answer
    case NoHook => c.x[10] == start.x[10] && c.x[11] == 0
    case Returned(code, result) =>
      if code != 0 then c.x[10] == start.x[10] && c.x[11] == 0 else c.x[10] == result && c.x[11] == 1
  }

  /** Nothing but the calling convention and the returned pair is asked of a hook that returns. */
  lemma HookMayClobber(start: Core, c: Core, answer: HookAnswer)
    ensures ReturnsFrom(start, c, answer) <==> MayReturn(start, c) && ReturnsPair(start, c, answer)
  {
  }

  /** Any registers, and any memory that is not code, the page, the gp variable, a frame or hidden in another stack. */
  lemma HookIsFree(cfg: Config, w: World, s: AState, t: nat, core: Core, writes: map<nat, byte>)
    requires ValidConfig(cfg) && Related(cfg, w, s) && t in w.threads && Hooking(w.threads[t])
    requires core.x[0] == w.threads[t].core.x[0] && core.x[3] == cfg.env.gp && !InPath(cfg.env, core.pc)
    requires w.threads[t].lo <= core.x[2] <= FrameBase(Top(w.threads[t]).call)
    requires forall b :: b in writes ==> HookMayWrite(cfg, w, t, b)
    ensures Enabled(cfg, w, HookRuns(t, core, writes))
  {
    hide InPath, Related;
    RelatedThread(cfg, w, s, t);
    forall b | b in writes
      ensures Scratchpad(cfg, RoomLo(w.threads[t]), RoomHi(w.threads[t]), b) || UserVisible(cfg, w, b)
    {
      assert HookMayWrite(cfg, w, t, b);
    }
  }

  /** vpoline's own data, the hook's part of the stack, or memory the program can reach. */
  ghost predicate HookMayWrite(cfg: Config, w: World, t: nat, b: nat)
    requires t in w.threads && Hooking(w.threads[t])
  {
    && b !in cfg.code && !InPage(cfg, b) && !(cfg.env.gpVar <= b < cfg.env.gpVar + 8)
    && (|| b in cfg.own
        || w.threads[t].lo <= b < FrameBase(Top(w.threads[t]).call)
        || forall u :: u in w.threads ==> b < w.threads[u].lo || CallerSp(w.threads[u]) <= b)
  }

  // ---- From the hook's return to the end ---------------------------------------------

  /** `c'` is the caller's `c` just after its call has been answered with `v`. */
  ghost predicate GivenBack(c: Core, c': Core, v: u64) {
    && c'.pc == (c.pc + 4) % 0x1_0000_0000_0000_0000
    && c'.x[10] == v && c'.f == c.f
    && forall r: Reg :: r != 10 ==> c'.x[r] == c.x[r]
  }

  lemma ResumedIs(call: Call)
    requires call.outcome.Replied? || call.outcome.Handled?
    ensures GivenBack(call.entry, Resumed(call), call.outcome.v)
  {
  }

  /** The innermost call has been answered with `v`; what the program sees of that, and how it goes on. */
  ghost predicate Settled(cfg: Config, w: World, s: AState, t: nat, v: u64)
    requires ValidEnv(cfg.env)
  {
    && t in w.threads && t in s.threads
    && (|w.threads[t].flights| == 1 ==> AllOk(cfg, AApply(cfg, s, AAnswer(t, v))))
  }

  /** A hook that answers the call. */
  lemma HookAnswers(cfg: Config, w: World, s: AState, t: nat, c: Core, v: u64) returns (path: seq<Action>, w': World, s': AState)
    requires ValidConfig(cfg) && Related(cfg, w, s) && AllOk(cfg, s) && t in w.threads && Hooking(w.threads[t])
    requires ReturnsFrom(Top(w.threads[t]).hook.value, c, Returned(0, v)) && Settled(cfg, w, s, t, v)
    ensures Leads(cfg, w, [HookReturns(t, c, Returned(0, v))] + path, w') && OnlyPath(path, t) && Related(cfg, w', s')
    ensures OnlyMoved(w, w', t) && OnlyFrame(Top(w.threads[t]).call, w.mem, w'.mem)
    ensures w'.threads[t] == w.threads[t].(core := w'.threads[t].core, flights := Pop(w.threads[t]))
    ensures GivenBack(Top(w.threads[t]).call.entry, w'.threads[t].core, v)
  {
    hide Related, AllOk, InPath, Goes, AApply, AEnabled, Resumed, OnlyPath, Leads, Settled, ReturnsFrom;
    var a := HookReturns(t, c, Returned(0, v));
    HookingOutsidePath(cfg, w, s, t);
    ResultOf(Top(w.threads[t]).hook.value, c, v);
    if |w.threads[t].flights| == 1 {
      AnswerMatched(cfg, w, s, t, c, Returned(0, v));
      s' := AfterAnswer(cfg, w, s, t, v);
    } else {
      ForwardUnnoticed(cfg, w, s, t, c, Returned(0, v));
      s' := s;
    }
    var w1, call := Apply(cfg, w, a), Decided(Top(w.threads[t]).call, Top(w.threads[t]).hook.value, Returned(0, v));
    path, w' := Finish(cfg, w1, s', t, call);
    assert Pop(w1.threads[t]) == Pop(w.threads[t]);
    GoesLeads(cfg, w1, path, w');
    LeadsFirst(cfg, w, a, path, w');
    ResumedIs(call);
  }

  lemma AfterAnswer(cfg: Config, w: World, s: AState, t: nat, v: u64) returns (s': AState)
    requires ValidEnv(cfg.env) && Settled(cfg, w, s, t, v) && |w.threads[t].flights| == 1
    ensures t in s.threads && s' == AApply(cfg, s, AAnswer(t, v)) && AllOk(cfg, s')
  {
    hide AllOk, AApply;
    s' := AApply(cfg, s, AAnswer(t, v));
  }

  lemma ResultOf(start: Core, c: Core, v: u64)
    requires ReturnsFrom(start, c, Returned(0, v))
    ensures c.x[A0] == v
  {
  }

  /** Memory the kernel may write on behalf of the call of `t`, made with the given sp. */
  ghost predicate KernelMayWrite(cfg: Config, w: World, t: nat, sp: nat, b: nat)
    requires t in w.threads
  {
    || UserVisible(cfg, w, b)
    || (|w.threads[t].flights| > 1 && Scratchpad(cfg, sp, FrameBase(w.threads[t].flights[|w.threads[t].flights| - 2].call), b))
  }

  /** Where the program can be seen to write does not depend on what happens inside a call. */
  lemma VisibleSame(cfg: Config, w: World, w': World, t: nat, b: nat)
    requires OnlyMoved(w, w', t) && t in w.threads && w'.threads[t].lo == w.threads[t].lo
    requires CallerSp(w'.threads[t]) == CallerSp(w.threads[t])
    ensures UserVisible(cfg, w', b) <==> UserVisible(cfg, w, b)
  {
    assert forall u :: u in w.threads ==>
        u in w'.threads && w'.threads[u].lo == w.threads[u].lo && CallerSp(w'.threads[u]) == CallerSp(w.threads[u]);
  }

  /** At its ecall the call can be answered in any way. */
  lemma CanAnswer(cfg: Config, w: World, w': World, s: AState, t: nat, call: Call, reply: u64, writes: map<nat, byte>)
    requires ValidConfig(cfg) && Related(cfg, w', s) && Atop(w, t, call) && Atop(w', t, call) && OnlyMoved(w, w', t)
    requires w'.threads[t] == w.threads[t].(core := w'.threads[t].core)
    requires InPath(cfg.env, w'.threads[t].core.pc) && PathInstr(cfg.env, w'.mem, w'.threads[t].core.pc).Ecall?
    requires forall b :: b in writes ==> KernelMayWrite(cfg, w, t, call.entry.x[SP], b)
    ensures Enabled(cfg, w', Kernel(t, reply, writes, None))
  {
    hide InPath, PathInstr, Related, UserVisible, Scratchpad;
    forall b | b in writes
      ensures UserVisible(cfg, w', b)
              || (|w'.threads[t].flights| > 1 && Scratchpad(cfg, RoomLo(w'.threads[t]), RoomHi(w'.threads[t]), b))
    {
      assert KernelMayWrite(cfg, w, t, call.entry.x[SP], b);
      VisibleSame(cfg, w, w', t, b);
    }
  }

  /** A call that its hook has passed on: to the kernel and back. */
  lemma ToKernelAndBack(cfg: Config, w: World, s: AState, t: nat, call: Call, reply: u64, writes: map<nat, byte>)
      returns (path: seq<Action>, path': seq<Action>, w': World, s': AState)
    requires ValidConfig(cfg) && Related(cfg, w, s) && AllOk(cfg, s) && Atop(w, t, call) && call.outcome.Forward?
    requires (forall b :: b in writes ==> KernelMayWrite(cfg, w, t, call.entry.x[SP], b)) && Settled(cfg, w, s, t, reply)
    ensures Leads(cfg, w, path + ([Kernel(t, reply, writes, None)] + path'), w') && OnlyPath(path, t) && OnlyPath(path', t)
    ensures Related(cfg, w', s') && OnlyMoved(w, w', t)
    ensures w'.threads[t] == w.threads[t].(core := w'.threads[t].core, flights := Pop(w.threads[t]))
    ensures GivenBack(call.entry, w'.threads[t].core, reply)
  {
    hide Related, AllOk, InPath, PathInstr, Goes, Resumed, OnlyPath, Leads, Settled, Enabled, Apply, OnPath, KernelMayWrite,
      InstrAt, OnlyFrame;
    var k := Kernel(t, reply, writes, None);
    var w2, loc;
    path, w2, loc := DriveCall(cfg, w, s, t, call);
    EcallAt(cfg.env, loc);
    CanAnswer(cfg, w, w2, s, t, call, reply, writes);
    s' := KernelSettled(cfg, w, w2, s, t, call, reply, writes);
    var w3 := Apply(cfg, w2, k);
    path', w' := Finish(cfg, w3, s', t, Answered(call, reply));
    GoesLeads(cfg, w3, path', w');
    LeadsFirst(cfg, w2, k, path', w');
    GoesLeads(cfg, w, path, w2);
    LeadsThen(cfg, w, path, w2, [k] + path', w');
    ResumedIs(Answered(call, reply));
  }

  lemma EcallAt(env: Env, loc: Loc)
    ensures loc == Ret(4) || loc == Ret(12) ==> InstrAt(env, loc).Ecall?
  {
  }

  /** The kernel's answer, and the state of the specification that matches it. */
  lemma KernelSettled(cfg: Config, w: World, w2: World, s: AState, t: nat, call: Call, reply: u64, writes: map<nat, byte>)
      returns (s': AState)
    requires ValidConfig(cfg) && Related(cfg, w2, s) && AllOk(cfg, s) && Atop(w2, t, call) && Settled(cfg, w, s, t, reply)
    requires w2.threads[t] == w.threads[t].(core := w2.threads[t].core)
    requires Enabled(cfg, w2, Kernel(t, reply, writes, None))
    ensures var w3 := Apply(cfg, w2, Kernel(t, reply, writes, None));
            && Related(cfg, w3, s') && AllOk(cfg, s') && OnlyMoved(w2, w3, t) && Atop(w3, t, Answered(call, reply))
            && w3.threads[t] == w2.threads[t].(core := w3.threads[t].core, flights := w3.threads[t].flights)
            && Pop(w3.threads[t]) == Pop(w2.threads[t])
  {
    hide Related, AllOk, InPath, PathInstr, AfterEcall, UserVisible, AEnabled, AApply, Visible;
    if |w2.threads[t].flights| == 1 {
      KernelMatched(cfg, w2, s, t, reply, writes);
      EnabledHere(cfg, s, AKernel(t, reply, writes, None));
      s' := AApply(cfg, s, AKernel(t, reply, writes, None));
      AnswersAgree(cfg, s, t, reply, writes);
      OkSame(cfg, AApply(cfg, s, AAnswer(t, reply)), s');
    } else {
      InnerKernelMatched(cfg, w2, s, t, reply, writes);
      var a := AHookWrite(t, Visible(cfg, w2, writes));
      EnabledHere(cfg, s, a);
      s' := AApply(cfg, s, a);
      WriteKeepsThreads(cfg, s, a);
      OkSame(cfg, s, s');
    }
  }

  lemma AnswersAgree(cfg: Config, s: AState, t: nat, reply: u64, writes: map<nat, byte>)
    requires t in s.threads
    ensures var k, a := AApply(cfg, s, AKernel(t, reply, writes, None)), AApply(cfg, s, AAnswer(t, reply));
            k.threads == a.threads && k.dead <= a.dead
  {
  }

  lemma WriteKeepsThreads(cfg: Config, s: AState, a: AAction)
    requires a.AHookWrite? && a.t in s.threads
    ensures AApply(cfg, s, a).threads == s.threads && AApply(cfg, s, a).dead <= s.dead
  {
  }

  /**
  Whatever a conforming hook leaves in the registers that its caller has to save,
  at whatever depth: once its call has been answered, by the hook or by the kernel,
  the code that made the call has every integer and float register back but a0.
  */
  lemma ContextSurvivesHook(cfg: Config, w: World, s: AState, t: nat, c: Core, answer: HookAnswer, reply: u64)
      returns (acts: seq<Action>, w': World, s': AState)
    requires ValidConfig(cfg) && Related(cfg, w, s) && AllOk(cfg, s) && t in w.threads && Hooking(w.threads[t])
    requires MayReturn(Top(w.threads[t]).hook.value, c) && ReturnsPair(Top(w.threads[t]).hook.value, c, answer)
    requires Settled(cfg, w, s, t, if answer.NoHook? || answer.code != 0 then reply else answer.result)
    ensures Leads(cfg, w, [HookReturns(t, c, answer)] + acts, w') && Related(cfg, w', s') && OnlyMoved(w, w', t)
    ensures w'.threads[t] == w.threads[t].(core := w'.threads[t].core, flights := Pop(w.threads[t]))
    ensures GivenBack(Top(w.threads[t]).call.entry, w'.threads[t].core,
                      if answer.NoHook? || answer.code != 0 then reply else answer.result)
  {
    hide Related, AllOk, InPath, Goes, Resumed, OnlyPath, Leads, Settled, ReturnsFrom, MayReturn, ReturnsPair, OnlyFrame, GivenBack;
    HookMayClobber(Top(w.threads[t]).hook.value, c, answer);
    HookingOutsidePath(cfg, w, s, t);
    if answer.NoHook? || answer.code != 0 {
      var a := HookReturns(t, c, answer);
      var call := Top(w.threads[t]).call.(outcome := Forward);
      ForwardUnnoticed(cfg, w, s, t, c, answer);
      var w1 := Apply(cfg, w, a);
      assert Pop(w1.threads[t]) == Pop(w.threads[t]);
      SettledSame(cfg, w, w1, s, t, reply);
      var p, p';
      p, p', w', s' := ToKernelAndBack(cfg, w1, s, t, call, reply, map[]);
      acts := p + ([Kernel(t, reply, map[], None)] + p');
      LeadsFirst(cfg, w, a, acts, w');
    } else {
      assert answer == Returned(0, answer.result);
      acts, w', s' := HookAnswers(cfg, w, s, t, c, answer.result);
    }
  }

  lemma SettledSame(cfg: Config, w: World, w': World, s: AState, t: nat, v: u64)
    requires ValidEnv(cfg.env) && Settled(cfg, w, s, t, v)
    requires t in w'.threads && |w'.threads[t].flights| == |w.threads[t].flights|
    ensures Settled(cfg, w', s, t, v)
  {
    hide AllOk, AApply;
  }

  // ---- Calls made by hooks ---------------------------------------------------------

  /** A hook stands at a patched instruction, with room for a frame, and asks for something other than rt_sigreturn (139). */
  ghost predicate CallsAgain(cfg: Config, th: Thread)
    requires ValidEnv(cfg.env)
  {
    && Hooking(th) && cfg.prog(th.core.pc).Syscall? && th.core.pc % 2 == 0
    && !InPath(cfg.env, (th.core.pc + 4) % 0x1_0000_0000_0000_0000)
    && th.lo + 304 <= th.core.x[2] && th.core.x[17] != 139
  }

  lemma AgainEnabled(cfg: Config, w: World, s: AState, t: nat)
    requires ValidConfig(cfg) && Related(cfg, w, s) && t in w.threads && CallsAgain(cfg, w.threads[t])
    ensures Enabled(cfg, w, Enter(t))
  {
    hide InPath, Related;
    HookingOutsidePath(cfg, w, s, t);
  }

  /**
  A hook at any depth makes an intercepted call: the hook is entered once more, one
  level deeper, and once that has passed the call on, and the kernel has answered it
  in any way, the outer hook goes on just after its call, with the calls in flight
  it had and every register but a0.
  */
  lemma NestedCall(cfg: Config, w: World, s: AState, t: nat, reply: u64, writes: map<nat, byte>)
      returns (enter: seq<Action>, w1: World, c: Core, rest: seq<Action>, w': World, s': AState)
    requires ValidConfig(cfg) && Related(cfg, w, s) && AllOk(cfg, s) && t in w.threads && CallsAgain(cfg, w.threads[t])
    requires forall b :: b in writes ==> InnerMayWrite(cfg, w, t, b)
    ensures Leads(cfg, w, enter, w1) && t in w1.threads && Hooking(w1.threads[t])
    ensures |w1.threads[t].flights| == |w.threads[t].flights| + 1
    ensures Leads(cfg, w1, [HookReturns(t, c, NoHook)] + rest, w') && Related(cfg, w', s') && OnlyMoved(w, w', t)
    ensures w'.threads[t] == w.threads[t].(core := w'.threads[t].core)
    ensures GivenBack(w.threads[t].core, w'.threads[t].core, reply)
  {
    hide Related, AllOk, InPath, Goes, OnlyPath, Leads, Settled, OnlyFrame, GivenBack, CallsAgain, InnerMayWrite, KernelMayWrite,
      Enabled, Apply;
    AgainEnabled(cfg, w, s, t);
    SomeFlight(cfg, w.threads[t]);
    enter, w1 := ToTheHook(cfg, w, s, t);
    GoesLeads(cfg, w, enter, w1);
    var th, th1 := w.threads[t], w1.threads[t];
    assert Top(th1) == Flight(Call(th.core, Pending, 1, 0), Some(th1.core)) && Pop(th1) == th.flights;
    c := PlainReturn(th1.core);
    PlainReturns(th1.core);
    PassedOn(cfg, w1, s, t, c);
    var a, call := HookReturns(t, c, NoHook), Call(th.core, Forward, 1, 0);
    var w2 := Apply(cfg, w1, a);
    forall b | b in writes
      ensures KernelMayWrite(cfg, w2, t, call.entry.x[SP], b)
    {
      InnerWrites(cfg, w, w2, t, b);
    }
    InnerIsSettled(cfg, w2, s, t, reply);
    var p, p';
    p, p', w', s' := ToKernelAndBack(cfg, w2, s, t, call, reply, writes);
    rest := p + ([Kernel(t, reply, writes, None)] + p');
    LeadsFirst(cfg, w1, a, rest, w');
  }

  /** What the kernel may write for a call made by a hook: the program's memory, vpoline's data, or the hook's stack. */
  ghost predicate InnerMayWrite(cfg: Config, w: World, t: nat, b: nat)
    requires t in w.threads && Hooking(w.threads[t])
  {
    || UserVisible(cfg, w, b)
    || Scratchpad(cfg, w.threads[t].core.x[2], FrameBase(Top(w.threads[t]).call), b)
  }

  lemma SomeFlight(cfg: Config, th: Thread)
    requires ValidEnv(cfg.env) && CallsAgain(cfg, th)
    ensures th.flights != [] && Hooking(th)
  {
  }

  lemma PlainReturns(start: Core)
    ensures ReturnsFrom(start, PlainReturn(start), NoHook)
  {
  }

  lemma PassedOn(cfg: Config, w: World, s: AState, t: nat, c: Core)
    requires ValidConfig(cfg) && Related(cfg, w, s) && t in w.threads && Hooking(w.threads[t])
    requires !InPath(cfg.env, w.threads[t].core.pc) && ReturnsFrom(Top(w.threads[t]).hook.value, c, NoHook)
    ensures Enabled(cfg, w, HookReturns(t, c, NoHook))
    ensures var w' := Apply(cfg, w, HookReturns(t, c, NoHook));
            var call := Top(w.threads[t]).call.(outcome := Forward);
            && Related(cfg, w', s) && Atop(w', t, call) && OnlyMoved(w, w', t)
            && w'.threads[t] == w.threads[t].(core := c, flights := Pop(w.threads[t]) + [Flight(call, None)])
            && Pop(w'.threads[t]) == Pop(w.threads[t])
  {
    hide Related, InPath, ReturnsFrom;
    ForwardUnnoticed(cfg, w, s, t, c, NoHook);
  }

  lemma InnerWrites(cfg: Config, w: World, w2: World, t: nat, b: nat)
    requires t in w.threads && Hooking(w.threads[t]) && InnerMayWrite(cfg, w, t, b) && OnlyMoved(w, w2, t)
    requires w2.threads[t].lo == w.threads[t].lo && |w2.threads[t].flights| == |w.threads[t].flights| + 1
    requires forall j :: 0 <= j < |w.threads[t].flights| ==> w2.threads[t].flights[j] == w.threads[t].flights[j]
    ensures KernelMayWrite(cfg, w2, t, w.threads[t].core.x[SP], b)
  {
    hide UserVisible;
    VisibleSame(cfg, w, w2, t, b);
  }

  lemma InnerIsSettled(cfg: Config, w: World, s: AState, t: nat, v: u64)
    requires ValidConfig(cfg) && Related(cfg, w, s) && t in w.threads && |w.threads[t].flights| > 1
    ensures Settled(cfg, w, s, t, v)
  {
    hide Inv, SameMemory, AllOk, AApply;
    assert t in s.threads;
  }

  /** A place where hook code can make an intercepted call. */
  ghost predicate CallSite(cfg: Config, site: u64)
    requires ValidEnv(cfg.env)
  {
    && cfg.prog(site).Syscall? && site % 2 == 0 && !InPath(cfg.env, site)
    && !InPath(cfg.env, (site + 4) % 0x1_0000_0000_0000_0000)
  }

  /** The hook goes to a call site, asking for number 64. */
  function GoingTo(c: Core, site: u64): Core {
    c.(x := c.x[17 := 64], pc := site)
  }

  lemma HookGoes(cfg: Config, w: World, s: AState, t: nat, site: u64)
    requires ValidConfig(cfg) && Related(cfg, w, s) && AllOk(cfg, s) && t in w.threads && Hooking(w.threads[t])
    requires CallSite(cfg, site) && w.threads[t].lo + 304 <= w.threads[t].core.x[2]
    ensures var a := HookRuns(t, GoingTo(w.threads[t].core, site), map[]);
            && Enabled(cfg, w, a) && Related(cfg, Apply(cfg, w, a), s)
            && Apply(cfg, w, a).threads == w.threads[t := w.threads[t].(core := GoingTo(w.threads[t].core, site))]
            && CallsAgain(cfg, Apply(cfg, w, a).threads[t])
  {
    hide InPath, Related, AllOk, FrameBase;
    var core := GoingTo(w.threads[t].core, site);
    HookBounds(cfg, w, s, t);
    HookIsFree(cfg, w, s, t, core, map[]);
    HookRunsMatched(cfg, w, s, t, core, map[]);
    assert Visible(cfg, w, map[]) == map[];
    AtSyscall(cfg, w, s, t);
    NoVisibleWrite(cfg, s, t, map[]);
  }

  lemma HookBounds(cfg: Config, w: World, s: AState, t: nat)
    requires ValidConfig(cfg) && Related(cfg, w, s) && t in w.threads && Hooking(w.threads[t])
    ensures w.threads[t].core.x[3] == cfg.env.gp
    ensures w.threads[t].lo <= w.threads[t].core.x[2] <= FrameBase(Top(w.threads[t]).call)
    ensures !InPath(cfg.env, w.threads[t].core.pc)
  {
    hide InPath;
    RelatedThread(cfg, w, s, t);
  }

  /** A hook just entered has the whole stack below its frame. */
  lemma HookStarts(cfg: Config, w: World, s: AState, t: nat)
    requires ValidConfig(cfg) && Related(cfg, w, s) && t in w.threads && Hooking(w.threads[t])
    requires Top(w.threads[t]).hook == Some(w.threads[t].core)
    ensures w.threads[t].core.x[2] == FrameBase(Top(w.threads[t]).call)
  {
    RelatedThread(cfg, w, s, t);
    OuterFlights(cfg, w.threads[t], w.mem, |w.threads[t].flights| - 1);
    hide InPath;
  }

  /** Hooks nest to any depth for which the stack has room. */
  lemma {:induction false} HooksNest(cfg: Config, w: World, s: AState, t: nat, site: u64, n: nat)
      returns (acts: seq<Action>, w': World)
    requires ValidConfig(cfg) && Related(cfg, w, s) && AllOk(cfg, s) && t in w.threads && Hooking(w.threads[t])
    requires CallSite(cfg, site) && w.threads[t].lo + 304 * n <= w.threads[t].core.x[2]
    ensures Leads(cfg, w, acts, w') && Related(cfg, w', s) && t in w'.threads && Hooking(w'.threads[t])
    ensures |w'.threads[t].flights| == |w.threads[t].flights| + n
    decreases n
  {
    hide Related, AllOk, Leads, Goes, CallSite, CallsAgain, Enabled, Apply, OnlyFrame, InPath;
    if n == 0 {
      acts, w' := [], w;
      NowhereYet(cfg, w);
    } else {
      var a := HookRuns(t, GoingTo(w.threads[t].core, site), map[]);
      HookGoes(cfg, w, s, t, site);
      var w1 := Apply(cfg, w, a);
      AgainEnabled(cfg, w1, s, t);
      var enter, w2 := ToTheHook(cfg, w1, s, t);
      GoesLeads(cfg, w1, enter, w2);
      HookStarts(cfg, w2, s, t);
      var rest;
      rest, w' := HooksNest(cfg, w2, s, t, site, n - 1);
      LeadsThen(cfg, w1, enter, w2, rest, w');
      acts := [a] + (enter + rest);
      LeadsFirst(cfg, w, a, enter + rest, w');
    }
  }

  lemma NowhereYet(cfg: Config, w: World)
    requires ValidEnv(cfg.env)
    ensures Leads(cfg, w, [], w)
  {
  }
}
