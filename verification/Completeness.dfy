/**
The other direction: whatever the original program can do, the patched one can
do too. Every run of the original program from a state where all threads are in
program code is matched by a run of the patched system without a hook.
*/
module Completeness {
  import opened Isa
  import opened Patcher
  import opened HookCode
  import opened HookPath
  import opened Interception
  import opened Program
  import opened Original
  import opened Patched
  import opened Refinement
  import opened Steps
  import opened Clone
  import opened Theorems
  import opened Safety

  // ---- Putting runs together --------------------------------------------

  /** A run of forwarding actions from `w` to `w'`. */
  ghost predicate Goes(cfg: Config, w: World, acts: seq<Action>, w': World)
    requires ValidEnv(cfg.env)
  {
    Runs(cfg, w, acts) && RunIsSilent(cfg, w, acts) && End(cfg, w, acts) == w'
  }

  lemma GoesOne(cfg: Config, w: World, a: Action)
    requires ValidEnv(cfg.env) && Enabled(cfg, w, a) && Silent(cfg, w, a)
    ensures Goes(cfg, w, [a], Apply(cfg, w, a))
  {
    hide Enabled, Apply, Silent;
    var one, w' := [a], Apply(cfg, w, a);
    assert one[0] == a && one[1..] == [];
    assert Runs(cfg, w', one[1..]) && RunIsSilent(cfg, w', one[1..]) && End(cfg, w', one[1..]) == w';
    assert Runs(cfg, w, one);
  }

  lemma {:induction false} GoesThen(cfg: Config, w: World, a: seq<Action>, w1: World, b: seq<Action>, w2: World)
    requires ValidEnv(cfg.env) && Goes(cfg, w, a, w1) && Goes(cfg, w1, b, w2)
    ensures Goes(cfg, w, a + b, w2)
    decreases |a|
  {
    hide Enabled, Apply, Silent;
    if a == [] {
      assert a + b == b;
    } else {
      assert (a + b)[0] == a[0] && (a + b)[1..] == a[1..] + b;
      GoesThen(cfg, Apply(cfg, w, a[0]), a[1..], w1, b, w2);
    }
  }

  /** A run from `w` to `w'`. */
  ghost predicate Leads(cfg: Config, w: World, acts: seq<Action>, w': World)
    requires ValidEnv(cfg.env)
  {
    Runs(cfg, w, acts) && End(cfg, w, acts) == w'
  }

  lemma LeadsFirst(cfg: Config, w: World, a: Action, b: seq<Action>, w': World)
    requires ValidEnv(cfg.env) && Enabled(cfg, w, a) && Leads(cfg, Apply(cfg, w, a), b, w')
    ensures Leads(cfg, w, [a] + b, w')
  {
    hide Enabled, Apply;
    assert ([a] + b)[0] == a && ([a] + b)[1..] == b;
  }

  lemma {:induction false} LeadsThen(cfg: Config, w: World, a: seq<Action>, w1: World, b: seq<Action>, w2: World)
    requires ValidEnv(cfg.env) && Leads(cfg, w, a, w1) && Leads(cfg, w1, b, w2)
    ensures Leads(cfg, w, a + b, w2)
    decreases |a|
  {
    hide Enabled, Apply;
    if a == [] {
      assert a + b == b;
    } else {
      assert (a + b)[0] == a[0] && (a + b)[1..] == a[1..] + b;
      LeadsThen(cfg, Apply(cfg, w, a[0]), a[1..], w1, b, w2);
    }
  }

  lemma GoesLeads(cfg: Config, w: World, acts: seq<Action>, w': World)
    requires ValidEnv(cfg.env) && Goes(cfg, w, acts, w')
    ensures Leads(cfg, w, acts, w')
  {
  }

  /** Only thread `t` has moved. */
  ghost predicate OnlyMoved(w: World, w': World, t: nat) {
    && w'.threads.Keys == w.threads.Keys
    && forall u :: u in w.threads && u != t ==> w'.threads[u] == w.threads[u]
  }

  /** Every action is an instruction of the path executed by `t`. */
  ghost predicate OnlyPath(acts: seq<Action>, t: nat) {
    forall i :: 0 <= i < |acts| ==> acts[i] == Path(t)
  }

  /** Memory has changed at most in the frame of the call. */
  ghost predicate OnlyFrame(call: Call, m: Mem, m': Mem) {
    SameOutside(m, m', FrameBase(call), FrameBase(call) + FRAME_SIZE)
  }

  // ---- Driving a thread along the path -----------------------------------

  /** A thread between entering the path and the next point where something else has to act. */
  ghost predicate InFlight(w: World, t: nat) {
    t in w.threads && w.threads[t].flights != [] && Top(w.threads[t]).hook.None?
  }

  lemma FlightOnPath(cfg: Config, w: World, s: AState, t: nat) returns (loc: Loc)
    requires ValidConfig(cfg) && Related(cfg, w, s) && InFlight(w, t)
    ensures InPath(cfg.env, w.threads[t].core.pc) && OnPath(cfg, w.threads[t], w.mem, loc)
    ensures IsLoc(loc) && PathInstr(cfg.env, w.mem, w.threads[t].core.pc) == InstrAt(cfg.env, loc)
  {
    RelatedThread(cfg, w, s, t);
    var th := w.threads[t];
    assert FlightInv(cfg, th, w.mem, |th.flights| - 1);
    loc := LocOf(cfg.env, th.core.pc);
    hide AtLoc;
    Fetched(cfg.env, w.mem, loc);
  }

  lemma PlainPath(cfg: Config, w: World, s: AState, t: nat, loc: Loc)
    requires ValidConfig(cfg) && Related(cfg, w, s) && AllOk(cfg, s) && InFlight(w, t)
    requires InPath(cfg.env, w.threads[t].core.pc) && OnPath(cfg, w.threads[t], w.mem, loc) && IsPlainLoc(loc)
    requires PathInstr(cfg.env, w.mem, w.threads[t].core.pc) == InstrAt(cfg.env, loc)
    ensures Enabled(cfg, w, Path(t)) && Silent(cfg, w, Path(t))
    ensures var w' := Apply(cfg, w, Path(t));
            && Related(cfg, w', s) && OnlyMoved(w, w', t) && InFlight(w', t)
            && w'.threads[t] == w.threads[t].(core := w'.threads[t].core)
            && OnlyFrame(Top(w.threads[t]).call, w.mem, w'.mem)
            && OnPath(cfg, w'.threads[t], w'.mem, Next(Top(w.threads[t]).call, loc))
  {
    hide AtLoc, PathInstr, InPath, AllOk, SameMemory, SameThreads, StacksApart, PageHolds, LoadDouble, ThreadInv,
      Exec, InstrAt, Next, PcOf;
    PlainInstr(cfg.env, loc);
    PathIsUnnoticed(cfg, w, s, t);
    var e, next := PathEffect(cfg, w.threads[t], w.mem, loc);
    var w' := Apply(cfg, w, Path(t));
    assert w'.threads[t] == w.threads[t].(core := e.core) && w'.mem == e.mem;
  }

  /** A thread on the path runs on until the hook, the kernel or the last jump is due. */
  lemma {:induction false} Drive(cfg: Config, w: World, s: AState, t: nat, loc: Loc)
      returns (acts: seq<Action>, w': World, loc': Loc)
    requires ValidConfig(cfg) && Related(cfg, w, s) && AllOk(cfg, s) && InFlight(w, t)
    requires InPath(cfg.env, w.threads[t].core.pc) && OnPath(cfg, w.threads[t], w.mem, loc) && IsLoc(loc)
    requires PathInstr(cfg.env, w.mem, w.threads[t].core.pc) == InstrAt(cfg.env, loc)
    ensures Goes(cfg, w, acts, w') && Related(cfg, w', s) && OnlyMoved(w, w', t)
    ensures t in w'.threads && w'.threads[t] == w.threads[t].(core := w'.threads[t].core)
    ensures OnPath(cfg, w'.threads[t], w'.mem, loc') && IsLoc(loc') && !IsPlainLoc(loc')
    ensures OnlyPath(acts, t) && OnlyFrame(Top(w.threads[t]).call, w.mem, w'.mem)
    decreases if loc == Ret(13) then 0 else Rank(loc)
  {
    hide Related, AllOk, PathInstr, InPath, AtLoc, Apply, Goes, IsPlainLoc, Enabled, Silent, InstrAt;
    if IsPlainLoc(loc) {
      PlainPath(cfg, w, s, t, loc);
      var w1 := Apply(cfg, w, Path(t));
      GoesOne(cfg, w, Path(t));
      var next := FlightOnPath(cfg, w1, s, t);
      SameLoc(cfg, w1, t, next, Next(Top(w.threads[t]).call, loc));
      NotLast(loc);
      NextIsLower(cfg.env, Top(w.threads[t]).call, w.threads[t].core, w.mem, loc);
      var rest;
      rest, w', loc' := Drive(cfg, w1, s, t, next);
      acts := [Path(t)] + rest;
      GoesThen(cfg, w, [Path(t)], w1, rest, w');
    } else {
      acts, w', loc' := [], w, loc;
      NoActions(cfg, w);
    }
  }

  lemma NotLast(loc: Loc)
    requires IsPlainLoc(loc)
    ensures loc != Ret(13)
  {
  }

  lemma NoActions(cfg: Config, w: World)
    requires ValidEnv(cfg.env)
    ensures Goes(cfg, w, [], w)
  {
  }

  lemma SameLoc(cfg: Config, w: World, t: nat, loc: Loc, loc': Loc)
    requires ValidConfig(cfg) && t in w.threads
    requires OnPath(cfg, w.threads[t], w.mem, loc) && OnPath(cfg, w.threads[t], w.mem, loc')
    ensures loc == loc'
  {
    var th := w.threads[t];
    hide AtLoc;
    AtLocPc(cfg.env, Top(th).call, th.core, w.mem, loc);
    AtLocPc(cfg.env, Top(th).call, th.core, w.mem, loc');
    if loc != loc' { OtherPc(cfg.env, loc, loc'); }
  }

  /** Which of the stopping points it is follows from the state of the call. */
  lemma WhereStopped(env: Env, call: Call, c: Core, m: Mem, loc: Loc)
    requires ValidEnv(env) && ValidCall(call) && AtLoc(env, call, c, m, loc) && !IsPlainLoc(loc)
    requires Number(call) != NR_RT_SIGRETURN
    ensures match call.outcome
            case Pending => loc == Hook(38)
            case Forward => loc == if IsClone(Number(call)) then Ret(12) else Ret(4)
            case _ => loc == Ret(13)
  {
    hide Registers, Slots, Scratch;
  }

  // ---- What the program keeps ---------------------------------------------

  /** The conventions depend on where the threads are and on what is hidden from them. */
  lemma OkSame(cfg: Config, s: AState, s': AState)
    requires ValidEnv(cfg.env) && AllOk(cfg, s) && s'.threads == s.threads && s'.dead <= s.dead
    ensures AllOk(cfg, s')
  {
    hide InPath, Below, OkBytes;
    forall t | t in s'.threads
      ensures Ok(cfg, s', t)
    {
      assert Ok(cfg, s, t);
      var op := cfg.prog(s.threads[t].core.pc);
      if op.Access? && IsMem(op.instr) { OkBytesSame(cfg, s, s', t, op.instr); }
    }
  }

  lemma OkBytesSame(cfg: Config, s: AState, s': AState, t: nat, i: Instr)
    requires t in s.threads && IsMem(i) && OkBytes(cfg, s, t, i) && s'.threads == s.threads && s'.dead <= s.dead
    ensures OkBytes(cfg, s', t, i)
  {
    hide Ea, Below, InRange;
    var ea := Ea(i, s.threads[t].core);
    forall a: nat | ea <= a < ea + i.width
      ensures OkByte(cfg, s', t, IsStore(i), a)
    {
      assert OkByte(cfg, s, t, IsStore(i), a);
    }
  }

  lemma EnabledHere(cfg: Config, s: AState, a: AAction)
    requires AEnabled(cfg, s, a)
    ensures a.t in s.threads
  {
  }

  // ---- One system call ---------------------------------------------------

  /** The innermost call of thread `t`, at any depth, is on the path in the given state. */
  ghost predicate Atop(w: World, t: nat, call: Call) {
    t in w.threads && w.threads[t].flights != [] && Top(w.threads[t]) == Flight(call, None)
  }

  /** It is the only one. */
  ghost predicate Carrying(w: World, t: nat, call: Call) {
    t in w.threads && w.threads[t].flights == [Flight(call, None)]
  }

  lemma DriveCall(cfg: Config, w: World, s: AState, t: nat, call: Call)
      returns (acts: seq<Action>, w': World, loc: Loc)
    requires ValidConfig(cfg) && Related(cfg, w, s) && AllOk(cfg, s) && Atop(w, t, call)
    ensures Goes(cfg, w, acts, w') && Related(cfg, w', s) && OnlyMoved(w, w', t) && Atop(w', t, call)
    ensures w'.threads[t] == w.threads[t].(core := w'.threads[t].core)
    ensures OnlyPath(acts, t) && OnlyFrame(call, w.mem, w'.mem)
    ensures InPath(cfg.env, w'.threads[t].core.pc) && OnPath(cfg, w'.threads[t], w'.mem, loc)
    ensures IsLoc(loc) && PathInstr(cfg.env, w'.mem, w'.threads[t].core.pc) == InstrAt(cfg.env, loc)
    ensures match call.outcome
            case Pending => loc == Hook(38)
            case Forward => loc == if IsClone(Number(call)) then Ret(12) else Ret(4)
            case _ => loc == Ret(13)
  {
    hide Related, AllOk, PathInstr, InPath, AtLoc, Goes, IsPlainLoc, InstrAt;
    var start := FlightOnPath(cfg, w, s, t);
    acts, w', loc := Drive(cfg, w, s, t, start);
    var loc' := FlightOnPath(cfg, w', s, t);
    SameLoc(cfg, w', t, loc, loc');
    CallNumber(cfg, w', s, t);
    WhereStopped(cfg.env, call, w'.threads[t].core, w'.mem, loc);
  }

  lemma CallNumber(cfg: Config, w: World, s: AState, t: nat)
    requires ValidConfig(cfg) && Related(cfg, w, s) && InFlight(w, t)
    ensures Number(Top(w.threads[t]).call) != NR_RT_SIGRETURN
  {
    RelatedThread(cfg, w, s, t);
    assert NestedAt(cfg, w.threads[t], |w.threads[t].flights| - 1);
  }

  /** From the patched instruction to the call of `syscall_hook`. */
  lemma ToTheHook(cfg: Config, w: World, s: AState, t: nat) returns (acts: seq<Action>, w': World)
    requires ValidConfig(cfg) && Related(cfg, w, s) && AllOk(cfg, s) && t in w.threads && Enabled(cfg, w, Enter(t))
    ensures Goes(cfg, w, acts, w') && Related(cfg, w', s) && OnlyMoved(w, w', t) && t in w'.threads
    ensures Hooking(w'.threads[t]) && !InPath(cfg.env, w'.threads[t].core.pc)
    ensures w'.threads[t] == w.threads[t].(core := w'.threads[t].core, flights := w'.threads[t].flights)
    ensures w'.threads[t].flights
            == w.threads[t].flights + [Flight(Call(w.threads[t].core, Pending, 1, 0), Some(w'.threads[t].core))]
    ensures OnlyFrame(Call(w.threads[t].core, Pending, 1, 0), w.mem, w'.mem)
  {
    hide Related, AllOk, PathInstr, InPath, AtLoc, Goes, InstrAt, PathThread, HookMayCall;
    EnterIsUnnoticed(cfg, w, s, t);
    GoesOne(cfg, w, Enter(t));
    var w1 := Apply(cfg, w, Enter(t));
    var call := Call(w.threads[t].core, Pending, 0, 0);
    var a2, w2, loc := DriveCall(cfg, w1, s, t, call);
    GoesThen(cfg, w, [Enter(t)], w1, a2, w2);
    HookCallPath(cfg, w2, s, t, call);
    PathIsUnnoticed(cfg, w2, s, t);
    w' := Apply(cfg, w2, Path(t));
    GoesOne(cfg, w2, Path(t));
    acts := [Enter(t)] + a2 + [Path(t)];
    GoesThen(cfg, w, [Enter(t)] + a2, w2, [Path(t)], w');
    HookingOutsidePath(cfg, w', s, t);
  }

  lemma UserOutsidePath(cfg: Config, w: World, s: AState, t: nat)
    requires ValidConfig(cfg) && Related(cfg, w, s) && AllOk(cfg, s) && t in w.threads && w.threads[t].flights == []
    ensures !InPath(cfg.env, w.threads[t].core.pc)
  {
    hide InPath;
    UserCore(cfg, w, s, t);
    assert Ok(cfg, s, t);
  }

  lemma HookingOutsidePath(cfg: Config, w: World, s: AState, t: nat)
    requires ValidConfig(cfg) && Related(cfg, w, s) && t in w.threads && Hooking(w.threads[t])
    ensures !InPath(cfg.env, w.threads[t].core.pc)
  {
    hide InPath;
    RelatedThread(cfg, w, s, t);
  }

  lemma HookCallPath(cfg: Config, w: World, s: AState, t: nat, call: Call)
    requires ValidConfig(cfg) && Related(cfg, w, s) && Atop(w, t, call)
    requires InPath(cfg.env, w.threads[t].core.pc) && OnPath(cfg, w.threads[t], w.mem, Hook(38))
    requires PathInstr(cfg.env, w.mem, w.threads[t].core.pc) == InstrAt(cfg.env, Hook(38))
    ensures Enabled(cfg, w, Path(t)) && Silent(cfg, w, Path(t))
    ensures var w' := Apply(cfg, w, Path(t));
            && OnlyMoved(w, w', t) && Hooking(w'.threads[t]) && w'.mem == w.mem
            && w'.threads[t] == w.threads[t].(core := w'.threads[t].core, flights := w'.threads[t].flights)
            && w'.threads[t].flights
               == Pop(w.threads[t]) + [Flight(call.(hooks := call.hooks + 1), Some(w'.threads[t].core))]
  {
    hide AtLoc, PathInstr, InPath, Related, PcOf, ExecReg;
    var th := w.threads[t];
    AtLocPc(cfg.env, Top(th).call, th.core, w.mem, Hook(38));
    OtherPc(cfg.env, Hook(38), Ret(13));
  }

  /** Without a hook function `syscall_hook` returns at once. */
  function PlainReturn(start: Core): Core {
    start.(x := start.x[A1 := 0], pc := start.x[RA] - start.x[RA] % 2)
  }

  /** From the call of `syscall_hook` to the ecall of the path the call takes. */
  lemma ToTheKernel(cfg: Config, w: World, s: AState, t: nat)
      returns (acts: seq<Action>, w': World, call: Call, loc: Loc)
    requires ValidConfig(cfg) && Related(cfg, w, s) && AllOk(cfg, s)
    requires t in w.threads && |w.threads[t].flights| == 1 && Hooking(w.threads[t])
    requires !InPath(cfg.env, w.threads[t].core.pc)
    ensures Goes(cfg, w, acts, w') && Related(cfg, w', s) && OnlyMoved(w, w', t) && Carrying(w', t, call)
    ensures call == Top(w.threads[t]).call.(outcome := Forward)
    ensures InPath(cfg.env, w'.threads[t].core.pc) && OnPath(cfg, w'.threads[t], w'.mem, loc)
    ensures (loc == Ret(4) || loc == Ret(12)) && PathInstr(cfg.env, w'.mem, w'.threads[t].core.pc).Ecall?
  {
    hide Related, AllOk, PathInstr, InPath, AtLoc, Goes;
    var start := Top(w.threads[t]).hook.value;
    var a := HookReturns(t, PlainReturn(start), NoHook);
    assert ReturnsFrom(start, PlainReturn(start), NoHook);
    ForwardUnnoticed(cfg, w, s, t, PlainReturn(start), NoHook);
    GoesOne(cfg, w, a);
    var w1 := Apply(cfg, w, a);
    call := Top(w.threads[t]).call.(outcome := Forward);
    assert Carrying(w1, t, call);
    var a2;
    a2, w', loc := DriveCall(cfg, w1, s, t, call);
    assert Carrying(w', t, call);
    acts := [a] + a2;
    GoesThen(cfg, w, [a], w1, a2, w');
  }

  /** The kernel can answer the forwarded request just as it answers the original. */
  lemma KernelCanAnswer(cfg: Config, w: World, s: AState, a: AAction, call: Call, loc: Loc)
    requires ValidConfig(cfg) && Related(cfg, w, s) && a.AKernel? && AEnabled(cfg, s, a) && Carrying(w, a.t, call)
    requires InPath(cfg.env, w.threads[a.t].core.pc) && OnPath(cfg, w.threads[a.t], w.mem, loc)
    requires (loc == Ret(4) || loc == Ret(12)) && PathInstr(cfg.env, w.mem, w.threads[a.t].core.pc).Ecall?
    ensures Enabled(cfg, w, Kernel(a.t, a.reply, a.writes, a.child))
  {
    hide PathInstr, InPath, AtLoc, Related, UserVisible, FreshThread;
    CallerAtKernel(cfg, w, s, a.t, loc);
    WritesAgree(cfg, w, s, a);
  }

  /** A thread other than those named is back in program code. */
  ghost predicate QuietBut(w: World, busy: set<nat>) {
    forall t :: t in w.threads && t !in busy ==> w.threads[t].flights == []
  }

  ghost predicate Quiet(w: World) { QuietBut(w, {}) }

  /** The answered call, and the child if there is one, are all that is left in flight. */
  ghost predicate LeftInFlight(w: World, a: AAction, call: Call)
    requires a.AKernel?
  {
    && Carrying(w, a.t, Answered(call, a.reply))
    && match a.child
       case None => QuietBut(w, {a.t})
       case Some(c) =>
         && QuietBut(w, {a.t, c.id}) && c.id != a.t && c.id in w.threads && |w.threads[c.id].flights| == 1
         && Carrying(w, c.id, w.threads[c.id].flights[0].call)
         && w.threads[c.id].flights[0].call.outcome.Replied?
  }

  lemma AnswerInFlight(cfg: Config, w: World, s: AState, a: AAction, call: Call)
    requires ValidConfig(cfg) && Related(cfg, w, s) && AllOk(cfg, s) && a.AKernel? && Carrying(w, a.t, call)
    requires Enabled(cfg, w, Kernel(a.t, a.reply, a.writes, a.child)) && QuietBut(w, {a.t})
    ensures AEnabled(cfg, s, a)
    ensures var w' := Apply(cfg, w, Kernel(a.t, a.reply, a.writes, a.child));
            Related(cfg, w', AApply(cfg, s, a)) && LeftInFlight(w', a, call)
  {
    hide Related, AllOk, Enabled, AEnabled, Apply, AApply, KernelWorld, LeftInFlight;
    KernelThreads(w, a, call);
    FreshId(cfg, w, a);
    if a.child.None? {
      KernelMatched(cfg, w, s, a.t, a.reply, a.writes);
    } else {
      CloneMatched(cfg, w, s, a.t, a.reply, a.writes, a.child.value);
    }
  }

  lemma FreshId(cfg: Config, w: World, a: AAction)
    requires ValidEnv(cfg.env) && a.AKernel? && Enabled(cfg, w, Kernel(a.t, a.reply, a.writes, a.child))
    ensures a.child.Some? ==> a.child.value.id !in w.threads
    ensures Apply(cfg, w, Kernel(a.t, a.reply, a.writes, a.child)) == KernelWorld(w, a.t, a.reply, a.writes, a.child)
  {
    hide PathInstr, InPath, UserVisible, KernelWorld;
  }

  lemma KernelThreads(w: World, a: AAction, call: Call)
    requires a.AKernel? && Carrying(w, a.t, call) && QuietBut(w, {a.t})
    ensures (a.child.Some? ==> a.child.value.id !in w.threads) ==>
              LeftInFlight(KernelWorld(w, a.t, a.reply, a.writes, a.child), a, call)
  {
    hide AfterEcall;
  }

  /** An answered call runs on to the last jump and takes it. */
  lemma Finish(cfg: Config, w: World, s: AState, t: nat, call: Call) returns (acts: seq<Action>, w': World)
    requires ValidConfig(cfg) && Related(cfg, w, s) && AllOk(cfg, s) && Atop(w, t, call)
    requires call.outcome.Replied? || call.outcome.Handled?
    ensures Goes(cfg, w, acts, w') && Related(cfg, w', s) && OnlyMoved(w, w', t)
    ensures w'.threads[t] == w.threads[t].(core := Resumed(call), flights := Pop(w.threads[t]))
    ensures |w.threads[t].flights| == 1 ==> w'.threads[t].flights == []
    ensures OnlyPath(acts, t) && OnlyFrame(call, w.mem, w'.mem)
  {
    hide Related, AllOk, PathInstr, InPath, AtLoc, Goes, Resumed;
    var a1, w1, loc := DriveCall(cfg, w, s, t, call);
    LastJump(cfg, w1, s, t, call);
    PathIsUnnoticed(cfg, w1, s, t);
    GoesOne(cfg, w1, Path(t));
    w' := Apply(cfg, w1, Path(t));
    acts := a1 + [Path(t)];
    GoesThen(cfg, w, a1, w1, [Path(t)], w');
  }

  lemma LastJump(cfg: Config, w: World, s: AState, t: nat, call: Call)
    requires ValidConfig(cfg) && Related(cfg, w, s) && Atop(w, t, call)
    requires InPath(cfg.env, w.threads[t].core.pc) && OnPath(cfg, w.threads[t], w.mem, Ret(13))
    requires PathInstr(cfg.env, w.mem, w.threads[t].core.pc) == InstrAt(cfg.env, Ret(13))
    ensures Enabled(cfg, w, Path(t)) && Silent(cfg, w, Path(t))
    ensures var w' := Apply(cfg, w, Path(t));
            && w'.threads == w.threads[t := w.threads[t].(core := Resumed(call), flights := Pop(w.threads[t]))]
            && w'.mem == w.mem
  {
    hide AtLoc, PathInstr, InPath, Related, Resumed, ExecReg, ThreadInv;
    RelatedThread(cfg, w, s, t);
    ReturnInv(cfg, w.threads[t], w.mem, PathThread(cfg, w.threads[t], ExecReg(Jalr(GP, GP, 0), w.threads[t].core)));
    AtLocPc(cfg.env, call, w.threads[t].core, w.mem, Ret(13));
  }

  /** From the kernel's answer until every thread is back in program code. */
  lemma AfterTheKernel(cfg: Config, w: World, s: AState, a: AAction, call: Call) returns (acts: seq<Action>, w': World)
    requires ValidConfig(cfg) && Related(cfg, w, s) && AllOk(cfg, s) && a.AKernel? && Carrying(w, a.t, call)
    requires Enabled(cfg, w, Kernel(a.t, a.reply, a.writes, a.child)) && QuietBut(w, {a.t})
    requires AEnabled(cfg, s, a) && AllOk(cfg, AApply(cfg, s, a))
    ensures Goes(cfg, w, acts, w') && Related(cfg, w', AApply(cfg, s, a)) && Quiet(w')
  {
    hide Related, AllOk, Goes, AApply, Enabled, Apply, Answered, Writable, FreshChild;
    var k := Kernel(a.t, a.reply, a.writes, a.child);
    AnswerInFlight(cfg, w, s, a, call);
    KernelIsSilent(cfg, w, k, call);
    GoesOne(cfg, w, k);
    var w1, s' := Apply(cfg, w, k), AApply(cfg, s, a);
    assert Answered(call, a.reply).outcome.Replied? by { AnsweredReplied(call, a.reply); }
    var a2, w2 := Finish(cfg, w1, s', a.t, Answered(call, a.reply));
    GoesThen(cfg, w, [k], w1, a2, w2);
    acts, w' := [k] + a2, w2;
    if a.child.Some? {
      var id := a.child.value.id;
      var a3, w3 := Finish(cfg, w2, s', id, w2.threads[id].flights[0].call);
      GoesThen(cfg, w, acts, w2, a3, w3);
      acts, w' := acts + a3, w3;
    }
  }

  lemma AnsweredReplied(call: Call, reply: u64)
    ensures Answered(call, reply).outcome.Replied?
  {
  }

  lemma KernelIsSilent(cfg: Config, w: World, k: Action, call: Call)
    requires k.Kernel? && Carrying(w, k.t, call)
    ensures Silent(cfg, w, k)
  {
  }

  /** One system call of the original program, in the patched one. */
  lemma SyscallFollowed(cfg: Config, w: World, s: AState, a: AAction) returns (acts: seq<Action>, w': World)
    requires ValidConfig(cfg) && Related(cfg, w, s) && AllOk(cfg, s) && Quiet(w)
    requires (a.AKernel? || a.AExit?) && AEnabled(cfg, s, a) && AllOk(cfg, AApply(cfg, s, a))
    requires cfg.prog(s.threads[a.t].core.pc).Syscall?
    ensures Goes(cfg, w, acts, w') && Related(cfg, w', AApply(cfg, s, a)) && Quiet(w')
  {
    hide Related, AllOk, Goes, AApply, Enabled, Apply, InPath, PathInstr, OnPath, Writable;
    SameProgramPoint(cfg, w, s, a.t);
    CanEnter(cfg, w, s, a.t);
    var a1, w1 := ToTheHook(cfg, w, s, a.t);
    var a2, w2, call, loc := ToTheKernel(cfg, w1, s, a.t);
    GoesThen(cfg, w, a1, w1, a2, w2);
    var a3;
    if a.AKernel? {
      KernelCanAnswer(cfg, w2, s, a, call, loc);
      a3, w' := AfterTheKernel(cfg, w2, s, a, call);
    } else {
      KernelCanEnd(cfg, w2, s, a.t, call);
      GoesOne(cfg, w2, Exit(a.t));
      a3, w' := [Exit(a.t)], Apply(cfg, w2, Exit(a.t));
    }
    acts := a1 + a2 + a3;
    GoesThen(cfg, w, a1 + a2, w2, a3, w');
  }

  lemma CanEnter(cfg: Config, w: World, s: AState, t: nat)
    requires ValidConfig(cfg) && Related(cfg, w, s) && AllOk(cfg, s) && t in w.threads && w.threads[t].flights == []
    requires cfg.prog(w.threads[t].core.pc).Syscall?
    ensures Enabled(cfg, w, Enter(t))
  {
    hide Related, AllOk, InPath;
    UserOutsidePath(cfg, w, s, t);
  }

  lemma KernelCanEnd(cfg: Config, w: World, s: AState, t: nat, call: Call)
    requires ValidConfig(cfg) && Related(cfg, w, s) && AllOk(cfg, s) && Carrying(w, t, call) && QuietBut(w, {t})
    requires InPath(cfg.env, w.threads[t].core.pc) && PathInstr(cfg.env, w.mem, w.threads[t].core.pc).Ecall?
    ensures Enabled(cfg, w, Exit(t)) && Silent(cfg, w, Exit(t)) && AEnabled(cfg, s, AExit(t))
    ensures Related(cfg, Apply(cfg, w, Exit(t)), AApply(cfg, s, AExit(t))) && Quiet(Apply(cfg, w, Exit(t)))
  {
    hide Related, AllOk, InPath, PathInstr, AApply, AEnabled;
    ExitMatched(cfg, w, s, t);
  }

  /** A system call at an ecall that has not been rewritten. */
  lemma DirectFollowed(cfg: Config, w: World, s: AState, a: AAction) returns (b: Action)
    requires ValidConfig(cfg) && Related(cfg, w, s) && AllOk(cfg, s) && Quiet(w)
    requires (a.AKernel? || a.AExit?) && AEnabled(cfg, s, a) && cfg.prog(s.threads[a.t].core.pc).Direct?
    ensures Enabled(cfg, w, b) && Silent(cfg, w, b)
    ensures Related(cfg, Apply(cfg, w, b), AApply(cfg, s, a)) && Quiet(Apply(cfg, w, b))
  {
    hide Related, AllOk, InPath, AApply, PathInstr, AfterSyscall, ChildThread, UserVisible, FreshThread;
    SameProgramPoint(cfg, w, s, a.t);
    UserOutsidePath(cfg, w, s, a.t);
    if a.AExit? {
      b := Exit(a.t);
      ExitMatched(cfg, w, s, a.t);
    } else {
      b := Unseen(a.t, a.reply, a.writes, a.child);
      WritesAgree(cfg, w, s, a);
      match a.child {
        case None => UnseenMatched(cfg, w, s, a.t, a.reply, a.writes);
        case Some(c) => UnseenCloneMatched(cfg, w, s, a.t, a.reply, a.writes, c);
      }
    }
  }

  /** What the kernel may write and create is the same on both sides. */
  lemma WritesAgree(cfg: Config, w: World, s: AState, a: AAction)
    requires ValidConfig(cfg) && Related(cfg, w, s) && a.AKernel? && AEnabled(cfg, s, a)
    ensures forall b :: b in a.writes ==> UserVisible(cfg, w, b)
    ensures a.child.Some? ==> FreshThread(cfg, w, a.child.value)
    ensures w.threads != map[] && a.t in w.threads
    ensures w.threads[a.t].flights == [] ==> w.threads[a.t].core.x[A7] == s.threads[a.t].core.x[A7]
  {
    hide Inv, SameMemory, Below, BelowCaller;
    assert a.t in w.threads;
    forall b | b in a.writes
      ensures UserVisible(cfg, w, b)
    {
      BelowAgrees(cfg, w, s, b);
    }
    if a.child.Some? {
      forall t | t in w.threads
        ensures Disjoint(a.child.value.lo, a.child.value.hi, w.threads[t].lo, w.threads[t].hi)
      {
        assert t in s.threads;
      }
    }
  }

  lemma SameProgramPoint(cfg: Config, w: World, s: AState, t: nat)
    requires ValidConfig(cfg) && Related(cfg, w, s) && Quiet(w) && t in s.threads
    ensures t in w.threads && w.threads[t].core.pc == s.threads[t].core.pc
  {
    assert t in w.threads;
    UserCore(cfg, w, s, t);
  }

  /** One step of the original program's own code, in the patched one. */
  lemma UserFollowed(cfg: Config, w: World, s: AState, t: nat)
    requires ValidConfig(cfg) && Related(cfg, w, s) && AllOk(cfg, s) && Quiet(w) && AEnabled(cfg, s, AUser(t))
    ensures Enabled(cfg, w, User(t)) && Silent(cfg, w, User(t))
    ensures var w' := Apply(cfg, w, User(t));
            Related(cfg, w', AApply(cfg, s, AUser(t))) && Quiet(w')
  {
    hide Related, AllOk, InPath, AApply, PatchedAccess, ComputeOn;
    SameProgramPoint(cfg, w, s, t);
    UserOutsidePath(cfg, w, s, t);
    UserMatched(cfg, w, s, t);
  }

  /** One action of the original program, in the patched one. */
  lemma ActionFollowed(cfg: Config, w: World, s: AState, a: AAction) returns (acts: seq<Action>, w': World)
    requires ValidConfig(cfg) && Related(cfg, w, s) && AllOk(cfg, s) && Quiet(w)
    requires IsOriginal(a) && AEnabled(cfg, s, a) && AllOk(cfg, AApply(cfg, s, a))
    ensures Goes(cfg, w, acts, w') && Related(cfg, w', AApply(cfg, s, a)) && Quiet(w')
  {
    hide Related, AllOk, AApply, Enabled, Apply, Goes, Writable, FreshChild;
    if a.AUser? {
      UserFollowed(cfg, w, s, a.t);
      GoesOne(cfg, w, User(a.t));
      acts, w' := [User(a.t)], Apply(cfg, w, User(a.t));
    } else if cfg.prog(s.threads[a.t].core.pc).Direct? {
      var b := DirectFollowed(cfg, w, s, a);
      GoesOne(cfg, w, b);
      acts, w' := [b], Apply(cfg, w, b);
    } else {
      acts, w' := SyscallFollowed(cfg, w, s, a);
    }
  }

  /**
  Nothing the original program can do is lost: each of its runs that keeps the
  conventions, whatever the kernel answers, is followed by a run of the patched
  system in which hooks only forward, ending with every thread back in program
  code and in the same state.
  */
  lemma {:induction false} OriginalIsFollowed(cfg: Config, w: World, s: AState, acts: seq<AAction>)
      returns (run: seq<Action>, w': World)
    requires ValidConfig(cfg) && Related(cfg, w, s) && Quiet(w)
    requires ARuns(cfg, s, acts) && AllOriginal(acts) && OkAlong(cfg, s, acts)
    ensures Goes(cfg, w, run, w') && Related(cfg, w', AEnd(cfg, s, acts)) && Quiet(w')
    decreases |acts|
  {
    hide Related, AApply, AllOk, Goes, Writable, FreshChild;
    if acts == [] {
      run, w' := [], w;
      NoActions(cfg, w);
    } else {
      var s1 := AApply(cfg, s, acts[0]);
      assert OkAlong(cfg, s1, acts[1..]);
      var first, w1 := ActionFollowed(cfg, w, s, acts[0]);
      var rest;
      rest, w' := OriginalIsFollowed(cfg, w1, s1, acts[1..]);
      run := first + rest;
      GoesThen(cfg, w, first, w1, rest, w');
    }
  }
}
