/**
Clone and clone3: the return path that restores the whole context before the
system call, and the thread that is born there.
*/
module Clone {
  import opened Isa
  import opened Patcher
  import opened HookCode
  import opened HookPath
  import opened Interception
  import opened Program
  import opened Original
  import opened Patched
  import opened Refinement
  import opened Steps

  /** From the ecall of the clone path on, memory plays no part any more. */
  lemma CloneReadsNoFrame(env: Env, call: Call, c: Core, m: Mem, m': Mem, k: nat)
    requires ValidEnv(env) && ValidCall(call) && (k == 12 || k == 13)
    requires AtLoc(env, call, c, m, Ret(k))
    ensures AtLoc(env, call, c, m', Ret(k))
  {
    hide Registers, Dispatch, LoadLE;
  }

  /** The child's processor and call: its parent's, but for a0, sp and tp. */
  lemma ChildAtReturn(env: Env, call: Call, c: Core, m: Mem, sp: u64, tp: u64)
    requires ValidEnv(env) && ValidCall(call) && AtLoc(env, call, c, m, Ret(13)) && sp >= FRAME_SIZE
    ensures var call' := call.(entry := call.entry.(x := call.entry.x[SP := sp][TP := tp]));
            ValidCall(call') && AtLoc(env, call', c.(x := c.x[SP := sp][TP := tp]), m, Ret(13))
  {
    hide LoadLE, Wrap;
    var call' := call.(entry := call.entry.(x := call.entry.x[SP := sp][TP := tp]));
    assert Dispatch(call', Ret(13)) && ReturnAddress(call') == ReturnAddress(call);
    assert Registers(call', c.(x := c.x[SP := sp][TP := tp]), Ret(13)) && Slots(call', m, Ret(13));
  }

  /**
  Whatever parent and child write to memory before they go on, both resume just
  after the same patched instruction, with every register of the caller but a0
  and, for the child, sp and tp.
  */
  lemma CloneBothResume(env: Env, call: Call, c: Core, m: Mem, reply: u64, sp: u64, tp: u64, m1: Mem, m2: Mem)
    requires ValidEnv(env) && ValidCall(call) && call.entry.x[GP] == env.gp && sp >= FRAME_SIZE
    requires AtLoc(env, call, c, m, Ret(12))
    ensures var parent := AfterEcall(c, reply);
            var child := AfterEcall(c, 0).(x := AfterEcall(c, 0).x[SP := sp][TP := tp]);
            && parent.pc == child.pc == PcOf(env, Ret(13))
            && Exec(ReturnInstr(13), parent, m1)
               == Effect(call.entry.(x := call.entry.x[A0 := reply], pc := ReturnAddress(call)), m1)
            && Exec(ReturnInstr(13), child, m2)
               == Effect(call.entry.(x := call.entry.x[A0 := 0][SP := sp][TP := tp], pc := ReturnAddress(call)), m2)
  {
    hide AtLoc, ExecReg;
    KernelAnswers(env, call, c, m, Ret(12), reply);
    KernelAnswers(env, call, c, m, Ret(12), 0);
    AtLocPc(env, Answered(call, reply), AfterEcall(c, reply), m, Ret(13));
    Returns(env, Answered(call, reply), AfterEcall(c, reply), m);
    ChildAtReturn(env, Answered(call, 0), AfterEcall(c, 0), m, sp, tp);
    var born := Answered(call, 0).(entry := call.entry.(x := call.entry.x[SP := sp][TP := tp]));
    Returns(env, born, AfterEcall(c, 0).(x := AfterEcall(c, 0).x[SP := sp][TP := tp]), m);
    assert Resumed(born).x == call.entry.x[A0 := 0][SP := sp][TP := tp];
  }

  // ---- A new thread in the world ----------------------------------------

  lemma ChildInv(cfg: Config, w: World, t: nat, child: Child, m: Mem)
    requires ValidConfig(cfg) && t in w.threads && ThreadInv(cfg, w.threads[t], w.mem) && |w.threads[t].flights| == 1
    requires OnPath(cfg, w.threads[t], w.mem, Ret(12)) && FreshThread(cfg, w, child)
    ensures var th := ChildOf(Top(w.threads[t]).call, w.threads[t].core, child);
            && ThreadInv(cfg, th, m)
            && AbsThread(cfg, th)
               == ChildThread(WithGp(w.threads[t].flights[0].call.entry, cfg.env.gp0), child)
  {
    var call, c := Top(w.threads[t]).call, w.threads[t].core;
    var th := ChildOf(call, c, child);
    var born := th.flights[0].call;
    assert NestedAt(cfg, w.threads[t], 0);
    hide AtLoc, InPath, PcOf;
    NotDoneYet(cfg.env, call, c, w.mem, Ret(12));
    KernelAnswers(cfg.env, call, c, w.mem, Ret(12), 0);
    ChildAtReturn(cfg.env, Answered(call, 0), AfterEcall(c, 0), w.mem, child.sp, child.tp);
    CloneReadsNoFrame(cfg.env, born, th.core, w.mem, m, 13);
    AtLocPc(cfg.env, born, th.core, m, Ret(13));
    LocUnique(cfg.env, Ret(13));
    assert FlightInv(cfg, th, m, 0);
    assert NestedAt(cfg, th, 0);
    hide FlightInv, NestedAt;
    var entry := WithGp(call.entry, cfg.env.gp0);
    assert WithGp(Resumed(born), cfg.env.gp0).x == AfterSyscall(entry, 0).x[SP := child.sp][TP := child.tp];
  }

  lemma Spawned(cfg: Config, w: World, s: AState, id: nat, th: Thread, w': World, s': AState)
    requires ValidConfig(cfg) && Related(cfg, w, s) && id !in w.threads
    requires ThreadInv(cfg, th, w.mem)
    requires forall t :: t in w.threads ==> Disjoint(th.lo, th.hi, w.threads[t].lo, w.threads[t].hi)
    requires forall a :: Guarded(cfg, a) ==> !InRange(a, th.lo, th.hi)
    requires w'.threads == w.threads[id := th] && w'.mem == w.mem
    requires s'.threads == s.threads[id := AbsThread(cfg, th)] && s'.mem == s.mem && s'.dead == s.dead
    requires w'.log == s'.log
    ensures Related(cfg, w', s')
  {
    hide ThreadInv, AbsThread, PageHolds, LoadDouble, HoldsCode;
    forall a: nat | Below(s.threads, a)
      ensures Below(s'.threads, a)
    {
      var u :| u in s.threads && InRange(a, s.threads[u].lo, s.threads[u].core.x[SP]);
      assert u in s'.threads && s'.threads[u] == s.threads[u];
    }
    assert Inv(cfg, w');
  }

  lemma CloneMatched(cfg: Config, w: World, s: AState, t: nat, reply: u64, writes: map<nat, byte>, child: Child)
    requires ValidConfig(cfg) && Related(cfg, w, s) && AllOk(cfg, s)
    requires Enabled(cfg, w, Kernel(t, reply, writes, Some(child)))
    ensures var a := AKernel(t, reply, writes, Some(child));
            AEnabled(cfg, s, a) && Related(cfg, Apply(cfg, w, Kernel(t, reply, writes, Some(child))), AApply(cfg, s, a))
  {
    hide AllOk, ThreadInv, Inv, Below, SameMemory, AtLoc, InPath, PathInstr, Writable, UserVisible, AfterEcall, AfterSyscall,
      AbsThread, ChildOf, ChildThread;
    var loc := KernelThread(cfg, w, s, t, reply, writes, Some(child));
    CallerAtKernel(cfg, w, s, t, loc);
    KernelMatched(cfg, w, s, t, reply, writes);
    NotDoneYet(cfg.env, Top(w.threads[t]).call, w.threads[t].core, w.mem, loc);
    var w1, s1 := Apply(cfg, w, Kernel(t, reply, writes, None)), AApply(cfg, s, AKernel(t, reply, writes, None));
    var w' := Apply(cfg, w, Kernel(t, reply, writes, Some(child)));
    FreshAgrees(cfg, w, s, child);
    var s' := AApply(cfg, s, AKernel(t, reply, writes, Some(child)));
    assert ThreadInv(cfg, w.threads[t], w.mem) by { InvThread(cfg, w, t); }
    assert loc == Ret(12);
    ChildInv(cfg, w, t, child, w1.mem);
    var th := ChildOf(Top(w.threads[t]).call, w.threads[t].core, child);
    ChildRegion(Top(w.threads[t]).call, w.threads[t].core, child);
    Spawned(cfg, w1, s1, child.id, th, w', s');
  }

  lemma FreshAgrees(cfg: Config, w: World, s: AState, child: Child)
    requires SameThreads(cfg, w, s) && FreshThread(cfg, w, child)
    ensures FreshChild(cfg, s, child)
  {
    forall t | t in s.threads
      ensures Disjoint(child.lo, child.hi, s.threads[t].lo, s.threads[t].hi)
    {
      assert t in w.threads;
    }
  }

  lemma InvThread(cfg: Config, w: World, t: nat)
    requires ValidConfig(cfg) && Inv(cfg, w) && t in w.threads
    ensures ThreadInv(cfg, w.threads[t], w.mem)
  {
  }

  lemma ChildRegion(call: Call, c: Core, child: Child)
    ensures ChildOf(call, c, child).lo == child.lo && ChildOf(call, c, child).hi == child.hi
  {
  }

  /** The same at an ecall that has not been rewritten: the child starts in program code. */
  lemma UnseenCloneMatched(cfg: Config, w: World, s: AState, t: nat, reply: u64, writes: map<nat, byte>, child: Child)
    requires ValidConfig(cfg) && Related(cfg, w, s) && AllOk(cfg, s)
    requires Enabled(cfg, w, Unseen(t, reply, writes, Some(child)))
    ensures var a := AKernel(t, reply, writes, Some(child));
            AEnabled(cfg, s, a) && Related(cfg, Apply(cfg, w, Unseen(t, reply, writes, Some(child))), AApply(cfg, s, a))
  {
    hide AllOk, ThreadInv, Inv, Below, SameMemory, InPath, Writable, UserVisible, AfterSyscall, AbsThread, ChildThread;
    UserCore(cfg, w, s, t);
    UnseenMatched(cfg, w, s, t, reply, writes);
    var w1, s1 := Apply(cfg, w, Unseen(t, reply, writes, None)), AApply(cfg, s, AKernel(t, reply, writes, None));
    FreshAgrees(cfg, w, s, child);
    var w' := Apply(cfg, w, Unseen(t, reply, writes, Some(child)));
    var s' := AApply(cfg, s, AKernel(t, reply, writes, Some(child)));
    var th := DirectChild(w.threads[t].core, child);
    DirectChildInv(cfg, w.threads[t].core, child, w1.mem);
    Spawned(cfg, w1, s1, child.id, th, w', s');
  }

  lemma DirectChildInv(cfg: Config, c: Core, child: Child, m: Mem)
    requires ValidConfig(cfg) && c.x[GP] == cfg.env.gp
    ensures var th := DirectChild(c, child);
            && ThreadInv(cfg, th, m) && th.lo == child.lo && th.hi == child.hi
            && AbsThread(cfg, th) == ChildThread(WithGp(c, cfg.env.gp0), child)
  {
    var th := DirectChild(c, child);
    UserInv(cfg, th, m);
    assert WithGp(th.core, cfg.env.gp0).x == ChildThread(WithGp(c, cfg.env.gp0), child).core.x;
  }

  // ---- A new process ----------------------------------------------------

  /** The world of a forked child: a copy of memory, and the calling thread alone with answer 0. */
  ghost function ForkedWorld(cfg: Config, w: World, t: nat): World
    requires ValidEnv(cfg.env) && Enabled(cfg, w, Kernel(t, 0, map[], None))
  {
    var w1 := Apply(cfg, w, Kernel(t, 0, map[], None));
    w1.(threads := map[t := w1.threads[t]])
  }

  /** The original program's child; stack bytes that were below any thread's sp stay dead. */
  ghost function ForkedState(cfg: Config, s: AState, t: nat, dead: set<nat>): AState
    requires t in s.threads
  {
    var s1 := AApply(cfg, s, AKernel(t, 0, map[], None));
    s1.(threads := map[t := s1.threads[t]], dead := dead)
  }

  /** A child with an address space of its own starts related to the original program's child. */
  lemma ForkMatched(cfg: Config, w: World, s: AState, t: nat, dead: set<nat>)
    requires ValidConfig(cfg) && Related(cfg, w, s) && AllOk(cfg, s)
    requires Enabled(cfg, w, Kernel(t, 0, map[], None)) && |w.threads[t].flights| == 1
    requires s.dead <= dead && forall a: nat :: Below(s.threads, a) ==> a in dead
    ensures t in s.threads && Related(cfg, ForkedWorld(cfg, w, t), ForkedState(cfg, s, t, dead))
  {
    hide AllOk, ThreadInv, PageHolds, LoadDouble, HoldsCode, AbsThread, UserVisible, Writable, PathInstr, InPath;
    KernelMatched(cfg, w, s, t, 0, map[]);
    var w1, s1 := Apply(cfg, w, Kernel(t, 0, map[], None)), AApply(cfg, s, AKernel(t, 0, map[], None));
    var cw, cs := ForkedWorld(cfg, w, t), ForkedState(cfg, s, t, dead);
    assert cw.threads[t] == w1.threads[t] && cs.threads[t] == s1.threads[t];
    assert Inv(cfg, cw);
    SpSame(cfg, s, s1, t);
    forall a: nat | a !in cfg.own && a !in cs.dead && !Below(cs.threads, a)
      ensures Byte(cw.mem, a) == Byte(cs.mem, a)
    {
      assert !Below(s.threads, a);
    }
  }

  lemma SpSame(cfg: Config, s: AState, s1: AState, t: nat)
    requires t in s.threads && s1 == AApply(cfg, s, AKernel(t, 0, map[], None))
    ensures s1.dead <= s.dead
    ensures forall a: nat :: Below(s1.threads, a) ==> Below(s.threads, a)
  {
    forall a: nat | Below(s1.threads, a)
      ensures Below(s.threads, a)
    {
      var u :| u in s1.threads && InRange(a, s1.threads[u].lo, s1.threads[u].core.x[SP]);
      assert InRange(a, s.threads[u].lo, s.threads[u].core.x[SP]);
    }
  }
}
