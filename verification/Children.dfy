/**
What a new thread starts with, register by register: at a rewritten clone, after
its one instruction of the path, and at an ecall that has not been rewritten.
*/
module Children {
  import opened Isa
  import opened HookCode
  import opened HookPath
  import opened Interception
  import opened Program
  import opened Original
  import opened Patched
  import opened Refinement
  import opened Steps
  import opened Clone
  import opened Completeness
  import opened SpecLaws

  /** A call whose frame is closed is at the last jump. */
  lemma ClosedAtReturn(env: Env, call: Call, c: Core, m: Mem, loc: Loc)
    requires ValidEnv(env) && ValidCall(call) && AtLoc(env, call, c, m, loc) && !Framed(call)
    ensures loc == Ret(13)
  {
    hide Registers, Slots, Scratch;
  }

  /** The kernel has made `child` at the intercepted call of `t`: parent and child on the path. */
  lemma BornOnPath(cfg: Config, w: World, s: AState, t: nat, reply: u64, writes: map<nat, byte>, child: Child)
    requires ValidConfig(cfg) && Related(cfg, w, s) && AllOk(cfg, s) && Enabled(cfg, w, Kernel(t, reply, writes, Some(child)))
    ensures t in w.threads && |w.threads[t].flights| == 1 && child.id !in w.threads
    ensures var call, w' := Top(w.threads[t]).call, Apply(cfg, w, Kernel(t, reply, writes, Some(child)));
            && AnsweredWith(w.threads[t].core, w'.threads[t].core, reply)
            && child.id in w'.threads && w'.threads[child.id].lo == child.lo && w'.threads[child.id].hi == child.hi
            && BornFrom(w.threads[t].core, w'.threads[child.id].core, child.sp, child.tp)
            && |w'.threads[child.id].flights| == 1 && w'.threads[child.id].flights[0].hook.None?
            && var born := w'.threads[child.id].flights[0].call;
               && born.outcome == Replied(0) && born.entry.pc == call.entry.pc && born.entry.f == call.entry.f
               && born.entry.x == call.entry.x[2 := child.sp][4 := child.tp]
  {
    hide Related, AllOk, InPath, PathInstr, UserVisible;
  }

  /**
  The thread born at an intercepted clone or clone3 takes its one jump and is in
  program code: just after the patched instruction, with a0 zero, the sp and tp it
  was given, and every other register as the caller had it. Its parent has the
  kernel's reply.
  */
  lemma ChildStartsInProgram(cfg: Config, w: World, s: AState, t: nat, reply: u64, writes: map<nat, byte>, child: Child)
    requires ValidConfig(cfg) && Related(cfg, w, s) && AllOk(cfg, s) && Enabled(cfg, w, Kernel(t, reply, writes, Some(child)))
    ensures |w.threads[t].flights| == 1
    ensures var w1 := Apply(cfg, w, Kernel(t, reply, writes, Some(child)));
            && AnsweredWith(w.threads[t].core, w1.threads[t].core, reply) && child.id in w1.threads
            && Enabled(cfg, w1, Path(child.id))
            && StartsAfter(w.threads[t].flights[0].call.entry, Apply(cfg, w1, Path(child.id)), child)
  {
    hide Related, AllOk, InPath, PathInstr, Enabled, Apply, AApply, AEnabled, Resumed, OnPath, AnsweredWith, BornFrom;
    BornOnPath(cfg, w, s, t, reply, writes, child);
    CloneMatched(cfg, w, s, t, reply, writes, child);
    EnabledHere(cfg, s, AKernel(t, reply, writes, Some(child)));
    var w1, s1 := Apply(cfg, w, Kernel(t, reply, writes, Some(child))), AApply(cfg, s, AKernel(t, reply, writes, Some(child)));
    var born := w1.threads[child.id].flights[0].call;
    assert Top(w1.threads[child.id]) == w1.threads[child.id].flights[0];
    IsCloneCall(cfg, w, s, t, reply, writes, child);
    var loc := FlightOnPath(cfg, w1, s1, child.id);
    AtReturn(cfg, w1, child.id, born, loc);
    LastJump(cfg, w1, s1, child.id, born);
    assert Pop(w1.threads[child.id]) == [];
    BornResumes(w.threads[t].flights[0].call, born, child);
  }

  /** The thread is in program code just after the instruction at which `c` made its call. */
  ghost predicate StartsAfter(c: Core, w: World, child: Child) {
    && child.id in w.threads && w.threads[child.id].flights == []
    && w.threads[child.id].lo == child.lo && w.threads[child.id].hi == child.hi
    && BornFrom(c, w.threads[child.id].core, child.sp, child.tp)
  }

  lemma AtReturn(cfg: Config, w: World, t: nat, call: Call, loc: Loc)
    requires ValidConfig(cfg) && Atop(w, t, call) && OnPath(cfg, w.threads[t], w.mem, loc) && !Framed(call)
    ensures loc == Ret(13)
  {
    hide AtLoc;
    ClosedAtReturn(cfg.env, call, w.threads[t].core, w.mem, loc);
  }

  lemma BornResumes(call: Call, born: Call, child: Child)
    requires born.outcome == Replied(0) && born.entry.pc == call.entry.pc && born.entry.f == call.entry.f
    requires born.entry.x == call.entry.x[2 := child.sp][4 := child.tp]
    ensures BornFrom(call.entry, Resumed(born), child.sp, child.tp)
  {
  }

  /** Only clone and clone3 make threads. */
  lemma IsCloneCall(cfg: Config, w: World, s: AState, t: nat, reply: u64, writes: map<nat, byte>, child: Child)
    requires ValidConfig(cfg) && Related(cfg, w, s) && AllOk(cfg, s) && Enabled(cfg, w, Kernel(t, reply, writes, Some(child)))
    ensures |w.threads[t].flights| == 1
    ensures var w1 := Apply(cfg, w, Kernel(t, reply, writes, Some(child)));
            child.id in w1.threads && |w1.threads[child.id].flights| == 1 && !Framed(w1.threads[child.id].flights[0].call)
  {
    hide Related, AllOk, InPath, PathInstr, UserVisible, AtLoc;
    var loc := KernelThread(cfg, w, s, t, reply, writes, Some(child));
    CallerAtKernel(cfg, w, s, t, loc);
    NumberKept(cfg, w, s, t, loc);
  }

  lemma NumberKept(cfg: Config, w: World, s: AState, t: nat, loc: Loc)
    requires ValidConfig(cfg) && Related(cfg, w, s) && t in w.threads && |w.threads[t].flights| == 1
    requires OnPath(cfg, w.threads[t], w.mem, loc) && (loc == Ret(4) || loc == Ret(12))
    ensures w.threads[t].core.x[A7] == Number(w.threads[t].flights[0].call)
  {
    hide Related, AtLoc;
    RequestUnchanged(cfg.env, w.threads[t].flights[0].call, w.threads[t].core, w.mem, loc);
  }

  /** The same at an ecall that has not been rewritten, where the child is in program code at once. */
  lemma UnseenChildStarts(cfg: Config, w: World, t: nat, reply: u64, writes: map<nat, byte>, child: Child)
    requires ValidConfig(cfg) && Enabled(cfg, w, Unseen(t, reply, writes, Some(child)))
    ensures var w' := Apply(cfg, w, Unseen(t, reply, writes, Some(child)));
            && child.id !in w.threads && StartsAfter(w.threads[t].core, w', child)
            && AnsweredWith(w.threads[t].core, w'.threads[t].core, reply)
            && w'.threads[t] == w.threads[t].(core := w'.threads[t].core)
  {
    hide InPath, UserVisible;
  }
}
