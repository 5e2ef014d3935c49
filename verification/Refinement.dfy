/**
The patched system against the specification: the relation between their
states, and that every step of the patched system keeps it, matched by one step
of the specification or by none.
*/
module Refinement {
  import opened Isa
  import opened Patcher
  import opened HookCode
  import opened HookPath
  import opened Interception
  import opened Program
  import opened Original
  import opened Patched

  // ---- Relation ---------------------------------------------------------

  /** The program's processor that an interception in flight stands for. */
  function CallerCore(call: Call): Core {
    if call.outcome.Handled? || call.outcome.Replied? then Resumed(call) else call.entry
  }

  function AbsThread(cfg: Config, th: Thread): AThread {
    AThread(WithGp(if th.flights == [] then th.core else CallerCore(th.flights[0].call), cfg.env.gp0), th.lo, th.hi)
  }

  ghost predicate SameThreads(cfg: Config, w: World, s: AState) {
    && w.threads.Keys == s.threads.Keys
    && forall t :: t in w.threads ==> s.threads[t] == AbsThread(cfg, w.threads[t])
  }

  /** Equal memory wherever the program may look. */
  ghost predicate SameMemory(cfg: Config, m: Mem, s: AState) {
    forall a: nat :: a !in cfg.own && a !in s.dead && !Below(s.threads, a) ==> Byte(m, a) == Byte(s.mem, a)
  }

  ghost predicate Related(cfg: Config, w: World, s: AState)
    requires ValidConfig(cfg)
  {
    Inv(cfg, w) && SameThreads(cfg, w, s) && SameMemory(cfg, w.mem, s) && w.log == s.log
  }

  // ---- Non-interference -------------------------------------------------

  ghost predicate FixedKept(cfg: Config, m: Mem, m': Mem) {
    forall a: nat :: Fixed(cfg, a) ==> Byte(m, a) == Byte(m', a)
  }

  /** Nothing below the program's sp in this thread's stack has changed. */
  ghost predicate BelowKept(th: Thread, m: Mem, m': Mem) {
    forall a: nat :: InRange(a, th.lo, CallerSp(th)) ==> Byte(m, a) == Byte(m', a)
  }

  ghost predicate FramesKept(th: Thread, m: Mem, m': Mem) {
    forall j :: 0 <= j < |th.flights| && Framed(th.flights[j].call) ==>
      SameOn(m, m', FrameBase(th.flights[j].call), FrameBase(th.flights[j].call) + FRAME_SIZE)
  }

  lemma SlotsKept(call: Call, m: Mem, m': Mem, loc: Loc)
    requires ValidCall(call) && Slots(call, m, loc)
    requires SameOn(m, m', Base(call), Base(call) + FRAME_SIZE)
    ensures Slots(call, m', loc)
  {
    hide LoadLE, SlotValue;
    forall n: nat | n < 37 && Saved(loc, n)
      ensures SlotAt(call, m', n) == SlotValue(call, n)
    {
      assert SlotAt(call, m, n) == SlotValue(call, n);
      LoadSame(m, m', Base(call) + 8 * n, 8);
    }
  }

  /** A closed frame is not read any more. */
  lemma NoSlots(env: Env, call: Call, c: Core, m: Mem, m': Mem, loc: Loc)
    requires ValidEnv(env) && ValidCall(call) && AtLoc(env, call, c, m, loc) && !Framed(call)
    ensures Slots(call, m', loc)
  {
    hide Registers, Scratch, LoadLE;
    assert loc == Ret(13);
  }

  lemma FixedKeeps(cfg: Config, m: Mem, m': Mem)
    requires ValidConfig(cfg) && FixedKept(cfg, m, m')
    ensures PageHolds(cfg.env, m) ==> PageHolds(cfg.env, m')
    ensures LoadDouble(m, cfg.env.gpVar) == LoadDouble(m', cfg.env.gpVar)
    ensures HoldsCode(m, cfg.code) ==> HoldsCode(m', cfg.code)
  {
    hide LoadLE, PageHolds;
    LoadSame(m, m', cfg.env.gpVar, 8);
    if PageHolds(cfg.env, m) { PageKept(cfg.env, m, m'); }
  }

  lemma ThreadInvKept(cfg: Config, th: Thread, m: Mem, m': Mem)
    requires ValidConfig(cfg) && ThreadInv(cfg, th, m) && FramesKept(th, m, m')
    ensures ThreadInv(cfg, th, m')
  {
    forall j | 0 <= j < |th.flights|
      ensures FlightInv(cfg, th, m', j)
    {
      assert NestedAt(cfg, th, j) && FlightInv(cfg, th, m, j);
      var call := th.flights[j].call;
      if th.flights[j].hook.Some? {
        SlotsKept(call, m, m', Hook(39));
      } else if Framed(call) {
        SlotsKept(call, m, m', LocOf(cfg.env, th.core.pc));
      } else {
        NoSlots(cfg.env, call, th.core, m, m', LocOf(cfg.env, th.core.pc));
      }
      hide Slots, Control, Registers;
    }
  }

  /** Nesting depends only on where the calls were made. */
  lemma NestedSameEntries(cfg: Config, th: Thread, th': Thread)
    requires ValidEnv(cfg.env) && Nested(cfg, th) && |th'.flights| <= |th.flights|
    requires th'.lo == th.lo && th'.hi == th.hi
    requires forall j :: 0 <= j < |th'.flights| ==>
               && th'.flights[j].call.entry == th.flights[j].call.entry
               && (Framed(th'.flights[j].call) ==> Framed(th.flights[j].call))
    ensures Nested(cfg, th')
  {
    forall j | 0 <= j < |th'.flights|
      ensures NestedAt(cfg, th', j)
    {
      assert NestedAt(cfg, th, j);
    }
  }

  /** Frames lie below the program's sp, and deeper ones lower. */
  lemma {:induction false} DeeperIsLower(cfg: Config, th: Thread, i: nat, j: nat)
    requires ValidEnv(cfg.env) && Nested(cfg, th) && i <= j < |th.flights|
    ensures th.flights[j].call.entry.x[SP] <= th.flights[i].call.entry.x[SP]
    decreases j - i
  {
    if i < j {
      assert NestedAt(cfg, th, j) && NestedAt(cfg, th, j - 1);
      DeeperIsLower(cfg, th, i, j - 1);
    }
  }

  lemma BelowKeepsFrames(cfg: Config, th: Thread, m: Mem, m': Mem)
    requires ValidEnv(cfg.env) && Nested(cfg, th) && BelowKept(th, m, m')
    ensures FramesKept(th, m, m')
  {
    forall j | 0 <= j < |th.flights| && Framed(th.flights[j].call)
      ensures SameOn(m, m', FrameBase(th.flights[j].call), FrameBase(th.flights[j].call) + FRAME_SIZE)
    {
      DeeperIsLower(cfg, th, 0, j);
      assert NestedAt(cfg, th, j);
    }
  }

  lemma OtherThreadInvKept(cfg: Config, th: Thread, m: Mem, m': Mem)
    requires ValidConfig(cfg) && ThreadInv(cfg, th, m) && BelowKept(th, m, m')
    ensures ThreadInv(cfg, th, m')
  {
    BelowKeepsFrames(cfg, th, m, m');
    ThreadInvKept(cfg, th, m, m');
  }

  /** The invariant survives a step of one thread that leaves fixed memory and other stacks alone. */
  lemma InvAfter(cfg: Config, w: World, t: nat, th': Thread, w': World)
    requires ValidConfig(cfg) && Inv(cfg, w) && t in w.threads
    requires th'.lo == w.threads[t].lo && th'.hi == w.threads[t].hi
    requires w'.threads == w.threads[t := th']
    requires ThreadInv(cfg, th', w'.mem)
    requires FixedKept(cfg, w.mem, w'.mem)
    requires forall u :: u in w.threads && u != t ==> BelowKept(w.threads[u], w.mem, w'.mem)
    ensures Inv(cfg, w')
  {
    hide ThreadInv, BelowKept, FixedKept, PageHolds, LoadDouble, HoldsCode;
    FixedKeeps(cfg, w.mem, w'.mem);
    forall u | u in w'.threads
      ensures ThreadInv(cfg, w'.threads[u], w'.mem)
    {
      if u != t {
        OtherThreadInvKept(cfg, w.threads[u], w.mem, w'.mem);
      }
    }
  }
}
