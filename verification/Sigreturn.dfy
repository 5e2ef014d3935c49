/**
rt_sigreturn on its way to the kernel: the one call whose treatment differs from
what the comment in the assembly asks for. Runs of whole programs leave it out;
this is the run of that one call.
*/
module Sigreturn {
  import opened Isa
  import opened HookCode
  import opened HookPath
  import opened Interception
  import opened Patcher
  import opened Steps
  import opened Safety

  /** `n` instructions of the path, none of them the call of the hook. */
  ghost predicate Walks(env: Env, c: Core, m: Mem, n: nat, c': Core, m': Mem)
    requires ValidEnv(env)
    decreases n
  {
    if n == 0 then c' == c && m' == m
    else
      && InPath(env, c.pc) && c.pc != PcOf(env, Hook(38)) && Plain(PathInstr(env, m, c.pc))
      && var e := Exec(PathInstr(env, m, c.pc), c, m);
         Walks(env, e.core, e.mem, n - 1, c', m')
  }

  /** The shadow page holds the code, and the frame of the call lies elsewhere. */
  ghost predicate Ready(env: Env, call: Call, m: Mem)
    requires ValidEnv(env) && ValidCall(call)
  {
    && PageHolds(env, m) && LoadDouble(m, env.gpVar) == env.gp
    && (Base(call) + FRAME_SIZE <= env.gp - 56 || env.gp + 80 <= Base(call))
    && (Base(call) + FRAME_SIZE <= env.gpVar || env.gpVar + 8 <= Base(call))
  }

  lemma StaysReady(env: Env, call: Call, m: Mem, m': Mem)
    requires ValidEnv(env) && ValidCall(call) && Ready(env, call, m)
    requires SameOutside(m, m', Base(call), Base(call) + FRAME_SIZE)
    ensures Ready(env, call, m')
  {
    hide PageHolds, LoadLE;
    PageKept(env, m, m');
    LoadSame(m, m', env.gpVar, 8);
  }

  /** A call runs on to the hook, the kernel or the last jump. */
  lemma {:induction false} WalkOn(env: Env, call: Call, c: Core, m: Mem, loc: Loc)
      returns (n: nat, c': Core, m': Mem, stop: Loc)
    requires ValidEnv(env) && ValidCall(call) && AtLoc(env, call, c, m, loc) && Ready(env, call, m)
    ensures Walks(env, c, m, n, c', m') && AtLoc(env, call, c', m', stop) && !IsPlainLoc(stop) && Ready(env, call, m')
    ensures SameOutside(m, m', Base(call), Base(call) + FRAME_SIZE)
    decreases if loc == Ret(13) then 0 else Rank(loc)
  {
    hide AtLoc, PageHolds, LoadDouble, PathInstr, InPath, InstrAt, Exec, Next, IsPlainLoc, Rank, PcOf;
    AtLocPc(env, call, c, m, loc);
    Fetched(env, m, loc);
    if IsPlainLoc(loc) {
      NotAStop(env, loc);
      PlainInstr(env, loc);
      PathStep(env, call, c, m, loc);
      OtherPc(env, loc, Hook(38));
      var e := Exec(InstrAt(env, loc), c, m);
      StaysReady(env, call, m, e.mem);
      NextIsLower(env, call, c, m, loc);
      var k;
      k, c', m', stop := WalkOn(env, call, e.core, e.mem, Next(call, loc));
      n := k + 1;
    } else {
      n, c', m', stop := 0, c, m, loc;
    }
  }

  lemma NotAStop(env: Env, loc: Loc)
    requires IsPlainLoc(loc)
    ensures loc != Ret(13) && loc != Hook(38)
  {
  }

  /** Without a reply, rt_sigreturn can only have stopped at the ecall of the normal path. */
  lemma StoppedAtEcall(env: Env, call: Call, c: Core, m: Mem, loc: Loc)
    requires ValidEnv(env) && ValidCall(call) && AtLoc(env, call, c, m, loc) && !IsPlainLoc(loc)
    requires Number(call) == NR_RT_SIGRETURN && call.outcome.Pending?
    ensures loc == Ret(4)
  {
    hide Registers, Slots, Scratch;
  }

  lemma AtNormalEcall(env: Env, call: Call, c: Core, m: Mem)
    requires ValidEnv(env) && ValidCall(call) && AtLoc(env, call, c, m, Ret(4)) && call.outcome.Pending?
    requires call.entry.x[GP] == env.gp
    ensures c.pc == c.x[T0] == env.gp - 40 && c.x[SP] as int == call.entry.x[SP] - 304
    ensures forall r: Reg :: r != SP && r != T0 ==> c.x[r] == call.entry.x[r]
    ensures c.f == call.entry.f
  {
    hide Slots, Dispatch;
    assert c.f == call.entry.f by {
      assert forall r: Reg :: FHeld(Ret(4), r);
    }
  }

  /**
  From the patched instruction with number 139 the path leads to the ecall of the
  normal return path and not to the hook. The kernel finds the caller's registers
  and request, but sp 304 lower than the caller's, and in t0 the address of the
  ecall instead of the caller's value.
  */
  lemma SigreturnReachesKernel(env: Env, c: Core, m: Mem) returns (n: nat, c': Core, m': Mem)
    requires ValidEnv(env) && c.x[GP] == env.gp && c.x[A7] == NR_RT_SIGRETURN
    requires ValidCall(Call(c, Pending, 0, 0)) && Ready(env, Call(c, Pending, 0, 0), m)
    ensures Walks(env, ExecReg(Jalr(GP, GP, 0), c), m, n, c', m')
    ensures c'.pc == env.gp - 40 && InPath(env, c'.pc) && PathInstr(env, m', c'.pc) == Ecall
    ensures c'.x[SP] as int == c.x[SP] - 304 && c'.x[T0] == env.gp - 40 && RequestOf(c') == RequestOf(c)
    ensures (forall r: Reg :: r != SP && r != T0 ==> c'.x[r] == c.x[r]) && c'.f == c.f
    ensures SameOutside(m, m', c.x[SP] - 304, c.x[SP])
  {
    hide AtLoc, Walks, PageHolds, LoadDouble, PathInstr, ExecReg, InPath, IsPlainLoc;
    var call := Call(c, Pending, 0, 0);
    Enters(env, c, m);
    var stop;
    n, c', m', stop := WalkOn(env, call, ExecReg(Jalr(GP, GP, 0), c), m, Tramp(0));
    StoppedAtEcall(env, call, c', m', stop);
    AtNormalEcall(env, call, c', m');
    Fetched(env, m', Ret(4));
  }
}
