/**
The transitions of an intercepted call that are not plain instructions of the
path: the patched instruction that enters it, the call of `syscall_hook` and its
return, the system call on the forwarding paths, and the last jump back.
*/
module Interception {
  import opened Isa
  import opened HookCode
  import opened HookPath

  // ---- syscall_hook -----------------------------------------------------

  /** What the user's hook function did: there is none, or it returned a code and a result. */
  datatype HookAnswer = NoHook | Returned(code: int, result: u64)

  predicate Forwards(answer: HookAnswer) {
    answer.NoHook? || answer.code != 0
  }

  /** The pair `syscall_hook` returns in a0 and a1. */
  function SyscallHook(a0: u64, answer: HookAnswer): (r: (u64, u64)) {
    match answer
    case NoHook => (a0, 0)
    case Returned(code, result) => if code != 0 then (a0, 0) else (result, 1)
  }

  /** Integer registers a C function gives back unchanged (x0 included). */
  predicate CalleeSaved(r: Reg) {
    r == ZERO || (SP <= r <= 4) || r == 8 || r == 9 || 18 <= r <= 27
  }

  predicate FCalleeSaved(r: Reg) {
    r == 8 || r == 9 || 18 <= r <= 27
  }

  /** `c` is a state in which a function entered at `start` has returned. */
  ghost predicate ReturnsFrom(start: Core, c: Core, answer: HookAnswer) {
    && c.pc == start.x[RA] - start.x[RA] % 2
    && (forall r: Reg :: CalleeSaved(r) ==> c.x[r] == start.x[r])
    && (forall r: Reg :: FCalleeSaved(r) ==> c.f[r] == start.f[r])
    && (c.x[A0], c.x[A1]) == SyscallHook(start.x[A0], answer)
  }

  /** While the hook runs: the frame holds the caller's context and `start` the hook's arguments. */
  ghost predicate InHook(env: Env, call: Call, m: Mem, start: Core)
    requires ValidEnv(env) && ValidCall(call)
  {
    && call.outcome.Pending? && call.hooks == 1 && call.ecalls == 0 && Number(call) != NR_RT_SIGRETURN
    && start.pc == env.syscallHook && start.x[RA] == PcOf(env, Hook(39))
    && start.x[SP] == Base(call) && start.x[GP] == env.gp
    && (forall r: Reg :: A0 <= r <= A7 && r != A6 ==> start.x[r] == call.entry.x[r])
    && start.x[A6] == ReturnAddress(call)
    && (forall r: Reg :: CalleeSaved(r) && r != SP && r != GP ==> start.x[r] == call.entry.x[r])
    && (forall r: Reg :: FCalleeSaved(r) ==> start.f[r] == call.entry.f[r])
    && Slots(call, m, Hook(39))
  }

  // ---- Transitions ------------------------------------------------------

  /** The patched instruction, executed in user or hook code. */
  lemma Enters(env: Env, c: Core, m: Mem)
    requires ValidEnv(env) && ValidCall(Call(c, Pending, 0, 0)) && c.x[GP] == env.gp
    ensures AtLoc(env, Call(c, Pending, 0, 0), ExecReg(Jalr(GP, GP, 0), c), m, Tramp(0))
  {
    hide LoadLE;
  }

  lemma HookCalled(env: Env, call: Call, c: Core, m: Mem)
    requires ValidEnv(env) && ValidCall(call) && AtLoc(env, call, c, m, Hook(38))
    ensures InHook(env, call.(hooks := 1), m, ExecReg(CallSymbol(env.syscallHook), c))
  {
    hide LoadLE, Wrap;
    var call' := call.(hooks := 1);
    assert Slots(call', m, Hook(39)) by { AllSaved(call, call', m); }
    hide Slots, Scratch;
  }

  lemma AllSaved(call: Call, call': Call, m: Mem)
    requires ValidCall(call) && call'.entry == call.entry && Slots(call, m, Hook(38))
    ensures Slots(call', m, Hook(39))
  {
    hide LoadLE, Wrap;
    forall n: nat | n < 37 && Saved(Hook(39), n)
      ensures SlotAt(call', m, n) == SlotValue(call', n)
    {
      assert Saved(Hook(38), n);
      assert SlotAt(call, m, n) == SlotValue(call, n);
    }
  }

  function Decided(call: Call, start: Core, answer: HookAnswer): Call {
    call.(outcome := if Forwards(answer) then Forward else Handled(SyscallHook(start.x[A0], answer).0))
  }

  lemma HookReturned(env: Env, call: Call, start: Core, answer: HookAnswer, c: Core, m: Mem)
    requires ValidEnv(env) && ValidCall(call) && InHook(env, call, m, start)
    requires ReturnsFrom(start, c, answer)
    ensures AtLoc(env, Decided(call, start, answer), c, m, Hook(39))
  {
    hide LoadLE, Wrap;
    var call' := Decided(call, start, answer);
    forall n: nat | n < 37 && Saved(Hook(39), n)
      ensures SlotAt(call', m, n) == SlotValue(call', n)
    {
      assert SlotAt(call, m, n) == SlotValue(call, n);
    }
    forall r: Reg | Held(Hook(39), r) && r != SP && r != GP && r != A0
      ensures CalleeSaved(r)
    {
    }
  }

  /** The processor just after the kernel has answered. */
  function AfterEcall(c: Core, reply: u64): Core {
    c.(x := c.x[A0 := reply], pc := Wrap(c.pc + 4))
  }

  function Answered(call: Call, reply: u64): Call {
    call.(outcome := Replied(reply), ecalls := call.ecalls + 1)
  }

  /** What the kernel is asked for: the number and six arguments. */
  datatype Request = Request(nr: u64, args: seq<u64>)

  function RequestOf(c: Core): Request {
    Request(c.x[A7], [c.x[A0], c.x[A1], c.x[A2], c.x[A3], c.x[A4], c.x[A5]])
  }

  /** At either ecall the kernel sees the caller's request. */
  lemma RequestUnchanged(env: Env, call: Call, c: Core, m: Mem, loc: Loc)
    requires ValidEnv(env) && ValidCall(call) && AtLoc(env, call, c, m, loc)
    requires loc == Ret(4) || loc == Ret(12)
    ensures RequestOf(c) == RequestOf(call.entry)
  {
  }

  lemma KernelAnswers(env: Env, call: Call, c: Core, m: Mem, loc: Loc, reply: u64)
    requires ValidEnv(env) && ValidCall(call) && AtLoc(env, call, c, m, loc)
    requires loc == Ret(4) || loc == Ret(12)
    ensures AtLoc(env, Answered(call, reply), AfterEcall(c, reply), m, Next(call, loc))
  {
    hide LoadLE, Wrap;
    var call' := Answered(call, reply);
    forall n: nat | n < 37 && Saved(Next(call, loc), n)
      ensures SlotAt(call', m, n) == SlotValue(call', n)
    {
      assert Saved(loc, n);
      assert SlotAt(call, m, n) == SlotValue(call, n);
    }
  }

  /** The caller's processor after a call answered with `A0Value`. */
  function Resumed(call: Call): Core {
    call.entry.(x := call.entry.x[A0 := A0Value(call)], pc := ReturnAddress(call))
  }

  /**
  The jump in the last word before the relocated gp gives the caller back every
  integer and float register but a0, resumes after its own patched instruction,
  and leaves gp relocated.
  */
  lemma Returns(env: Env, call: Call, c: Core, m: Mem)
    requires ValidEnv(env) && ValidCall(call) && call.entry.x[GP] == env.gp
    requires AtLoc(env, call, c, m, Ret(13))
    ensures ExecReg(Jalr(GP, GP, 0), c) == Resumed(call)
  {
    var c' := ExecReg(Jalr(GP, GP, 0), c);
    assert c'.pc == ReturnAddress(call) by { EvenReturn(call); hide LoadLE; }
    forall r: Reg
      ensures c'.x[r] == Resumed(call).x[r] && c'.f[r] == Resumed(call).f[r]
    {
      hide LoadLE, Slots;
      assert Held(Ret(13), r) && FHeld(Ret(13), r);
    }
    assert c'.x == Resumed(call).x;
    assert c'.f == Resumed(call).f;
  }

  lemma EvenReturn(call: Call)
    requires ValidCall(call)
    ensures ReturnAddress(call) % 2 == 0
  {
  }
}
