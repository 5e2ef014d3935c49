/**
What the specification system means, said without its own definitions: what the
kernel may do, what a system call leaves in the registers of parent and child, and
which stack bytes are hidden from the program.
*/
module SpecLaws {
  import opened Isa
  import opened HookCode
  import opened Interception
  import opened Program
  import opened Original

  // ---- Registers after a system call --------------------------------------------

  /** `c'` is `c` just after its system call has been answered with `v`. */
  ghost predicate AnsweredWith(c: Core, c': Core, v: u64) {
    && c'.pc == (c.pc + 4) % 0x1_0000_0000_0000_0000
    && c'.x[10] == v && c'.f == c.f
    && forall r: Reg :: r != 10 ==> c'.x[r] == c.x[r]
  }

  /** `c'` is the processor of a thread born at the system call of `c`. */
  ghost predicate BornFrom(c: Core, c': Core, sp: u64, tp: u64) {
    && c'.pc == (c.pc + 4) % 0x1_0000_0000_0000_0000
    && c'.x[10] == 0 && c'.x[2] == sp && c'.x[4] == tp && c'.f == c.f
    && forall r: Reg :: r != 10 && r != 2 && r != 4 ==> c'.x[r] == c.x[r]
  }

  /** What a system call asks for: its number in a7 and its arguments in a0 to a5. */
  function CallOf(c: Core): Request {
    Request(c.x[17], [c.x[10], c.x[11], c.x[12], c.x[13], c.x[14], c.x[15]])
  }

  /** A system call of the original program: its thread, its child if there is one, memory and log. */
  lemma SystemCallAnswered(cfg: Config, s: AState, t: nat, reply: u64, writes: map<nat, byte>, child: Option<Child>)
    requires AEnabled(cfg, s, AKernel(t, reply, writes, child))
    ensures var s' := AApply(cfg, s, AKernel(t, reply, writes, child));
            && s'.threads.Keys == s.threads.Keys + (if child.Some? then {child.value.id} else {})
            && AnsweredWith(s.threads[t].core, s'.threads[t].core, reply)
            && (child.Some? ==>
                  && child.value.id !in s.threads
                  && BornFrom(s.threads[t].core, s'.threads[child.value.id].core, child.value.sp, child.value.tp)
                  && s'.threads[child.value.id].lo == child.value.lo && s'.threads[child.value.id].hi == child.value.hi)
            && (forall u :: u in s.threads && u != t ==> s'.threads[u] == s.threads[u])
            && (forall a: nat :: Byte(s'.mem, a) == if a in writes then writes[a] else Byte(s.mem, a))
            && s'.log == s.log + [Asked(t, CallOf(s.threads[t].core), reply, writes, child)]
  {
    hide Writable;
  }

  /** An answer of the interposer: the same registers, and nothing in memory. */
  lemma InterposerAnswered(cfg: Config, s: AState, t: nat, v: u64)
    requires AEnabled(cfg, s, AAnswer(t, v))
    ensures var s' := AApply(cfg, s, AAnswer(t, v));
            && s'.threads.Keys == s.threads.Keys && s'.mem == s.mem
            && AnsweredWith(s.threads[t].core, s'.threads[t].core, v)
            && (forall u :: u in s.threads && u != t ==> s'.threads[u] == s.threads[u])
            && s'.log == s.log + [Interposed(t, CallOf(s.threads[t].core), v)]
  {
  }

  // ---- What the kernel may do ------------------------------------------------------

  /** Not vpoline's, not code, and in nobody's stack below sp. */
  ghost predicate WithinReach(cfg: Config, s: AState, a: nat) {
    && a !in cfg.own && a !in cfg.code
    && forall t :: t in s.threads ==> a < s.threads[t].lo || s.threads[t].core.x[2] <= a
  }

  /**
  At any system call of the program the kernel may give any answer, write any
  memory the program can reach, end the thread and, for clone (220) and clone3
  (435), create a thread on any free stack.
  */
  lemma KernelIsFree(cfg: Config, s: AState, t: nat, reply: u64, writes: map<nat, byte>, child: Option<Child>)
    requires t in s.threads && (cfg.prog(s.threads[t].core.pc).Syscall? || cfg.prog(s.threads[t].core.pc).Direct?)
    requires forall a :: a in writes ==> WithinReach(cfg, s, a)
    requires child.Some? ==>
               && (s.threads[t].core.x[17] == 220 || s.threads[t].core.x[17] == 435)
               && child.value.id !in s.threads
               && child.value.lo <= child.value.sp <= child.value.hi && 304 <= child.value.sp
               && (forall u :: u in s.threads ==> child.value.hi <= s.threads[u].lo || s.threads[u].hi <= child.value.lo)
               && (forall a: nat :: child.value.lo <= a < child.value.hi ==> a !in cfg.own && a !in cfg.code)
    ensures AEnabled(cfg, s, AKernel(t, reply, writes, child)) && AEnabled(cfg, s, AExit(t))
  {
    forall a | a in writes
      ensures !Guarded(cfg, a) && !Below(s.threads, a)
    {
      assert WithinReach(cfg, s, a);
    }
    if child.Some? {
      forall a | Guarded(cfg, a)
        ensures !InRange(a, child.value.lo, child.value.hi)
      {
      }
    }
  }

  // ---- Hidden stack bytes ------------------------------------------------------------

  /** Bytes the program may not read: in some thread's stack below sp, or there since they were last written. */
  predicate Hidden(s: AState, a: nat) {
    a in s.dead || Below(s.threads, a)
  }

  /** The action writes the byte: a store of the program, the kernel or the interposer. */
  ghost predicate Writes(cfg: Config, s: AState, act: AAction, a: nat)
    requires AEnabled(cfg, s, act)
  {
    match act
    case AUser(t) =>
      var c := s.threads[t].core;
      (match cfg.prog(c.pc)
       case Access(Store(w, _, _, _), _) => Ea(cfg.prog(c.pc).instr, c) <= a < Ea(cfg.prog(c.pc).instr, c) + w
       case Access(FStore(w, _, _, _), _) => Ea(cfg.prog(c.pc).instr, c) <= a < Ea(cfg.prog(c.pc).instr, c) + w
       case _ => false)
    case AKernel(_, _, writes, _) => a in writes
    case AHookWrite(_, writes) => a in writes
    case _ => false
  }

  /** One step: writing a byte shows it, and being below sp hides it. */
  lemma HiddenStep(cfg: Config, s: AState, act: AAction, a: nat)
    requires AEnabled(cfg, s, act)
    ensures var s' := AApply(cfg, s, act);
            && (Hidden(s', a) <==> (Hidden(s, a) && !Writes(cfg, s, act, a)) || Below(s'.threads, a))
            && (Writes(cfg, s, act, a) ==> a !in s'.dead)
  {
    hide Writable, FreshChild, ComputeOn, Ea;
    var s', th := AApply(cfg, s, act), s.threads[act.t];
    assert a in BelowOf(th) <==> InRange(a, th.lo, th.core.x[SP]);
    BelowBefore(cfg, s, act, a);
  }

  /** Who was below sp and has not moved still is; the acting thread's bytes are marked when it moves. */
  lemma BelowBefore(cfg: Config, s: AState, act: AAction, a: nat)
    requires AEnabled(cfg, s, act)
    ensures var s' := AApply(cfg, s, act);
            Below(s.threads, a) ==> Below(s'.threads, a) || ((act.AUser? || act.AExit?) && a in BelowOf(s.threads[act.t]))
  {
    hide Writable, ComputeOn, Ea;
    var s' := AApply(cfg, s, act);
    if Below(s.threads, a) {
      var u :| u in s.threads && InRange(a, s.threads[u].lo, s.threads[u].core.x[SP]);
      if u != act.t {
        assert u in s'.threads && s'.threads[u] == s.threads[u];
      } else if !(act.AUser? || act.AExit?) {
        assert u in s'.threads && s'.threads[u].core.x[SP] == s.threads[u].core.x[SP];
        assert InRange(a, s'.threads[u].lo, s'.threads[u].core.x[SP]);
      }
    }
  }

  /** The state of the run before action `k`. */
  ghost function StateAt(cfg: Config, s: AState, acts: seq<AAction>, k: nat): AState
    requires ARuns(cfg, s, acts) && k <= |acts|
    decreases |acts|
  {
    if k == 0 then s else StateAt(cfg, AApply(cfg, s, acts[0]), acts[1..], k - 1)
  }

  lemma {:induction false} StateEnabled(cfg: Config, s: AState, acts: seq<AAction>, k: nat)
    requires ARuns(cfg, s, acts) && k < |acts|
    ensures AEnabled(cfg, StateAt(cfg, s, acts, k), acts[k])
    ensures StateAt(cfg, s, acts, k + 1) == AApply(cfg, StateAt(cfg, s, acts, k), acts[k])
    decreases |acts|
  {
    hide Writable, FreshChild, AApply;
    if k > 0 {
      StateEnabled(cfg, AApply(cfg, s, acts[0]), acts[1..], k - 1);
    }
  }

  /** Action `j` of the run writes the byte. */
  ghost predicate WrittenBy(cfg: Config, s: AState, acts: seq<AAction>, a: nat, j: nat)
    requires ARuns(cfg, s, acts) && j < |acts|
  {
    StateEnabled(cfg, s, acts, j);
    Writes(cfg, StateAt(cfg, s, acts, j), acts[j], a)
  }

  /** Before action `k` the byte was below some thread's sp (or dead from the start), and until action `n` nobody wrote it. */
  ghost predicate HiddenSince(cfg: Config, s: AState, acts: seq<AAction>, a: nat, k: nat, n: nat)
    requires ARuns(cfg, s, acts) && k <= n <= |acts|
  {
    && (Below(StateAt(cfg, s, acts, k).threads, a) || (k == 0 && a in s.dead))
    && forall j: nat :: k <= j < n ==> !WrittenBy(cfg, s, acts, a, j)
  }

  /**
  In every state of every run, a byte is hidden from the program exactly when it
  has been below some thread's sp since the program, the kernel or the interposer
  last wrote it.
  */
  lemma {:induction false} HiddenLaw(cfg: Config, s: AState, acts: seq<AAction>, a: nat, n: nat)
    requires ARuns(cfg, s, acts) && n <= |acts|
    ensures Hidden(StateAt(cfg, s, acts, n), a) <==> exists k: nat :: k <= n && HiddenSince(cfg, s, acts, a, k, n)
    decreases n
  {
    hide ARuns, StateAt, Writes, Below, AEnabled, AApply;
    if n == 0 {
      FirstState(cfg, s, acts);
      assert Hidden(StateAt(cfg, s, acts, 0), a) <==> HiddenSince(cfg, s, acts, a, 0, 0);
    } else {
      var m := n - 1;
      HiddenLaw(cfg, s, acts, a, m);
      StateEnabled(cfg, s, acts, m);
      HiddenStep(cfg, StateAt(cfg, s, acts, m), acts[m], a);
      if Hidden(StateAt(cfg, s, acts, m), a) && !WrittenBy(cfg, s, acts, a, m) {
        var k: nat :| k <= m && HiddenSince(cfg, s, acts, a, k, m);
        assert HiddenSince(cfg, s, acts, a, k, n);
      } else if Below(StateAt(cfg, s, acts, n).threads, a) {
        assert HiddenSince(cfg, s, acts, a, n, n);
      }
      forall k: nat | k <= n && HiddenSince(cfg, s, acts, a, k, n)
        ensures Hidden(StateAt(cfg, s, acts, n), a)
      {
        if k <= m { assert HiddenSince(cfg, s, acts, a, k, m) && !WrittenBy(cfg, s, acts, a, m); }
      }
    }
  }

  lemma FirstState(cfg: Config, s: AState, acts: seq<AAction>)
    requires ARuns(cfg, s, acts)
    ensures StateAt(cfg, s, acts, 0) == s
  {
  }

  // ---- What the conventions ask -------------------------------------------------------

  /** The bytes of an access: a load may read what is not hidden, a store may write what is nobody else's. */
  ghost predicate MayTouch(cfg: Config, s: AState, t: nat, store: bool, a: nat) {
    && a !in cfg.own
    && (!store ==> !Hidden(s, a))
    && (store ==> a !in cfg.code && forall u :: u in s.threads && u != t ==> a < s.threads[u].lo || s.threads[u].core.x[2] <= a)
  }

  /** An access that has gp (x3) as its base at most, and then stays in gp's page. */
  predicate UsesGpWell(cfg: Config, c: Core, i: Instr)
    requires IsMem(i)
  {
    && (i.Load? ==> i.rd != 3) && (i.Store? ==> i.rs2 != 3)
    && (i.rs1 == 3 ==> cfg.dataLo <= Ea(i, c) < cfg.dataLo + cfg.pageSize && -2048 <= i.imm < 2048)
  }

  /** Nothing more is asked of a thread than this. */
  lemma ConventionsMet(cfg: Config, s: AState, t: nat)
    requires ValidEnv(cfg.env) && t in s.threads && !InPath(cfg.env, s.threads[t].core.pc)
    requires s.threads[t].lo <= s.threads[t].core.x[2] <= s.threads[t].hi
    requires var c := s.threads[t].core;
             match cfg.prog(c.pc)
             case Access(i, _) =>
               IsMem(i) ==>
                 && UsesGpWell(cfg, c, i)
                 && forall a: nat :: Ea(i, c) <= a < Ea(i, c) + i.width ==> MayTouch(cfg, s, t, IsStore(i), a)
             case Compute(f) => GpUnused(cfg, f, c)
             case Syscall => c.pc % 2 == 0 && s.threads[t].lo + 304 <= c.x[2] && c.x[17] != 139
             case Direct => c.x[17] != 139
    ensures Ok(cfg, s, t)
  {
    hide InPath, GpUnused, Ea, Hidden;
    var c := s.threads[t].core;
    if cfg.prog(c.pc).Access? && IsMem(cfg.prog(c.pc).instr) {
      var i := cfg.prog(c.pc).instr;
      forall a: nat | Ea(i, c) <= a < Ea(i, c) + i.width
        ensures OkByte(cfg, s, t, IsStore(i), a)
      {
        assert MayTouch(cfg, s, t, IsStore(i), a);
        assert Hidden(s, a) <==> a in s.dead || Below(s.threads, a) by { HiddenIs(s, a); }
      }
    }
  }

  lemma HiddenIs(s: AState, a: nat)
    ensures Hidden(s, a) <==> a in s.dead || Below(s.threads, a)
  {
  }

  /** An operation computed from registers other than gp, which it does not write, uses gp well. */
  lemma BlindToGp(cfg: Config, f: Core -> Core, c: Core)
    requires f(c).x[3] == c.x[3]
    requires f(c.(x := c.x[3 := cfg.env.gp])) == f(c).(x := f(c).x[3 := cfg.env.gp])
    ensures GpUnused(cfg, f, c)
  {
    var c' := c.(x := c.x[3 := cfg.env.gp]);
    assert ComputeOn(f, c').x == WithGp(ComputeOn(f, c), cfg.env.gp).x;
  }
}
