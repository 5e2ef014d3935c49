/**
The results about whole runs of the patched system: any number of threads, any
interleaving, any hook that keeps the calling convention, any kernel.

A run of the patched system stands for one run of the original program under an
interposer, `MatchingRun`: the same program steps, system calls, answers and
hook writes, without the instructions of the interception path. What the results
ask of the program, `OkAlong`, is asked in the states of that one run.
*/
module Theorems {
  import opened Isa
  import opened HookCode
  import opened Interception
  import opened Program
  import opened Original
  import opened Patched
  import opened Refinement
  import opened Steps
  import opened Clone

  // ---- The run of the original program -----------------------------------

  /** A hook's write is an action of the interposer only if the program can see it. */
  function HookWrite(t: nat, visible: map<nat, byte>): seq<AAction> {
    if visible == map[] then [] else [AHookWrite(t, visible)]
  }

  /** What an action of the patched system is in the original program. */
  ghost function Matching(cfg: Config, w: World, a: Action): seq<AAction>
    requires a.t in w.threads
  {
    var outermost := |w.threads[a.t].flights| == 1;
    match a
    case User(t) => [AUser(t)]
    case HookRuns(t, _, writes) => HookWrite(t, Visible(cfg, w, writes))
    case HookReturns(t, core, answer) => if outermost && !Forwards(answer) then [AAnswer(t, core.x[A0])] else []
    case Kernel(t, reply, writes, child) =>
      if outermost then [AKernel(t, reply, writes, child)] else HookWrite(t, Visible(cfg, w, writes))
    case Unseen(t, reply, writes, child) => [AKernel(t, reply, writes, child)]
    case Exit(t) => [AExit(t)]
    case _ => []
  }

  ghost function MatchingRun(cfg: Config, w: World, acts: seq<Action>): seq<AAction>
    requires ValidEnv(cfg.env) && Runs(cfg, w, acts)
    decreases |acts|
  {
    if acts == [] then []
    else Matching(cfg, w, acts[0]) + MatchingRun(cfg, Apply(cfg, w, acts[0]), acts[1..])
  }

  /** An action that only forwards: no answer of a hook's own, no write into the program's memory by a hook. */
  ghost predicate Silent(cfg: Config, w: World, a: Action)
    requires a.t in w.threads
  {
    match a
    case HookRuns(_, _, writes) => Visible(cfg, w, writes) == map[]
    case HookReturns(t, _, answer) => |w.threads[t].flights| == 1 ==> Forwards(answer)
    case Kernel(t, _, writes, _) => |w.threads[t].flights| > 1 ==> Visible(cfg, w, writes) == map[]
    case _ => true
  }

  ghost predicate RunIsSilent(cfg: Config, w: World, acts: seq<Action>)
    requires ValidEnv(cfg.env) && Runs(cfg, w, acts)
    decreases |acts|
  {
    acts == [] || (Silent(cfg, w, acts[0]) && RunIsSilent(cfg, Apply(cfg, w, acts[0]), acts[1..]))
  }

  // ---- One step -----------------------------------------------------------

  lemma OneStep(cfg: Config, s: AState, a: AAction)
    requires AEnabled(cfg, s, a)
    ensures ARuns(cfg, s, [a]) && AEnd(cfg, s, [a]) == AApply(cfg, s, a)
  {
    assert [a][1..] == [];
  }

  lemma HookWriteStep(cfg: Config, s: AState, t: nat, visible: map<nat, byte>)
    requires AEnabled(cfg, s, AHookWrite(t, visible))
    ensures ARuns(cfg, s, HookWrite(t, visible))
    ensures AEnd(cfg, s, HookWrite(t, visible)) == AApply(cfg, s, AHookWrite(t, visible))
  {
    if visible == map[] {
      NoVisibleWrite(cfg, s, t, visible);
    } else {
      OneStep(cfg, s, AHookWrite(t, visible));
    }
  }

  lemma UserMatched(cfg: Config, w: World, s: AState, t: nat)
    requires ValidConfig(cfg) && Related(cfg, w, s) && AllOk(cfg, s) && Enabled(cfg, w, User(t))
    ensures AEnabled(cfg, s, AUser(t)) && Related(cfg, Apply(cfg, w, User(t)), AApply(cfg, s, AUser(t)))
  {
    hide Related, AllOk, Apply, AApply, AEnabled;
    if cfg.prog(w.threads[t].core.pc).Compute? {
      ComputeMatched(cfg, w, s, t);
    } else {
      AccessMatched(cfg, w, s, t);
    }
  }

  /** The actions in which the kernel takes part. */
  lemma KernelActionMatched(cfg: Config, w: World, s: AState, a: Action)
    requires ValidConfig(cfg) && Related(cfg, w, s) && AllOk(cfg, s) && Enabled(cfg, w, a)
    requires a.Kernel? || a.Unseen? || a.Exit?
    ensures ARuns(cfg, s, Matching(cfg, w, a))
    ensures Related(cfg, Apply(cfg, w, a), AEnd(cfg, s, Matching(cfg, w, a)))
  {
    hide Related, AllOk, Apply, AApply, AEnabled, Visible, InPath, PathInstr, UserVisible, ARuns, AEnd;
    match a {
      case Kernel(t, reply, writes, child) =>
        var _ := KernelThread(cfg, w, s, t, reply, writes, child);
        if |w.threads[t].flights| == 1 {
          match child {
            case Some(c) => CloneMatched(cfg, w, s, t, reply, writes, c);
            case None => KernelMatched(cfg, w, s, t, reply, writes);
          }
          OneStep(cfg, s, AKernel(t, reply, writes, child));
        } else {
          InnerKernelMatched(cfg, w, s, t, reply, writes);
          HookWriteStep(cfg, s, t, Visible(cfg, w, writes));
        }
      case Unseen(t, reply, writes, child) =>
        match child {
          case Some(c) => UnseenCloneMatched(cfg, w, s, t, reply, writes, c);
          case None => UnseenMatched(cfg, w, s, t, reply, writes);
        }
        OneStep(cfg, s, AKernel(t, reply, writes, child));
      case Exit(t) =>
        ExitMatched(cfg, w, s, t);
        OneStep(cfg, s, AExit(t));
    }
  }

  /** Every action of the patched system is one action of the specification, or none. */
  lemma StepRefines(cfg: Config, w: World, s: AState, a: Action)
    requires ValidConfig(cfg) && Related(cfg, w, s) && AllOk(cfg, s) && Enabled(cfg, w, a)
    ensures ARuns(cfg, s, Matching(cfg, w, a))
    ensures Related(cfg, Apply(cfg, w, a), AEnd(cfg, s, Matching(cfg, w, a)))
  {
    hide Related, AllOk, Apply, AApply, AEnabled, Visible, InPath, PathInstr, UserVisible;
    match a {
      case User(t) =>
        UserMatched(cfg, w, s, t);
        OneStep(cfg, s, AUser(t));
      case Enter(t) => EnterIsUnnoticed(cfg, w, s, t);
      case Path(t) => PathIsUnnoticed(cfg, w, s, t);
      case HookRuns(t, core, writes) =>
        HookRunsMatched(cfg, w, s, t, core, writes);
        HookWriteStep(cfg, s, t, Visible(cfg, w, writes));
      case HookReturns(t, core, answer) =>
        if |w.threads[t].flights| == 1 && !Forwards(answer) {
          AnswerMatched(cfg, w, s, t, core, answer);
          OneStep(cfg, s, AAnswer(t, core.x[A0]));
        } else {
          ForwardUnnoticed(cfg, w, s, t, core, answer);
        }
      case _ => KernelActionMatched(cfg, w, s, a);
    }
  }

  lemma SilentIsOriginal(cfg: Config, w: World, s: AState, a: Action)
    requires ValidConfig(cfg) && Related(cfg, w, s) && AllOk(cfg, s) && Enabled(cfg, w, a)
    ensures a.t in w.threads && |Matching(cfg, w, a)| <= 1
    ensures Silent(cfg, w, a) ==> AllOriginal(Matching(cfg, w, a))
  {
    hide Related, AllOk, PathInstr, InPath, Visible, UserVisible;
    if a.Kernel? { var _ := PathOnly(cfg, w, s, a.t); }
  }

  // ---- Whole runs -----------------------------------------------------------

  lemma {:induction false} Joined(cfg: Config, s: AState, a: seq<AAction>, b: seq<AAction>)
    requires ARuns(cfg, s, a) && ARuns(cfg, AEnd(cfg, s, a), b) && |a| <= 1
    ensures ARuns(cfg, s, a + b) && AEnd(cfg, s, a + b) == AEnd(cfg, AEnd(cfg, s, a), b)
  {
    hide AEnabled, AApply;
    if a == [] {
      assert a + b == b;
    } else {
      assert (a + b)[0] == a[0] && (a + b)[1..] == b;
    }
  }

  lemma OkAfter(cfg: Config, s: AState, a: seq<AAction>, b: seq<AAction>)
    requires ValidEnv(cfg.env) && ARuns(cfg, s, a) && |a| <= 1 && OkAlong(cfg, s, a + b)
    ensures OkAlong(cfg, AEnd(cfg, s, a), b)
  {
    hide AEnabled, AApply, AllOk;
    if a == [] {
      assert a + b == b;
    } else {
      assert (a + b)[0] == a[0] && (a + b)[1..] == b;
      assert a == [a[0]];
    }
  }

  /**
  The patched system follows the original program for as long as that keeps the
  conventions: either the whole run is matched, or the original program, on the
  very run matched so far, has reached a state in which it breaks them.
  */
  lemma {:induction false} RunRefines(cfg: Config, w: World, s: AState, acts: seq<Action>) returns (k: nat)
    requires ValidConfig(cfg) && Related(cfg, w, s) && Runs(cfg, w, acts)
    ensures k <= |acts| && Runs(cfg, w, acts[..k]) && ARuns(cfg, s, MatchingRun(cfg, w, acts[..k]))
    ensures Related(cfg, End(cfg, w, acts[..k]), AEnd(cfg, s, MatchingRun(cfg, w, acts[..k])))
    ensures k < |acts| ==> !AllOk(cfg, AEnd(cfg, s, MatchingRun(cfg, w, acts[..k])))
    ensures RunIsSilent(cfg, w, acts[..k]) ==> AllOriginal(MatchingRun(cfg, w, acts[..k]))
    ensures OkAlong(cfg, s, MatchingRun(cfg, w, acts)) ==>
              k == |acts| && AllOk(cfg, AEnd(cfg, s, MatchingRun(cfg, w, acts[..k])))
    decreases |acts|
  {
    hide Related, Enabled, Apply, AApply, AEnabled, Silent, Matching, AllOk;
    if acts == [] || !AllOk(cfg, s) {
      k := 0;
      assert acts[..0] == [];
      assert acts == [] ==> acts[..k] == acts;
    } else {
      var a, w1 := acts[0], Apply(cfg, w, acts[0]);
      SilentIsOriginal(cfg, w, s, a);
      var first := Matching(cfg, w, a);
      StepRefines(cfg, w, s, a);
      var s1 := AEnd(cfg, s, first);
      var n := RunRefines(cfg, w1, s1, acts[1..]);
      k := n + 1;
      assert acts[..k][0] == a && acts[..k][1..] == acts[1..][..n];
      var rest := MatchingRun(cfg, w1, acts[1..][..n]);
      assert MatchingRun(cfg, w, acts[..k]) == first + rest;
      Joined(cfg, s, first, rest);
      if OkAlong(cfg, s, MatchingRun(cfg, w, acts)) {
        OkAfter(cfg, s, first, MatchingRun(cfg, w1, acts[1..]));
      }
    }
  }

  /** What a program thread and the memory it may look at are in the original program. */
  ghost predicate SameToTheProgram(cfg: Config, w: World, s: AState) {
    && (forall t :: t in w.threads && w.threads[t].flights == [] ==>
          && t in s.threads
          && s.threads[t].core.pc == w.threads[t].core.pc
          && s.threads[t].core.f == w.threads[t].core.f
          && (forall r: Reg :: r != GP ==> s.threads[t].core.x[r] == w.threads[t].core.x[r])
          && s.threads[t].core.x[GP] == cfg.env.gp0 && w.threads[t].core.x[GP] == cfg.env.gp)
    && (forall a: nat :: a !in cfg.own && a !in s.dead && !Below(s.threads, a) ==> Byte(w.mem, a) == Byte(s.mem, a))
    && w.log == s.log
  }

  lemma RelatedIsSame(cfg: Config, w: World, s: AState)
    requires ValidConfig(cfg) && Related(cfg, w, s)
    ensures SameToTheProgram(cfg, w, s)
  {
    forall t | t in w.threads && w.threads[t].flights == []
      ensures s.threads[t].core == WithGp(w.threads[t].core, cfg.env.gp0) && w.threads[t].core.x[GP] == cfg.env.gp
    {
      UserCore(cfg, w, s, t);
    }
    hide Inv;
  }

  /**
  Rewriting preserves meaning. For every run of the patched system, with any
  hooks, the matching run of the program under an interposer has the same log of
  requests and answers; whenever a thread is in program code its registers but
  gp are the original's, and so is the memory wherever the program may look.
  */
  lemma PatchedRefinesInterposed(cfg: Config, w: World, s: AState, acts: seq<Action>)
    requires ValidConfig(cfg) && Related(cfg, w, s) && Runs(cfg, w, acts)
    requires OkAlong(cfg, s, MatchingRun(cfg, w, acts))
    ensures ARuns(cfg, s, MatchingRun(cfg, w, acts))
    ensures SameToTheProgram(cfg, End(cfg, w, acts), AEnd(cfg, s, MatchingRun(cfg, w, acts)))
  {
    hide Related, OkAlong, SameToTheProgram, Runs, ARuns, AEnd, End, MatchingRun;
    var k := RunRefines(cfg, w, s, acts);
    assert acts[..k] == acts;
    RelatedIsSame(cfg, End(cfg, w, acts), AEnd(cfg, s, MatchingRun(cfg, w, acts)));
  }

  /** With hooks that only forward, or none, the matching run is one of the original program alone. */
  lemma ForwardingPreservesMeaning(cfg: Config, w: World, s: AState, acts: seq<Action>)
    requires ValidConfig(cfg) && Related(cfg, w, s) && Runs(cfg, w, acts)
    requires RunIsSilent(cfg, w, acts) && OkAlong(cfg, s, MatchingRun(cfg, w, acts))
    ensures AllOriginal(MatchingRun(cfg, w, acts)) && ARuns(cfg, s, MatchingRun(cfg, w, acts))
    ensures SameToTheProgram(cfg, End(cfg, w, acts), AEnd(cfg, s, MatchingRun(cfg, w, acts)))
  {
    hide Related, OkAlong, SameToTheProgram, Runs, ARuns, AEnd, End, MatchingRun, RunIsSilent, AllOriginal;
    var k := RunRefines(cfg, w, s, acts);
    assert acts[..k] == acts;
    RelatedIsSame(cfg, End(cfg, w, acts), AEnd(cfg, s, MatchingRun(cfg, w, acts)));
  }

  // ---- What every reachable state satisfies ------------------------------

  /** `w` is reached by a run whose original keeps the conventions. */
  ghost predicate Reachable(cfg: Config, w0: World, s0: AState, w: World)
    requires ValidConfig(cfg)
  {
    && Related(cfg, w0, s0)
    && exists acts :: Runs(cfg, w0, acts) && OkAlong(cfg, s0, MatchingRun(cfg, w0, acts)) && w == End(cfg, w0, acts)
  }

  lemma ReachableRelated(cfg: Config, w0: World, s0: AState, w: World) returns (s: AState)
    requires ValidConfig(cfg) && Reachable(cfg, w0, s0, w)
    ensures Related(cfg, w, s) && AllOk(cfg, s)
  {
    hide Related, OkAlong, AllOk, Runs, ARuns, AEnd, End, MatchingRun;
    var acts :| Runs(cfg, w0, acts) && OkAlong(cfg, s0, MatchingRun(cfg, w0, acts)) && w == End(cfg, w0, acts);
    var k := RunRefines(cfg, w0, s0, acts);
    assert acts[..k] == acts;
    s := AEnd(cfg, s0, MatchingRun(cfg, w0, acts));
  }
}
