/**
Initialisation in the order of `__vpoline_init`: the generated words go into the
shadow page at and below the relocated gp, and the system starts in a state from
which the results about runs apply.
*/
module Setup {
  import opened Isa
  import opened Patcher
  import opened HookCode
  import opened Program
  import opened Original
  import opened Patched
  import opened Refinement
  import opened Layout

  // ---- Words into memory ------------------------------------------------

  function WriteWords(m: Mem, a: nat, words: seq<u32>): Mem
    decreases |words|
  {
    if words == [] then m else WriteWords(StoreLE(m, a, 4, words[0]), a + 4, words[1..])
  }

  lemma {:induction false} WordsOutside(m: Mem, a: nat, words: seq<u32>)
    ensures SameOutside(m, WriteWords(m, a, words), a, a + 4 * |words|)
    decreases |words|
  {
    if words != [] {
      var m1 := StoreLE(m, a, 4, words[0]);
      StoreFrame(m, a, 4, words[0]);
      hide StoreLE;
      WordsOutside(m1, a + 4, words[1..]);
    }
  }

  lemma {:induction false} WordsInside(m: Mem, a: nat, words: seq<u32>, i: nat)
    requires i < |words|
    ensures LoadWord(WriteWords(m, a, words), a + 4 * i) == words[i]
    decreases |words|
  {
    var m1 := StoreLE(m, a, 4, words[0]);
    WidthFits(4);
    if i == 0 {
      LoadStored(m, a, 4, words[0]);
      WordsOutside(m1, a + 4, words[1..]);
      hide StoreLE, LoadLE;
      LoadSame(m1, WriteWords(m1, a + 4, words[1..]), a, 4);
    } else {
      WordsInside(m1, a + 4, words[1..], i - 1);
    }
  }

  /** The trampoline words at gp, then the return words below it. */
  function Installed(gp: nat, m: Mem, trampoline: seq<u32>, beforeGp: seq<u32>): Mem
    requires gp >= RET_SEQUENCE_SIZE
  {
    WriteWords(WriteWords(m, gp, trampoline), gp - RET_SEQUENCE_SIZE, beforeGp)
  }

  lemma InstalledWords(gp: nat, m: Mem, trampoline: seq<u32>, beforeGp: seq<u32>)
    requires gp >= RET_SEQUENCE_SIZE && |trampoline| == TRAMPOLINE_WORDS && |beforeGp| == RETURN_WORDS
    ensures var m' := Installed(gp, m, trampoline, beforeGp);
            && (forall i: nat {:trigger trampoline[i]} :: i < TRAMPOLINE_WORDS ==> LoadWord(m', gp + 4 * i) == trampoline[i])
            && (forall k: nat {:trigger beforeGp[k]} :: k < RETURN_WORDS ==> LoadWord(m', gp - 56 + 4 * k) == beforeGp[k])
            && SameOutside(m, m', gp - RET_SEQUENCE_SIZE, gp + TRAMPOLINE_SIZE)
  {
    hide WriteWords, LoadLE;
    var m1 := WriteWords(m, gp, trampoline);
    var m' := WriteWords(m1, gp - RET_SEQUENCE_SIZE, beforeGp);
    WordsOutside(m, gp, trampoline);
    WordsOutside(m1, gp - RET_SEQUENCE_SIZE, beforeGp);
    forall i: nat | i < TRAMPOLINE_WORDS
      ensures LoadWord(m', gp + 4 * i) == trampoline[i]
    {
      WordsInside(m, gp, trampoline, i);
      LoadSame(m1, m', gp + 4 * i, 4);
    }
    forall k: nat | k < RETURN_WORDS
      ensures LoadWord(m', gp - 56 + 4 * k) == beforeGp[k]
    {
      WordsInside(m1, gp - RET_SEQUENCE_SIZE, beforeGp, k);
    }
  }

  lemma InstalledHolds(env: Env, m: Mem, trampoline: seq<u32>, beforeGp: seq<u32>)
    requires ValidEnv(env) && |trampoline| == TRAMPOLINE_WORDS && |beforeGp| == RETURN_WORDS
    requires forall i :: 0 <= i < TRAMPOLINE_WORDS ==> Decode32(trampoline[i]) == TrampolineInstr(env.asmHook, i)
    requires forall k :: 0 <= k < RETURN_WORDS ==> Decode32(beforeGp[k]) == ReturnInstr(k)
    ensures PageHolds(env, Installed(env.gp, m, trampoline, beforeGp))
    ensures SameOutside(m, Installed(env.gp, m, trampoline, beforeGp), env.gp - RET_SEQUENCE_SIZE, env.gp + TRAMPOLINE_SIZE)
  {
    hide Installed, Decode32, TrampolineInstr, ReturnInstr, LoadWord;
    InstalledWords(env.gp, m, trampoline, beforeGp);
  }

  /** `setup_shadow_page_trampoline` and `setup_return`, written to memory. */
  method InstallShadowPage(env: Env, m: Mem) returns (m': Mem)
    requires ValidEnv(env)
    ensures PageHolds(env, m')
    ensures SameOutside(m, m', env.gp - RET_SEQUENCE_SIZE, env.gp + TRAMPOLINE_SIZE)
  {
    hide Installed, Decode32, TrampolineInstr, ReturnInstr, PageHolds, SameOutside;
    var trampoline := new u32[TRAMPOLINE_WORDS];
    SetupShadowPageTrampoline(trampoline, env.asmHook);
    var beforeGp := new u32[RETURN_WORDS];
    SetupReturn(beforeGp);
    m' := Installed(env.gp, m, trampoline[..], beforeGp[..]);
    InstalledHolds(env, m, trampoline[..], beforeGp[..]);
  }

  // ---- Where the results start ------------------------------------------

  /** The geometry that utils.c computes, for a safe layout, is the one the program model asks for. */
  lemma SafeLayoutIsValid(cfg: Config, mapping: u64)
    requires 0 < cfg.pageSize < W64
    requires 56 <= cfg.env.gp0 % cfg.pageSize <= cfg.pageSize - 80
    requires IsMapping(mapping, ProtectionSize(cfg.env.gp0, cfg.pageSize), cfg.pageSize)
    requires cfg.pageLo == mapping && cfg.env.gp == mapping + cfg.env.gp0 % cfg.pageSize
    requires cfg.dataLo == StartAddrPage(cfg.env.gp0, cfg.pageSize) && cfg.dataLo + cfg.pageSize <= W64
    ensures cfg.pageLo + cfg.pageSize <= W64 && cfg.dataLo + cfg.pageSize <= W64
    ensures cfg.pageLo + 56 <= cfg.env.gp && cfg.env.gp + 80 <= cfg.pageLo + cfg.pageSize
    ensures cfg.env.gp - cfg.pageLo == cfg.env.gp0 - cfg.dataLo
  {
    OnePage(cfg.env.gp0, cfg.pageSize);
    LayoutSafeIff(cfg.env.gp0, cfg.pageSize, mapping);
    hide ProtectionSize, StartAddrPage;
  }

  /** The program as it would run without vpoline, from the same memory. */
  ghost function Unpatched(cfg: Config, w: World): AState {
    AState(w.mem, map t | t in w.threads :: AbsThread(cfg, w.threads[t]), {}, [])
  }

  /** Right after initialisation: every thread in program code with the relocated gp. */
  lemma InitiallyRelated(cfg: Config, w: World)
    requires ValidConfig(cfg) && PageHolds(cfg.env, w.mem) && LoadDouble(w.mem, cfg.env.gpVar) == cfg.env.gp
    requires HoldsCode(w.mem, cfg.code) && StacksApart(cfg, w.threads) && w.log == []
    requires forall t :: t in w.threads ==> w.threads[t].flights == [] && w.threads[t].core.x[GP] == cfg.env.gp
    ensures Related(cfg, w, Unpatched(cfg, w))
  {
    hide PageHolds, LoadDouble, HoldsCode, AbsThread;
    assert Inv(cfg, w);
  }
}
