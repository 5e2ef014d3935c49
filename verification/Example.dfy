/**
A system that meets every assumption of the results about runs: a main program
that copies a variable relative to gp, makes a system call that the sweep does not
see and calls a function of libc, which opens a frame, saves its return address
there, makes a system call, reloads the address and returns; over and over,
started the way `__vpoline_init` leaves it.
*/
module Example {
  import opened Bits
  import opened Isa
  import opened HookCode
  import opened Program
  import opened Original
  import opened Patched
  import opened Refinement
  import opened Completeness
  import opened Setup
  import opened Rewriting

  const LIBC: u64 := 0x1000
  const SITE: u64 := 0x1008
  const MAIN: u64 := 0x8000
  const LINK: u64 := 0x8010
  const NR_WRITE: u64 := 64
  const STACK_LO: nat := 0x6_0000
  const STACK_HI: nat := 0x7_0000
  const STACK_TOP: u64 := 0x6_f000
  const SAVED_RA: u64 := 0x6_eff8

  const ENV := Env(0x2_0800, 0x1_0800, 0x3_0000, 0x4_0000, 0x5_0000)

  /** addi sp, sp, -16; sd ra, 8(sp) */
  const OPENING: seq<byte> := [0x13, 0x01, 0x01, 0xff, 0x23, 0x34, 0x11, 0x00]

  /** ld ra, 8(sp); addi sp, sp, 16; ret */
  const TAIL: seq<byte> := [0x83, 0x30, 0x81, 0x00, 0x13, 0x01, 0x01, 0x01, 0x67, 0x80, 0x00, 0x00]

  /** ld t1, 16(gp); sd t1, 24(gp); ecall; jal ra, 0x1000; j 0x8000 */
  const MAIN_CODE: seq<byte> :=
    [0x03, 0xb3, 0x01, 0x01, 0x23, 0xbc, 0x61, 0x00, 0x73, 0x00, 0x00, 0x00, 0xef, 0x80, 0x5f, 0xff, 0x6f, 0xf0, 0x1f, 0xff]

  /** A disassembler for words. */
  function WordDecoder(s: seq<byte>): Sweep.Decoded {
    if |s| < 4 then Sweep.Decoded(0, false) else Sweep.Decoded(4, s[..4] == Sweep.ECALL)
  }

  /** Words outside the reference do not occur. */
  function NoOther(w: nat): Core -> Core {
    (c: Core) => c
  }

  const TEXT := Text(LIBC, OPENING + Sweep.ECALL + TAIL, WordDecoder, NoOther)
  const SWEPT := Text(LIBC, OPENING + Sweep.JALR + TAIL, WordDecoder, NoOther)
  const REST := Text(MAIN, MAIN_CODE, WordDecoder, NoOther)
  const CODE: map<nat, byte> := Loaded(SWEPT) + Loaded(REST)

  function Prog(pc: u64): UserOp {
    if pc == SITE then Syscall
    else if Inside(TEXT, pc) then OpAt(NoOther, Loaded(TEXT), pc)
    else OpAt(NoOther, CODE, pc)
  }

  const CONFIG :=
    Config(ENV, Prog, Span(0x2_0000, 0x2_1000) + Span(0x5_0000, 0x5_0008) + Span(0x1000, 0x1018),
           0x2_0000, 0x1000, 0x1_0000, CODE)

  lemma CodeByte(a: nat)
    ensures a in CODE <==> Inside(TEXT, a) || Inside(REST, a)
    ensures Inside(TEXT, a) ==> CODE[a] == SWEPT.image[a - LIBC]
    ensures Inside(REST, a) ==> CODE[a] == REST.image[a - MAIN]
  {
  }

  lemma ConfigIsValid()
    ensures ValidConfig(CONFIG) && DefaultLayout(CONFIG)
  {
    forall a: nat | Fixed(CONFIG, a)
      ensures Guarded(CONFIG, a)
    {
      if a !in CODE {
        assert InRange(a, 0x2_0000, 0x2_1000) || InRange(a, 0x5_0000, 0x5_0008);
      }
    }
    forall a: nat | InPage(CONFIG, a)
      ensures a in CONFIG.own
    {
      assert InRange(a, 0x2_0000, 0x2_1000);
    }
    assert !InPath(ENV, ENV.syscallHook);
  }

  // ---- The text -------------------------------------------------------------

  lemma DecoderIsValid()
    ensures Sweep.ValidDecoder(WordDecoder)
  {
  }

  lemma {:induction false} NoEcallInside(s: seq<byte>, i: nat)
    requires Sweep.ValidDecoder(WordDecoder) && i < |s| && |s| % 4 == 0
    requires forall k: nat :: k < |s| && k % 4 == 0 ==> s[k] != 0x73
    ensures Sweep.SiteOffset(WordDecoder, s, i) == Sweep.NoSite
    decreases |s|
  {
    assert s[..4][0] == s[0];
    assert Sweep.FirstStep(WordDecoder, s) == Sweep.Plain(4);
    if i >= 4 {
      forall k: nat | k < |s[4..]| && k % 4 == 0
        ensures s[4..][k] != 0x73
      {
        assert s[4..][k] == s[k + 4];
      }
      NoEcallInside(s[4..], i - 4);
    }
  }

  /** The sweep visits the one ecall and nothing else. */
  lemma OneSite(i: nat)
    requires i < 24
    ensures Sweep.ValidDecoder(WordDecoder)
    ensures Sweep.SiteOffset(WordDecoder, TEXT.image, i) == if 8 <= i < 12 then Sweep.At(i - 8) else Sweep.NoSite
  {
    DecoderIsValid();
    TailHasNoEcall();
    hide Sweep.ValidDecoder, WordDecoder, Sweep.SiteOffset;
    var s := TEXT.image;
    PlainFirst(s, i);
    if i >= 4 {
      PlainFirst(s[4..], i - 4);
      assert s[4..][4..] == Sweep.ECALL + TAIL;
      if i >= 8 {
        EcallFirst(TAIL, i - 8);
        if i >= 12 { NoEcallInside(TAIL, i - 12); }
      }
    }
  }

  lemma PlainFirst(s: seq<byte>, i: nat)
    requires Sweep.ValidDecoder(WordDecoder) && i < |s| && |s| >= 4 && s[0] != 0x73
    ensures Sweep.SiteOffset(WordDecoder, s, i)
            == if i < 4 then Sweep.NoSite else Sweep.SiteOffset(WordDecoder, s[4..], i - 4)
  {
    hide Sweep.ValidDecoder;
    assert s[..4][0] == s[0];
    assert Sweep.FirstStep(WordDecoder, s) == Sweep.Plain(4);
  }

  lemma EcallFirst(tail: seq<byte>, i: nat)
    requires Sweep.ValidDecoder(WordDecoder) && i < 4 + |tail|
    ensures Sweep.SiteOffset(WordDecoder, Sweep.ECALL + tail, i)
            == if i < 4 then Sweep.At(i) else Sweep.SiteOffset(WordDecoder, tail, i - 4)
  {
    hide Sweep.ValidDecoder;
    var s := Sweep.ECALL + tail;
    assert s[..4] == Sweep.ECALL && s[4..] == tail;
    assert Sweep.FirstStep(WordDecoder, s) == Sweep.Site;
  }

  lemma TailHasNoEcall()
    ensures |TAIL| == 12 && forall k: nat :: k < |TAIL| && k % 4 == 0 ==> TAIL[k] != 0x73
  {
    forall k: nat | k < 12 && k % 4 == 0
      ensures TAIL[k] != 0x73
    {
      assert k == 0 || k == 4 || k == 8;
    }
  }

  lemma RewrittenText()
    ensures Sweep.ValidDecoder(WordDecoder) && Sweep.Rewritten(WordDecoder, TEXT.image) == SWEPT.image
  {
    DecoderIsValid();
    var t := Sweep.Rewritten(WordDecoder, TEXT.image);
    hide Sweep.Rewritten, Sweep.ValidDecoder;
    forall i: nat | i < 24
      ensures t[i] == SWEPT.image[i]
    {
      OneSite(i);
      Sweep.OnlyVisitedEcallsChange(WordDecoder, TEXT.image, i);
    }
  }

  lemma ConfigRunsText()
    ensures RunsText(CONFIG, TEXT)
  {
    DecoderIsValid();
    RewrittenText();
    hide Sweep.Rewritten, Sweep.ValidDecoder, Loaded, OpAt, Sweep.SiteOffset, WordDecoder;
    forall a: nat | Inside(TEXT, a)
      ensures a in CONFIG.own && a in CODE && CODE[a] == SWEPT.image[a - LIBC]
    {
      CodeByte(a);
      assert InRange(a, 0x1000, 0x1018);
    }
    forall pc: u64 | Inside(TEXT, pc)
      ensures SiteAt(TEXT, pc) <==> pc == SITE
    {
      OneSite(pc - LIBC);
    }
    forall pc: u64 | !Inside(TEXT, pc)
      ensures !Prog(pc).Syscall?
    {
      NeverSyscall(pc);
    }
    forall pc: u64 | Unswept(CONFIG, TEXT, pc)
      ensures !Inside(TEXT, pc)
    {
      SomeLength(CODE, pc);
      assert pc in CODE && !Inside(TEXT, pc);
    }
  }

  lemma NeverSyscall(pc: u64)
    ensures !OpAt(NoOther, CODE, pc).Syscall?
  {
    hide FetchInstr, FetchLen, FetchWord;
  }

  lemma SomeLength(m: Mem, pc: nat)
    ensures FetchLen(m, pc) >= 2
  {
    hide Is32Bit;
  }

  // ---- The instructions -------------------------------------------------------

  function Listed(k: nat): Instr {
    match k
    case 0 => Addi(SP, SP, -16)
    case 1 => Store(8, RA, SP, 8)
    case 2 => Ecall
    case 3 => Load(8, true, RA, SP, 8)
    case 4 => Addi(SP, SP, 16)
    case 5 => Jalr(ZERO, RA, 0)
    case 6 => Load(8, true, T1, GP, 16)
    case 7 => Store(8, T1, GP, 24)
    case 8 => Ecall
    case 9 => Jal(RA, -0x700c)
    case _ => Jal(ZERO, -16)
  }

  function Word(k: nat): u32 {
    match k
    case 0 => 0xff01_0113
    case 1 => 0x0011_3423
    case 2 => 0x73
    case 3 => 0x0081_3083
    case 4 => 0x0101_0113
    case 5 => 0x0000_8067
    case 6 => 0x0101_b303
    case 7 => 0x0061_bc23
    case 8 => 0x73
    case 9 => 0xff5f_80ef
    case _ => 0xff1f_f06f
  }

  function PcAt(k: nat): nat {
    if k < 6 then LIBC + 4 * k else MAIN + 4 * (k - 6)
  }

  lemma OpenFrameDecodes()
    ensures Decode32(Word(0)) == Listed(0)
  {
  }

  lemma SpillDecodes()
    ensures Decode32(Word(1)) == Listed(1)
  {
  }

  lemma EcallDecodes()
    ensures Decode32(Word(2)) == Listed(2) && Decode32(Word(8)) == Listed(8)
  {
  }

  lemma ReloadDecodes()
    ensures Decode32(Word(3)) == Listed(3)
  {
  }

  lemma CloseFrameDecodes()
    ensures Decode32(Word(4)) == Listed(4)
  {
  }

  lemma ReturnDecodes()
    ensures Decode32(Word(5)) == Listed(5)
  {
  }

  lemma MainLoadDecodes()
    ensures Decode32(Word(6)) == Listed(6)
  {
  }

  lemma MainStoreDecodes()
    ensures Decode32(Word(7)) == Listed(7)
  {
  }

  lemma CallOffset()
    ensures ImmJ(0xff5f_80ef) == -0x700c
  {
    DivModUnique(0xff5f80ef, 0x200000, 0x7fa, 0x1f80ef);
    DivModUnique(0xff5f80ef, 0x100000, 0xff5, 0xf80ef);
    DivModUnique(0xff5f80ef, 0x1000, 0xff5f8, 0xef);
    DivModUnique(0xff5f80ef, 0x80000000, 0x1, 0x7f5f80ef);
    DivModUnique(0x7fa, 0x400, 0x1, 0x3fa);
    DivModUnique(0xff5, 0x2, 0x7fa, 0x1);
    DivModUnique(0xff5f8, 0x100, 0xff5, 0xf8);
  }

  lemma CallDecodes()
    ensures Decode32(Word(9)) == Listed(9)
  {
    CallOffset();
    hide ImmJ;
  }

  lemma MainJumpOffset()
    ensures ImmJ(0xff1f_f06f) == -16
  {
    DivModUnique(0xff1ff06f, 0x200000, 0x7f8, 0x1ff06f);
    DivModUnique(0xff1ff06f, 0x100000, 0xff1, 0xff06f);
    DivModUnique(0xff1ff06f, 0x1000, 0xff1ff, 0x6f);
    DivModUnique(0xff1ff06f, 0x80000000, 0x1, 0x7f1ff06f);
    DivModUnique(0x7f8, 0x400, 0x1, 0x3f8);
    DivModUnique(0xff1, 0x2, 0x7f8, 0x1);
    DivModUnique(0xff1ff, 0x100, 0xff1, 0xff);
  }

  lemma MainJumpDecodes()
    ensures Decode32(Word(10)) == Listed(10)
  {
    MainJumpOffset();
    hide ImmJ;
  }

  lemma ListedDecodes(k: nat)
    requires k < 11
    ensures Decode32(Word(k)) == Listed(k)
  {
    hide Decode32, Word, Listed;
    OpenFrameDecodes();
    SpillDecodes();
    EcallDecodes();
    ReloadDecodes();
    CloseFrameDecodes();
    ReturnDecodes();
    MainLoadDecodes();
    MainStoreDecodes();
    CallDecodes();
    MainJumpDecodes();
    assert k < 6 ==> k == 0 || k == 1 || k == 2 || k == 3 || k == 4 || k == 5;
    assert 6 <= k ==> k == 6 || k == 7 || k == 8 || k == 9 || k == 10;
  }

  /** The text that instruction `k` is in, as loaded. */
  function HomeOf(k: nat): Text { if k < 6 then TEXT else REST }

  /** The bytes of instruction `k`. */
  function Quad(k: nat): (byte, byte, byte, byte) {
    match k
    case 0 => (0x13, 0x01, 0x01, 0xff)
    case 1 => (0x23, 0x34, 0x11, 0x00)
    case 2 => (0x73, 0x00, 0x00, 0x00)
    case 3 => (0x83, 0x30, 0x81, 0x00)
    case 4 => (0x13, 0x01, 0x01, 0x01)
    case 5 => (0x67, 0x80, 0x00, 0x00)
    case 6 => (0x03, 0xb3, 0x01, 0x01)
    case 7 => (0x23, 0xbc, 0x61, 0x00)
    case 8 => (0x73, 0x00, 0x00, 0x00)
    case 9 => (0xef, 0x80, 0x5f, 0xff)
    case _ => (0x6f, 0xf0, 0x1f, 0xff)
  }

  lemma QuadIsWord(k: nat)
    requires k < 11
    ensures var q := Quad(k);
            q.0 % 4 == 3 && Word(k) == q.0 as int + 0x100 * (q.1 as int + 0x100 * (q.2 as int + 0x100 * q.3 as int))
  {
  }

  predicate QuadAt(s: seq<byte>, i: nat, k: nat) {
    i + 4 <= |s| && (s[i], s[i + 1], s[i + 2], s[i + 3]) == Quad(k)
  }

  lemma PartsHold()
    ensures QuadAt(OPENING, 0, 0) && QuadAt(OPENING, 4, 1)
    ensures QuadAt(Sweep.ECALL, 0, 2)
    ensures QuadAt(TAIL, 0, 3) && QuadAt(TAIL, 4, 4) && QuadAt(TAIL, 8, 5)
  {
  }

  lemma MainHolds()
    ensures QuadAt(MAIN_CODE, 0, 6) && QuadAt(MAIN_CODE, 4, 7) && QuadAt(MAIN_CODE, 8, 8)
    ensures QuadAt(MAIN_CODE, 12, 9) && QuadAt(MAIN_CODE, 16, 10)
  {
  }

  lemma QuadShifted(head: seq<byte>, s: seq<byte>, tail: seq<byte>, i: nat, k: nat)
    requires QuadAt(s, i, k)
    ensures QuadAt(head + s + tail, |head| + i, k)
  {
    hide Quad;
  }

  lemma TextHolds(k: nat)
    requires k < 6
    ensures QuadAt(TEXT.image, 4 * k, k)
  {
    PartsHold();
    hide QuadAt;
    if k < 2 {
      QuadShifted([], OPENING, Sweep.ECALL + TAIL, 4 * k, k);
      assert [] + OPENING + (Sweep.ECALL + TAIL) == TEXT.image;
    } else if k == 2 {
      QuadShifted(OPENING, Sweep.ECALL, TAIL, 0, k);
    } else {
      QuadShifted(OPENING + Sweep.ECALL, TAIL, [], 4 * k - 12, k);
      assert OPENING + Sweep.ECALL + TAIL + [] == TEXT.image;
    }
  }

  lemma MainHoldsAt(k: nat)
    requires 6 <= k < 11
    ensures QuadAt(MAIN_CODE, 4 * (k - 6), k)
  {
    MainHolds();
    hide QuadAt;
    assert k == 6 || k == 7 || k == 8 || k == 9 || k == 10;
  }

  lemma QuadRead(s: seq<byte>, i: nat, k: nat)
    requires QuadAt(s, i, k) && k < 11
    ensures s[i] % 4 == 3
    ensures Word(k) == s[i] as int + 0x100 * (s[i + 1] as int + 0x100 * (s[i + 2] as int + 0x100 * s[i + 3] as int))
  {
    QuadIsWord(k);
    hide Word, Quad;
  }

  lemma HomeBytes(k: nat)
    requires k < 11
    ensures var s, i := HomeOf(k).image, PcAt(k) - HomeOf(k).base;
            && 0 <= i && i + 4 <= |s| && s[i] % 4 == 3
            && Word(k) == s[i] as int + 0x100 * (s[i + 1] as int + 0x100 * (s[i + 2] as int + 0x100 * s[i + 3] as int))
  {
    hide Word, Quad;
    if k < 6 { TextHolds(k); } else { MainHoldsAt(k); }
    QuadRead(HomeOf(k).image, PcAt(k) - HomeOf(k).base, k);
  }

  lemma LoadedWord(text: Text, i: nat)
    requires i + 4 <= |text.image|
    ensures var s, pc := text.image, text.base + i;
            && LoadWord(Loaded(text), pc)
               == s[i] as int + 0x100 * (s[i + 1] as int + 0x100 * (s[i + 2] as int + 0x100 * s[i + 3] as int))
            && (s[i] % 4 == 3 ==> Is32Bit(Loaded(text), pc))
  {
    hide LoadWord, LoadHalf, Loaded, Byte;
    var pc := text.base + i;
    FourBytes(Loaded(text), pc);
    LoadedByte(text, pc);
    LoadedByte(text, pc + 1);
    LoadedByte(text, pc + 2);
    LoadedByte(text, pc + 3);
    LowBitsOfHalf(text.image[i], text.image[i + 1]);
  }

  lemma LowBitsOfHalf(b: byte, b': byte)
    ensures (b as int + 0x100 * b' as int) % 4 == b % 4
  {
  }

  lemma HomeFetches(k: nat)
    requires k < 11
    ensures var m, pc := Loaded(HomeOf(k)), PcAt(k);
            FetchInstr(m, pc) == Listed(k) && FetchLen(m, pc) == 4 && FetchWord(m, pc) == Word(k)
  {
    hide Decode32, Decode16, LoadWord, LoadHalf, Loaded, Word, Listed, Is32Bit;
    HomeBytes(k);
    LoadedWord(HomeOf(k), PcAt(k) - HomeOf(k).base);
    ListedDecodes(k);
  }

  /** Main's code is fetched from the whole code as from its own. */
  lemma MainFetches(k: nat)
    requires 6 <= k < 11
    ensures FetchInstr(CODE, PcAt(k)) == Listed(k) && FetchLen(CODE, PcAt(k)) == 4 && FetchWord(CODE, PcAt(k)) == Word(k)
    ensures forall a: nat :: PcAt(k) <= a < PcAt(k) + 4 ==> a in CODE && !Inside(TEXT, a)
  {
    hide Decode32, Decode16, LoadLE, Loaded, Word, Listed;
    HomeFetches(k);
    forall a: nat | PcAt(k) <= a < PcAt(k) + 4
      ensures a in CODE && !Inside(TEXT, a) && Byte(Loaded(REST), a) == Byte(CODE, a)
    {
      CodeByte(a);
      LoadedByte(REST, a);
    }
    LoadSame(Loaded(REST), CODE, PcAt(k), 4);
    LoadSame(Loaded(REST), CODE, PcAt(k), 2);
  }

  /** Every instruction that runs is the visited ecall, intact, or never swept. */
  lemma ProgramIsCovered(k: nat)
    requires k < 11
    ensures Sweep.ValidDecoder(WordDecoder)
    ensures if k == 2 then SiteAt(TEXT, SITE) else if k < 6 then Intact(TEXT, PcAt(k)) else Unswept(CONFIG, TEXT, PcAt(k))
  {
    hide Sweep.ValidDecoder, Sweep.SiteOffset, FetchInstr, FetchLen, FetchWord, Loaded, WordDecoder;
    DecoderIsValid();
    HomeFetches(k);
    if k == 2 {
      OneSite(8);
    } else if k < 6 {
      forall j: nat | 4 * k <= j < 4 * k + 4
        ensures Untouched(TEXT, j)
      {
        OneSite(j);
      }
    } else {
      MainFetches(k);
    }
  }

  // ---- The program keeps the conventions -------------------------------------

  /** The return address is in its register, not in the frame. */
  predicate RaLive(k: nat) { k == 0 || k == 1 || k == 4 || k == 5 }

  /** It is in the frame only. */
  predicate Spilled(k: nat) { k == 2 || k == 3 }

  function SpAt(k: nat): u64 { if 1 <= k <= 4 then STACK_TOP - 16 else STACK_TOP }

  /** The processor is about to execute instruction `k`. */
  predicate CoreAt(c: Core, k: nat) {
    && k < 11 && c.pc == PcAt(k) && c.x[SP] == SpAt(k) && c.x[A7] == NR_WRITE && c.x[GP] == ENV.gp0
    && (RaLive(k) ==> c.x[RA] == LINK)
  }

  ghost predicate SlotIntact(s: AState) {
    && LoadDouble(s.mem, SAVED_RA) == LINK
    && forall a: nat :: SAVED_RA <= a < SAVED_RA + 8 ==> a !in s.dead
  }

  /** The one thread is about to execute instruction `k`. */
  ghost predicate LoopAt(s: AState, k: nat) {
    && s.threads.Keys == {0} && s.threads[0].lo == STACK_LO && s.threads[0].hi == STACK_HI && CoreAt(s.threads[0].core, k)
    && (Spilled(k) ==> SlotIntact(s))
    && s.dead <= Span(STACK_LO, STACK_TOP)
  }

  ghost predicate Looping(s: AState) {
    s.threads.Keys == {} || exists k: nat :: LoopAt(s, k)
  }

  /** The writes leave the saved return address alone. */
  predicate Spares(writes: map<nat, byte>) {
    forall a :: a in writes ==> !InRange(a, SAVED_RA, SAVED_RA + 8)
  }

  /** The kernel and the interposer leave the saved return address alone. */
  predicate Behaved(a: AAction) {
    match a
    case AKernel(_, _, writes, _) => Spares(writes)
    case AHookWrite(_, writes) => Spares(writes)
    case _ => true
  }

  predicate IsAccess(k: nat) { k == 1 || k == 3 || k == 6 || k == 7 }

  predicate IsCall(k: nat) { k == 2 || k == 8 }

  predicate IsCompute(k: nat) { k < 11 && !IsAccess(k) && !IsCall(k) }

  lemma ListedKinds(k: nat)
    ensures IsAccess(k) ==> IsMem(Listed(k))
    ensures IsCall(k) ==> Listed(k) == Ecall
    ensures IsCompute(k) ==> !IsMem(Listed(k)) && Plain(Listed(k))
  {
  }

  lemma ProgAt(k: nat)
    requires k < 11
    ensures k == 2 ==> Prog(PcAt(k)) == Syscall
    ensures k == 8 ==> Prog(PcAt(k)) == Direct
    ensures IsAccess(k) ==> Prog(PcAt(k)) == Access(Listed(k), 4)
    ensures IsCompute(k) ==> !IsMem(Listed(k)) && Prog(PcAt(k)) == Compute(RegOp(Listed(k), NoOther(Word(k))))
  {
    hide FetchInstr, FetchLen, Loaded, FetchWord, NoOther, Word, RegOp, Listed;
    ListedKinds(k);
    if k < 6 { HomeFetches(k); } else { MainFetches(k); }
  }

  function Target(k: nat): u64
    requires IsAccess(k)
  {
    if k == 6 then 0x1_0810 else if k == 7 then 0x1_0818 else SAVED_RA
  }

  lemma AccessIsOk(s: AState, k: nat)
    requires LoopAt(s, k) && IsAccess(k)
    ensures IsMem(Listed(k)) && GpOnlyBase(Listed(k)) && OkAccess(CONFIG, s, 0, Listed(k))
  {
    var i, c := Listed(k), s.threads[0].core;
    assert Ea(i, c) == Target(k);
    forall a: nat | Target(k) <= a < Target(k) + 8
      ensures OkByte(CONFIG, s, 0, IsStore(i), a)
    {
      CodeByte(a);
      assert forall t :: t in s.threads ==> t in s.threads.Keys && t == 0;
    }
  }

  /** The other instructions do not look at gp. */
  lemma ComputesBlindToGp(k: nat, c: Core)
    requires IsCompute(k)
    ensures !IsMem(Listed(k)) && Plain(Listed(k)) && GpUnused(CONFIG, RegOp(Listed(k), NoOther(Word(k))), c)
  {
    var i, f := Listed(k), RegOp(Listed(k), NoOther(Word(k)));
    ExecKeepsZero(i, c, NoOther(Word(k)));
    ExecKeepsZero(i, WithGp(c, ENV.gp), NoOther(Word(k)));
    hide Wrap, RegOp, ComputeOn;
    assert ExecReg(i, WithGp(c, ENV.gp)) == WithGp(ExecReg(i, c), ENV.gp);
  }

  lemma OffThePath(pc: u64)
    requires ValidEnv(ENV) && pc < 0x2_0000
    ensures !InPath(ENV, pc)
  {
  }

  lemma LoopIsOk(s: AState)
    requires ValidEnv(ENV) && Looping(s)
    ensures AllOk(CONFIG, s)
  {
    forall t | t in s.threads
      ensures Ok(CONFIG, s, t)
    {
      assert t in s.threads.Keys;
      var k: nat :| LoopAt(s, k);
      LoopThreadIsOk(s, k);
    }
  }

  lemma LoopThreadIsOk(s: AState, k: nat)
    requires ValidEnv(ENV) && LoopAt(s, k)
    ensures 0 in s.threads && Ok(CONFIG, s, 0)
  {
    hide InPath, Prog, Listed, OkBytes, GpInPage, GpUnused, RegOp, GpOnlyBase, SlotIntact;
    ProgAt(k);
    OffThePath(PcAt(k));
    if IsAccess(k) {
      AccessIsOk(s, k);
    } else if IsCompute(k) {
      ComputesBlindToGp(k, s.threads[0].core);
    }
  }

  lemma WritesSpare(m: Mem, writes: map<nat, byte>)
    requires Spares(writes)
    ensures LoadDouble(m + writes, SAVED_RA) == LoadDouble(m, SAVED_RA)
  {
    forall a: nat | SAVED_RA <= a < SAVED_RA + 8
      ensures Byte(m + writes, a) == Byte(m, a)
    {
      assert InRange(a, SAVED_RA, SAVED_RA + 8);
    }
    LoadSame(m, m + writes, SAVED_RA, 8);
  }

  /** The instruction after `k`. */
  function After(k: nat): nat { if k == 5 then 10 else if k == 9 then 0 else if k == 10 then 6 else k + 1 }

  lemma ComputeTaken(c: Core, k: nat)
    requires IsCompute(k) && CoreAt(c, k)
    ensures !IsMem(Listed(k)) && CoreAt(ComputeOn(RegOp(Listed(k), NoOther(Word(k))), c), After(k))
  {
    ExecKeepsZero(Listed(k), c, NoOther(Word(k)));
    hide RegOp, ComputeOn;
  }

  lemma AccessTaken(c: Core, m: Mem, k: nat)
    requires IsAccess(k) && CoreAt(c, k) && (k == 3 ==> LoadDouble(m, SAVED_RA) == LINK)
    ensures IsMem(Listed(k)) && Ea(Listed(k), c) == Target(k)
    ensures var e := ExecMem(Listed(k), c, m, Target(k), 4);
            CoreAt(e.core, After(k)) && (k == 1 ==> LoadDouble(e.mem, SAVED_RA) == LINK)
  {
    hide LoadLE, StoreLE;
    WidthFits(8);
    if k == 1 {
      LoadStored(m, SAVED_RA, 8, LINK);
    }
  }

  /** The store to the frame makes its bytes readable. */
  lemma SpillSaves(s: AState)
    requires LoopAt(s, 1) && AEnabled(CONFIG, s, AUser(0))
    ensures SlotIntact(AApply(CONFIG, s, AUser(0)))
  {
    hide Prog, ExecMem, Listed, Ea, LoadLE, RegOp, Word, NoOther, CoreAt;
    var th := s.threads[0];
    PlaceOf(th.core, 1);
    ProgAt(1);
    AccessTaken(th.core, s.mem, 1);
    SlotRevived(1);
  }

  lemma AccessApplied(s: AState, k: nat)
    requires LoopAt(s, k) && IsAccess(k) && IsMem(Listed(k)) && Ea(Listed(k), s.threads[0].core) == Target(k)
    ensures AEnabled(CONFIG, s, AUser(0))
    ensures var s' := AApply(CONFIG, s, AUser(0));
            && s'.threads == s.threads[0 := s.threads[0].(core := ExecMem(Listed(k), s.threads[0].core, s.mem, Target(k), 4).core)]
            && s'.dead <= s.dead + BelowOf(s.threads[0])
  {
    hide Prog, ExecMem, Listed, Ea, RegOp, Word, NoOther, CoreAt, SlotIntact, AccessRange, BelowOf;
    PlaceOf(s.threads[0].core, k);
    ProgAt(k);
  }

  /** Any step of the thread that ends at instruction `k'`. */
  lemma LoopStep(s: AState, s': AState, k: nat, c: Core, k': nat)
    requires LoopAt(s, k) && CoreAt(c, k') && (Spilled(k') ==> SlotIntact(s'))
    requires s'.threads == s.threads[0 := s.threads[0].(core := c)] && s'.dead <= s.dead + BelowOf(s.threads[0])
    ensures LoopAt(s', k')
  {
    PlaceOf(s.threads[0].core, k);
    hide CoreAt, SlotIntact;
    assert BelowOf(s.threads[0]) <= Span(STACK_LO, STACK_TOP);
  }

  lemma AccessLoops(s: AState, k: nat)
    requires LoopAt(s, k) && IsAccess(k)
    ensures AEnabled(CONFIG, s, AUser(0)) && LoopAt(AApply(CONFIG, s, AUser(0)), After(k))
  {
    assert k == 3 ==> LoadDouble(s.mem, SAVED_RA) == LINK;
    hide ExecMem, Listed, Ea, LoadDouble, CoreAt, SlotIntact, AEnabled, AApply, BelowOf;
    var c := s.threads[0].core;
    AccessTaken(c, s.mem, k);
    AccessApplied(s, k);
    if k == 1 { SpillSaves(s); }
    hide LoopAt;
    LoopStep(s, AApply(CONFIG, s, AUser(0)), k, ExecMem(Listed(k), c, s.mem, Target(k), 4).core, After(k));
  }

  lemma ComputeLoops(s: AState, k: nat)
    requires LoopAt(s, k) && IsCompute(k)
    ensures AEnabled(CONFIG, s, AUser(0)) && LoopAt(AApply(CONFIG, s, AUser(0)), After(k))
  {
    hide Prog, Listed, ComputeOn, RegOp, Word, NoOther, CoreAt, SlotIntact;
    var c := s.threads[0].core;
    PlaceOf(c, k);
    ProgAt(k);
    ComputeTaken(c, k);
    LoopStep(s, AApply(CONFIG, s, AUser(0)), k, ComputeOn(RegOp(Listed(k), NoOther(Word(k))), c), After(k));
  }

  lemma UserLoops(s: AState, k: nat)
    requires LoopAt(s, k) && !IsCall(k)
    ensures AEnabled(CONFIG, s, AUser(0)) && LoopAt(AApply(CONFIG, s, AUser(0)), After(k))
  {
    hide AEnabled, AApply, SlotIntact;
    if IsAccess(k) { AccessLoops(s, k); } else { ComputeLoops(s, k); }
  }

  lemma PlaceOf(c: Core, k: nat)
    requires CoreAt(c, k)
    ensures k < 11 && c.pc == PcAt(k) && c.x[SP] == SpAt(k)
  {
  }

  /** The store at the opening is the one to the slot. */
  lemma SlotRevived(k: nat)
    requires IsAccess(k)
    ensures IsMem(Listed(k)) && Listed(k).width == 8
    ensures IsStore(Listed(k)) <==> k == 1 || k == 7
  {
  }

  lemma LoopGoesOn(s: AState, a: AAction)
    requires Looping(s) && AEnabled(CONFIG, s, a) && Behaved(a)
    ensures Looping(AApply(CONFIG, s, a))
  {
    hide Prog, Spares, Writable, FreshChild, CoreAt, SlotIntact;
    assert a.t in s.threads.Keys;
    var k: nat :| LoopAt(s, k);
    PlaceOf(s.threads[0].core, k);
    ProgAt(k);
    if a.AUser? {
      UserLoops(s, k);
    } else {
      KernelLoops(s, a, k);
    }
  }

  lemma CallTaken(c: Core, k: nat, v: u64)
    requires IsCall(k) && CoreAt(c, k)
    ensures CoreAt(AfterSyscall(c, v), k + 1)
  {
  }

  lemma KernelLoops(s: AState, a: AAction, k: nat)
    requires LoopAt(s, k) && AEnabled(CONFIG, s, a) && Behaved(a) && a.t == 0 && !a.AUser?
    ensures Looping(AApply(CONFIG, s, a))
  {
    hide Prog, LoadDouble, Writable, FreshChild, Listed, RegOp, NoOther, Word;
    var th := s.threads[0];
    ProgAt(k);
    assert IsCall(k);
    var s' := AApply(CONFIG, s, a);
    match a {
      case AKernel(_, reply, writes, _) =>
        WritesSpare(s.mem, writes);
        assert LoopAt(s', k + 1);
      case AAnswer(_, v) => assert LoopAt(s', k + 1);
      case AHookWrite(_, writes) =>
        WritesSpare(s.mem, writes);
        assert LoopAt(s', k);
      case AExit(_) => assert s'.threads.Keys == {};
    }
  }

  /** Every run in which nobody overwrites the saved return address keeps the conventions. */
  lemma {:induction false} LoopKeepsConventions(s: AState, acts: seq<AAction>)
    requires ValidEnv(ENV) && Looping(s) && forall i :: 0 <= i < |acts| ==> Behaved(acts[i])
    ensures OkAlong(CONFIG, s, acts)
    decreases |acts|
  {
    hide Looping, AApply, AllOk, Behaved;
    LoopIsOk(s);
    if acts != [] && AEnabled(CONFIG, s, acts[0]) {
      LoopGoesOn(s, acts[0]);
      LoopKeepsConventions(AApply(CONFIG, s, acts[0]), acts[1..]);
    }
  }

  // ---- Start ------------------------------------------------------------------

  /** Memory after initialisation: the page, the text and the gp variable. */
  function StartMem(page: Mem): Mem {
    StoreLE(page + CODE, ENV.gpVar, 8, ENV.gp)
  }

  lemma StartMemHolds(page: Mem)
    requires PageHolds(ENV, page)
    ensures var m := StartMem(page); PageHolds(ENV, m) && LoadDouble(m, ENV.gpVar) == ENV.gp && HoldsCode(m, CODE)
  {
    hide StoreLE, LoadLE, PageHolds;
    var m1 := page + CODE;
    var m := StoreLE(m1, ENV.gpVar, 8, ENV.gp);
    WidthFits(8);
    StoreFrame(m1, ENV.gpVar, 8, ENV.gp);
    LoadStored(m1, ENV.gpVar, 8, ENV.gp);
    forall a: nat | ENV.gp - 56 <= a < ENV.gp + 80
      ensures Byte(page, a) == Byte(m, a)
    {
      CodeByte(a);
    }
    PageKept(ENV, page, m);
    forall a | a in CODE
      ensures Byte(m, a) == CODE[a]
    {
      CodeByte(a);
    }
  }

  function StartCore(): Core {
    var zeros: seq<u64> := seq(32, _ => 0);
    Core(zeros[SP := STACK_TOP][GP := ENV.gp][A7 := NR_WRITE], zeros, MAIN)
  }

  function StartWorld(m: Mem): World {
    World(m, map[0 := Thread(StartCore(), [], STACK_LO, STACK_HI)], [], [])
  }

  lemma StackIsFree()
    ensures forall a: nat :: Guarded(CONFIG, a) ==> !InRange(a, STACK_LO, STACK_HI)
  {
    forall a: nat | Guarded(CONFIG, a)
      ensures !InRange(a, STACK_LO, STACK_HI)
    {
      CodeByte(a);
      hide Loaded;
    }
  }

  lemma StartIsRelated(m: Mem)
    requires ValidConfig(CONFIG) && PageHolds(ENV, m) && LoadDouble(m, ENV.gpVar) == ENV.gp && HoldsCode(m, CODE)
    ensures Related(CONFIG, StartWorld(m), Unpatched(CONFIG, StartWorld(m))) && Quiet(StartWorld(m))
  {
    hide PageHolds, LoadDouble, HoldsCode, ValidConfig, Guarded, Loaded, Related, Unpatched, Prog;
    var w := StartWorld(m);
    StackIsFree();
    assert StacksApart(CONFIG, w.threads);
    InitiallyRelated(CONFIG, w);
  }

  lemma StartLoops(m: Mem)
    ensures LoopAt(Unpatched(CONFIG, StartWorld(m)), 6)
  {
    hide Loaded, Prog;
    var s := Unpatched(CONFIG, StartWorld(m));
    assert s.threads.Keys == {0};
  }

  /** From main to the rewritten system call: the variable, the unseen call, the jump and the frame. */
  const TO_SITE: seq<AAction> := [AUser(0), AUser(0), AKernel(0, 0, map[], None), AUser(0), AUser(0), AUser(0)]

  lemma DirectAnswered(s: AState)
    requires LoopAt(s, 8)
    ensures AEnabled(CONFIG, s, AKernel(0, 0, map[], None)) && LoopAt(Stepped(s, AKernel(0, 0, map[], None)), 9)
  {
    hide Prog, Listed, RegOp, NoOther, Word, CoreAt, SlotIntact, AfterSyscall;
    PlaceOf(s.threads[0].core, 8);
    ProgAt(8);
    CallTaken(s.threads[0].core, 8, 0);
    assert AEnabled(CONFIG, s, AKernel(0, 0, map[], None));
  }

  ghost function Stepped(s: AState, a: AAction): AState {
    if AEnabled(CONFIG, s, a) then AApply(CONFIG, s, a) else s
  }

  lemma ThenRuns(s: AState, a: AAction, rest: seq<AAction>)
    requires AEnabled(CONFIG, s, a) && ARuns(CONFIG, Stepped(s, a), rest)
    ensures ARuns(CONFIG, s, [a] + rest) && AEnd(CONFIG, s, [a] + rest) == AEnd(CONFIG, Stepped(s, a), rest)
  {
    hide AEnabled, AApply;
    assert ([a] + rest)[1..] == rest;
  }

  lemma UserThen(s: AState, k: nat, rest: seq<AAction>)
    requires LoopAt(s, k) && !IsCall(k)
    ensures LoopAt(Stepped(s, AUser(0)), After(k))
    ensures ARuns(CONFIG, Stepped(s, AUser(0)), rest) ==>
              && ARuns(CONFIG, s, [AUser(0)] + rest)
              && AEnd(CONFIG, s, [AUser(0)] + rest) == AEnd(CONFIG, Stepped(s, AUser(0)), rest)
  {
    UserLoops(s, k);
    hide LoopAt, ARuns, AEnd;
    if ARuns(CONFIG, Stepped(s, AUser(0)), rest) { ThenRuns(s, AUser(0), rest); }
  }

  lemma FromDirect(s: AState)
    requires LoopAt(s, 9)
    ensures ARuns(CONFIG, s, [AUser(0), AUser(0), AUser(0)])
    ensures LoopAt(AEnd(CONFIG, s, [AUser(0), AUser(0), AUser(0)]), 2)
  {
    hide LoopAt, Stepped, AEnabled, AApply;
    var u := AUser(0);
    UserThen(s, 9, [u, u]);
    UserThen(Stepped(s, u), 0, [u]);
    UserThen(Stepped(Stepped(s, u), u), 1, []);
    assert [u] + [] == [u] && [u] + [u] == [u, u] && [u] + [u, u] == [u, u, u];
  }

  lemma ReachesSite(s: AState)
    requires LoopAt(s, 6)
    ensures ARuns(CONFIG, s, TO_SITE)
    ensures LoopAt(AEnd(CONFIG, s, TO_SITE), 2)
  {
    hide LoopAt, Stepped, AEnabled, AApply, ARuns, AEnd;
    var u, call, rest := AUser(0), AKernel(0, 0, map[], None), [AUser(0), AUser(0), AUser(0)];
    UserThen(s, 6, [u] + ([call] + rest));
    var s1 := Stepped(s, u);
    UserThen(s1, 7, [call] + rest);
    var s2 := Stepped(s1, u);
    DirectAnswered(s2);
    FromDirect(Stepped(s2, call));
    ThenRuns(s2, call, rest);
    assert TO_SITE == [u] + ([u] + ([call] + rest));
  }

  /**
  The installed page with the rewritten text meets every assumption, on every run
  in which kernel and interposer spare the saved return address; and the program
  gets to its system call.
  */
  method Boot() returns (cfg: Config, text: Text, w: World, acts: seq<AAction>)
    ensures ValidConfig(cfg) && DefaultLayout(cfg) && RunsText(cfg, text) && Related(cfg, w, Unpatched(cfg, w)) && Quiet(w)
    ensures forall acts: seq<AAction> :: (forall i :: 0 <= i < |acts| ==> Behaved(acts[i])) ==>
              OkAlong(cfg, Unpatched(cfg, w), acts)
    ensures ARuns(cfg, Unpatched(cfg, w), acts) && AllOriginal(acts)
    ensures var s := AEnd(cfg, Unpatched(cfg, w), acts); 0 in s.threads && cfg.prog(s.threads[0].core.pc) == Syscall
  {
    ConfigIsValid();
    ConfigRunsText();
    hide ValidConfig, PageHolds, Related, StoreLE, LoadDouble, HoldsCode, RunsText, OkAlong, Looping, StartMem, Prog,
      LoopAt, ARuns, AEnd;
    var page := InstallShadowPage(ENV, map[]);
    var m := StartMem(page);
    StartMemHolds(page);
    StartIsRelated(m);
    StartLoops(m);
    cfg, text, w, acts := CONFIG, TEXT, StartWorld(m), TO_SITE;
    assert Looping(Unpatched(cfg, w)) by { LoopsAt(Unpatched(cfg, w), 6); }
    forall acts: seq<AAction> | forall i :: 0 <= i < |acts| ==> Behaved(acts[i])
      ensures OkAlong(cfg, Unpatched(cfg, w), acts)
    {
      LoopKeepsConventions(Unpatched(cfg, w), acts);
    }
    ReachesSite(Unpatched(cfg, w));
    SiteIsSyscall(AEnd(cfg, Unpatched(cfg, w), acts));
  }

  lemma LoopsAt(s: AState, k: nat)
    requires LoopAt(s, k)
    ensures Looping(s)
  {
  }

  lemma SiteIsSyscall(s: AState)
    requires LoopAt(s, 2)
    ensures 0 in s.threads && Prog(s.threads[0].core.pc) == Syscall
  {
    hide Prog;
    ProgAt(2);
  }
}
