/**
The program that vpoline runs under interception, as both systems see it: an
operation at every address, the memory that belongs to vpoline, and the data
page that gp-relative accesses are meant for.

An operation other than a load, a store or a system call is any function of the
processor. That the program uses gp only as the base of loads and stores is one
of the conventions its runs are asked to keep.
*/
module Program {
  import opened Isa
  import opened HookCode

  /** `Syscall` is an ecall that has been rewritten, `Direct` one that has not. */
  datatype UserOp =
    | Access(instr: Instr, len: nat)
    | Compute(f: Core -> Core)
    | Syscall
    | Direct

  /**
  `own` is the memory vpoline brought along or patched: the shadow page, its
  variables and code, the hook's data, the rewritten text. The shadow page is
  `[pageLo, pageLo + pageSize)`; `dataLo` is the page gp pointed into before.
  `code` are the bytes of the text, rewritten or not, as initialisation leaves
  them.
  */
  datatype Config = Config(
    env: Env,
    prog: u64 -> UserOp,
    own: set<nat>,
    pageLo: nat,
    pageSize: nat,
    dataLo: nat,
    code: map<nat, byte>)

  predicate InPage(cfg: Config, a: nat) {
    cfg.pageLo <= a < cfg.pageLo + cfg.pageSize
  }

  /** Memory nobody may change once initialisation is over. */
  predicate Fixed(cfg: Config, a: nat) {
    InPage(cfg, a) || a in cfg.code || cfg.env.gpVar <= a < cfg.env.gpVar + 8
  }

  /** Memory the program may not write. */
  predicate Guarded(cfg: Config, a: nat) {
    a in cfg.own || a in cfg.code
  }

  ghost predicate HoldsCode(m: Mem, code: map<nat, byte>) {
    forall a :: a in code ==> Byte(m, a) == code[a]
  }

  ghost predicate ValidConfig(cfg: Config) {
    && ValidEnv(cfg.env)
    && cfg.pageSize < W64 && cfg.pageLo + cfg.pageSize <= W64
    && cfg.dataLo + cfg.pageSize <= W64
    && cfg.pageLo + 56 <= cfg.env.gp && cfg.env.gp + 80 <= cfg.pageLo + cfg.pageSize
    && cfg.env.gp - cfg.pageLo == cfg.env.gp0 - cfg.dataLo
    && (forall a: nat :: Fixed(cfg, a) ==> Guarded(cfg, a))
    && (forall a: nat :: InPage(cfg, a) ==> a in cfg.own)
    && !InPath(cfg.env, cfg.env.syscallHook)
  }

  function ComputeOn(f: Core -> Core, c: Core): Core {
    var r := f(c);
    r.(x := r.x[ZERO := c.x[ZERO]])
  }

  /** The same processor with another gp. */
  function WithGp(c: Core, gp: u64): Core {
    c.(x := c.x[GP := gp])
  }

  /** An operation that leaves gp alone and does the same with the relocated one. */
  predicate GpUnused(cfg: Config, f: Core -> Core, c: Core) {
    && ComputeOn(f, c).x[GP] == c.x[GP]
    && ComputeOn(f, WithGp(c, cfg.env.gp)) == WithGp(ComputeOn(f, c), cfg.env.gp)
  }

  predicate IsStore(i: Instr) { i.Store? || i.FStore? }

  /** A load or store that treats gp as a base at most. */
  predicate GpOnlyBase(i: Instr) {
    && IsMem(i)
    && (i.Load? ==> i.rd != GP)
    && (i.Store? ==> i.rs2 != GP)
  }

  /** The access as the fault handler redirects it when it hits the shadow page. */
  function Translate(cfg: Config, a: nat): nat {
    if InPage(cfg, a) then cfg.dataLo + (a - cfg.pageLo) else a
  }

  /** A load or store of the patched program: direct, or faulting and emulated on the data page. */
  function PatchedAccess(cfg: Config, i: Instr, len: nat, c: Core, m: Mem): Effect
    requires IsMem(i)
  {
    ExecMem(i, c, m, Translate(cfg, Ea(i, c)), len)
  }

  /** Where the original access goes is where the patched one ends up. */
  lemma SameTarget(cfg: Config, i: Instr, c: Core)
    requires ValidConfig(cfg) && IsMem(i) && c.x[GP] == cfg.env.gp0
    requires i.rs1 == GP ==> cfg.dataLo <= Ea(i, c) < cfg.dataLo + cfg.pageSize && -0x800 <= i.imm < 0x800
    requires !InPage(cfg, Ea(i, c))
    ensures Translate(cfg, Ea(i, WithGp(c, cfg.env.gp))) == Ea(i, c)
  {
  }

  /** An access at the same address acts alike on processors that differ in gp. */
  lemma AccessBlindToGp(i: Instr, len: nat, c: Core, m: Mem, a: nat, gp: u64)
    requires GpOnlyBase(i)
    ensures ExecMem(i, WithGp(c, gp), m, a, len).core == WithGp(ExecMem(i, c, m, a, len).core, gp)
    ensures ExecMem(i, WithGp(c, gp), m, a, len).mem == ExecMem(i, c, m, a, len).mem
  {
    hide LoadLE, StoreLE, Wrap, Extend, NanBox;
    var c' := ExecMem(i, WithGp(c, gp), m, a, len).core;
    assert c'.x == WithGp(ExecMem(i, c, m, a, len).core, gp).x;
  }

  /** A load depends on memory only through the bytes it reads. */
  lemma LoadDependsOnRange(i: Instr, len: nat, c: Core, m: Mem, m': Mem, a: nat)
    requires IsMem(i) && !IsStore(i) && SameOn(m, m', a, a + i.width)
    ensures ExecMem(i, c, m, a, len).core == ExecMem(i, c, m', a, len).core
  {
    LoadSame(m, m', a, i.width);
    hide LoadLE, Wrap, Extend, NanBox;
  }

  lemma StoreIgnoresMemory(i: Instr, len: nat, c: Core, m: Mem, m': Mem, a: nat)
    requires IsStore(i)
    ensures ExecMem(i, c, m, a, len).core == ExecMem(i, c, m', a, len).core == Skip(c, len)
    ensures SameOn(ExecMem(i, c, m, a, len).mem, ExecMem(i, c, m', a, len).mem, a, a + i.width)
    ensures SameOutside(m, ExecMem(i, c, m, a, len).mem, a, a + i.width)
  {
    var v := if i.Store? then Get(c, i.rs2) else c.f[i.fs2];
    StoreWrites(m, m', a, i.width, v);
    StoreFrame(m, a, i.width, v);
    hide StoreLE;
  }
}
