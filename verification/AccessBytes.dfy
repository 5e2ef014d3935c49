/**
What loads and stores do, byte by byte: the reference semantics of `Isa` measured
against a description that names no arithmetic but the bytes of a number.
*/
module AccessBytes {
  import opened Isa
  import opened Bits

  /** Byte `k` of a number, the lowest first. */
  function ByteOf(v: nat, k: nat): byte
    decreases k
  {
    if k == 0 then v % 256 else ByteOf(v / 256, k - 1)
  }

  /** What fills the bytes of a register above those loaded. */
  function Filler(signed: bool, top: byte): byte {
    if signed && top >= 0x80 then 0xff else 0
  }

  /** The bytes of a register after `w` bytes at `a` have been loaded into it. */
  ghost predicate LoadedBytes(r: u64, m: Mem, a: nat, w: Width, filler: byte) {
    && (forall k: nat {:trigger ByteOf(r, k)} :: k < w ==> ByteOf(r, k) == Byte(m, a + k))
    && (forall k: nat {:trigger ByteOf(r, k)} :: w <= k < 8 ==> ByteOf(r, k) == filler)
  }

  /** The bytes of memory after the low `w` bytes of a register have been stored at `a`. */
  ghost predicate StoredBytes(m: Mem, m': Mem, a: nat, w: Width, r: u64) {
    && (forall k: nat {:trigger ByteOf(r, k)} :: k < w ==> Byte(m', a + k) == ByteOf(r, k))
    && SameOutside(m, m', a, a + w)
  }

  /** A load or store at address `a`, encoded in `len` bytes, has taken `c` and `m` to `c'` and `m'`. */
  ghost predicate AccessDone(i: Instr, c: Core, m: Mem, a: nat, len: nat, c': Core, m': Mem)
    requires IsMem(i)
  {
    && c'.pc == (c.pc + len) % 0x1_0000_0000_0000_0000
    && match i
       case Load(w, signed, rd, _, _) =>
         && m' == m && c'.f == c.f
         && (forall r: Reg :: r != rd || r == 0 ==> c'.x[r] == c.x[r])
         && (rd != 0 ==> LoadedBytes(c'.x[rd], m, a, w, Filler(signed, Byte(m, a + w - 1))))
       case FLoad(w, fd, _, _) =>
         && m' == m && c'.x == c.x
         && (forall r: Reg :: r != fd ==> c'.f[r] == c.f[r])
         && LoadedBytes(c'.f[fd], m, a, w, 0xff)
       case Store(w, rs2, _, _) =>
         c'.x == c.x && c'.f == c.f && StoredBytes(m, m', a, w, if rs2 == 0 then 0 else c.x[rs2])
       case FStore(w, fs2, _, _) =>
         c'.x == c.x && c'.f == c.f && StoredBytes(m, m', a, w, c.f[fs2])
  }

  // ---- Bytes of numbers -----------------------------------------------------

  lemma {:induction false} BytesOfLoad(m: Mem, a: nat, n: nat, k: nat)
    ensures ByteOf(LoadLE(m, a, n), k) == if k < n then Byte(m, a + k) else 0
    decreases n, k
  {
    if n == 0 {
      BytesOfZero(k);
    } else {
      var v := LoadLE(m, a, n);
      assert v % 256 == Byte(m, a) && v / 256 == LoadLE(m, a + 1, n - 1);
      if k > 0 { BytesOfLoad(m, a + 1, n - 1, k - 1); }
    }
  }

  lemma {:induction false} BytesOfZero(k: nat)
    ensures ByteOf(0, k) == 0
    decreases k
  {
    if k > 0 { BytesOfZero(k - 1); }
  }

  /** A number below 256^n with another one above it. */
  lemma {:induction false} BytesOfSum(v: nat, h: nat, n: nat, k: nat)
    requires v < Pow256(n)
    ensures ByteOf(v + Pow256(n) * h, k) == if k < n then ByteOf(v, k) else ByteOf(h, k - n)
    decreases n, k
  {
    if n > 0 {
      var p := Pow256(n - 1);
      assert Pow256(n) * h == 256 * (p * h);
      DivModUnique(v + Pow256(n) * h, 256, v / 256 + p * h, v % 256);
      if k > 0 { BytesOfSum(v / 256, h, n - 1, k - 1); }
    }
  }

  lemma {:induction false} BytesOfOnes(n: nat, k: nat)
    requires k < n
    ensures ByteOf(Pow256(n) - 1, k) == 0xff
    decreases n
  {
    var v := Pow256(n) - 1;
    DivModUnique(v, 256, Pow256(n - 1) - 1, 255);
    if k > 0 { BytesOfOnes(n - 1, k - 1); }
  }

  /** The sign is in the highest byte. */
  lemma {:induction false} TopByte(v: nat, n: nat)
    requires n > 0 && v < Pow256(n)
    ensures 2 * v >= Pow256(n) <==> ByteOf(v, n - 1) >= 0x80
    decreases n
  {
    if n > 1 { TopByte(v / 256, n - 1); }
  }

  lemma {:induction false} BytesOfStore(m: Mem, a: nat, n: nat, v: nat, k: nat)
    requires k < n
    ensures Byte(StoreLE(m, a, n, v), a + k) == ByteOf(v, k)
    decreases n
  {
    var m1 := m[a := v % 256];
    if k == 0 {
      StoreFrame(m1, a + 1, n - 1, v / 256);
      assert Byte(StoreLE(m1, a + 1, n - 1, v / 256), a) == Byte(m1, a);
    } else {
      BytesOfStore(m1, a + 1, n - 1, v / 256, k - 1);
    }
  }

  /** Ones above a number of `w` bytes. */
  lemma OnesAbove(v: nat, w: Width, k: nat)
    requires v < Pow256(w)
    ensures ByteOf(v + W64 - Pow256(w), k) == if k < w then ByteOf(v, k) else if k < 8 then 0xff else 0
  {
    WidthFits(w);
    var h := Pow256(8 - w) - 1;
    assert W64 == Pow256(w) * Pow256(8 - w) by { WidthComplement(w); }
    assert v + W64 - Pow256(w) == v + Pow256(w) * h;
    BytesOfSum(v, h, w, k);
    if w <= k < 8 {
      BytesOfOnes(8 - w, k - w);
    } else if k >= 8 {
      BytesOfSum(h, 0, 8 - w, k - w);
      BytesOfZero(k - w - (8 - w));
    }
  }

  lemma WidthComplement(w: Width)
    ensures W64 == Pow256(w) * Pow256(8 - w)
  {
    WidthFits(w);
    assert Pow256(0) == 1 && Pow256(3) == 0x100_0000 && Pow256(6) == 0x1_0000_0000_0000;
    assert Pow256(7) == 0x100_0000_0000_0000;
  }

  // ---- The reference ----------------------------------------------------------

  lemma ExtendedBytes(m: Mem, a: nat, w: Width, signed: bool)
    ensures LoadedBytes(Extend(LoadLE(m, a, w), w, signed), m, a, w, Filler(signed, Byte(m, a + w - 1)))
  {
    var v := LoadLE(m, a, w);
    var r := Extend(v, w, signed);
    TopByte(v, w);
    BytesOfLoad(m, a, w, w - 1);
    hide LoadLE, Pow256;
    forall k: nat | k < 8
      ensures ByteOf(r, k) == if k < w then Byte(m, a + k) else Filler(signed, Byte(m, a + w - 1))
    {
      BytesOfLoad(m, a, w, k);
      OnesAbove(v, w, k);
    }
  }

  lemma BoxedBytes(m: Mem, a: nat, w: Width)
    ensures LoadedBytes(NanBox(LoadLE(m, a, w), w), m, a, w, 0xff)
  {
    hide LoadLE, Pow256;
    var v := LoadLE(m, a, w);
    forall k: nat | k < 8
      ensures ByteOf(NanBox(v, w), k) == if k < w then Byte(m, a + k) else 0xff
    {
      BytesOfLoad(m, a, w, k);
      OnesAbove(v, w, k);
    }
  }

  lemma StoredAre(m: Mem, a: nat, w: Width, r: u64)
    ensures StoredBytes(m, StoreLE(m, a, w, r), a, w, r)
  {
    StoreFrame(m, a, w, r);
    hide StoreLE;
    forall k: nat | k < w
      ensures Byte(StoreLE(m, a, w, r), a + k) == ByteOf(r, k)
    {
      BytesOfStore(m, a, w, r, k);
    }
  }

  /** Every load and store of the reference moves exactly its bytes and leaves everything else alone. */
  lemma AccessMovesBytes(i: Instr, c: Core, m: Mem, a: nat, len: nat)
    requires IsMem(i)
    ensures AccessDone(i, c, m, a, len, ExecMem(i, c, m, a, len).core, ExecMem(i, c, m, a, len).mem)
  {
    hide LoadLE, StoreLE, Extend, NanBox, LoadedBytes, StoredBytes;
    match i {
      case Load(w, signed, rd, _, _) => ExtendedBytes(m, a, w, signed);
      case FLoad(w, fd, _, _) => BoxedBytes(m, a, w);
      case Store(w, rs2, _, _) => StoredAre(m, a, w, Get(c, rs2));
      case FStore(w, fs2, _, _) => StoredAre(m, a, w, c.f[fs2]);
    }
  }
}
