/**
src/utils.c: where the shadow page, the return sequence and the relocated gp
lie, and how the ranges used by mmap, mprotect and the fault handler relate.
*/
module Layout {
  import opened Bits
  import opened Isa
  import opened Handler

  const RET_SEQUENCE_SIZE: nat := 56
  const TRAMPOLINE_SIZE: nat := 80

  /** The start of the page that holds `a`. */
  function PageOf(a: nat, pageSize: nat): nat
    requires pageSize > 0
  {
    a - a % pageSize
  }

  /** `a & ~(page_size - 1)` on 64 bits. */
  lemma MaskIsPage(a: u64, k: nat)
    requires k < 64
    ensures Pow2(k) <= W64
    ensures BitAnd(a, W64 - Pow2(k)) == PageOf(a, Pow2(k)) <= a
  {
    Pow2Table();
    AndHighMask(a, k, 64);
  }

  // ---- Geometry ---------------------------------------------------------

  function StartAddrPage(gp: u64, pageSize: nat): nat
    requires pageSize > 0
  {
    PageOf(Wrap(gp - RET_SEQUENCE_SIZE), pageSize)
  }

  function EndAddrPage(gp: u64, pageSize: nat): nat
    requires pageSize > 0
  {
    PageOf(Wrap(gp - 1), pageSize)
  }

  function ProtectionSize(gp: u64, pageSize: nat): u64
    requires pageSize > 0
  {
    Wrap(EndAddrPage(gp, pageSize) - StartAddrPage(gp, pageSize) + pageSize)
  }

  /** `ReturnSequenceInfo` with `page_size` and `relocated_global_pointer`. */
  class RetSequence {
    var pageSize: nat
    var gpOffset: nat
    var startAddr: u64
    var endAddr: u64
    var startAddrPage: u64
    var endAddrPage: u64
    var protectionSize: u64
    var retSequencePageAddr: u64
    var relocatedGp: u64
    var startOffset: nat
    var relocatedGlobalPointer: u64

    /** What the first step leaves for a page size of `2^k`. */
    ghost predicate Defined(gp: u64, k: nat)
      requires k < 64
      reads this
    {
      && pageSize == Pow2(k)
      && gpOffset == gp % Pow2(k)
      && startAddrPage == StartAddrPage(gp, Pow2(k))
      && endAddrPage == EndAddrPage(gp, Pow2(k))
      && protectionSize == ProtectionSize(gp, Pow2(k))
    }

    /** `define_ret_sequence_info`. */
    method DefineRetSequenceInfo(virtualGlobalPointer: u64, k: nat)
      requires k < 64
      modifies this
      ensures Defined(virtualGlobalPointer, k)
      ensures startAddr == Wrap(virtualGlobalPointer - RET_SEQUENCE_SIZE)
      ensures endAddr == Wrap(virtualGlobalPointer - 1)
    {
      hide BitAnd, Pow2, PageOf;
      MaskIsPage(0, k);
      pageSize := Pow2(k);
      var pageMask := W64 - pageSize;
      gpOffset := virtualGlobalPointer % pageSize;
      startAddr := Wrap(virtualGlobalPointer - RET_SEQUENCE_SIZE);
      endAddr := Wrap(virtualGlobalPointer - 1);
      MaskIsPage(startAddr, k);
      MaskIsPage(endAddr, k);
      startAddrPage := BitAnd(startAddr, pageMask);
      endAddrPage := BitAnd(endAddr, pageMask);
      protectionSize := Wrap(endAddrPage as int - startAddrPage + pageSize);
    }

    /** `allocate_ret_sequence_page`, given the address mmap returned. */
    method AllocateRetSequencePage(mapping: u64, ghost gp: u64, k: nat)
      requires k < 64 && Defined(gp, k)
      modifies this
      ensures Defined(gp, k)
      ensures retSequencePageAddr == mapping
      ensures relocatedGp == relocatedGlobalPointer == Wrap(mapping + gp % Pow2(k))
      ensures startAddr == Wrap(relocatedGp - RET_SEQUENCE_SIZE) && endAddr == Wrap(relocatedGp - 1)
      ensures startOffset == startAddr % Pow2(k) % 0x1_0000_0000
    {
      retSequencePageAddr := mapping;
      relocatedGp := Wrap(mapping + gpOffset);
      relocatedGlobalPointer := relocatedGp;
      startAddr := Wrap(relocatedGp - RET_SEQUENCE_SIZE);
      endAddr := Wrap(relocatedGp - 1);
      startOffset := startAddr % pageSize % 0x1_0000_0000;
    }
  }

  // ---- When the layout is safe ------------------------------------------

  /** What mmap promises: page aligned, and not wrapping around. */
  ghost predicate IsMapping(mapping: u64, size: nat, pageSize: nat)
    requires pageSize > 0
  {
    mapping % pageSize == 0 && mapping + size <= W64
  }

  /** The return words and the trampoline lie inside the mapping. */
  ghost predicate CodeInside(gp: u64, pageSize: nat, mapping: u64)
    requires pageSize > 0
  {
    var relocated := mapping + gp % pageSize;
    && mapping <= relocated - RET_SEQUENCE_SIZE
    && relocated + TRAMPOLINE_SIZE <= mapping + ProtectionSize(gp, pageSize)
  }

  lemma OffsetBelow(a: nat, d: nat, pageSize: nat)
    requires pageSize > 0 && d <= a % pageSize
    ensures a >= d && PageOf(a - d, pageSize) == PageOf(a, pageSize) && (a - d) % pageSize == a % pageSize - d
  {
    var q, r := a / pageSize, a % pageSize;
    QuotientNonNegative(a, pageSize);
    assert a == pageSize * q + r;
    assert pageSize * q >= 0;
    DivModUnique(a - d, pageSize, q, r - d);
  }

  /** With 56 bytes of its page below gp there is one page to shadow. */
  lemma OnePage(gp: u64, pageSize: nat)
    requires 0 < pageSize < W64 && RET_SEQUENCE_SIZE <= gp % pageSize
    ensures StartAddrPage(gp, pageSize) == EndAddrPage(gp, pageSize) == PageOf(gp, pageSize)
    ensures ProtectionSize(gp, pageSize) == pageSize
  {
    OffsetBelow(gp, RET_SEQUENCE_SIZE, pageSize);
    OffsetBelow(gp, 1, pageSize);
    hide PageOf;
  }

  /**
  The return sequence and the trampoline fit the mapping exactly when gp is at
  least 56 bytes into its page and at least 80 bytes from its end; the two-page
  mapping requested otherwise does not help.
  */
  lemma LayoutSafeIff(gp: u64, pageSize: nat, mapping: u64)
    requires 0 < pageSize < W64 && IsMapping(mapping, ProtectionSize(gp, pageSize), pageSize)
    ensures CodeInside(gp, pageSize, mapping) <==> 56 <= gp % pageSize <= pageSize - 80
  {
    if 56 <= gp % pageSize { OnePage(gp, pageSize); }
    hide ProtectionSize, StartAddrPage, EndAddrPage;
  }

  /**
  gp 32 bytes into its page, pages of 4096 bytes: two pages are mapped, and the
  return sequence still begins 24 bytes before them.
  */
  lemma ReturnSequenceOutside(mapping: u64)
    requires IsMapping(mapping, ProtectionSize(0x1_1020, 0x1000), 0x1000)
    ensures ProtectionSize(0x1_1020, 0x1000) == 0x2000
    ensures mapping + 0x1_1020 % 0x1000 - RET_SEQUENCE_SIZE == mapping - 24
    ensures !CodeInside(0x1_1020, 0x1000, mapping)
  {
  }

  // ---- One range, one translation ---------------------------------------

  function RoundUp(n: nat, pageSize: nat): nat
    requires pageSize > 0
  {
    if n % pageSize == 0 then n else n - n % pageSize + pageSize
  }

  /**
  In a safe layout the range mprotect makes execute-only, the mapping and the
  range the fault handler accepts are the same page.
  */
  lemma RangesCoincide(gp: u64, pageSize: nat, mapping: u64, a: u64)
    requires 136 <= pageSize < 0x1_0000_0000 && 56 <= gp % pageSize <= pageSize - 80
    requires IsMapping(mapping, ProtectionSize(gp, pageSize), pageSize)
    ensures var start := mapping + gp % pageSize - RET_SEQUENCE_SIZE;
            var startOffset := start % pageSize % 0x1_0000_0000;
            && startOffset == gp % pageSize - RET_SEQUENCE_SIZE
            && RoundUp(RET_SEQUENCE_SIZE + startOffset, pageSize) == pageSize == ProtectionSize(gp, pageSize)
    ensures InXom(a, mapping, ProtectionSize(gp, pageSize)) <==> mapping <= a < mapping + pageSize
  {
    OnePage(gp, pageSize);
    var off := gp % pageSize;
    InPageOffset(mapping, off - RET_SEQUENCE_SIZE, pageSize);
    SmallMod(off - RET_SEQUENCE_SIZE, 0x1_0000_0000);
    SmallMod(off, pageSize);
    hide ProtectionSize;
  }

  lemma SmallMod(a: nat, d: nat)
    requires a < d
    ensures a % d == a
  {
    DivModUnique(a, d, 0, a);
  }

  lemma InPageOffset(mapping: nat, off: nat, pageSize: nat)
    requires 0 < pageSize && mapping % pageSize == 0 && off < pageSize
    ensures (mapping + off) % pageSize == off
  {
    var q := mapping / pageSize;
    QuotientNonNegative(mapping, pageSize);
    assert mapping == pageSize * q;
    DivModUnique(mapping + off, pageSize, q, off);
  }

  /** The shadow address that the handler redirects to `e`. */
  function ShadowAddr(e: nat, mapping: nat, data: nat): nat
    requires data <= e
  {
    mapping + (e - data)
  }

  /**
  The redirection maps the shadow page one to one onto the page gp pointed into,
  keeping offsets, and takes the relocated gp plus d to the original gp plus d.
  */
  lemma TranslationIsBijection(gp: u64, pageSize: nat, mapping: u64, a: u64, b: u64, e: u64, d: int)
    requires 0 < pageSize < W64 && 56 <= gp % pageSize && IsMapping(mapping, pageSize, pageSize)
    requires PageOf(gp, pageSize) + pageSize <= W64
    requires InXom(a, mapping, pageSize) && InXom(b, mapping, pageSize)
    requires StartAddrPage(gp, pageSize) <= e < StartAddrPage(gp, pageSize) + pageSize
    ensures var data := StartAddrPage(gp, pageSize);
            && BackupAddr(a, mapping, data) - data == a - mapping
            && (BackupAddr(a, mapping, data) == BackupAddr(b, mapping, data) ==> a == b)
            && InXom(ShadowAddr(e, mapping, data), mapping, pageSize)
            && BackupAddr(ShadowAddr(e, mapping, data), mapping, data) == e
            && (a == mapping + gp % pageSize + d ==> BackupAddr(a, mapping, data) == gp + d)
  {
    OnePage(gp, pageSize);
    hide StartAddrPage, Wrap;
  }

  /**
  Every 12-bit displacement from gp stays in gp's page exactly when gp is 2048
  bytes away from both ends of it; for a page of 4096 that is the usual offset.
  */
  lemma DisplacementsStayInPage(gp: u64, pageSize: nat)
    requires 0 < pageSize
    ensures (forall d: int :: -0x800 <= d < 0x800 ==> Reaches(gp, pageSize, d))
            <==> 0x800 <= gp % pageSize <= pageSize - 0x800
    ensures pageSize == 0x1000 ==>
              ((forall d: int :: -0x800 <= d < 0x800 ==> Reaches(gp, pageSize, d)) <==> gp % pageSize == 0x800)
  {
    if forall d: int :: -0x800 <= d < 0x800 ==> Reaches(gp, pageSize, d) {
      assert Reaches(gp, pageSize, -0x800) && Reaches(gp, pageSize, 0x7ff);
    }
  }

  /** `gp + d` is in gp's page. */
  predicate Reaches(gp: u64, pageSize: nat, d: int)
    requires pageSize > 0
  {
    PageOf(gp, pageSize) <= gp + d < PageOf(gp, pageSize) + pageSize
  }

  lemma ExactQuotient(a: nat, d: nat)
    requires d > 0 && a % d == 0
    ensures a == d * (a / d)
  {
  }

  lemma PageEndIsAligned(page: nat, k: nat)
    requires 3 <= k && page % Pow2(k) == 0
    ensures (page + Pow2(k)) % 8 == 0
  {
    var size, p := Pow2(k), Pow2(k - 3);
    assert size == 8 * p by {
      Pow2Add(3, k - 3);
      assert Pow2(3) == 8;
    }
    var q := page / size;
    assert page == 8 * p * q by { ExactQuotient(page, size); }
    EightTimes(p, q);
  }

  lemma EightTimes(p: nat, q: int)
    ensures 8 * p * q == 8 * (p * q)
    ensures (8 * p * q + 8 * p) % 8 == 0
  {
    var n := p * q;
    assert 8 * p * q + 8 * p == 8 * (n + p);
  }

  predicate NaturallyAligned(a: nat, width: Width) {
    (width == 2 ==> a % 2 == 0) && (width == 4 ==> a % 4 == 0) && (width == 8 ==> a % 8 == 0)
  }

  /** A naturally aligned access that begins in a page ends in it. */
  lemma AlignedAccessInPage(a: nat, width: Width, page: nat, k: nat)
    requires 3 <= k && page % Pow2(k) == 0 && NaturallyAligned(a, width)
    requires page <= a < page + Pow2(k)
    ensures a + width <= page + Pow2(k)
  {
    PageEndIsAligned(page, k);
    AlignedFits(a, width, page + Pow2(k));
  }

  lemma AlignedFits(a: nat, width: Width, end: nat)
    requires end % 8 == 0 && NaturallyAligned(a, width) && a < end
    ensures a + width <= end
  {
  }
}
