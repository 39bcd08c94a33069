/** How an image reaches memory: segments with a RAM target are copied, flash-mapped ones go through the MMU
    (bootloader/esp/src/main.rs). */
module ImageLoader {
  import opened Machine
  import opened FlashChip
  import opened BootUpdate
  import RomDriver

  const COPY_CHUNK: nat := 256

  // A segment of a validated image. `ramTarget` is where a RAM segment is copied.
  datatype Segment = Segment(load: nat, len: nat, dataOffset: nat, ramTarget: Option<nat>)

  // The address ranges that are mapped from flash, and the MMU page size.
  datatype MemoryMap = MemoryMap(dromFrom: nat, dromTo: nat, iromFrom: nat, iromTo: nat, page: nat) {
    predicate IsDrom(a: nat) {
      dromFrom <= a < dromTo
    }
    predicate IsMapped(a: nat) {
      IsDrom(a) || iromFrom <= a < iromTo
    }
  }

  // Page sizes are powers of two.
  ghost predicate PowerOfTwo(page: nat) {
    exists k: nat :: k < 32 && page == Pow2(k)
  }

  // So masking with `!(page - 1)` rounds down.
  lemma MaskRoundsToPage(x: nat, page: nat)
    requires x < USIZE_RANGE && PowerOfTwo(page)
    ensures 0 < page <= USIZE_RANGE && BitAnd(x, BitNot32(page - 1)) == RoundDown(x, page)
  {
    var k: nat :| k < 32 && page == Pow2(k);
    MaskIsRoundDown(x, page, k);
  }

  // ---------------------------------------------------------------- target memory

  // RAM by address, and the MMU table from virtual to physical page numbers.
  class TargetMemory {
    var ram: map<nat, byte>
    var mmu: map<nat, nat>
    // How many mappings of page starts the ROM has refused.
    ghost var refusals: nat

    constructor ()
      ensures ram == map[] && mmu == map[] && refusals == 0
    {
      ram, mmu, refusals := map[], map[], 0;
    }

    method CopyTo(at: nat, bytes: seq<byte>)
      modifies this`ram
      ensures ram == Overlay(old(ram), at, bytes)
    {
      ram := Overlay(ram, at, bytes);
    }

    // Initialises the MMU: no page is mapped any more.
    method ClearMmu()
      modifies this`mmu
      ensures mmu == map[]
    {
      mmu := map[];
    }

    // Sets `pages` consecutive entries; the ROM refuses addresses that are not page starts.
    method MapPages(vaddr: nat, paddr: nat, pages: nat, page: nat) returns (rc: int)
      requires 0 < page
      modifies this`mmu, this`refusals
      ensures rc == 0 ==> vaddr % page == 0 && paddr % page == 0
      ensures vaddr % page == 0 && paddr % page == 0 ==> refusals == old(refusals) + (if rc == 0 then 0 else 1)
      ensures mmu == if rc == 0 then MapRun(old(mmu), vaddr / page, paddr / page, pages) else old(mmu)
    {
      rc := *;
      if vaddr % page != 0 || paddr % page != 0 {
        rc := 1;
      } else if rc != 0 {
        refusals := refusals + 1;
      }
      if rc == 0 {
        mmu := MapRun(mmu, vaddr / page, paddr / page, pages);
      }
    }
  }

  predicate InRun(a: nat, from: nat, len: nat) {
    from <= a < from + len
  }

  function Overlay(ram: map<nat, byte>, at: nat, bytes: seq<byte>): map<nat, byte> {
    ram + map a: nat | at <= a < at + |bytes| && InRun(a, at, |bytes|) :: bytes[a - at]
  }

  function MapRun(mmu: map<nat, nat>, vpage: nat, ppage: nat, pages: nat): map<nat, nat> {
    mmu + map v: nat | vpage <= v < vpage + pages && InRun(v, vpage, pages) :: ppage + (v - vpage)
  }

  function PageNo(a: nat, page: nat): nat
    requires 0 < page
  {
    a / page
  }

  function PageOff(a: nat, page: nat): nat
    requires 0 < page
  {
    a % page
  }

  function Address(pageNo: nat, off: nat, page: nat): nat {
    pageNo * page + off
  }

  // The flash address the MMU gives for a virtual address.
  function Translate(mmu: map<nat, nat>, a: nat, page: nat): Option<nat>
    requires 0 < page
  {
    if PageNo(a, page) in mmu then Some(Address(mmu[PageNo(a, page)], PageOff(a, page), page)) else None
  }

  // ---------------------------------------------------------------- one RAM segment

  lemma OverlayInPieces(ram: map<nat, byte>, at: nat, a: seq<byte>, b: seq<byte>)
    ensures Overlay(Overlay(ram, at, a), at + |a|, b) == Overlay(ram, at, a + b)
  {
  }

  // Copies one segment chunk by chunk.
  method CopySegment(chip: Chip, mem: TargetMemory, seg: Segment, target: nat) returns (r: Result<(), BootError>)
    requires RomChip(chip) && seg.dataOffset + seg.len < USIZE_RANGE
    modifies chip`faults, chip`romReads, mem`ram
    ensures r.Ok? && 0 < seg.len ==> seg.dataOffset + seg.len <= |chip.cells|
    ensures r.Ok? && 0 < seg.len ==>
              mem.ram == Overlay(old(mem.ram), target, chip.cells[seg.dataOffset..seg.dataOffset + seg.len])
    ensures r.Err? ==> r.error.FlashRead?
    ensures old(chip.faults) <= chip.faults && (r.Ok? ==> chip.faults == old(chip.faults))
    ensures seg.dataOffset + seg.len <= |chip.cells| ==> r.Ok? || old(chip.faults) < chip.faults
  {
    hide Overlay;
    RomChipHasWholeWords(chip);
    var chunk := new byte[COPY_CHUNK](_ => 0);
    var copied := 0;
    NothingCopied(mem.ram, target);
    while copied < seg.len
      invariant copied <= seg.len
      invariant chip.faults == old(chip.faults)
      invariant 0 < copied ==> seg.dataOffset + copied <= |chip.cells|
      invariant mem.ram == Overlay(old(mem.ram), target,
                                   if copied == 0 then [] else chip.cells[seg.dataOffset..seg.dataOffset + copied])
    {
      var n := Min(seg.len - copied, COPY_CHUNK);
      var read := RomDriver.FlashRead(chip, seg.dataOffset + copied, chunk, n);
      if read.Err? {
        return Err(FlashRead(read.error.at));
      }
      ghost var done := if copied == 0 then [] else chip.cells[seg.dataOffset..seg.dataOffset + copied];
      mem.CopyTo(target + copied, chunk[..n]);
      OverlayInPieces(old(mem.ram), target, done, chunk[..n]);
      JoinSlices(chip.cells, seg.dataOffset, seg.dataOffset + copied, seg.dataOffset + copied + n);
      copied := copied + n;
    }
    r := Ok(());
  }

  lemma NothingCopied(ram: map<nat, byte>, at: nat)
    ensures Overlay(ram, at, []) == ram
  {
  }

  // ---------------------------------------------------------------- one mapped segment

  // Pages that cover the segment, counted from the page of its load address.
  function Pages(seg: Segment, page: nat): nat
    requires 0 < page
  {
    DivCeil(seg.len + (seg.load - RoundDown(seg.load, page)), page)
  }

  // The page count is the least that covers the segment.
  lemma PagesAreLeast(seg: Segment, page: nat)
    requires 0 < page && 0 < seg.len
    ensures RoundDown(seg.load, page) + Pages(seg, page) * page >= seg.load + seg.len
    ensures 0 < Pages(seg, page) && RoundDown(seg.load, page) + (Pages(seg, page) - 1) * page < seg.load + seg.len
  {
    var n := seg.len + (seg.load - RoundDown(seg.load, page));
    RoundedUp(n, page);
    var k := DivCeil(n, page);
    assert (k - 1) * page == k * page - page;
    assert k != 0 by {
      assert 0 * page == 0;
    }
  }

  // Byte `i` of the segment lies in one of its pages, at the same place in the page as in flash.
  lemma PageOfByte(seg: Segment, page: nat, i: nat)
    requires 0 < page && i < seg.len && PageOff(seg.load, page) == PageOff(seg.dataOffset, page)
    ensures InRun(PageNo(seg.load + i, page), PageNo(seg.load, page), Pages(seg, page))
    ensures Address(PageNo(seg.dataOffset, page) + (PageNo(seg.load + i, page) - PageNo(seg.load, page)),
                    PageOff(seg.load + i, page), page) == seg.dataOffset + i
  {
    PageCoversByte(seg, page, i);
    var r := seg.load % page;
    SamePlaceInPage(seg.load, r + i, page);
    SumOfPages(page, seg.dataOffset / page, r + i);
    WholePages(seg.dataOffset, page);
    hide Pages, Address;
  }

  lemma PageCoversByte(seg: Segment, page: nat, i: nat)
    requires 0 < page && i < seg.len
    ensures InRun(PageNo(seg.load + i, page), PageNo(seg.load, page), Pages(seg, page))
  {
    hide Pages, DivCeil, RoundDown, InRun;
    BytePrecedesEnd(seg, page, i);
    PageSpan(seg.load, i, page);
    InRunOf(seg.load / page, (seg.load % page + i) / page, Pages(seg, page));
  }

  lemma PageSpan(a: nat, i: nat, page: nat)
    requires 0 < page
    ensures (a + i) / page == a / page + (a % page + i) / page
  {
    SamePlaceInPage(a, a % page + i, page);
    assert a + (a % page + i - a % page) == a + i;
  }

  lemma InRunOf(from: nat, k: nat, len: nat)
    requires k < len
    ensures InRun(from + k, from, len)
  {
  }

  lemma BytePrecedesEnd(seg: Segment, page: nat, i: nat)
    requires 0 < page && i < seg.len
    ensures (seg.load % page + i) / page < Pages(seg, page)
  {
    var r := seg.load % page;
    var k := Pages(seg, page);
    RoundedUp(seg.len + r, page);
    hide DivCeil;
    QuotientBelow(r + i, page, k);
  }

  // Page number and place of an address counted from the start of another one's page.
  lemma SamePlaceInPage(a: nat, x: nat, page: nat)
    requires 0 < page && a % page <= x
    ensures (a + (x - a % page)) / page == a / page + x / page
    ensures (a + (x - a % page)) % page == x % page
  {
    SumOfPages(page, a / page, x);
    DivModUnique(a + (x - a % page), page, a / page + x / page, x % page);
  }

  lemma WholePages(a: nat, page: nat)
    requires 0 < page
    ensures page * (a / page) + a % page == a
  {
  }

  lemma SumOfPages(page: nat, n: nat, x: nat)
    requires 0 < page
    ensures page * (n + x / page) + x % page == page * n + x
    ensures Address(n + x / page, x % page, page) == page * n + x
  {
    assert page * (n + x / page) == page * n + page * (x / page);
  }

  lemma QuotientBelow(x: nat, m: nat, k: nat)
    requires 0 < m && x < k * m
    ensures x / m < k
  {
    assert (x / m - k) * m == m * (x / m) - k * m;
  }

  ghost predicate Mapped(mmu: map<nat, nat>, seg: Segment, page: nat)
    requires 0 < page
  {
    forall i :: 0 <= i < seg.len ==> ByteMapped(mmu, seg, page, i)
  }

  // Byte `i` of the segment reads flash byte `i` of its data.
  ghost predicate ByteMapped(mmu: map<nat, nat>, seg: Segment, page: nat, i: nat)
    requires 0 < page
  {
    Translate(mmu, seg.load + i, page) == Some(seg.dataOffset + i)
  }

  ghost predicate SamePages(a: Segment, b: Segment, page: nat)
    requires 0 < page
  {
    exists v: nat :: InRun(v, PageNo(a.load, page), Pages(a, page)) && InRun(v, PageNo(b.load, page), Pages(b, page))
  }

  function SegmentMapped(mmu: map<nat, nat>, seg: Segment, page: nat): map<nat, nat>
    requires 0 < page
  {
    MapRun(mmu, PageNo(seg.load, page), PageNo(seg.dataOffset, page), Pages(seg, page))
  }

  lemma SegmentIsMapped(mmu: map<nat, nat>, seg: Segment, page: nat)
    requires 0 < page && PageOff(seg.load, page) == PageOff(seg.dataOffset, page)
    ensures Mapped(SegmentMapped(mmu, seg, page), seg, page)
  {
    hide Pages, PageNo, PageOff, Address;
    forall i | 0 <= i < seg.len
      ensures ByteMapped(SegmentMapped(mmu, seg, page), seg, page, i)
    {
      PageOfByte(seg, page, i);
    }
  }

  lemma OthersStayMapped(mmu: map<nat, nat>, seg: Segment, other: Segment, page: nat)
    requires 0 < page && PageOff(other.load, page) == PageOff(other.dataOffset, page)
    requires Mapped(mmu, other, page) && !SamePages(seg, other, page)
    ensures Mapped(SegmentMapped(mmu, seg, page), other, page)
  {
    hide Pages, PageNo, PageOff, Address;
    forall i | 0 <= i < other.len
      ensures ByteMapped(SegmentMapped(mmu, seg, page), other, page, i)
    {
      PageOfByte(other, page, i);
      assert !InRun(PageNo(other.load + i, page), PageNo(seg.load, page), Pages(seg, page));
      assert ByteMapped(mmu, other, page, i);
    }
  }

  // ---------------------------------------------------------------- the whole image

  // What the image validator guarantees about a non-empty segment: its data lies in flash, and a
  // mapped segment sits at the same place of a page in flash and in memory.
  ghost predicate ValidSegment(seg: Segment, mm: MemoryMap, capacity: nat)
    requires 0 < mm.page
  {
    && seg.dataOffset + seg.len <= capacity
    && (mm.IsMapped(seg.load) ==> PageOff(seg.load, mm.page) == PageOff(seg.dataOffset, mm.page))
  }

  ghost predicate RamOverlap(a: Segment, b: Segment) {
    a.ramTarget.Some? && b.ramTarget.Some? &&
    exists x: nat :: InRun(x, a.ramTarget.value, a.len) && InRun(x, b.ramTarget.value, b.len)
  }

  ghost predicate Apart(a: Segment, b: Segment, mm: MemoryMap)
    requires 0 < mm.page
  {
    !RamOverlap(a, b) && (mm.IsMapped(a.load) && mm.IsMapped(b.load) ==> !SamePages(a, b, mm.page))
  }

  ghost predicate ValidImage(segs: seq<Segment>, mm: MemoryMap, capacity: nat) {
    && 0 < mm.page && PowerOfTwo(mm.page) && capacity < USIZE_RANGE
    && (forall k :: 0 <= k < |segs| ==> segs[k].load < USIZE_RANGE)
    && (forall k :: 0 <= k < |segs| && 0 < segs[k].len ==> ValidSegment(segs[k], mm, capacity))
    && (forall j, k :: 0 <= j < k < |segs| && 0 < segs[j].len && 0 < segs[k].len ==> Apart(segs[j], segs[k], mm))
  }

  ghost predicate ByteInRam(ram: map<nat, byte>, cells: seq<byte>, seg: Segment, i: nat)
    requires seg.ramTarget.Some? && seg.dataOffset + i < |cells|
  {
    var a := seg.ramTarget.value + i;
    a in ram && ram[a] == cells[seg.dataOffset + i]
  }

  // Every byte of a RAM segment is in RAM at its target.
  ghost predicate InRam(ram: map<nat, byte>, cells: seq<byte>, seg: Segment) {
    0 < seg.len && seg.ramTarget.Some? ==>
      seg.dataOffset + seg.len <= |cells| && forall i :: 0 <= i < seg.len ==> ByteInRam(ram, cells, seg, i)
  }

  ghost predicate ReadsThroughMmu(mmu: map<nat, nat>, seg: Segment, mm: MemoryMap)
    requires 0 < mm.page
  {
    0 < seg.len && mm.IsMapped(seg.load) ==> Mapped(mmu, seg, mm.page)
  }

  lemma CopiedIsInRam(ram: map<nat, byte>, cells: seq<byte>, seg: Segment)
    requires seg.ramTarget.Some? && seg.dataOffset + seg.len <= |cells|
    ensures InRam(Overlay(ram, seg.ramTarget.value, cells[seg.dataOffset..seg.dataOffset + seg.len]), cells, seg)
  {
  }

  lemma OthersStayInRam(ram: map<nat, byte>, cells: seq<byte>, seg: Segment, other: Segment)
    requires seg.ramTarget.Some? && seg.dataOffset + seg.len <= |cells|
    requires InRam(ram, cells, other) && !RamOverlap(other, seg)
    ensures InRam(Overlay(ram, seg.ramTarget.value, cells[seg.dataOffset..seg.dataOffset + seg.len]), cells, other)
  {
    var after := Overlay(ram, seg.ramTarget.value, cells[seg.dataOffset..seg.dataOffset + seg.len]);
    if 0 < other.len && other.ramTarget.Some? {
      forall i | 0 <= i < other.len ensures ByteInRam(after, cells, other, i) {
        assert ByteInRam(ram, cells, other, i);
        assert InRun(other.ramTarget.value + i, other.ramTarget.value, other.len);
      }
    }
  }

  // Address `a` is a target of no RAM segment.
  ghost predicate NoTarget(segs: seq<Segment>, a: nat) {
    forall k :: 0 <= k < |segs| && segs[k].ramTarget.Some? ==> !InRun(a, segs[k].ramTarget.value, segs[k].len)
  }

  // RAM that is no segment's target is as before.
  ghost predicate OthersKept(before: map<nat, byte>, after: map<nat, byte>, segs: seq<Segment>) {
    forall a: nat :: NoTarget(segs, a) ==> (a in after <==> a in before) && (a in before ==> after[a] == before[a])
  }

  lemma CopyKeepsOthers(before: map<nat, byte>, ram: map<nat, byte>, segs: seq<Segment>, seg: Segment, bytes: seq<byte>)
    requires seg in segs && seg.ramTarget.Some? && |bytes| == seg.len && OthersKept(before, ram, segs)
    ensures OthersKept(before, Overlay(ram, seg.ramTarget.value, bytes), segs)
  {
    forall a: nat | NoTarget(segs, a) ensures !InRun(a, seg.ramTarget.value, seg.len) {
    }
  }

  method CopySegments(chip: Chip, mem: TargetMemory, segs: seq<Segment>, mm: MemoryMap)
    returns (r: Result<(), BootError>)
    requires RomChip(chip) && ValidImage(segs, mm, |chip.cells|)
    modifies chip`faults, chip`romReads, mem`ram
    ensures old(chip.faults) <= chip.faults
    ensures r.Ok? ==> forall k :: 0 <= k < |segs| ==> InRam(mem.ram, chip.cells, segs[k])
    ensures r.Ok? ==> OthersKept(old(mem.ram), mem.ram, segs)
    ensures r.Err? ==> r.error.FlashRead? && old(chip.faults) < chip.faults
  {
    hide Apart, ValidSegment, InRam, Overlay, OthersKept;
    NothingElse(mem.ram, segs);
    for n := 0 to |segs|
      invariant chip.faults == old(chip.faults)
      invariant forall k :: 0 <= k < n ==> InRam(mem.ram, chip.cells, segs[k])
      invariant OthersKept(old(mem.ram), mem.ram, segs)
    {
      var seg := segs[n];
      if 0 < seg.len && seg.ramTarget.Some? {
        SegmentFacts(segs, mm, |chip.cells|, n);
        ghost var before := mem.ram;
        r := CopySegment(chip, mem, seg, seg.ramTarget.value);
        if r.Err? {
          return;
        }
        CopiedIsInRam(before, chip.cells, seg);
        CopyKeepsOthers(old(mem.ram), before, segs, seg, chip.cells[seg.dataOffset..seg.dataOffset + seg.len]);
        forall k | 0 <= k < n ensures InRam(mem.ram, chip.cells, segs[k]) {
          if 0 < segs[k].len {
            ApartFacts(segs[k], seg, mm);
            OthersStayInRam(before, chip.cells, seg, segs[k]);
          } else {
            EmptyIsInRam(mem.ram, chip.cells, segs[k]);
          }
        }
      } else {
        EmptyIsInRam(mem.ram, chip.cells, seg);
      }
    }
    r := Ok(());
  }

  lemma NothingElse(ram: map<nat, byte>, segs: seq<Segment>)
    ensures OthersKept(ram, ram, segs)
  {
  }

  lemma SegmentFacts(segs: seq<Segment>, mm: MemoryMap, capacity: nat, n: nat)
    requires ValidImage(segs, mm, capacity) && n < |segs| && 0 < segs[n].len
    ensures segs[n].dataOffset + segs[n].len <= capacity
    ensures mm.IsMapped(segs[n].load) ==> PageOff(segs[n].load, mm.page) == PageOff(segs[n].dataOffset, mm.page)
  {
    hide Apart, MemoryMap.IsMapped, PageOff;
  }

  lemma ApartFacts(a: Segment, b: Segment, mm: MemoryMap)
    requires 0 < mm.page && Apart(a, b, mm)
    ensures !RamOverlap(a, b) && (mm.IsMapped(a.load) && mm.IsMapped(b.load) ==> !SamePages(a, b, mm.page))
  {
  }

  lemma EmptyIsInRam(ram: map<nat, byte>, cells: seq<byte>, seg: Segment)
    requires seg.len == 0 || seg.ramTarget.None?
    ensures InRam(ram, cells, seg)
  {
  }

  // Virtual page `v` belongs to no mapped segment.
  ghost predicate NoPage(segs: seq<Segment>, mm: MemoryMap, v: nat)
    requires 0 < mm.page
  {
    forall k :: 0 <= k < |segs| && 0 < segs[k].len && mm.IsMapped(segs[k].load) ==>
      !InRun(v, PageNo(segs[k].load, mm.page), Pages(segs[k], mm.page))
  }

  // Translations of other pages are as before.
  ghost predicate OtherPagesKept(before: map<nat, nat>, after: map<nat, nat>, segs: seq<Segment>, mm: MemoryMap)
    requires 0 < mm.page
  {
    forall v: nat :: NoPage(segs, mm, v) ==> (v in after <==> v in before) && (v in before ==> after[v] == before[v])
  }

  lemma NoOtherPages(mmu: map<nat, nat>, segs: seq<Segment>, mm: MemoryMap)
    requires 0 < mm.page
    ensures OtherPagesKept(mmu, mmu, segs, mm)
  {
  }

  lemma MapKeepsOtherPages(before: map<nat, nat>, mmu: map<nat, nat>, segs: seq<Segment>, seg: Segment, mm: MemoryMap)
    requires 0 < mm.page && seg in segs && 0 < seg.len && mm.IsMapped(seg.load) && OtherPagesKept(before, mmu, segs, mm)
    ensures OtherPagesKept(before, SegmentMapped(mmu, seg, mm.page), segs, mm)
  {
    hide Pages, PageNo, MemoryMap.IsMapped;
    forall v: nat | NoPage(segs, mm, v) ensures !InRun(v, PageNo(seg.load, mm.page), Pages(seg, mm.page)) {
    }
  }

  method MapSegments(mem: TargetMemory, segs: seq<Segment>, mm: MemoryMap, ghost capacity: nat)
    returns (r: Result<(), BootError>)
    requires ValidImage(segs, mm, capacity)
    modifies mem`mmu, mem`refusals
    ensures r.Ok? ==> forall k :: 0 <= k < |segs| ==> ReadsThroughMmu(mem.mmu, segs[k], mm)
    ensures r.Ok? ==> OtherPagesKept(old(mem.mmu), mem.mmu, segs, mm)
    // it fails only when the ROM refuses a page start
    ensures r.Err? ==> r.error.Mmu? && r.error.rc != 0 && old(mem.refusals) < mem.refusals
    ensures r.Ok? ==> mem.refusals == old(mem.refusals)
  {
    hide Apart, ValidSegment, ReadsThroughMmu, MemoryMap.IsMapped, SegmentMapped, Mapped, Pages, OtherPagesKept,
        PowerOfTwo, BitAnd, RoundDown;
    NoOtherPages(mem.mmu, segs, mm);
    for n := 0 to |segs|
      invariant mem.refusals == old(mem.refusals)
      invariant OtherPagesKept(old(mem.mmu), mem.mmu, segs, mm)
      invariant forall k :: 0 <= k < n ==> ReadsThroughMmu(mem.mmu, segs[k], mm)
    {
      var seg := segs[n];
      if 0 < seg.len && mm.IsMapped(seg.load) {
        SegmentFacts(segs, mm, capacity, n);
        ghost var before := mem.mmu;
        MaskRoundsToPage(seg.load, mm.page);
        MaskRoundsToPage(seg.dataOffset, mm.page);
        RoundedDown(seg.load, mm.page);
        RoundedDown(seg.dataOffset, mm.page);
        var vaddr := BitAnd(seg.load, BitNot32(mm.page - 1));
        var paddr := BitAnd(seg.dataOffset, BitNot32(mm.page - 1));
        var pages := DivCeil(seg.len + (seg.load - vaddr), mm.page);
        var rc := mem.MapPages(vaddr, paddr, pages, mm.page);
        if rc != 0 {
          return Err(Mmu(rc));
        }
        RunOfSegment(before, seg, mm.page);
        NowMapped(before, seg, mm);
        MapKeepsOtherPages(old(mem.mmu), before, segs, seg, mm);
        forall k | 0 <= k < n ensures ReadsThroughMmu(mem.mmu, segs[k], mm) {
          if 0 < segs[k].len && mm.IsMapped(segs[k].load) {
            SegmentFacts(segs, mm, capacity, k);
            ApartFacts(segs[k], seg, mm);
            StillMapped(before, seg, segs[k], mm);
          } else {
            NotMapped(mem.mmu, segs[k], mm);
          }
        }
      } else {
        NotMapped(mem.mmu, seg, mm);
      }
    }
    r := Ok(());
  }

  lemma RunOfSegment(mmu: map<nat, nat>, seg: Segment, page: nat)
    requires 0 < page
    ensures MapRun(mmu, RoundDown(seg.load, page) / page, RoundDown(seg.dataOffset, page) / page,
                   DivCeil(seg.len + (seg.load - RoundDown(seg.load, page)), page)) == SegmentMapped(mmu, seg, page)
  {
    DivModUnique(RoundDown(seg.load, page), page, seg.load / page, 0);
    DivModUnique(RoundDown(seg.dataOffset, page), page, seg.dataOffset / page, 0);
    hide MapRun;
  }

  lemma NowMapped(mmu: map<nat, nat>, seg: Segment, mm: MemoryMap)
    requires 0 < mm.page && PageOff(seg.load, mm.page) == PageOff(seg.dataOffset, mm.page)
    ensures ReadsThroughMmu(SegmentMapped(mmu, seg, mm.page), seg, mm)
  {
    SegmentIsMapped(mmu, seg, mm.page);
    hide Mapped, SegmentMapped;
  }

  lemma StillMapped(mmu: map<nat, nat>, seg: Segment, other: Segment, mm: MemoryMap)
    requires 0 < mm.page && ReadsThroughMmu(mmu, other, mm) && 0 < other.len && mm.IsMapped(other.load)
    requires PageOff(other.load, mm.page) == PageOff(other.dataOffset, mm.page) && !SamePages(other, seg, mm.page)
    ensures ReadsThroughMmu(SegmentMapped(mmu, seg, mm.page), other, mm)
  {
    hide Mapped, SegmentMapped, Pages, PageNo, PageOff, MemoryMap.IsMapped;
    OthersStayMapped(mmu, seg, other, mm.page);
  }

  lemma NotMapped(mmu: map<nat, nat>, seg: Segment, mm: MemoryMap)
    requires 0 < mm.page && (seg.len == 0 || !mm.IsMapped(seg.load))
    ensures ReadsThroughMmu(mmu, seg, mm)
  {
  }

  // ---------------------------------------------------------------- memory at the jump, address by address

  // The segment is mapped by where it is loaded: in the data or in the instruction range.
  predicate InFlashRange(seg: Segment, mm: MemoryMap) {
    0 < seg.len && (mm.dromFrom <= seg.load < mm.dromTo || mm.iromFrom <= seg.load < mm.iromTo)
  }

  // Address `load + i` reads flash address `dataOffset + i` through the MMU table.
  predicate ReadsFlash(mmu: map<nat, nat>, seg: Segment, page: nat, i: nat)
    requires 0 < page
  {
    var a := seg.load + i;
    a / page in mmu && mmu[a / page] * page + a % page == seg.dataOffset + i
  }

  // Page `v` holds an address of the segment.
  predicate PageOf(seg: Segment, page: nat, v: nat)
    requires 0 < page && 0 < seg.len
  {
    seg.load / page <= v <= (seg.load + seg.len - 1) / page
  }

  lemma MappedReadsFlash(mmu: map<nat, nat>, seg: Segment, mm: MemoryMap, i: nat)
    requires 0 < mm.page && ReadsThroughMmu(mmu, seg, mm) && InFlashRange(seg, mm) && i < seg.len
    ensures ReadsFlash(mmu, seg, mm.page, i)
  {
    assert ByteMapped(mmu, seg, mm.page, i);
  }

  // The last unit that `n` reaches into, counted from zero.
  lemma CeilIsLast(n: nat, m: nat)
    requires 0 < n && 0 < m
    ensures DivCeil(n, m) == (n - 1) / m + 1
  {
    var q, r := (n - 1) / m, (n - 1) % m;
    if r == m - 1 {
      assert m * (q + 1) == m * q + m;
      DivModUnique(n, m, q + 1, 0);
    } else {
      DivModUnique(n, m, q, r + 1);
    }
  }

  // The pages of a segment are those that hold its addresses.
  lemma RunIsPages(seg: Segment, page: nat, v: nat)
    requires 0 < page && 0 < seg.len
    ensures InRun(v, PageNo(seg.load, page), Pages(seg, page)) <==> PageOf(seg, page, v)
  {
    CeilIsLast(seg.len + seg.load % page, page);
    PageSpan(seg.load, seg.len - 1, page);
    hide DivCeil;
  }

  lemma OnlyTheirPages(mmu: map<nat, nat>, segs: seq<Segment>, mm: MemoryMap, v: nat)
    requires 0 < mm.page && OtherPagesKept(map[], mmu, segs, mm) && v in mmu
    ensures exists k :: 0 <= k < |segs| && InFlashRange(segs[k], mm) && PageOf(segs[k], mm.page, v)
  {
    assert !NoPage(segs, mm, v);
    var k :| 0 <= k < |segs| && 0 < segs[k].len && mm.IsMapped(segs[k].load) &&
      InRun(v, PageNo(segs[k].load, mm.page), Pages(segs[k], mm.page));
    RunIsPages(segs[k], mm.page, v);
    hide Pages, PageNo;
  }

  // At the jump, memory is the image: RAM segments hold their flash bytes, those loaded into the data or
  // the instruction range read them. The MMU starts over before they are mapped, so they are all it maps.
  method Load(chip: Chip, mem: TargetMemory, segs: seq<Segment>, mm: MemoryMap) returns (r: Result<(), BootError>)
    requires RomChip(chip) && ValidImage(segs, mm, |chip.cells|)
    modifies chip`faults, chip`romReads, mem
    ensures old(chip.faults) <= chip.faults
    ensures r.Ok? ==> forall k :: 0 <= k < |segs| ==> InRam(mem.ram, chip.cells, segs[k])
    ensures r.Ok? ==> forall k :: 0 <= k < |segs| ==> ReadsThroughMmu(mem.mmu, segs[k], mm)
    ensures r.Ok? ==> forall k, i: nat :: 0 <= k < |segs| && InFlashRange(segs[k], mm) && i < segs[k].len ==>
              ReadsFlash(mem.mmu, segs[k], mm.page, i)
    // no other RAM has changed, and no other page is mapped
    ensures r.Ok? ==> OthersKept(old(mem.ram), mem.ram, segs)
    ensures r.Ok? ==> forall v: nat :: v in mem.mmu ==>
              exists k :: 0 <= k < |segs| && InFlashRange(segs[k], mm) && PageOf(segs[k], mm.page, v)
    // it fails only through the flash, or through a mapping the ROM refuses
    ensures r.Err? ==> (r.error.FlashRead? && old(chip.faults) < chip.faults) ||
                       (r.error.Mmu? && r.error.rc != 0 && old(mem.refusals) < mem.refusals)
    ensures r.Err? && r.error.FlashRead? ==> mem.mmu == old(mem.mmu)
  {
    assert 0 < mm.page;
    hide ValidImage, InRam, ReadsThroughMmu, OthersKept, OtherPagesKept, InFlashRange, ReadsFlash, PageOf;
    r := CopySegments(chip, mem, segs, mm);
    if r.Err? {
      return;
    }
    mem.ClearMmu();
    r := MapSegments(mem, segs, mm, |chip.cells|);
    if r.Ok? {
      forall k, i: nat | 0 <= k < |segs| && InFlashRange(segs[k], mm) && i < segs[k].len
        ensures ReadsFlash(mem.mmu, segs[k], mm.page, i)
      {
        MappedReadsFlash(mem.mmu, segs[k], mm, i);
      }
      forall v: nat | v in mem.mmu
        ensures exists k :: 0 <= k < |segs| && InFlashRange(segs[k], mm) && PageOf(segs[k], mm.page, v)
      {
        OnlyTheirPages(mem.mmu, segs, mm, v);
      }
    }
  }
}
