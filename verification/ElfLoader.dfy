/** src/boot/efi_loader.c: the physical ELF image loader and its address translation. */
module ElfLoader {
  import opened Bytes
  import opened Bitmap

  const WORD := 0x1_0000_0000_0000_0000
  const PAGE := 4096
  const PT_LOAD := 1
  const EHDR_SIZE := 64
  const PHDR_SIZE := 56

  datatype Phdr = Phdr(kind: nat, offset: nat, vaddr: nat, paddr: nat, filesz: nat, memsz: nat)

  // ---- the file ----

  function Field(file: seq<byte>, off: nat, w: nat): nat
    requires off + w <= |file|
  {
    FromLE(file[off..off + w])
  }

  function PhOff(file: seq<byte>): nat
    requires |file| >= EHDR_SIZE
  {
    Field(file, 32, 8)
  }

  function PhNum(file: seq<byte>): nat
    requires |file| >= EHDR_SIZE
  {
    Field(file, 56, 2)
  }

  /** ELF magic and the expected program header size. */
  predicate HeaderOk(file: seq<byte>)
    requires |file| >= EHDR_SIZE
  {
    file[..4] == [0x7F, 69, 76, 70] && Field(file, 54, 2) == PHDR_SIZE
  }

  /** The program header table lies inside the file. */
  predicate TableInFile(file: seq<byte>) {
    |file| >= EHDR_SIZE && PhOff(file) + PHDR_SIZE * PhNum(file) <= |file|
  }

  function PhdrAt(file: seq<byte>, off: nat): Phdr
    requires off + PHDR_SIZE <= |file|
  {
    Phdr(Field(file, off, 4), Field(file, off + 8, 8), Field(file, off + 16, 8),
         Field(file, off + 24, 8), Field(file, off + 32, 8), Field(file, off + 40, 8))
  }

  function Phdrs(file: seq<byte>): (ps: seq<Phdr>)
    requires TableInFile(file)
    ensures |ps| == PhNum(file)
  {
    seq(PhNum(file), i requires 0 <= i < PhNum(file) => PhdrAt(file, PhOff(file) + PHDR_SIZE * i))
  }

  predicate IsLoad(p: Phdr) {
    p.kind == PT_LOAD
  }

  // ---- the page-aligned hull ----

  function PageDown(x: nat): nat {
    x / PAGE * PAGE
  }

  /** `(paddr + memsz + 0xFFF) & ~0xFFF` in 64 bits. */
  function EndPage(p: Phdr): nat {
    PageDown((p.paddr + p.memsz + 0xFFF) % WORD)
  }

  datatype Hull = Bad | Hull(lo: nat, hi: nat)

  function HullOf(ps: seq<Phdr>): Hull {
    if ps == [] then Hull(WORD - 1, 0)
    else
      var h, p := HullOf(ps[..|ps| - 1]), ps[|ps| - 1];
      if h.Bad? || !IsLoad(p) then h
      else if p.filesz > p.memsz then Bad
      else Hull(if PageDown(p.paddr) < h.lo then PageDown(p.paddr) else h.lo,
                if EndPage(p) > h.hi then EndPage(p) else h.hi)
  }

  predicate Usable(h: Hull) {
    h.Hull? && h.lo != WORD - 1 && h.hi > h.lo
  }

  ghost predicate NoWrap(ps: seq<Phdr>) {
    forall i :: 0 <= i < |ps| && IsLoad(ps[i]) ==> ps[i].paddr + ps[i].memsz + 0xFFF < WORD
  }

  ghost predicate Covers(ps: seq<Phdr>, lo: nat, hi: nat) {
    forall i :: 0 <= i < |ps| && IsLoad(ps[i]) ==> lo <= ps[i].paddr && ps[i].paddr + ps[i].memsz <= hi
  }

  ghost predicate Bounded(ps: seq<Phdr>) {
    forall i :: 0 <= i < |ps| ==> ps[i].paddr < WORD && ps[i].memsz < WORD
  }

  lemma PageFacts(x: nat)
    ensures PageDown(x) <= x < PageDown(x) + PAGE && PageDown(x) % PAGE == 0
  {
  }

  /** The hull is bounded by aligned addresses, starts at or below every load segment, and
      reaches as far as its end page. */
  lemma {:induction false} HullBounds(ps: seq<Phdr>)
    requires HullOf(ps).Hull? && Bounded(ps)
    ensures var h := HullOf(ps);
      && h.lo <= WORD - 1 && h.hi <= WORD - PAGE && h.hi % PAGE == 0
      && (h.lo == WORD - 1 || h.lo % PAGE == 0)
      && forall i :: 0 <= i < |ps| && IsLoad(ps[i]) ==>
           h.lo <= ps[i].paddr && EndPage(ps[i]) <= h.hi && ps[i].filesz <= ps[i].memsz
  {
    if ps != [] {
      var init, p := ps[..|ps| - 1], ps[|ps| - 1];
      HullBounds(init);
      PageFacts(p.paddr);
      PageFacts((p.paddr + p.memsz + 0xFFF) % WORD);
    }
  }

  /** The headers are refused exactly when a load segment has a file part larger than itself. */
  lemma {:induction false} HullBadIff(ps: seq<Phdr>)
    ensures HullOf(ps) == Bad <==> exists i :: 0 <= i < |ps| && IsLoad(ps[i]) && ps[i].filesz > ps[i].memsz
  {
    hide PageDown, EndPage;
    if ps != [] { HullBadIff(ps[..|ps| - 1]); }
  }

  /** A range is usable exactly when some load segment ends in a later page than some load
      segment starts in. */
  lemma {:induction false} HullUsableIff(ps: seq<Phdr>)
    requires HullOf(ps).Hull? && Bounded(ps)
    ensures Usable(HullOf(ps)) <==>
      exists i, j :: 0 <= i < |ps| && 0 <= j < |ps| && IsLoad(ps[i]) && IsLoad(ps[j]) && PageDown(ps[i].paddr) < EndPage(ps[j])
  {
    hide PageDown, EndPage;
    HullAttained(ps);
  }

  /** Both ends of the range belong to load segments. */
  lemma {:induction false} HullAttained(ps: seq<Phdr>)
    requires HullOf(ps).Hull? && Bounded(ps)
    ensures var h := HullOf(ps);
      && (h.lo == WORD - 1 || exists i :: 0 <= i < |ps| && IsLoad(ps[i]) && PageDown(ps[i].paddr) == h.lo)
      && (h.hi == 0 || exists j :: 0 <= j < |ps| && IsLoad(ps[j]) && EndPage(ps[j]) == h.hi)
      && (forall i :: 0 <= i < |ps| && IsLoad(ps[i]) ==> h.lo <= PageDown(ps[i].paddr) < WORD - 1 && EndPage(ps[i]) <= h.hi)
  {
    hide PageDown, EndPage;
    if ps != [] {
      var init, p := ps[..|ps| - 1], ps[|ps| - 1];
      HullAttained(init);
      PageBelow(p.paddr);
    }
  }

  lemma PageBelow(x: nat)
    requires x < WORD
    ensures PageDown(x) < WORD - 1
  {
  }

  /** No smaller page-aligned range holds all load segments. */
  lemma {:induction false} HullLeast(ps: seq<Phdr>, a: nat, b: nat)
    requires HullOf(ps).Hull? && NoWrap(ps) && Covers(ps, a, b) && a % PAGE == 0 && b % PAGE == 0 && a <= WORD - 1
    ensures a <= HullOf(ps).lo && HullOf(ps).hi <= b
  {
    hide PageDown, EndPage;
    if ps != [] {
      var p := ps[|ps| - 1];
      HullLeast(ps[..|ps| - 1], a, b);
      if IsLoad(p) {
        AlignedBound(p.paddr, a);
        EndPageBound(p, b);
      }
    }
  }

  lemma EndPageBound(p: Phdr, b: nat)
    requires p.paddr + p.memsz + 0xFFF < WORD && b % PAGE == 0 && p.paddr + p.memsz <= b
    ensures EndPage(p) <= b
  {
    AlignedEnd(p.paddr + p.memsz, b);
  }

  lemma AlignedBound(x: nat, a: nat)
    requires a % PAGE == 0 && a <= x
    ensures a <= PageDown(x)
  {
  }

  lemma AlignedEnd(x: nat, b: nat)
    requires b % PAGE == 0 && x <= b
    ensures PageDown(x + 0xFFF) <= b
  {
  }

  lemma EndPageReaches(p: Phdr)
    requires p.paddr + p.memsz + 0xFFF < WORD
    ensures p.paddr + p.memsz <= EndPage(p)
  {
    PageFacts(p.paddr + p.memsz + 0xFFF);
  }

  /** The hull holds every load segment exactly when no end address wraps past 2^64. */
  lemma HullCoversIffNoWrap(ps: seq<Phdr>)
    requires HullOf(ps).Hull? && Bounded(ps)
    ensures Covers(ps, HullOf(ps).lo, HullOf(ps).hi) <==> NoWrap(ps)
  {
    hide HullOf, EndPage;
    var h := HullOf(ps);
    HullBounds(ps);
    if NoWrap(ps) {
      forall i | 0 <= i < |ps| && IsLoad(ps[i]) ensures ps[i].paddr + ps[i].memsz <= h.hi { EndPageReaches(ps[i]); }
    }
  }

  /** One load segment that ends at the top of the address space: the end page wraps to 0
      and the image is refused although the segment is well formed. */
  lemma WrapExample()
    ensures var ps := [Phdr(PT_LOAD, 0, 0, WORD - PAGE, 0, PAGE)];
      HullOf(ps) == Hull(WORD - PAGE, 0) && !Usable(HullOf(ps)) && !NoWrap(ps)
  {
    var ps := [Phdr(PT_LOAD, 0, 0, WORD - PAGE, 0, PAGE)];
    assert ps[..0] == [];
  }

  /** A kernel segment, and one whose end address wraps to page 0. */
  const WRAP_PAIR: seq<Phdr> :=
    [Phdr(PT_LOAD, 0, 0, 0x10_0000, PAGE, PAGE), Phdr(PT_LOAD, 0, 0, 0x20_0000, PAGE, WORD - 0x20_0000)]

  lemma WrapPairHull()
    ensures HullOf(WRAP_PAIR) == Hull(0x10_0000, 0x10_1000) && Usable(HullOf(WRAP_PAIR))
    ensures !NoWrap(WRAP_PAIR) && Bounded(WRAP_PAIR)
  {
    var ps := WRAP_PAIR;
    assert ps[..1] == [ps[0]] && ps[..1][..0] == [];
    assert HullOf(ps[..1]) == Hull(0x10_0000, 0x10_1000);
    assert EndPage(ps[1]) == 0;
    assert IsLoad(ps[1]) && !(ps[1].paddr + ps[1].memsz + 0xFFF < WORD);
  }

  // ---- the image ----

  /** File parts lie in the file and have their place in memory, and are no larger than the segment. */
  ghost predicate Fits(ps: seq<Phdr>, fileLen: nat, memLen: nat) {
    forall i :: 0 <= i < |ps| && IsLoad(ps[i]) ==>
      ps[i].paddr + ps[i].filesz <= memLen && ps[i].offset + ps[i].filesz <= fileLen && ps[i].filesz <= ps[i].memsz
  }

  function CopySegments(ram: seq<byte>, file: seq<byte>, ps: seq<Phdr>): (r: seq<byte>)
    requires Fits(ps, |file|, |ram|)
    ensures |r| == |ram|
  {
    if ps == [] then ram
    else
      var r, p := CopySegments(ram, file, ps[..|ps| - 1]), ps[|ps| - 1];
      if IsLoad(p) then Splice(r, p.paddr, file[p.offset..p.offset + p.filesz]) else r
  }

  /** Memory after `load_kernel_elf` succeeds with this hull. */
  function LoadImage(ram: seq<byte>, file: seq<byte>, ps: seq<Phdr>, lo: nat, hi: nat): (r: seq<byte>)
    requires Fits(ps, |file|, |ram|) && lo <= hi <= |ram|
    ensures |r| == |ram|
  {
    CopySegments(Splice(ram, lo, Zeros(hi - lo)), file, ps)
  }

  predicate Holds(p: Phdr, pa: nat) {
    IsLoad(p) && p.paddr <= pa < p.paddr + p.filesz
  }

  /** The last segment whose file part holds pa: later segments overwrite earlier ones. */
  function Writer(ps: seq<Phdr>, pa: nat): (w: Option<nat>)
    ensures w.Some? ==> w.value < |ps| && Holds(ps[w.value], pa)
    ensures w.Some? ==> forall j :: w.value < j < |ps| ==> !Holds(ps[j], pa)
    ensures w.None? ==> forall j :: 0 <= j < |ps| ==> !Holds(ps[j], pa)
  {
    if ps == [] then None
    else if Holds(ps[|ps| - 1], pa) then Some(|ps| - 1)
    else Writer(ps[..|ps| - 1], pa)
  }

  /** Every byte after loading, for any segments, overlapping or not. */
  lemma {:induction false} CopiedByte(ram: seq<byte>, file: seq<byte>, ps: seq<Phdr>, pa: nat)
    requires Fits(ps, |file|, |ram|) && pa < |ram|
    ensures CopySegments(ram, file, ps)[pa] ==
      match Writer(ps, pa)
      case None => ram[pa]
      case Some(i) => file[ps[i].offset + (pa - ps[i].paddr)]
  {
    if ps != [] {
      var init, p := ps[..|ps| - 1], ps[|ps| - 1];
      CopiedByte(ram, file, init, pa);
      if Holds(p, pa) {
        var r, chunk := CopySegments(ram, file, ps), file[p.offset..p.offset + p.filesz];
        assert r[p.paddr..p.paddr + |chunk|] == chunk;
        assert r[pa] == r[p.paddr..p.paddr + |chunk|][pa - p.paddr];
      }
    }
  }

  ghost predicate DisjointSegments(ps: seq<Phdr>) {
    forall i, j :: 0 <= i < j < |ps| && IsLoad(ps[i]) && IsLoad(ps[j]) ==>
      ps[i].paddr + ps[i].memsz <= ps[j].paddr || ps[j].paddr + ps[j].memsz <= ps[i].paddr
  }

  /** Two segments that load with success although the second one is copied to memory outside
      the granted range. */
  lemma WrapWritesOutside(ram: seq<byte>, file: seq<byte>)
    requires |file| >= PAGE && |ram| >= 0x20_1000
    ensures var h := HullOf(WRAP_PAIR);
      && Usable(h) && Fits(WRAP_PAIR, |file|, |ram|) && h.hi <= 0x20_0000 && !Covers(WRAP_PAIR, h.lo, h.hi)
      && LoadImage(ram, file, WRAP_PAIR, h.lo, h.hi)[0x20_0000..0x20_1000] == file[..PAGE]
  {
    hide CopySegments, Writer, HullOf;
    var ps, h := WRAP_PAIR, HullOf(WRAP_PAIR);
    WrapPairHull();
    HullCoversIffNoWrap(ps);
    var img := LoadImage(ram, file, ps, h.lo, h.hi);
    forall k | 0 <= k < PAGE ensures img[0x20_0000 + k] == file[k] {
      var pa := 0x20_0000 + k;
      CopiedByte(Splice(ram, h.lo, Zeros(h.hi - h.lo)), file, ps, pa);
      assert Holds(ps[1], pa);
    }
  }

  // ---- address translation ----

  /** `va >= lo && va < hi` with the end address in 64 bits. */
  predicate InSegment(p: Phdr, va: nat) {
    IsLoad(p) && p.vaddr <= va < (p.vaddr + p.memsz) % WORD
  }

  function SegmentFrom(ps: seq<Phdr>, va: nat, i: nat): (r: Option<nat>)
    ensures r.Some? ==> i <= r.value < |ps| && InSegment(ps[r.value], va)
    ensures r.Some? ==> forall j :: i <= j < r.value ==> !InSegment(ps[j], va)
    ensures r.None? ==> forall j :: i <= j < |ps| ==> !InSegment(ps[j], va)
    decreases |ps| - i
  {
    if i >= |ps| then None else if InSegment(ps[i], va) then Some(i) else SegmentFrom(ps, va, i + 1)
  }

  function VaToPa(ps: seq<Phdr>, va: nat): nat {
    match SegmentFrom(ps, va, 0)
    case None => 0
    case Some(i) => (ps[i].paddr + (va - ps[i].vaddr)) % WORD
  }

  /** The loop finds an address in a load segment exactly when it lies in the segment and the
      segment's end does not wrap. */
  lemma InSegmentIff(p: Phdr, va: nat)
    requires p.vaddr < WORD && p.memsz < WORD
    ensures InSegment(p, va) <==> IsLoad(p) && p.vaddr <= va < p.vaddr + p.memsz && p.vaddr + p.memsz < WORD
  {
    var end := p.vaddr + p.memsz;
    assert end % WORD == if end < WORD then end else end - WORD;
  }

  ghost predicate Virtual(ps: seq<Phdr>) {
    forall i :: 0 <= i < |ps| ==> ps[i].vaddr < WORD && ps[i].memsz < WORD
  }

  /** Every address of a load segment is translated, the first one included, by the first segment
      that holds it; any other address translates to 0. */
  lemma TranslatedIff(ps: seq<Phdr>, va: nat)
    requires Virtual(ps)
    ensures SegmentFrom(ps, va, 0).Some? <==>
      exists i :: 0 <= i < |ps| && IsLoad(ps[i]) && ps[i].vaddr <= va < ps[i].vaddr + ps[i].memsz && ps[i].vaddr + ps[i].memsz < WORD
    ensures SegmentFrom(ps, va, 0).None? ==> VaToPa(ps, va) == 0
    ensures forall i :: 0 <= i < |ps| && InSegment(ps[i], va) && (forall j :: 0 <= j < i ==> !InSegment(ps[j], va)) ==>
      VaToPa(ps, va) == (ps[i].paddr + (va - ps[i].vaddr)) % WORD
  {
    hide SegmentFrom, InSegment;
    forall i | 0 <= i < |ps|
      ensures InSegment(ps[i], va) <==>
        IsLoad(ps[i]) && ps[i].vaddr <= va < ps[i].vaddr + ps[i].memsz && ps[i].vaddr + ps[i].memsz < WORD
    {
      InSegmentIff(ps[i], va);
    }
  }

  lemma MatchIsInside(p: Phdr, va: nat)
    requires InSegment(p, va) && p.vaddr < WORD && p.memsz < WORD
    ensures va - p.vaddr < p.memsz
  {
  }

  /** When physical ranges do not overlap, the byte at the translated address of va is the
      segment's file byte below p_filesz and zero from there to p_memsz. */
  lemma ImageMeaning(ram: seq<byte>, file: seq<byte>, ps: seq<Phdr>, lo: nat, hi: nat, va: nat, i: nat)
    requires Fits(ps, |file|, |ram|) && lo <= hi <= |ram| && Covers(ps, lo, hi) && |ram| <= WORD
    requires DisjointSegments(ps) && SegmentFrom(ps, va, 0) == Some(i)
    requires ps[i].vaddr < WORD && ps[i].memsz < WORD
    ensures var pa, k := VaToPa(ps, va), va - ps[i].vaddr;
      pa < |ram| && LoadImage(ram, file, ps, lo, hi)[pa] == if k < ps[i].filesz then file[ps[i].offset + k] else 0
  {
    hide CopySegments, SegmentFrom, Writer;
    var p, k := ps[i], va - ps[i].vaddr;
    MatchIsInside(p, va);
    var pa := p.paddr + k;
    assert VaToPa(ps, va) == pa;
    CopiedByte(Splice(ram, lo, Zeros(hi - lo)), file, ps, pa);
    var w := Writer(ps, pa);
    if w.Some? && w.value != i {
      OneHolder(ps, i, w.value, pa);
    }
    if w.None? { ZeroedByte(ram, lo, hi, pa); }
  }

  /** A byte inside the memory range of one load segment is in the file part of no other. */
  lemma OneHolder(ps: seq<Phdr>, i: nat, j: nat, pa: nat)
    requires DisjointSegments(ps) && i < |ps| && j < |ps| && i != j && IsLoad(ps[i])
    requires ps[i].paddr <= pa < ps[i].paddr + ps[i].memsz && ps[j].filesz <= ps[j].memsz
    ensures !Holds(ps[j], pa)
  {
  }

  lemma ZeroedByte(ram: seq<byte>, lo: nat, hi: nat, pa: nat)
    requires lo <= hi <= |ram| && pa < |ram|
    ensures Splice(ram, lo, Zeros(hi - lo))[pa] == if lo <= pa < hi then 0 else ram[pa]
  {
    var r := Splice(ram, lo, Zeros(hi - lo));
    if lo <= pa < hi { assert r[pa] == r[lo..lo + (hi - lo)][pa - lo]; }
  }

  /** Bytes of the hull outside every file part are zero; bytes outside the hull are kept. */
  lemma ImageElsewhere(ram: seq<byte>, file: seq<byte>, ps: seq<Phdr>, lo: nat, hi: nat, pa: nat)
    requires Fits(ps, |file|, |ram|) && lo <= hi <= |ram| && Covers(ps, lo, hi) && pa < |ram|
    requires forall i :: 0 <= i < |ps| ==> !Holds(ps[i], pa)
    ensures LoadImage(ram, file, ps, lo, hi)[pa] == if lo <= pa < hi then 0 else ram[pa]
  {
    hide CopySegments;
    CopiedByte(Splice(ram, lo, Zeros(hi - lo)), file, ps, pa);
    ZeroedByte(ram, lo, hi, pa);
  }

  // ---- the programs ----

  datatype Status = Success | NotFound | Denied

  /** `memclr` and `memcopy` on physical memory. */
  method Store(ram: array<byte>, at: nat, chunk: seq<byte>)
    requires at + |chunk| <= ram.Length
    modifies ram
    ensures ram[..] == Splice(old(ram[..]), at, chunk)
  {
    for k := 0 to |chunk|
      invariant forall j :: 0 <= j < ram.Length ==>
        ram[j] == if at <= j < at + k then chunk[j - at] else old(ram[j])
    {
      ram[at + k] := chunk[k];
    }
    assert ram[..] == Splice(old(ram[..]), at, chunk);
  }

  method ComputeHull(ps: seq<Phdr>) returns (h: Hull)
    ensures h == HullOf(ps)
  {
    hide PageDown;
    var lo, hi := WORD - 1, 0;
    assert ps[..0] == [];
    for i := 0 to |ps|
      invariant 0 <= lo && 0 <= hi && HullOf(ps[..i]) == Hull(lo, hi)
    {
      assert ps[..i + 1][..i] == ps[..i];
      if IsLoad(ps[i]) {
        if ps[i].filesz > ps[i].memsz {
          HullStaysBad(ps, i + 1);
          return Bad;
        }
        if PageDown(ps[i].paddr) < lo { lo := PageDown(ps[i].paddr); }
        if EndPage(ps[i]) > hi { hi := EndPage(ps[i]); }
      }
    }
    assert ps[..|ps|] == ps;
    return Hull(lo, hi);
  }

  lemma {:induction false} HullStaysBad(ps: seq<Phdr>, k: nat)
    requires k <= |ps| && HullOf(ps[..k]) == Bad
    ensures HullOf(ps) == Bad
    decreases |ps| - k
  {
    if k == |ps| { assert ps[..k] == ps; } else {
      assert ps[..k + 1][..k] == ps[..k];
      HullStaysBad(ps, k + 1);
    }
  }

  lemma FieldBound(file: seq<byte>, off: nat)
    requires off + 8 <= |file|
    ensures Field(file, off, 8) < WORD
  {
    ToFromLE(file[off..off + 8]);
    assert Pow256(8) == WORD;
  }

  /** Addresses and sizes are 64-bit fields. */
  lemma TableBounded(file: seq<byte>)
    requires TableInFile(file)
    ensures Bounded(Phdrs(file))
  {
    hide Field;
    forall i | 0 <= i < PhNum(file) ensures Phdrs(file)[i].paddr < WORD && Phdrs(file)[i].memsz < WORD {
      var off := PhOff(file) + PHDR_SIZE * i;
      FieldBound(file, off + 24);
      FieldBound(file, off + 40);
    }
  }

  /** `load_kernel_elf`. The firmware grants the pages or not; when it does they are memory, and
      so is every place a file part goes to. The file must hold its own table and file parts. */
  method LoadKernel(ram: array<byte>, file: seq<byte>, granted: bool) returns (st: Status)
    requires TableInFile(file)
    requires granted && HeaderOk(file) && Usable(HullOf(Phdrs(file))) ==>
      HullOf(Phdrs(file)).hi <= ram.Length && PartsIn(Phdrs(file), |file|, ram.Length)
    modifies ram
    ensures st == if !HeaderOk(file) || !Usable(HullOf(Phdrs(file))) then NotFound
                  else if !granted then Denied else Success
    ensures st != Success ==> ram[..] == old(ram[..])
    ensures st == Success ==>
      var ps, h := Phdrs(file), HullOf(Phdrs(file));
      && Fits(ps, |file|, ram.Length) && (Covers(ps, h.lo, h.hi) <==> NoWrap(ps))
      && ram[..] == LoadImage(old(ram[..]), file, ps, h.lo, h.hi)
  {
    hide Phdrs, HullOf, CopySegments;
    if !HeaderOk(file) { return NotFound; }
    var ps := Phdrs(file);
    var h := ComputeHull(ps);
    if !Usable(h) { return NotFound; }
    if !granted { return Denied; }
    TableBounded(file);
    HullCoversIffNoWrap(ps);
    HullBounds(ps);
    assert Fits(ps, |file|, ram.Length);
    Store(ram, h.lo, Zeros(h.hi - h.lo));
    ghost var cleared := ram[..];
    CopyNothing(cleared, file, ps);
    for i := 0 to |ps|
      invariant Fits(ps[..i], |file|, ram.Length) && ram[..] == CopySegments(cleared, file, ps[..i])
    {
      assert ps[..i + 1][..i] == ps[..i];
      CopyStep(cleared, file, ps, i);
      if IsLoad(ps[i]) {
        Store(ram, ps[i].paddr, file[ps[i].offset..ps[i].offset + ps[i].filesz]);
      }
    }
    assert ps[..|ps|] == ps;
    return Success;
  }

  ghost predicate PartsIn(ps: seq<Phdr>, fileLen: nat, memLen: nat) {
    forall i :: 0 <= i < |ps| && IsLoad(ps[i]) ==>
      ps[i].offset + ps[i].filesz <= fileLen && ps[i].paddr + ps[i].filesz <= memLen
  }

  lemma CopyNothing(ram: seq<byte>, file: seq<byte>, ps: seq<Phdr>)
    ensures Fits(ps[..0], |file|, |ram|) && CopySegments(ram, file, ps[..0]) == ram
  {
  }

  lemma CopyStep(ram: seq<byte>, file: seq<byte>, ps: seq<Phdr>, i: nat)
    requires i < |ps| && Fits(ps, |file|, |ram|)
    ensures Fits(ps[..i], |file|, |ram|) && Fits(ps[..i + 1], |file|, |ram|)
    ensures var r := CopySegments(ram, file, ps[..i]);
      CopySegments(ram, file, ps[..i + 1]) ==
        if IsLoad(ps[i]) then Splice(r, ps[i].paddr, file[ps[i].offset..ps[i].offset + ps[i].filesz]) else r
  {
    assert ps[..i + 1][..i] == ps[..i];
  }

  method TranslateVa(file: seq<byte>, va: nat) returns (pa: nat)
    requires TableInFile(file)
    ensures pa == VaToPa(Phdrs(file), va)
  {
    hide Phdrs;
    var ps := Phdrs(file);
    for i := 0 to |ps|
      invariant SegmentFrom(ps, va, 0) == SegmentFrom(ps, va, i)
    {
      if InSegment(ps[i], va) { return (ps[i].paddr + (va - ps[i].vaddr)) % WORD; }
    }
    return 0;
  }
}
