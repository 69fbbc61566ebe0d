/** ELF64 files as they are written: the loader reads back the headers that a file holds. The
    layouts are those of Elf64_Ehdr and Elf64_Phdr in src/boot/efi_loader.c. */
module ElfFile {
  import opened Bytes
  import opened ElfLoader

  /** The file header behind e_ident: e_type, e_machine, e_version, e_entry, e_phoff, e_shoff,
      e_flags, e_ehsize, e_phentsize, e_phnum, e_shentsize, e_shnum, e_shstrndx. */
  datatype Ehdr = Ehdr(
    fileType: nat, machine: nat, version: nat, entry: nat, phoff: nat, shoff: nat, flags: nat,
    ehsize: nat, phentsize: nat, phnum: nat, shentsize: nat, shnum: nat, shstrndx: nat)

  const EHDR_WIDTHS: seq<nat> := [2, 2, 4, 8, 8, 8, 4, 2, 2, 2, 2, 2, 2]

  function EhdrFields(h: Ehdr): seq<nat> {
    [h.fileType, h.machine, h.version, h.entry, h.phoff, h.shoff, h.flags, h.ehsize, h.phentsize, h.phnum,
     h.shentsize, h.shnum, h.shstrndx]
  }

  /** A program header: p_type, p_flags, p_offset, p_vaddr, p_paddr, p_filesz, p_memsz, p_align. */
  datatype Segment = Segment(
    kind: nat, flags: nat, offset: nat, vaddr: nat, paddr: nat, filesz: nat, memsz: nat, align: nat)

  const PHDR_WIDTHS: seq<nat> := [4, 4, 8, 8, 8, 8, 8, 8]

  function SegmentFields(s: Segment): seq<nat> {
    [s.kind, s.flags, s.offset, s.vaddr, s.paddr, s.filesz, s.memsz, s.align]
  }

  /** What the loader keeps of a program header. */
  function Kept(s: Segment): Phdr {
    Phdr(s.kind, s.offset, s.vaddr, s.paddr, s.filesz, s.memsz)
  }

  // ---- reading packed fields ----

  lemma FitsAt(ws: seq<nat>, vs: seq<nat>, k: nat)
    requires Bytes.Fits(ws, vs) && k < |ws|
    ensures |ws| == |vs| && vs[k] < Pow256(ws[k])
  {
  }

  lemma FieldOf(file: seq<byte>, at: nat, ws: seq<nat>, vs: seq<nat>, k: nat)
    requires Bytes.Fits(ws, vs) && |ws| == |vs| && k < |ws| && at + Sum(ws) <= |file| && file[at..at + Sum(ws)] == Pack(ws, vs)
    ensures var off := at + Sum(ws[..k]); off + ws[k] <= |file| && Field(file, off, ws[k]) == vs[k]
  {
    hide Pack, FromLE, ToLE, Pow256, Sum, Bytes.Fits;
    FitsAt(ws, vs, k);
    PackField(ws, vs, k);
    FromToLE(vs[k], ws[k]);
    var off := Sum(ws[..k]);
    SubField(file, at, Sum(ws), off, off + ws[k]);
  }

  lemma SubField(file: seq<byte>, at: nat, n: nat, a: nat, b: nat)
    requires at + n <= |file| && a <= b <= n
    ensures file[at..at + n][a..b] == file[at + a..at + b]
  {
    var x, y := file[at..at + n][a..b], file[at + a..at + b];
    assert forall i :: 0 <= i < b - a ==> x[i] == file[at..at + n][a + i] == file[at + a + i] == y[i];
  }

  lemma SumNone(ws: seq<nat>)
    ensures Sum(ws[..0]) == 0
  {
  }

  lemma PhdrOffsets()
    ensures var w := PHDR_WIDTHS;
      && Sum(w) == 56 && Sum(w[..0]) == 0 && Sum(w[..2]) == 8 && Sum(w[..3]) == 16 && Sum(w[..4]) == 24
      && Sum(w[..5]) == 32 && Sum(w[..6]) == 40
  {
    hide Sum;
    var w := PHDR_WIDTHS;
    SumNone(w);
    forall k | 0 <= k < 8 ensures Sum(w[..k + 1]) == Sum(w[..k]) + w[k] { SumTake(w, k); }
    assert Sum(w[..1]) == 4 && Sum(w[..2]) == 8 && Sum(w[..3]) == 16 && Sum(w[..4]) == 24;
    assert Sum(w[..5]) == 32 && Sum(w[..6]) == 40 && Sum(w[..7]) == 48 && Sum(w[..8]) == 56;
    assert w[..8] == w;
  }

  lemma EhdrOffsets()
    ensures var w := EHDR_WIDTHS; Sum(w) == 48 && Sum(w[..4]) == 16 && Sum(w[..8]) == 38 && Sum(w[..9]) == 40
  {
    hide Sum;
    var w := EHDR_WIDTHS;
    SumNone(w);
    forall k | 0 <= k < 13 ensures Sum(w[..k + 1]) == Sum(w[..k]) + w[k] { SumTake(w, k); }
    assert Sum(w[..1]) == 2 && Sum(w[..2]) == 4 && Sum(w[..3]) == 8 && Sum(w[..4]) == 16 && Sum(w[..5]) == 24;
    assert Sum(w[..6]) == 32 && Sum(w[..7]) == 36 && Sum(w[..8]) == 38 && Sum(w[..9]) == 40 && Sum(w[..10]) == 42;
    assert Sum(w[..11]) == 44 && Sum(w[..12]) == 46 && Sum(w[..13]) == 48;
    assert w[..13] == w;
  }

  /** A program header is read back as it was written. */
  lemma ReadSegment(file: seq<byte>, at: nat, s: Segment)
    requires Bytes.Fits(PHDR_WIDTHS, SegmentFields(s)) && at + 56 <= |file|
    requires file[at..at + 56] == Pack(PHDR_WIDTHS, SegmentFields(s))
    ensures PhdrAt(file, at) == Kept(s)
  {
    hide Pack, Field, Bytes.Fits;
    PhdrOffsets();
    var w, v := PHDR_WIDTHS, SegmentFields(s);
    FieldOf(file, at, w, v, 0);
    FieldOf(file, at, w, v, 2);
    FieldOf(file, at, w, v, 3);
    FieldOf(file, at, w, v, 4);
    FieldOf(file, at, w, v, 5);
    FieldOf(file, at, w, v, 6);
  }

  // ---- a whole file ----

  /** The file starts with this header and holds these program headers at e_phoff. */
  ghost predicate IsElf(file: seq<byte>, ident: seq<byte>, h: Ehdr, ss: seq<Segment>) {
    && |ident| == 16 && Bytes.Fits(EHDR_WIDTHS, EhdrFields(h)) && h.phnum == |ss|
    && 64 <= |file| && file[..16] == ident && file[16..64] == Pack(EHDR_WIDTHS, EhdrFields(h))
    && h.phoff + 56 * |ss| <= |file|
    && forall i :: 0 <= i < |ss| ==> HasSegment(file, h.phoff + 56 * i, ss[i])
  }

  ghost predicate HasSegment(file: seq<byte>, at: nat, s: Segment) {
    && Bytes.Fits(PHDR_WIDTHS, SegmentFields(s)) && at + 56 <= |file|
    && file[at..at + 56] == Pack(PHDR_WIDTHS, SegmentFields(s))
  }

  lemma ReadEhdr(file: seq<byte>, h: Ehdr)
    requires Bytes.Fits(EHDR_WIDTHS, EhdrFields(h)) && 64 <= |file| && file[16..64] == Pack(EHDR_WIDTHS, EhdrFields(h))
    ensures PhOff(file) == h.phoff && PhNum(file) == h.phnum && Field(file, 54, 2) == h.phentsize
  {
    hide Pack, Field, Bytes.Fits, EhdrFields, EHDR_WIDTHS, Sum;
    EhdrOffsets();
    EhdrParts(h);
    var w, v := EHDR_WIDTHS, EhdrFields(h);
    FieldOf(file, 16, w, v, 4);
    FieldOf(file, 16, w, v, 8);
    FieldOf(file, 16, w, v, 9);
  }

  lemma EhdrParts(h: Ehdr)
    ensures var v, w := EhdrFields(h), EHDR_WIDTHS;
      && |v| == 13 && |w| == 13 && v[4] == h.phoff && v[8] == h.phentsize && v[9] == h.phnum
      && w[4] == 8 && w[8] == 2 && w[9] == 2
  {
  }

  lemma ReadMagic(file: seq<byte>, ident: seq<byte>, phentsize: nat)
    requires |ident| == 16 && 64 <= |file| && file[..16] == ident && Field(file, 54, 2) == phentsize
    ensures HeaderOk(file) <==> ident[..4] == [0x7F, 'E' as int, 'L' as int, 'F' as int] && phentsize == 56
  {
    hide Field;
    assert file[..4] == file[..16][..4];
  }

  lemma ReadTable(file: seq<byte>, phoff: nat, ss: seq<Segment>)
    requires 64 <= |file| && PhOff(file) == phoff && PhNum(file) == |ss| && phoff + 56 * |ss| <= |file|
    requires forall i :: 0 <= i < |ss| ==> HasSegment(file, phoff + 56 * i, ss[i])
    ensures TableInFile(file) && |Phdrs(file)| == |ss| && forall i :: 0 <= i < |ss| ==> Phdrs(file)[i] == Kept(ss[i])
  {
    hide HasSegment, Field, PhdrAt;
    forall i | 0 <= i < |ss| ensures Phdrs(file)[i] == Kept(ss[i]) { ReadHeader(file, phoff + 56 * i, ss[i]); }
  }

  /** The loader reads exactly the program headers that the file holds, and takes the file for an
      ELF image with usable headers exactly when it has the magic and 56-byte headers. */
  lemma ReadElf(file: seq<byte>, ident: seq<byte>, h: Ehdr, ss: seq<Segment>)
    requires IsElf(file, ident, h, ss)
    ensures TableInFile(file) && |Phdrs(file)| == |ss| && forall i :: 0 <= i < |ss| ==> Phdrs(file)[i] == Kept(ss[i])
    ensures HeaderOk(file) <==> ident[..4] == [0x7F, 'E' as int, 'L' as int, 'F' as int] && h.phentsize == 56
  {
    hide Pack, Field, Bytes.Fits, EhdrFields, HasSegment, Phdrs, Kept, TableInFile, HeaderOk, PhOff, PhNum, EHDR_WIDTHS, PHDR_WIDTHS, Sum;
    ReadEhdr(file, h);
    ReadTable(file, h.phoff, ss);
    ReadMagic(file, ident, h.phentsize);
  }

  lemma ReadHeader(file: seq<byte>, at: nat, s: Segment)
    requires HasSegment(file, at, s)
    ensures PhdrAt(file, at) == Kept(s)
  {
    hide Pack, Bytes.Fits, PhdrAt;
    ReadSegment(file, at, s);
  }

  // ---- the kernel as kernel_linker.ld lays it out ----

  const BOOT_LMA := 0x0200_0000
  const KERNEL_VMA := 0xFFFF_FFFF_8000_0000
  const KERNEL_LMA := 0x0220_0000

  /** The boot segment, mapped where it lies, and the kernel text, linked high and loaded low. */
  function KernelSegments(boot: nat, text: nat): seq<Segment> {
    [Segment(PT_LOAD, 5, 0x1000, BOOT_LMA, BOOT_LMA, boot, boot, 0x1000),
     Segment(PT_LOAD, 5, 0x20_1000, KERNEL_VMA, KERNEL_LMA, text, text, 0x1000)]
  }

  /** The end of the text, rounded up to a page. */
  function TextEnd(text: nat): nat {
    (0x0220_0000 + text + 4095) / 4096 * 4096
  }

  /** Such a file is loaded from 32 MiB on, as far as the text reaches, and every address of the
      kernel text translates to its load address. */
  lemma KernelLayout(file: seq<byte>, ident: seq<byte>, h: Ehdr, boot: nat, text: nat, va: nat)
    requires 0 < boot <= 0x20_0000 && 0 < text <= 0x4000_0000
    requires IsElf(file, ident, h, KernelSegments(boot, text))
    ensures TableInFile(file)
    ensures var ps := Phdrs(file);
      && HullOf(ps) == Hull(0x0200_0000, TextEnd(text)) && Usable(HullOf(ps)) && NoWrap(ps)
      && (0xFFFF_FFFF_8000_0000 <= va < 0xFFFF_FFFF_8000_0000 + text ==>
            VaToPa(ps, va) == 0x0220_0000 + (va - 0xFFFF_FFFF_8000_0000))
      && (0x0200_0000 <= va < 0x0200_0000 + boot ==> VaToPa(ps, va) == va)
  {
    hide IsElf, Phdrs, TableInFile, HullOf, Usable, NoWrap, VaToPa, TextEnd, KernelSegments, HeaderOk;
    ReadElf(file, ident, h, KernelSegments(boot, text));
    KernelParts(boot, text);
    KernelHull(Phdrs(file), boot, text);
    KernelTranslation(Phdrs(file), boot, text, va);
  }

  lemma KernelParts(boot: nat, text: nat)
    ensures var ss := KernelSegments(boot, text);
      && |ss| == 2 && Kept(ss[0]) == Phdr(1, 0x1000, 0x0200_0000, 0x0200_0000, boot, boot)
      && Kept(ss[1]) == Phdr(1, 0x20_1000, 0xFFFF_FFFF_8000_0000, 0x0220_0000, text, text)
  {
  }

  ghost predicate KernelHeaders(ps: seq<Phdr>, boot: nat, text: nat) {
    && |ps| == 2 && ps[0] == Phdr(1, 0x1000, 0x0200_0000, 0x0200_0000, boot, boot)
    && ps[1] == Phdr(1, 0x20_1000, 0xFFFF_FFFF_8000_0000, 0x0220_0000, text, text)
  }

  lemma KernelTranslation(ps: seq<Phdr>, boot: nat, text: nat, va: nat)
    requires 0 < boot <= 0x20_0000 && 0 < text <= 0x4000_0000 && KernelHeaders(ps, boot, text)
    ensures 0xFFFF_FFFF_8000_0000 <= va < 0xFFFF_FFFF_8000_0000 + text ==>
      VaToPa(ps, va) == 0x0220_0000 + (va - 0xFFFF_FFFF_8000_0000)
    ensures 0x0200_0000 <= va < 0x0200_0000 + boot ==> VaToPa(ps, va) == va
  {
    hide SegmentFrom, InSegment;
    InSegmentIff(ps[0], va);
    InSegmentIff(ps[1], va);
    TranslatedIff(ps, va);
  }

  lemma KernelHull(ps: seq<Phdr>, boot: nat, text: nat)
    requires 0 < boot <= 0x20_0000 && 0 < text <= 0x4000_0000 && KernelHeaders(ps, boot, text)
    ensures HullOf(ps) == Hull(0x0200_0000, TextEnd(text)) && Usable(HullOf(ps)) && NoWrap(ps)
  {
    hide HullOf, PageDown, EndPage, TextEnd;
    HullBadIff(ps);
    HullAttained(ps);
    HullUsableIff(ps);
    KernelPages(boot, text);
    assert IsLoad(ps[0]) && IsLoad(ps[1]);
    var h := HullOf(ps);
    assert h.lo == 0x0200_0000;
    assert h.hi == TextEnd(text);
  }

  lemma KernelPages(boot: nat, text: nat)
    requires 0 < boot <= 0x20_0000 && 0 < text <= 0x4000_0000
    ensures PageDown(0x0200_0000) == 0x0200_0000 && PageDown(0x0220_0000) == 0x0220_0000
    ensures EndPage(Phdr(1, 0x1000, 0x0200_0000, 0x0200_0000, boot, boot)) <= 0x0220_0000
    ensures EndPage(Phdr(1, 0x20_1000, 0xFFFF_FFFF_8000_0000, 0x0220_0000, text, text)) == TextEnd(text) > 0x0220_0000
  {
    assert (0x0200_0000 + boot + 0xFFF) % WORD == 0x0200_0000 + boot + 0xFFF;
    assert (0x0220_0000 + text + 0xFFF) % WORD == 0x0220_0000 + text + 0xFFF;
  }
}
