/** The packed ramdisk: written by `ramdisk_pack_scanned` in src/boot/efi_loader.c, laid out
    as src/boot/efi_handoff.h says, and mounted by src/kernel/fs/vfs.c. */
module RamdiskPack {
  import opened Bytes
  import opened Bitmap
  import opened Dirent
  import opened RamdiskScan
  import opened ElfLoader

  const RD_MAGIC := 0x4B534452
  const MAX_FILES := 256
  const ENTRY_SIZE := 48
  const NAME_FIELD := 32
  const RD_HEADER := 8 + MAX_FILES * ENTRY_SIZE

  // ---- packing ----

  function Taken(fs: seq<ScanFile>): (r: seq<ScanFile>)
    ensures |r| <= MAX_FILES
  {
    fs[..Min(|fs|, MAX_FILES)]
  }

  /** `ramdisk_size`. */
  function PackedSize(fs: seq<ScanFile>): nat {
    RD_HEADER + SumSizes(Taken(fs))
  }

  function Pages(fs: seq<ScanFile>): nat {
    (PackedSize(fs) + PAGE - 1) / PAGE
  }

  function Short(name: seq<byte>): (r: seq<byte>)
    ensures |r| < NAME_FIELD
  {
    name[..Min(|name|, NAME_FIELD - 1)]
  }

  function EntryBytes(name: seq<byte>, offset: nat, size: nat): (r: seq<byte>)
    ensures |r| == ENTRY_SIZE
  {
    Short(name) + Zeros(NAME_FIELD - |Short(name)|) + ToLE(offset, 8) + ToLE(size, 8)
  }

  function EntryOff(i: nat): nat {
    8 + ENTRY_SIZE * i
  }

  /** Where the data of file i starts. */
  function DataOff(fs: seq<ScanFile>, i: nat): nat
    requires i <= |fs|
  {
    RD_HEADER + SumSizes(fs[..i])
  }

  /** The buffer after the first k files were packed. */
  function PackFirst(buf: seq<byte>, fs: seq<ScanFile>, k: nat): (r: seq<byte>)
    requires k <= |fs| <= MAX_FILES && RD_HEADER + SumSizes(fs) <= |buf|
    ensures |r| == |buf|
  {
    if k == 0 then buf
    else PackOne(PackFirst(buf, fs, k - 1), fs, k - 1)
  }

  /** One round of the packing loop: the entry, then the data. */
  function PackOne(buf: seq<byte>, fs: seq<ScanFile>, i: nat): (r: seq<byte>)
    requires i < |fs| <= MAX_FILES && RD_HEADER + SumSizes(fs) <= |buf|
    ensures |r| == |buf|
  {
    SizesBelow(fs, i);
    Splice(Splice(buf, EntryOff(i), EntryBytes(fs[i].name, DataOff(fs, i), |fs[i].data|)), DataOff(fs, i), fs[i].data)
  }

  lemma SumStep(fs: seq<ScanFile>, i: nat)
    requires i < |fs|
    ensures SumSizes(fs[..i + 1]) == SumSizes(fs[..i]) + |fs[i].data|
  {
    assert fs[..i + 1][..i] == fs[..i];
  }

  lemma {:induction false} SumPrefix(fs: seq<ScanFile>, i: nat)
    requires i <= |fs|
    ensures SumSizes(fs[..i]) <= SumSizes(fs)
    decreases |fs| - i
  {
    if i == |fs| { assert fs[..i] == fs; } else {
      SumStep(fs, i);
      SumPrefix(fs, i + 1);
    }
  }

  lemma SizesBelow(fs: seq<ScanFile>, i: nat)
    requires i < |fs|
    ensures DataOff(fs, i) + |fs[i].data| == DataOff(fs, i + 1) <= RD_HEADER + SumSizes(fs)
  {
    SumStep(fs, i);
    SumPrefix(fs, i + 1);
  }

  function HeaderBytes(n: nat): (r: seq<byte>)
    ensures |r| == 8
  {
    ToLE(RD_MAGIC, 4) + ToLE(n, 4)
  }

  /** The whole ramdisk buffer: cleared pages, header, entries and data. */
  function Pack(fs: seq<ScanFile>): (r: seq<byte>)
    ensures |r| == Pages(fs) * PAGE
  {
    PagesHold(fs);
    var z := Zeros(Pages(fs) * PAGE);
    PackFirst(Splice(z, 0, HeaderBytes(|Taken(fs)|)), Taken(fs), |Taken(fs)|)
  }

  lemma PagesHold(fs: seq<ScanFile>)
    ensures PackedSize(fs) <= Pages(fs) * PAGE
  {
  }

  // ---- mounting ----

  function CStr(s: seq<byte>): seq<byte> {
    if s == [] || s[0] == 0 then [] else [s[0]] + CStr(s[1..])
  }

  predicate HasEntry(buf: seq<byte>, i: nat) {
    EntryOff(i) + ENTRY_SIZE <= |buf|
  }

  function EntryName(buf: seq<byte>, i: nat): seq<byte>
    requires HasEntry(buf, i)
  {
    CStr(buf[EntryOff(i)..EntryOff(i) + NAME_FIELD])
  }

  function EntryOffset(buf: seq<byte>, i: nat): nat
    requires HasEntry(buf, i)
  {
    FromLE(buf[EntryOff(i) + 32..EntryOff(i) + 40])
  }

  function EntrySize(buf: seq<byte>, i: nat): nat
    requires HasEntry(buf, i)
  {
    FromLE(buf[EntryOff(i) + 40..EntryOff(i) + 48])
  }

  function Count(buf: seq<byte>): nat
    requires |buf| >= 8
  {
    FromLE(buf[4..8])
  }

  /** `rd_header_valid` on a ramdisk of this size. */
  predicate HeaderValid(buf: seq<byte>, size: nat) {
    && RD_HEADER <= size <= |buf|
    && FromLE(buf[..4]) == RD_MAGIC
    && 0 < Count(buf) <= MAX_FILES
    && forall i :: 0 <= i < Count(buf) ==> EntryValid(buf, size, i)
  }

  predicate EntryValid(buf: seq<byte>, size: nat, i: nat) {
    && HasEntry(buf, i)
    && EntryName(buf, i) != []
    && RD_HEADER <= EntryOffset(buf, i) <= size
    && EntrySize(buf, i) <= size - EntryOffset(buf, i)
  }

  function StripSlashes(path: seq<byte>): seq<byte> {
    if path != [] && path[0] == 47 then StripSlashes(path[1..]) else path
  }

  function OpenFrom(buf: seq<byte>, path: seq<byte>, i: nat): (r: Option<nat>)
    requires |buf| >= RD_HEADER && Count(buf) <= MAX_FILES
    decreases MAX_FILES - i
  {
    if i >= Count(buf) then None
    else if NameEq(EntryName(buf, i), path) then Some(i)
    else OpenFrom(buf, path, i + 1)
  }

  /** `rd_open`: the first entry with that name. */
  function Open(buf: seq<byte>, path: seq<byte>): Option<nat>
    requires |buf| >= RD_HEADER && Count(buf) <= MAX_FILES
  {
    OpenFrom(buf, StripSlashes(path), 0)
  }

  /** What reading entry i from its start to its end gives. */
  function EntryData(buf: seq<byte>, i: nat): seq<byte>
    requires HasEntry(buf, i) && EntryOffset(buf, i) + EntrySize(buf, i) <= |buf|
  {
    buf[EntryOffset(buf, i)..EntryOffset(buf, i) + EntrySize(buf, i)]
  }

  // ---- packing is faithful ----

  lemma SpliceKeeps(buf: seq<byte>, off: nat, chunk: seq<byte>, lo: nat, hi: nat)
    requires off + |chunk| <= |buf| && lo <= hi <= |buf| && (hi <= off || off + |chunk| <= lo)
    ensures Splice(buf, off, chunk)[lo..hi] == buf[lo..hi]
  {
  }

  /** Entry i and its data are in place. */
  ghost predicate Placed(buf: seq<byte>, fs: seq<ScanFile>, i: nat)
    requires i < |fs| <= MAX_FILES && RD_HEADER + SumSizes(fs) <= |buf|
  {
    SizesBelow(fs, i);
    && buf[EntryOff(i)..EntryOff(i) + ENTRY_SIZE] == EntryBytes(fs[i].name, DataOff(fs, i), |fs[i].data|)
    && buf[DataOff(fs, i)..DataOff(fs, i) + |fs[i].data|] == fs[i].data
  }

  lemma {:induction false} DataOffMono(fs: seq<ScanFile>, i: nat, j: nat)
    requires i <= j <= |fs|
    ensures DataOff(fs, i) <= DataOff(fs, j)
    decreases j
  {
    hide SumSizes;
    if i < j {
      DataOffMono(fs, i, j - 1);
      SizesBelow(fs, j - 1);
    }
  }

  lemma PackOnePlaces(buf: seq<byte>, fs: seq<ScanFile>, i: nat)
    requires i < |fs| <= MAX_FILES && RD_HEADER + SumSizes(fs) <= |buf|
    ensures Placed(PackOne(buf, fs, i), fs, i)
  {
    hide SumSizes, EntryBytes, Splice, DataOff;
    SizesBelow(fs, i);
    DataAfterHeader(fs, i);
    var e := EntryBytes(fs[i].name, DataOff(fs, i), |fs[i].data|);
    SpliceKeeps(Splice(buf, EntryOff(i), e), DataOff(fs, i), fs[i].data, EntryOff(i), EntryOff(i) + ENTRY_SIZE);
  }

  /** A round leaves alone whatever is before the header's end but not its entry, and any data before its own. */
  lemma PackOneKeeps(buf: seq<byte>, fs: seq<ScanFile>, k: nat, lo: nat, hi: nat)
    requires k < |fs| <= MAX_FILES && RD_HEADER + SumSizes(fs) <= |buf|
    requires lo <= hi <= DataOff(fs, k) && (hi <= EntryOff(k) || RD_HEADER <= lo)
    ensures hi <= |buf| && PackOne(buf, fs, k)[lo..hi] == buf[lo..hi]
  {
    hide SumSizes, EntryBytes, Splice;
    SizesBelow(fs, k);
    var e := EntryBytes(fs[k].name, DataOff(fs, k), |fs[k].data|);
    SpliceKeeps(buf, EntryOff(k), e, lo, hi);
    SpliceKeeps(Splice(buf, EntryOff(k), e), DataOff(fs, k), fs[k].data, lo, hi);
  }

  lemma {:induction false} PackFirstPlaces(buf: seq<byte>, fs: seq<ScanFile>, k: nat, i: nat)
    requires i < k <= |fs| <= MAX_FILES && RD_HEADER + SumSizes(fs) <= |buf|
    ensures Placed(PackFirst(buf, fs, k), fs, i)
    decreases k
  {
    hide SumSizes, EntryBytes, PackOne, DataOff;
    var r := PackFirst(buf, fs, k - 1);
    if i == k - 1 {
      PackOnePlaces(r, fs, i);
    } else {
      PackFirstPlaces(buf, fs, k - 1, i);
      SizesBelow(fs, i);
      DataOffMono(fs, i + 1, k - 1);
      DataAfterHeader(fs, i);
      PackOneKeeps(r, fs, k - 1, EntryOff(i), EntryOff(i) + ENTRY_SIZE);
      PackOneKeeps(r, fs, k - 1, DataOff(fs, i), DataOff(fs, i) + |fs[i].data|);
    }
  }

  lemma DataAfterHeader(fs: seq<ScanFile>, i: nat)
    requires i <= |fs|
    ensures RD_HEADER <= DataOff(fs, i)
  {
  }

  lemma {:induction false} PackFirstHeader(buf: seq<byte>, fs: seq<ScanFile>, k: nat)
    requires k <= |fs| <= MAX_FILES && RD_HEADER + SumSizes(fs) <= |buf|
    ensures PackFirst(buf, fs, k)[0..8] == buf[0..8]
    decreases k
  {
    hide SumSizes, PackOne;
    if k > 0 {
      PackFirstHeader(buf, fs, k - 1);
      PackOneKeeps(PackFirst(buf, fs, k - 1), fs, k - 1, 0, 8);
    }
  }

  lemma {:induction false} CStrPadded(name: seq<byte>, pad: seq<byte>)
    requires (forall i :: 0 <= i < |name| ==> name[i] != 0) && pad != [] && pad[0] == 0
    ensures CStr(name + pad) == name
  {
    if name == [] { assert name + pad == pad; } else {
      assert (name + pad)[1..] == name[1..] + pad;
      CStrPadded(name[1..], pad);
    }
  }

  lemma EntryFields(name: seq<byte>, offset: nat, size: nat)
    requires forall i :: 0 <= i < |name| ==> name[i] != 0
    requires offset < WORD && size < WORD
    ensures var e := EntryBytes(name, offset, size);
      CStr(e[..NAME_FIELD]) == Short(name) && FromLE(e[32..40]) == offset && FromLE(e[40..48]) == size
  {
    hide FromLE, ToLE, CStr;
    PowValues();
    FromToLE(offset, 8);
    FromToLE(size, 8);
    var e, pad := EntryBytes(name, offset, size), Zeros(NAME_FIELD - |Short(name)|);
    assert e[..NAME_FIELD] == Short(name) + pad;
    assert e[32..40] == ToLE(offset, 8) && e[40..48] == ToLE(size, 8);
    CStrPadded(Short(name), pad);
  }

  lemma PlacedEntry(buf: seq<byte>, fs: seq<ScanFile>, i: nat)
    requires i < |fs| <= MAX_FILES && RD_HEADER + SumSizes(fs) <= |buf| && Placed(buf, fs, i)
    requires Proper(fs[i]) && RD_HEADER + SumSizes(fs) < WORD
    ensures HasEntry(buf, i) && EntryName(buf, i) == Short(fs[i].name)
    ensures EntryOffset(buf, i) == DataOff(fs, i) && EntrySize(buf, i) == |fs[i].data|
    ensures EntryOffset(buf, i) + EntrySize(buf, i) <= |buf| && EntryData(buf, i) == fs[i].data
  {
    hide FromLE, CStr, EntryBytes, SumSizes;
    SizesBelow(fs, i);
    var off := EntryOff(i);
    var e := buf[off..off + ENTRY_SIZE];
    EntryFields(fs[i].name, DataOff(fs, i), |fs[i].data|);
    SubSlice(buf, off, ENTRY_SIZE, 0, NAME_FIELD);
    SubSlice(buf, off, ENTRY_SIZE, 32, 40);
    SubSlice(buf, off, ENTRY_SIZE, 40, 48);
  }

  lemma SubSlice(buf: seq<byte>, off: nat, n: nat, a: nat, b: nat)
    requires off + n <= |buf| && a <= b <= n
    ensures buf[off..off + n][a..b] == buf[off + a..off + b]
  {
    var x, y := buf[off..off + n][a..b], buf[off + a..off + b];
    assert forall i :: 0 <= i < b - a ==> x[i] == buf[off..off + n][a + i] == buf[off + a + i] == y[i];
  }

  lemma PackPlaces(fs: seq<ScanFile>, i: nat)
    requires i < |Taken(fs)| && PackedSize(fs) <= |Pack(fs)|
    ensures Placed(Pack(fs), Taken(fs), i)
  {
    hide PackFirst, Placed, SumSizes;
    PagesHold(fs);
    PackFirstPlaces(Splice(Zeros(Pages(fs) * PAGE), 0, HeaderBytes(|Taken(fs)|)), Taken(fs), |Taken(fs)|, i);
  }

  lemma PackHeader(fs: seq<ScanFile>)
    ensures |Pack(fs)| >= RD_HEADER && FromLE(Pack(fs)[..4]) == RD_MAGIC && Count(Pack(fs)) == |Taken(fs)|
  {
    hide PackFirst, SumSizes, FromLE, ToLE;
    PagesHold(fs);
    PowValues();
    FromToLE(RD_MAGIC, 4);
    FromToLE(|Taken(fs)|, 4);
    var buf := Splice(Zeros(Pages(fs) * PAGE), 0, HeaderBytes(|Taken(fs)|));
    PackFirstHeader(buf, Taken(fs), |Taken(fs)|);
    var p := Pack(fs);
    assert buf[0..8] == HeaderBytes(|Taken(fs)|);
    assert p[..4] == p[0..8][..4] && p[4..8] == p[0..8][4..8];
  }

  /** Of n scanned files the first 256 are packed. */
  lemma TakenFiles(fs: seq<ScanFile>)
    ensures |Taken(fs)| == (if |fs| <= 256 then |fs| else 256) && Taken(fs) <= fs
  {
  }

  /** The size handed to the kernel: the header and the packed files. */
  lemma PackedBytes(fs: seq<ScanFile>)
    ensures |fs| <= 256 ==> PackedSize(fs) == 12296 + SumSizes(fs)
    ensures |fs| > 256 ==> PackedSize(fs) == 12296 + SumSizes(fs[..256])
    ensures PackedSize(fs) <= |Pack(fs)| < PackedSize(fs) + 4096 && |Pack(fs)| % 4096 == 0
  {
    hide SumSizes, PackFirst;
    if |fs| <= 256 { assert fs[..|fs|] == fs; }
  }

  /** The packed entries: contiguous from right after the header to exactly ramdisk_size,
      each with its file's bytes and its name cut to 31 characters. */
  lemma PackFaithful(fs: seq<ScanFile>, i: nat)
    requires i < |fs| && i < 256 && PackedSize(fs) < WORD && Proper(fs[i])
    ensures var buf := Pack(fs);
      && |buf| >= RD_HEADER && Count(buf) == (if |fs| <= 256 then |fs| else 256)
      && HasEntry(buf, i) && EntryName(buf, i) == Short(fs[i].name) && EntrySize(buf, i) == |fs[i].data|
      && EntryOffset(buf, i) + EntrySize(buf, i) <= |buf| && EntryData(buf, i) == fs[i].data
      && EntryOffset(buf, i) == 12296 + SumSizes(fs[..i])
  {
    hide Pack, Placed, EntryName, EntrySize, EntryOffset, EntryData, Count, SumSizes;
    PagesHold(fs);
    var t := Taken(fs);
    TakenFiles(fs);
    assert t[..i] == fs[..i];
    PackHeader(fs);
    PackPlaces(fs, i);
    PlacedEntry(Pack(fs), t, i);
  }

  /** The data of the packed files is contiguous: it starts behind the header, each file starts
      where the one before it ends, and the last one ends at ramdisk_size. */
  lemma PackContiguous(fs: seq<ScanFile>, i: nat)
    requires i < |fs| && i < 256 && PackedSize(fs) < WORD && (forall j :: 0 <= j < |fs| ==> Proper(fs[j]))
    ensures var buf := Pack(fs);
      && HasEntry(buf, i) && (i == 0 ==> EntryOffset(buf, i) == 12296)
      && (if i + 1 < |fs| && i + 1 < 256
          then HasEntry(buf, i + 1) && EntryOffset(buf, i + 1) == EntryOffset(buf, i) + |fs[i].data|
          else EntryOffset(buf, i) + |fs[i].data| == PackedSize(fs))
  {
    hide Pack, EntryName, EntrySize, EntryOffset, EntryData, Count, Proper, PackedSize, SumSizes;
    PackFaithful(fs, i);
    SumStep(fs, i);
    PackedBytes(fs);
    if i == 0 { NoSizes(fs); }
    if i + 1 < |fs| && i + 1 < 256 { PackFaithful(fs, i + 1); }
    else if i + 1 == |fs| { assert fs[..i + 1] == fs; }
  }

  lemma NoSizes(fs: seq<ScanFile>)
    ensures SumSizes(fs[..0]) == 0
  {
  }

  /** Every packed ramdisk of at least one scanned file is accepted by the kernel. */
  lemma PackMounts(fs: seq<ScanFile>)
    requires fs != [] && PackedSize(fs) < WORD && forall i :: 0 <= i < |fs| ==> Proper(fs[i])
    ensures HeaderValid(Pack(fs), PackedSize(fs))
  {
    hide Pack, EntryName, EntrySize, EntryOffset, EntryData, Count, FromLE, Proper, SumSizes;
    var buf, t := Pack(fs), Taken(fs);
    PagesHold(fs);
    PackHeader(fs);
    TakenFiles(fs);
    forall i | 0 <= i < |t| ensures EntryValid(buf, PackedSize(fs), i) {
      PackFaithful(fs, i);
      SizesBelow(t, i);
      assert t[..i] == fs[..i];
      assert |Short(fs[i].name)| > 0 by { ProperName(fs[i]); }
    }
  }

  lemma ProperName(f: ScanFile)
    requires Proper(f)
    ensures |f.name| > 0
  {
  }

  /** The on-disk structs: magic and count, and per file a name of 32 bytes, offset and size. */
  lemma PackLayout(n: nat, name: seq<byte>, offset: nat, size: nat)
    ensures HeaderBytes(n) == Bytes.Pack([4, 4], [0x4B534452, n])
    ensures var e := EntryBytes(name, offset, size);
      && e[32..] == Bytes.Pack([8, 8], [offset, size])
      && (forall i :: 0 <= i < 32 ==> e[i] == if i < |name| && i < 31 then name[i] else 0)
  {
    hide ToLE;
    PackPair(4, 4, 0x4B534452, n);
    PackPair(8, 8, offset, size);
    var e := EntryBytes(name, offset, size);
    assert e[32..] == ToLE(offset, 8) + ToLE(size, 8);
  }

  lemma PackPair(v: nat, w: nat, x: nat, y: nat)
    ensures Bytes.Pack([v, w], [x, y]) == ToLE(x, v) + ToLE(y, w)
  {
    hide ToLE;
    assert [v, w][1..] == [w] && [x, y][1..] == [y] && [w][1..] == [] && [y][1..] == [];
    assert Bytes.Pack([w], [y]) == ToLE(y, w) + Bytes.Pack([], []);
    assert Bytes.Pack([w], [y]) == ToLE(y, w);
  }

  /** Byte b belongs to no header field, entry or data of the first k files. */
  ghost predicate Unused(fs: seq<ScanFile>, k: nat, b: nat)
    requires k <= |fs|
  {
    EntryOff(k) <= b < RD_HEADER || DataOff(fs, k) <= b
  }

  lemma {:induction false} PackFirstZero(buf: seq<byte>, fs: seq<ScanFile>, k: nat, b: nat)
    requires k <= |fs| <= MAX_FILES && RD_HEADER + SumSizes(fs) <= |buf| && b < |buf| && Unused(fs, k, b)
    ensures PackFirst(buf, fs, k)[b] == buf[b]
    decreases k
  {
    hide SumSizes, EntryBytes;
    if k > 0 {
      SizesBelow(fs, k - 1);
      DataAfterHeader(fs, k - 1);
      PackFirstZero(buf, fs, k - 1, b);
    }
  }

  /** Entries that are not used, and the bytes behind the last file, are zero. */
  lemma PackRestZero(fs: seq<ScanFile>, b: nat)
    requires b < |Pack(fs)| && (8 + 48 * |fs| <= b < 12296 || PackedSize(fs) <= b)
    ensures Pack(fs)[b] == 0
  {
    hide SumSizes, PackFirst;
    var t := Taken(fs);
    PagesHold(fs);
    TakenFiles(fs);
    assert t[..|t|] == t;
    PackFirstZero(Splice(Zeros(Pages(fs) * PAGE), 0, HeaderBytes(|t|)), t, |t|, b);
  }

  /** Whatever buffer the kernel accepts: it carries the magic, holds between one and 256 files,
      and every one of them has a name and lies between the header and the ramdisk's end. */
  lemma MountedInside(buf: seq<byte>, size: nat, i: nat)
    requires HeaderValid(buf, size)
    ensures buf[..4] == [82, 68, 83, 75] && 0 < Count(buf) <= 256
    ensures i < Count(buf) ==>
      && HasEntry(buf, i) && EntryName(buf, i) != []
      && 12296 <= EntryOffset(buf, i) && EntryOffset(buf, i) + EntrySize(buf, i) <= size <= |buf|
  {
    hide FromLE, Count, EntryName, EntryOffset, EntrySize;
    ToFromLE(buf[..4]);
    MagicBytes();
    assert i < Count(buf) ==> EntryValid(buf, size, i);
  }

  lemma MagicBytes()
    ensures ToLE(0x4B534452, 4) == [82, 68, 83, 75]
  {
    assert ToLE(0x4B, 1) == [75] + ToLE(0, 0);
    assert ToLE(0x4B53, 2) == [83] + ToLE(0x4B, 1);
    assert ToLE(0x4B5344, 3) == [68] + ToLE(0x4B53, 2);
  }

  // ---- lookup ----

  /** Opening fails exactly when no entry has the name, and leading slashes do not matter. */
  lemma OpenNoneIff(buf: seq<byte>, path: seq<byte>)
    requires |buf| >= RD_HEADER && Count(buf) <= MAX_FILES
    ensures NoLeadingSlash(path) ==>
      (Open(buf, path) == None <==> forall i :: 0 <= i < Count(buf) ==> !NameEq(EntryName(buf, i), path))
    ensures Open(buf, [47] + path) == Open(buf, path)
  {
    hide OpenFrom, Count, EntryName, Fold;
    assert ([47] + path)[1..] == path;
    if NoLeadingSlash(path) { OpenFromNone(buf, path, 0); }
  }

  lemma {:induction false} OpenFromNone(buf: seq<byte>, path: seq<byte>, i: nat)
    requires |buf| >= RD_HEADER && Count(buf) <= MAX_FILES
    ensures OpenFrom(buf, path, i) == None <==> forall j :: i <= j < Count(buf) ==> !NameEq(EntryName(buf, j), path)
    decreases MAX_FILES - i
  {
    hide Count, EntryName, Fold;
    if i < Count(buf) && !NameEq(EntryName(buf, i), path) { OpenFromNone(buf, path, i + 1); }
  }

  lemma {:induction false} OpenFirst(buf: seq<byte>, path: seq<byte>, i: nat, k: nat)
    requires |buf| >= RD_HEADER && Count(buf) <= MAX_FILES && i <= k < Count(buf)
    ensures OpenFrom(buf, path, i) == Some(k) <==>
      NameEq(EntryName(buf, k), path) && forall j :: i <= j < k ==> !NameEq(EntryName(buf, j), path)
    decreases k - i
  {
    hide Fold, EntryName, Count;
    if i < k && !NameEq(EntryName(buf, i), path) { OpenFirst(buf, path, i + 1, k); }
    else if i == k && !NameEq(EntryName(buf, k), path) { OpenAtLeast(buf, path, k + 1); }
  }

  lemma {:induction false} OpenAtLeast(buf: seq<byte>, path: seq<byte>, i: nat)
    requires |buf| >= RD_HEADER && Count(buf) <= MAX_FILES
    ensures OpenFrom(buf, path, i).Some? ==> OpenFrom(buf, path, i).value >= i
    decreases MAX_FILES - i
  {
    hide Fold, EntryName, Count;
    if i < Count(buf) { OpenAtLeast(buf, path, i + 1); }
  }

  ghost predicate NoLeadingSlash(name: seq<byte>) {
    name == [] || name[0] != 47
  }

  /** The kernel opens file k under its scanned name exactly when the name fits the 32-byte
      field and no earlier file has it as its cut name. */
  lemma OpenIff(fs: seq<ScanFile>, k: nat)
    requires PackedSize(fs) < WORD && (forall i :: 0 <= i < |fs| ==> Proper(fs[i]))
    requires k < |fs| && k < 256 && NoLeadingSlash(fs[k].name)
    ensures var buf := Pack(fs);
      |buf| >= RD_HEADER && Count(buf) <= MAX_FILES
      && (Open(buf, fs[k].name) == Some(k) <==>
            |fs[k].name| < NAME_FIELD && forall j :: 0 <= j < k ==> !NameEq(Short(fs[j].name), fs[k].name))
  {
    hide Pack, EntryName, EntrySize, EntryOffset, EntryData, Count, OpenFrom, Proper, Fold, SumSizes;
    var buf, name := Pack(fs), fs[k].name;
    PackHeader(fs);
    TakenFiles(fs);
    forall j | 0 <= j < |Taken(fs)| ensures EntryName(buf, j) == Short(fs[j].name) { PackFaithful(fs, j); }
    OpenFirst(buf, name, 0, k);
    ShortSelf(name);
  }

  lemma ShortSelf(name: seq<byte>)
    ensures NameEq(Short(name), name) <==> |name| < NAME_FIELD
  {
    if |name| < NAME_FIELD { assert Short(name) == name; } else { assert |Fold(Short(name))| < |Fold(name)|; }
  }

  /** When all names fit, each of the first 256 scanned files is opened under its name. */
  lemma AllNamesOpen(fs: seq<ScanFile>, k: nat)
    requires PackedSize(fs) < WORD && (forall i :: 0 <= i < |fs| ==> Proper(fs[i])) && Distinct(fs)
    requires k < |fs| && k < 256 && NoLeadingSlash(fs[k].name)
    requires forall i :: 0 <= i < |fs| ==> |fs[i].name| < NAME_FIELD
    ensures var buf := Pack(fs);
      |buf| >= RD_HEADER && Count(buf) <= MAX_FILES && Open(buf, fs[k].name) == Some(k)
  {
    hide Pack, Proper, Fold, SumSizes, Count, OpenFrom;
    OpenIff(fs, k);
    forall j | 0 <= j < k ensures !NameEq(Short(fs[j].name), fs[k].name) { assert Short(fs[j].name) == fs[j].name; }
  }

  // ---- two libraries whose names share their first 31 bytes ----

  /** "aaa...a.so.1" and "aaa...a.so.2", 32 characters each, as the firmware lists them. */
  function LibName(version: char16): Wide {
    seq(27, _ => 97) + [46, 115, 111, 46, version]
  }

  /** The same names as the scan stores them. */
  function LibBytes(version: byte): seq<byte> {
    seq(27, _ => 97) + [46, 115, 111, 46, version]
  }

  const ROOT_DIR: Wide := [BACKSLASH]

  function LibPath(version: char16): Wide {
    ROOT_DIR + LibName(version)
  }

  function LibInfos(): seq<Info> {
    [Info(LibName(49), false), Info(LibName(50), false)]
  }

  /** A volume with just these two files in its root directory. */
  function LibVolume(): Vol {
    Vol(map[ROOT_DIR := LibInfos()], map[LibPath(49) := [1], LibPath(50) := [2]])
  }

  function LibFiles(): seq<ScanFile> {
    [ScanFile(LibBytes(49), [1]), ScanFile(LibBytes(50), [2])]
  }

  lemma LibSuffix(version: char16)
    requires version == 49 || version == 50
    ensures ShouldLoad(LibName(version))
  {
    var k := if version == 49 then 9 else 10;
    assert SUFFIXES[9] == ".so.1" && SUFFIXES[10] == ".so.2";
    assert HasSuffix(LibName(version), SUFFIXES[k]);
  }

  /** A root entry with such a name is loaded under it. */
  lemma LibChild(version: char16)
    requires version == 49 || version == 50
    ensures PathAppend(ROOT_DIR, LibName(version)) == Some(LibPath(version))
    ensures UnixName(LibPath(version)) == LibBytes(version)
  {
    var p, name := LibPath(version), LibName(version);
    assert p[1..] == name && name[0] == 97 && p[0] == BACKSLASH;
    assert Strip(name) == name;
    assert Strip(p) == name;
    var u := UnixName(p);
    assert |u| == 32;
    forall i | 0 <= i < 32 ensures u[i] == LibBytes(version)[i] { assert u[i] == UnixChar(name[i]); }
  }

  lemma LibNamesDiffer()
    ensures !NameEq(LibBytes(49), LibBytes(50)) && LibPath(49) != LibPath(50)
    ensures LibVolume().files[LibPath(49)] == [1]
  {
    assert Fold(LibBytes(49))[31] == 49 && Fold(LibBytes(50))[31] == 50;
    assert LibPath(49)[32] != LibPath(50)[32];
  }

  /** A listed payload file in the root directory. */
  lemma ScanOneLib(g: Grants, s: State, version: char16, recursive: bool)
    requires version == 49 || version == 50
    ensures ScanOne(g, LibVolume(), s, ROOT_DIR, Info(LibName(version), false), recursive, 0)
         == TryLoad(g, LibVolume(), s, LibPath(version))
  {
    hide ShouldLoad, UnixName, TryLoad, PathAppend, LibVolume;
    LibSuffix(version);
    LibChild(version);
  }

  lemma TryLoadAppends(g: Grants, vol: Vol, s: State, path: Wide)
    requires UnixName(path) != [] && !Contains(s.files, UnixName(path))
    requires path in vol.files && vol.files[path] != [] && (|s.files| != s.cap || g(s.asked))
    ensures var t := TryLoad(g, vol, s, path);
      && t.files == s.files + [ScanFile(UnixName(path), vol.files[path])]
      && t.cap == (if |s.files| != s.cap then s.cap else Doubled(s.cap))
  {
    hide UnixName, Contains;
    assert UnixName(path)[..|UnixName(path)|] == UnixName(path);
  }

  lemma NoneListed(name: seq<byte>)
    ensures !Contains([], name)
  {
  }

  lemma OneListed(a: ScanFile, name: seq<byte>)
    requires !NameEq(a.name, name)
    ensures !Contains([a], name)
  {
    hide Fold;
  }

  lemma BothListed()
    ensures Contains(LibFiles(), LibBytes(49)) && Contains(LibFiles(), LibBytes(50))
  {
    var fs := LibFiles();
    assert NameEq(fs[0].name, LibBytes(49)) && NameEq(fs[1].name, LibBytes(50));
  }

  /** The root scan tries both files in turn. */
  lemma RootScan(g: Grants, s: State, recursive: bool)
    ensures var vol := LibVolume();
      ScanDir(g, vol, s, ROOT_DIR, recursive, 0) == TryLoad(g, vol, TryLoad(g, vol, s, LibPath(49)), LibPath(50))
  {
    hide TryLoad, ScanOne, LibName, LibPath;
    var vol, infos := LibVolume(), LibInfos();
    ScanOneLib(g, s, 49, recursive);
    var t := TryLoad(g, vol, s, LibPath(49));
    ScanOneLib(g, t, 50, recursive);
    var u := TryLoad(g, vol, t, LibPath(50));
    assert infos[1..] == [infos[1]] && infos[1..][1..] == [];
    assert ScanList(g, vol, u, ROOT_DIR, infos[1..][1..], recursive, 0) == u;
    assert ScanList(g, vol, t, ROOT_DIR, infos[1..], recursive, 0) == u;
  }

  lemma FirstRootScan(g: Grants)
    requires g(0)
    ensures ScanDir(g, LibVolume(), State([], 0, 0, 0), ROOT_DIR, false, 0).files == LibFiles()
  {
    hide TryLoad, ScanDir, UnixName, Contains, Fold, LibName, LibBytes, LibPath;
    var vol, s := LibVolume(), State([], 0, 0, 0);
    RootScan(g, s, false);
    LibChild(49);
    LibChild(50);
    LibNamesDiffer();
    LibLength();
    NoneListed(LibBytes(49));
    TryLoadAppends(g, vol, s, LibPath(49));
    var t := TryLoad(g, vol, s, LibPath(49));
    OneListed(ScanFile(LibBytes(49), [1]), LibBytes(50));
    assert t.files == [ScanFile(LibBytes(49), [1])];
    TryLoadAppends(g, vol, t, LibPath(50));
  }

  lemma LibLength()
    ensures |LibBytes(49)| == 32 && |LibBytes(50)| == 32
  {
  }

  lemma LastRootScan(g: Grants, s: State)
    requires s.files == LibFiles()
    ensures ScanDir(g, LibVolume(), s, ROOT_DIR, true, 0) == s
  {
    hide ScanDir, UnixName, Contains, LibName, LibBytes, LibPath;
    RootScan(g, s, true);
    LibChild(49);
    LibChild(50);
    BothListed();
  }

  lemma PlacePaths(k: nat)
    requires k < |PLACES|
    ensures if k == 0 then PLACES[k] == (ROOT_DIR, false) else if k == 6 then PLACES[k] == (ROOT_DIR, true) else |PLACES[k].0| > 1
  {
    assert W("\\") == ROOT_DIR;
  }

  lemma {:induction false} LibPlaces(g: Grants, k: nat)
    requires g(0) && 0 < k <= |PLACES|
    ensures ScanPlaces(g, LibVolume(), State([], 0, 0, 0), k).files == LibFiles()
  {
    hide PLACES, LibInfos, LibFiles, LibPath, ScanList;
    PlacePaths(k - 1);
    if k == 1 {
      FirstRootScan(g);
    } else {
      LibPlaces(g, k - 1);
      if k == 7 { LastRootScan(g, ScanPlaces(g, LibVolume(), State([], 0, 0, 0), 6)); }
    }
  }

  /** The loader lists both files. */
  lemma LibScan(g: Grants)
    requires g(0)
    ensures ScanVolumes(g, [LibVolume()]).files == LibFiles()
  {
    hide PLACES, LibFiles, LibVolume, ScanPlaces;
    SevenPlaces();
    LibPlaces(g, 7);
    var vols := [LibVolume()];
    assert vols[..0] == [] && ScanVolumes(g, vols[..0]) == State([], 0, 0, 0);
  }

  lemma SevenPlaces()
    ensures |PLACES| == 7
  {
  }

  /** Two payload files in the root of a volume, whose names differ in their last character
      only: the loader scans and packs both, and the kernel opens neither under its name. */
  lemma LongNamesCollide(g: Grants)
    requires g(0)
    ensures var fs := ScanVolumes(g, [LibVolume()]).files;
      && fs == LibFiles() && PackedSize(fs) < WORD
      && |Pack(fs)| >= RD_HEADER && Count(Pack(fs)) <= MAX_FILES
      && Open(Pack(fs), LibBytes(49)) != Some(0) && Open(Pack(fs), LibBytes(50)) != Some(1)
  {
    hide Pack, OpenFrom, Count, ScanVolumes, LibBytes, Proper, SumSizes;
    LibScan(g);
    LibLength();
    var fs := LibFiles();
    ScanVolumesGood(g, [LibVolume()]);
    LibSize();
    LibSlash();
    OpenIff(fs, 0);
    OpenIff(fs, 1);
  }

  lemma LibSlash()
    ensures NoLeadingSlash(LibBytes(49)) && NoLeadingSlash(LibBytes(50))
  {
  }

  lemma LibSize()
    ensures PackedSize(LibFiles()) == RD_HEADER + 2 && Taken(LibFiles()) == LibFiles()
  {
    hide LibBytes;
    var fs := LibFiles();
    assert Taken(fs) == fs && fs[..1] == [fs[0]] && fs[..0] == [] && fs[..2] == fs;
    SumStep(fs, 0);
    SumStep(fs, 1);
  }

  // ---- from scan to kernel ----

  lemma NameNoSlash(path: Wide)
    ensures NoLeadingSlash(UnixName(path))
  {
  }

  /** End to end: scan any volumes, pack, mount. The ramdisk is accepted, and when all names
      fit, opening any of the first 256 names gives that file's bytes. */
  lemma ScannedFilesOpen(g: Grants, vols: seq<Vol>, k: nat)
    requires var fs := ScanVolumes(g, vols).files;
      PackedSize(fs) < WORD && k < |fs| && k < 256 && forall i :: 0 <= i < |fs| ==> |fs[i].name| < NAME_FIELD
    ensures var fs := ScanVolumes(g, vols).files;
      var buf := Pack(fs);
      && HeaderValid(buf, PackedSize(fs))
      && Open(buf, fs[k].name) == Some(k)
      && HasEntry(buf, k) && EntryOffset(buf, k) + EntrySize(buf, k) <= |buf| && EntryData(buf, k) == fs[k].data
  {
    hide Pack, ScanVolumes, Proper, SumSizes, OpenFrom, Count, EntryOffset, EntrySize, EntryData, FromVolume, EntryValid, Distinct;
    var fs := ScanVolumes(g, vols).files;
    ScanVolumesGood(g, vols);
    var v := ScannedFrom(g, vols, k);
    FromVolumeName(vols[v], fs[k]);
    PackMounts(fs);
    AllNamesOpen(fs, k);
    PackFaithful(fs, k);
  }

  lemma FromVolumeName(vol: Vol, f: ScanFile)
    requires FromVolume(vol, f)
    ensures NoLeadingSlash(f.name)
  {
    var p :| p in vol.files && f == ScanFile(UnixName(p), vol.files[p]);
    NameNoSlash(p);
  }

  // ---- the program ----

  /** `ramdisk_pack_scanned` into the granted pages. */
  method PackInto(files: seq<ScanFile>, buf: array<byte>) returns (size: nat)
    requires buf.Length == Pages(files) * PAGE
    modifies buf
    ensures buf[..] == Pack(files) && size == PackedSize(files)
  {
    hide Pages, SumSizes, EntryBytes, HeaderBytes, Splice;
    var fs := Taken(files);
    var dataTotal := 0;
    assert fs[..0] == [];
    SumNothing();
    for i := 0 to |fs|
      invariant dataTotal == SumSizes(fs[..i])
    {
      SumStep(fs, i);
      dataTotal := dataTotal + |fs[i].data|;
    }
    assert fs[..|fs|] == fs;
    PagesHold(files);
    WholeSplice(buf[..], Zeros(buf.Length));
    Store(buf, 0, Zeros(buf.Length));
    Store(buf, 0, HeaderBytes(|fs|));
    ghost var start := buf[..];
    var cursor := RD_HEADER;
    for i := 0 to |fs|
      invariant cursor == DataOff(fs, i) && buf[..] == PackFirst(start, fs, i)
    {
      SizesBelow(fs, i);
      Store(buf, EntryOff(i), EntryBytes(fs[i].name, cursor, |fs[i].data|));
      Store(buf, cursor, fs[i].data);
      cursor := cursor + |fs[i].data|;
    }
    return RD_HEADER + dataTotal;
  }

  lemma SumNothing()
    ensures SumSizes([]) == 0
  {
  }

  lemma WholeSplice(buf: seq<byte>, chunk: seq<byte>)
    requires |buf| == |chunk|
    ensures Splice(buf, 0, chunk) == chunk
  {
  }
}
