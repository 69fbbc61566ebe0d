/** Concrete inputs on which the copy tool reports success and still breaks a promise, each
    the failing side of a condition proved elsewhere: `RoundTripIff` (32-bit block count),
    `CopyResolvesIff` (parent type, parent buffer, name length), `CopyNamesUniqueIff` (stored
    name) and `RunIsolationIff` (parent type). */
module Findings {
  import opened Bytes
  import opened Bitmap
  import opened Volume
  import opened Metadata
  import opened Dirent
  import opened Extents
  import opened Alloc
  import opened Paths
  import opened CopySpec
  import opened Invariant
  import opened FileStage
  import opened CopyTheorems
  import opened CopyResults
  import opened CopyExact
  import opened Runs
  import opened Mkfs

  // ---- a copy of a file without blocks onto a fresh volume succeeds ----

  lemma RootBlockPlaces(child: nat, name: seq<byte>, kind: byte)
    requires Footprint(|name|) <= BLOCK - 24
    ensures Place(RootBlock(), 0, child, name, kind).Some?
  {
    hide FromLE, ToLE, PutRecord, RecInode, RecLen, NameLen, RecName, Place;
    var a := PutRecord(Zeros(BLOCK), 0, ROOT, 12, DOT, TYPE_DIR);
    var b := RootBlock();
    ReadPutRecord(Zeros(BLOCK), 0, ROOT, 12, DOT, TYPE_DIR);
    ReadPutRecord(a, 12, ROOT, BLOCK - 12, DOTDOT, TYPE_DIR);
    KeepsPrefixRecord(a, b, 0, 12);
    PlaceStep(b, 0, child, name, kind);
    PlaceStep(b, 12, child, name, kind);
  }

  lemma InodeLeft(m: Meta, i: nat)
    requires m.sb.totalInodes == MAX_INODES && 2 <= i < MAX_INODES && !UsedInode(m, i)
    ensures AllocInode(m).Some?
  {
    hide Bit;
  }

  lemma NoBlocksNeeded(m: Meta)
    requires Addressable(m)
    ensures AllocExtents(m, 0, 0, []) == Some(Got(m, []))
  {
  }

  ghost predicate FreshDest(m: Meta, d: Disk, dest: Path) {
    && ParentInode(m, d, dest) == ROOT
    && Base(dest) != [] && Footprint(|Base(dest)|) <= BLOCK - 24
    && !NameEq(DOT, Base(dest)) && !NameEq(DOTDOT, Base(dest))
  }

  lemma FreshLookup(d0: Disk, s: Shape, name: seq<byte>)
    requires FitsTool(d0, s) && !NameEq(DOT, name) && !NameEq(DOTDOT, name)
    ensures var m, d := NewMeta(s), Format(d0, s);
      && Ino(m, d, ROOT).kind == TYPE_DIR
      && DirLookup(d, Ino(m, d, ROOT), name) == 0 && Lookup(m, d, ROOT, name) == 0
  {
    hide Format, NewMeta, ReadInode, Entries, BlockList, Fold, RootInode, Load, UniqueImage, Lookup;
    var m, d := NewMeta(s), Format(d0, s);
    FormatIsImage(d0, s);
    FormatInodes(d0, s);
    RootKind(DataStart(s));
    LookupUnfold(m, d, ROOT, name);
    LookupIsDirLookup(m, d, ROOT, name);
    var es := [Entry(ROOT, DOT, TYPE_DIR), Entry(ROOT, DOTDOT, TYPE_DIR)];
    assert es[1..] == [Entry(ROOT, DOTDOT, TYPE_DIR)] && es[1..][1..] == [];
    assert Find(es[1..][1..], name) == 0;
    assert Find(es[1..], name) == 0;
  }

  lemma FreshState(d0: Disk, s: Shape)
    requires FitsTool(d0, s)
    ensures var m, d := NewMeta(s), Format(d0, s);
      && Load(d) == m && Inv(m, d) && Addressable(m) && m.sb.totalInodes == MAX_INODES
      && UsedInode(m, ROOT) && BlocksOf(m, d, ROOT) == [DataStart(s)] && At(d, DataStart(s)) == RootBlock()
      && (forall i :: UsedInode(m, i) <==> i == 0 || i == ROOT)
  {
    hide Format, NewMeta, Inv, UsedInode, ReadInode, BlockList, Load, NamesUnique, MetaOk, RootBlock, SbBlock, NewInodeMap, FirstMap,
      RootTable, Zeros;
    FormatIsImage(d0, s);
    NewMetaOk(d0, s);
    LayoutAddressable(NewMeta(s), |d0|);
    FormatBlocks(d0, s);
    NewMetaInodes(s);
  }

  lemma NewMetaInodes(s: Shape)
    requires Sized(s)
    ensures NewMeta(s).sb.totalInodes == MAX_INODES
  {
  }

  lemma FreshCopySucceeds(d0: Disk, s: Shape, data: seq<byte>, dest: Path)
    requires FitsTool(d0, s) && |data| < MAX_DATA && BlocksNeeded(|data|) == 0
    requires FreshDest(NewMeta(s), Format(d0, s), dest)
    ensures var m, d := NewMeta(s), Format(d0, s);
      && Load(d) == m && Inv(m, d) && Addressable(m) && Copy(m, d, data, dest).Copied?
      && AllocInode(m).Some? && Copy(m, d, data, dest).m == AllocInode(m).value.m
      && Ino(m, d, ROOT).kind == TYPE_DIR
  {
    hide Format, NewMeta, Inv, UsedInode, ReadInode, BlockList, Load, MetaOk, Place, RootBlock, AllocInode, AllocExtents,
      ResolvePath, DirLookup, StoreFile, Footprint, Fold, FileInode, Contents, NamesUnique, Agree, SameBelow, Flat, BlocksNeeded;
    var m, d := NewMeta(s), Format(d0, s);
    FreshState(d0, s);
    FreshLookup(d0, s, Base(dest));
    InodeLeft(m, 2);
    var gi := AllocInode(m).value;
    TakenAddressable(m);
    NoBlocksNeeded(gi.m);
    FileStageStores(m, d, data);
    var d1 := StoreFile(m, d, gi.value, [], data);
    StoredRoot(m, d, gi.m, d1, gi.value, data, DataStart(s));
    RootBlockPlaces(gi.value, Base(dest), TYPE_FILE);
    PlaceInOne(d1, DataStart(s), gi.value, Base(dest), TYPE_FILE);
  }

  lemma StoredRoot(m: Meta, d: Disk, m1: Meta, d1: Disk, n: nat, data: seq<byte>, b: nat)
    requires FileStored(m, d, m1, d1, n, [], data) && UsedInode(m, ROOT) && BlocksOf(m, d, ROOT) == [b]
    ensures BlocksOf(m1, d1, ROOT) == [b] && At(d1, b) == At(d, b)
  {
    hide Inv, UsedInode, ReadInode, BlockList, NamesUnique, At, Contents, FileInode;
    AgreeDir(m, d, d1, ROOT);
    SameTable(m, m1, d1, ROOT);
    assert SameOn(d, d1, BlocksOf(m, d, ROOT));
    assert [b][0] == b;
  }

  lemma PlaceInOne(d: Disk, b: nat, child: nat, name: seq<byte>, kind: byte)
    requires Place(At(d, b), 0, child, name, kind).Some?
    ensures PlaceIn(d, [b], child, name, kind).Some?
  {
  }

  // ---- 1. a file of 2^44 bytes is stored as an empty file ----

  function BigFile(): seq<byte> {
    seq(0x1000_0000_0000, _ => 1)
  }

  const DEST_A: Path := [SLASH, 97]

  lemma RootPath(m: Meta, d: Disk, p: Path)
    requires p != [] && SkipSlashes(p) == []
    ensures PathInode(m, d, p) == ROOT
  {
  }

  lemma {:induction false} SkipAllSlashes(p: Path)
    requires forall i :: 0 <= i < |p| ==> p[i] == SLASH
    ensures SkipSlashes(p) == []
  {
    if p != [] { SkipAllSlashes(p[1..]); }
  }

  /** A destination directly under the root. */
  lemma RootDest(m: Meta, d: Disk, name: seq<byte>)
    requires forall i :: 0 <= i < |name| ==> name[i] != SLASH
    ensures var dest := [SLASH] + name;
      && LastSlash(dest) == 0 && Base(dest) == name && Parent(dest) == [SLASH] && FullParent(dest) == [SLASH]
      && ParentInode(m, d, dest) == ROOT && PathInode(m, d, FullParent(dest)) == ROOT
  {
    var dest := [SLASH] + name;
    assert dest[0] == SLASH && forall i :: 1 <= i < |dest| ==> dest[i] == name[i - 1];
    assert LastSlash(dest) == 0 && dest[1..] == name;
    assert Parent(dest) == [SLASH];
    SkipAllSlashes([SLASH]);
    RootPath(m, d, [SLASH]);
  }

  lemma DifferentLength(a: seq<byte>, b: seq<byte>)
    requires |a| != |b|
    ensures !NameEq(a, b)
  {
    assert |Fold(a)| != |Fold(b)|;
  }

  lemma NotDot(c: byte)
    requires c == 97 || c == 98 || c == 102
    ensures !NameEq(DOT, [c]) && !NameEq(DOTDOT, [c])
  {
    assert Fold(DOT)[0] != Fold([c])[0];
    DifferentLength(DOTDOT, [c]);
  }

  /** On every fresh volume, copying 2^44 bytes to /a succeeds and /a reads back empty. */
  lemma HugeFileLost(d0: Disk, s: Shape)
    requires FitsTool(d0, s)
    ensures var d := Format(d0, s);
      && Addressable(Load(d)) && CopyRun(d, BigFile(), DEST_A).Ran?
      && Get(CopyRun(d, BigFile(), DEST_A).d, DEST_A) == Content([])
  {
    hide Format, NewMeta, Load, Copy, Flush, Inv, NamesUnique, Ino, UsedInode, Get, PathInode, FileData, Agree, BlocksNeeded,
      AllocInode, LastSlash, Footprint, Fold;
    var m, d, data := NewMeta(s), Format(d0, s), BigFile();
    assert DEST_A == [SLASH] + [97];
    RootDest(m, d, [97]);
    NotDot(97);
    HugeNeedsNothing();
    FreshCopySucceeds(d0, s, data, DEST_A);
    ImageOf(m, d);
    ImageAddressable(d);
    EmptyReadBack(d, data, DEST_A);
  }

  lemma ImageOf(m: Meta, d: Disk)
    requires Load(d) == m && Inv(m, d)
    ensures Image(d)
  {
  }

  lemma HugeNeedsNothing()
    ensures |BigFile()| == 0x1000_0000_0000 && BlocksNeeded(0x1000_0000_0000) == 0
  {
  }

  lemma EmptyReadBack(d: Disk, data: seq<byte>, dest: Path)
    requires Image(d) && |data| < MAX_DATA && |Base(dest)| <= MAX_NAME && ParentIsDir(d, dest) && BlocksNeeded(|data|) == 0
    requires Addressable(Load(d)) && Load(d).sb.magic == MAGIC && Copy(Load(d), d, data, dest).Copied?
    requires PathInode(Load(d), d, FullParent(dest)) == ParentOf(d, dest)
    ensures CopyRun(d, data, dest).Ran? && Get(CopyRun(d, data, dest).d, dest) == Content([])
  {
    hide Load, Copy, Flush, Inv, NamesUnique, ParentInode, Ino, UsedInode, Get, PathInode, FileData, Agree, BlocksNeeded, Lookup, ZeroPast;
    RunResolvesIff(d, data, dest);
    RunState(d, data, dest);
    RunObserves(d, data, dest, dest);
    CopiedFile(Load(d), d, data, dest);
    assert data[..0] == [];
  }

  // ---- 2. a parent path cut at 255 bytes ----

  /** 256 slashes, then "a/b": the directory a need not exist. */
  function DeepDest(): Path {
    seq(256, _ => SLASH) + [97, SLASH, 98]
  }

  lemma DeepDestParts()
    ensures LastSlash(DeepDest()) == 257 && Base(DeepDest()) == [98]
    ensures SkipSlashes(Parent(DeepDest())) == [] && Parent(DeepDest()) != []
    ensures FullParent(DeepDest()) == seq(256, _ => SLASH) + [97]
  {
    var dest := DeepDest();
    assert dest[257] == SLASH && LastSlash(dest) == 257;
    assert dest[258..] == [98];
    assert dest[..257] == seq(256, _ => SLASH) + [97];
    SkipAllSlashes(Parent(dest));
  }

  lemma DeepParentMissing(m: Meta, d: Disk)
    requires Lookup(m, d, ROOT, [97]) == 0
    ensures PathInode(m, d, FullParent(DeepDest())) == 0
  {
    hide Lookup, ResolvePath;
    DeepDestParts();
    var p: Path := seq(256, _ => SLASH) + [97];
    assert LastSlash(p) == 255 && p[256..] == [97];
    PathLaw(m, d, p);
    SkipAllSlashes(FullParent(p));
    RootPath(m, d, FullParent(p));
  }

  /** On every fresh volume, copying to `////...//a/b` succeeds although no directory a
      exists: the file cannot be found there, it appears as /b instead. */
  lemma DeepDestMisplaced(d0: Disk, s: Shape)
    requires FitsTool(d0, s)
    ensures var m, d, dest := NewMeta(s), Format(d0, s), DeepDest();
      && Load(d) == m && Addressable(m) && Copy(m, d, [], dest).Copied?
      && var r := Copy(m, d, [], dest);
         PathInode(r.m, r.d, dest) == 0 && PathInode(r.m, r.d, [SLASH, 98]) == r.inum
  {
    hide Format, NewMeta, Load, Copy, Inv, Ino, UsedInode, PathInode, AllocInode, LastSlash, Footprint, Fold, Lookup, ResolvePath,
      SkipSlashes, DeepDest, FullParent, Parent;
    var m, d, dest := NewMeta(s), Format(d0, s), DeepDest();
    DeepDestParts();
    RootPath(m, d, Parent(dest));
    NotDot(98);
    NotDot(97);
    FootprintOne(98);
    NothingNeedsNothing();
    FreshCopySucceeds(d0, s, [], dest);
    FreshLookup(d0, s, [97]);
    var r := Copy(m, d, [], dest);
    DeepParentMissing(m, d);
    ShortNeverShadows(m, d, [], dest);
    CopyKeepsPaths(m, d, [], dest, FullParent(dest));
    CopiedFile(m, d, [], dest);
    PathLaw(r.m, r.d, dest);
    assert [SLASH, 98] == [SLASH] + [98];
    RootDest(r.m, r.d, [98]);
    PathLaw(r.m, r.d, [SLASH, 98]);
    FreshState(d0, s);
    CopyLookups(m, d, [], dest, ROOT, [98]);
    ShortNameGains(m, d, [], dest, ROOT, [98]);
  }

  lemma FootprintOne(c: byte)
    ensures Footprint(|[c]|) <= BLOCK - 24
  {
  }

  lemma NothingNeedsNothing()
    ensures BlocksNeeded(0) == 0
  {
  }

  // ---- 3. a name of 256 bytes ----

  function LongName(): seq<byte> {
    seq(256, _ => 97)
  }

  /** On every fresh volume, copying to a name of 256 bytes succeeds and the file is not found. */
  lemma LongNameLost(d0: Disk, s: Shape)
    requires FitsTool(d0, s)
    ensures var m, d, dest := NewMeta(s), Format(d0, s), [SLASH] + LongName();
      && Load(d) == m && Addressable(m) && Copy(m, d, [], dest).Copied?
      && PathInode(Copy(m, d, [], dest).m, Copy(m, d, [], dest).d, dest) == 0
  {
    hide Format, NewMeta, Load, Copy, Inv, Ino, UsedInode, PathInode, AllocInode, LastSlash, Fold, Lookup, ResolvePath,
      SkipSlashes, FullParent, Parent;
    var m, d, dest := NewMeta(s), Format(d0, s), [SLASH] + LongName();
    RootDest(m, d, LongName());
    DifferentLength(DOT, LongName());
    DifferentLength(DOTDOT, LongName());
    NothingNeedsNothing();
    FreshCopySucceeds(d0, s, [], dest);
    var r := Copy(m, d, [], dest);
    PathLaw(r.m, r.d, dest);
    LongNameNotFound(r.m, r.d, PathInode(r.m, r.d, FullParent(dest)), LongName());
  }

  /** A name of n bytes that starts with c. */
  function NameOf(c: byte, n: nat): seq<byte> {
    [c] + seq(n, _ => 97)
  }

  lemma LongCopySucceeds(d0: Disk, s: Shape, c: byte)
    requires FitsTool(d0, s) && c != SLASH
    ensures var m, d, dest := NewMeta(s), Format(d0, s), [SLASH] + NameOf(c, 256);
      && Load(d) == m && Inv(m, d) && Addressable(m) && Copy(m, d, [], dest).Copied?
      && Base(dest) == NameOf(c, 256) && StoredName(Base(dest)) == [c]
      && ParentInode(m, d, dest) == ROOT && Ino(m, d, ROOT).kind == TYPE_DIR
  {
    hide Format, NewMeta, Load, Copy, Inv, Ino, UsedInode, PathInode, AllocInode, LastSlash, Fold, ResolvePath, SkipSlashes, FullParent, Parent;
    var m, d, name := NewMeta(s), Format(d0, s), NameOf(c, 256);
    RootDest(m, d, name);
    DifferentLength(DOT, name);
    DifferentLength(DOTDOT, name);
    NothingNeedsNothing();
    assert name[..1] == [c];
    FreshCopySucceeds(d0, s, [], [SLASH] + name);
  }

  /** On every fresh volume, a file copied to a name of 257 bytes appears under its first byte. */
  lemma LongNameRenamed(d0: Disk, s: Shape)
    requires FitsTool(d0, s)
    ensures var m, d, dest := NewMeta(s), Format(d0, s), [SLASH] + NameOf(98, 256);
      && Load(d) == m && Addressable(m) && Copy(m, d, [], dest).Copied?
      && PathInode(Copy(m, d, [], dest).m, Copy(m, d, [], dest).d, [SLASH, 98]) == Copy(m, d, [], dest).inum
  {
    hide Format, NewMeta, Load, Copy, Inv, Ino, UsedInode, AllocInode, LastSlash, Fold, Lookup, ResolvePath, SkipSlashes, FullParent, Parent,
      Find, SlotIn, Entries, BlocksOf;
    var m, d, dest := NewMeta(s), Format(d0, s), [SLASH] + NameOf(98, 256);
    LongCopySucceeds(d0, s, 98);
    var r := Copy(m, d, [], dest);
    assert [SLASH, 98] == [SLASH] + [98];
    RootDest(r.m, r.d, [98]);
    PathLaw(r.m, r.d, [SLASH, 98]);
    FreshState(d0, s);
    NotDot(98);
    FreshLookup(d0, s, [98]);
    LookupUnfold(m, d, ROOT, [98]);
    EntriesNonZero(d, BlocksOf(m, d, ROOT));
    FindPrefixZero(Entries(d, BlocksOf(m, d, ROOT)), SlotIn(d, BlocksOf(m, d, ROOT), Base(dest)), [98]);
    CopyLookups(m, d, [], dest, ROOT, [98]);
  }

  /** On every fresh volume, a file copied to a name of 257 bytes that starts with a dot becomes a
      second entry "." of the root directory. */
  lemma LongNameDoubles(d0: Disk, s: Shape)
    requires FitsTool(d0, s)
    ensures var m, d, dest := NewMeta(s), Format(d0, s), [SLASH] + NameOf(46, 256);
      && Load(d) == m && Addressable(m) && Copy(m, d, [], dest).Copied?
      && NamesUnique(m, d) && !NamesUnique(Copy(m, d, [], dest).m, Copy(m, d, [], dest).d)
  {
    hide Format, NewMeta, Load, Copy, Inv, Ino, UsedInode, AllocInode, LastSlash, Lookup, ResolvePath, SkipSlashes, FullParent, Parent,
      Entries, BlocksOf, NamesUnique;
    var m, d, dest := NewMeta(s), Format(d0, s), [SLASH] + NameOf(46, 256);
    LongCopySucceeds(d0, s, 46);
    FormatIsImage(d0, s);
    LookupUnfold(m, d, ROOT, DOT);
    assert Find([Entry(ROOT, DOT, TYPE_DIR), Entry(ROOT, DOTDOT, TYPE_DIR)], DOT) == ROOT;
    CopyNamesUniqueIff(m, d, [], dest);
  }

  // ---- 4. a parent that is a file ----

  lemma EmptyFileBlocks(m: Meta, d: Disk, p: nat)
    requires Inv(m, d) && UsedInode(m, p) && Ino(m, d, p).kind == TYPE_FILE && Ino(m, d, p).size == 0
    ensures BlockList(Ino(m, d, p)) == [] && Ino(m, d, p).extentCount == 0
  {
    hide ReadInode, Bit, MetaOk, DirsOk, NoSharing, Flat, BlocksOk;
    LayoutAddressable(m, |d|);
    var ino := Ino(m, d, p);
    assert InodeOk(m, ino);
    if ino.extentCount > 0 {
      var es := Live(ino);
      assert es[0].count > 0;
      FlatAt(es, 0, 0);
    }
  }

  /** A file without blocks is sealed, and a copy below it gives it a block of directory records. */
  lemma EmptyFileOverwritten(m: Meta, d: Disk, data: seq<byte>, dest: Path)
    requires Inv(m, d) && |data| < MAX_DATA && HEADER + |Base(dest)| <= BLOCK
    requires Addressable(m) && Copy(m, d, data, dest).Copied?
    requires Ino(m, d, ParentInode(m, d, dest)).kind == TYPE_FILE && Ino(m, d, ParentInode(m, d, dest)).size == 0
    ensures var r, p := Copy(m, d, data, dest), ParentInode(m, d, dest);
      FileData(m, d, p) == [] && |FileData(r.m, r.d, p)| == BLOCK && PathInode(r.m, r.d, dest) != r.inum
  {
    hide Inv, UsedInode, ReadInode, Copy, DirLookup, ResolvePath, FileStored, AddDirent, BlockList;
    var p := ParentInode(m, d, dest);
    var m1, d1, es := CopyStages(m, d, data, dest);
    EmptyFileBlocks(m, d, p);
    StrayCopyChangesParent(m, d, data, dest);
    CopyResolvesIff(m, d, data, dest);
  }

  const DEST_F: Path := [SLASH, 102]
  const DEST_FX: Path := [SLASH, 102, SLASH, 120]

  lemma BlockLeft(m: Meta, b: nat)
    requires Addressable(m) && m.sb.dataStart <= b < m.sb.totalBlocks && !Bit(m.bbmp, b)
    ensures AllocBlock(m).Some?
  {
    hide Bit, Claim;
  }

  lemma TakenInodeBlocks(m: Meta)
    requires AllocInode(m).Some?
    ensures var m1 := AllocInode(m).value.m;
      && m1.bbmp == m.bbmp && m1.sb.totalBlocks == m.sb.totalBlocks && m1.sb.dataStart == m.sb.dataStart
      && m1.sb.totalInodes == m.sb.totalInodes
  {
    hide FirstClear, SetBit;
  }

  lemma NewMetaMap(s: Shape)
    requires Sized(s)
    ensures NewMeta(s).bbmp == NewBlockMap(DataStart(s))
  {
    hide NewBlockMap, NewInodeMap, NewSb;
  }

  lemma FreshBlockLeft(s: Shape)
    requires Sized(s) && s.maps <= BMP_MAXBLK && DataStart(s) + 1 < s.total
    requires Addressable(NewMeta(s)) && AllocInode(NewMeta(s)).Some?
    ensures var m := AllocInode(NewMeta(s)).value.m; Addressable(m) && AllocBlock(m).Some?
  {
    hide Bit, NewBlockMap, NewMeta, AllocInode, AllocBlock;
    NewMetaMap(s);
    NewMetaRegion(s);
    TakenInodeBlocks(NewMeta(s));
    NewBlockMapBits(DataStart(s), DataStart(s) + 1);
    BlockLeft(AllocInode(NewMeta(s)).value.m, DataStart(s) + 1);
  }

  /** A copy without data blocks under an empty file succeeds if an inode and a block are left. */
  lemma StrayCopySucceeds(m: Meta, d: Disk, dest: Path, i: nat)
    requires Inv(m, d) && Addressable(m) && Base(dest) != [] && ParentInode(m, d, dest) != 0
    requires Ino(m, d, ParentInode(m, d, dest)).kind == TYPE_FILE && Ino(m, d, ParentInode(m, d, dest)).size == 0
    requires m.sb.totalInodes == MAX_INODES && 2 <= i < MAX_INODES && !UsedInode(m, i)
    requires AllocBlock(m).Some?
    ensures Copy(m, d, [], dest).Copied?
  {
    hide Inv, UsedInode, ReadInode, AllocInode, AllocExtents, AllocBlock, ResolvePath, StoreFile, FileInode, Contents, NamesUnique,
      Agree, SameBelow, Flat, BlocksNeeded, FreshBlock, GrowDir, WriteInode;
    var p := ParentInode(m, d, dest);
    PathInUse(m, d, Parent(dest));
    EmptyFileBlocks(m, d, p);
    NothingNeedsNothing();
    InodeLeft(m, i);
    var gi := AllocInode(m).value;
    TakenAddressable(m);
    NoBlocksNeeded(gi.m);
    FileStageStores(m, d, []);
    var d1 := StoreFile(m, d, gi.value, [], []);
    StoredLookup(m, d, gi.m, d1, gi.value, [], [], p, []);
    TakenBlockLeft(m);
  }

  lemma TakenBlockLeft(m: Meta)
    requires Addressable(m) && AllocInode(m).Some? && AllocBlock(m).Some?
    ensures var m1 := AllocInode(m).value.m; Addressable(m1) && AllocBlock(m1).Some?
  {
    hide FirstClear, SetBit, Claim;
  }

  /** On every fresh volume with a free block: copy an empty file to /f, then copy to /f/x.
      Both copies succeed, /f then holds a block of directory records, and /f/x does not exist. */
  lemma FileUsedAsDirectory(d0: Disk, s: Shape)
    requires FitsTool(d0, s) && DataStart(s) + 1 < s.total
    ensures var m, d := NewMeta(s), Format(d0, s);
      && Load(d) == m && Addressable(m) && Copy(m, d, [], DEST_F).Copied?
      && var r := Copy(m, d, [], DEST_F);
         && PathInode(r.m, r.d, DEST_F) == r.inum && FileData(r.m, r.d, r.inum) == []
         && Addressable(r.m) && Copy(r.m, r.d, [], DEST_FX).Copied?
         && var t := Copy(r.m, r.d, [], DEST_FX);
            |FileData(t.m, t.d, r.inum)| == BLOCK && PathInode(t.m, t.d, DEST_FX) != t.inum
  {
    hide Format, NewMeta, Load, Copy, Inv, Ino, UsedInode, PathInode, AllocInode, AllocBlock, LastSlash, Footprint, Fold, Lookup,
      FileData, BlocksNeeded;
    var m, d := NewMeta(s), Format(d0, s);
    assert DEST_F == [SLASH] + [102];
    RootDest(m, d, [102]);
    NotDot(102);
    FootprintOne(102);
    NothingNeedsNothing();
    FreshCopySucceeds(d0, s, [], DEST_F);
    FreshState(d0, s);
    var r := Copy(m, d, [], DEST_F);
    CopyResolvesIff(m, d, [], DEST_F);
    CopyKeepsInv(m, d, [], DEST_F);
    CopiedFile(m, d, [], DEST_F);
    FreshBlockLeft(s);
    TakenInodeBlocks(m);
    DestFxParts();
    StrayCopySucceeds(r.m, r.d, DEST_FX, if r.inum == 3 then 4 else 3);
    EmptyFileOverwritten(r.m, r.d, [], DEST_FX);
  }

  lemma DestFxParts()
    ensures Base(DEST_FX) == [120] && Parent(DEST_FX) == DEST_F
  {
    assert LastSlash(DEST_FX) == 2 && DEST_FX[3..] == [120] && DEST_FX[..2] == DEST_F;
  }
}
