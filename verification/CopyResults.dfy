/** Isolation, round trip and failure of one copy. */
module CopyResults {
  import opened Bytes
  import opened Bitmap
  import opened Volume
  import opened Metadata
  import opened Dirent
  import opened Extents
  import opened Alloc
  import opened Paths
  import opened CopySpec
  import opened Invariant
  import opened FileStage
  import opened DirStage
  import opened CopyTheorems

  /** The inode `do_copy` takes as the parent directory. */
  function ParentInode(m: Meta, d: Disk, dest: Path): nat {
    PathInode(m, d, Parent(dest))
  }

  /** The two stages of a copy that succeeded. */
  ghost predicate Stages(m: Meta, d: Disk, data: seq<byte>, dest: Path, m1: Meta, d1: Disk, es: seq<Extent>)
    requires Addressable(m)
  {
    var r, p := Copy(m, d, data, dest), ParentInode(m, d, dest);
    && r.Copied? && Base(dest) != []
    && p != 0 && UsedInode(m, p) && p != r.inum
    && DirLookup(d, Ino(m, d, p), Base(dest)) == 0
    && |es| <= NUM_EXTENTS && FileStored(m, d, m1, d1, r.inum, es, data)
    && Addressable(m1) && UsedInode(m1, p) && UsedInode(m1, r.inum)
    && AddDirent(m1, d1, p, r.inum, Base(dest), TYPE_FILE) == EntryAdded(r.m, r.d)
  }

  lemma CopyStages(m: Meta, d: Disk, data: seq<byte>, dest: Path) returns (m1: Meta, d1: Disk, es: seq<Extent>)
    requires Inv(m, d) && |data| < 0x8000_0000_0000_0000
    requires Addressable(m) && Copy(m, d, data, dest).Copied?
    ensures Stages(m, d, data, dest, m1, d1, es)
  {
    hide Inv, UsedInode, ReadInode, BlocksNeeded, AllocInode, AllocExtents, StoreFile, AddDirent, ResolvePath, DirLookup;
    var gi := AllocInode(m).value;
    TakenAddressable(m);
    var ge := AllocExtents(gi.m, BlocksNeeded(|data|), 0, []).value;
    FileStageStores(m, d, data);
    m1, es := ge.m, ge.value;
    d1 := StoreFile(m, d, gi.value, es, data);
    PathInUse(m, d, Parent(dest));
    InvAddressable(m1, d1);
  }

  lemma TakenAddressable(m: Meta)
    requires Addressable(m) && AllocInode(m).Some?
    ensures Addressable(AllocInode(m).value.m)
  {
  }

  lemma InvAddressable(m: Meta, d: Disk)
    requires Inv(m, d)
    ensures Addressable(m)
  {
  }

  // ---- lookups after a copy ----

  lemma StoredLookup(m: Meta, d: Disk, m1: Meta, d1: Disk, n: nat, es: seq<Extent>, data: seq<byte>, i: nat, x: seq<byte>)
    requires |es| <= NUM_EXTENTS && FileStored(m, d, m1, d1, n, es, data) && UsedInode(m, i)
    ensures Lookup(m1, d1, i, x) == Lookup(m, d, i, x) && Ino(m1, d1, i) == Ino(m, d, i)
    ensures FileData(m1, d1, i) == FileData(m, d, i)
  {
    hide Inv, UsedInode, Child, ReadInode, NamesUnique, SameOn, FileData, Contents;
    AgreeLookup(m, d, d1, i, x);
    AgreeData(m, d, d1, i);
    SameTable(m, m1, d1, i);
  }

  lemma SameTable(m: Meta, m1: Meta, d: Disk, i: nat)
    requires m1.sb.inodeTableStart == m.sb.inodeTableStart
    ensures Ino(m1, d, i) == Ino(m, d, i) && FileData(m1, d, i) == FileData(m, d, i)
  {
  }

  lemma OthersLookup(m: Meta, d: Disk, m': Meta, d': Disk, p: nat, i: nat, x: seq<byte>)
    requires OthersKept(m, d, m', d', p) && UsedInode(m, i) && i != p
    ensures Lookup(m', d', i, x) == Lookup(m, d, i, x) && Ino(m', d', i) == Ino(m, d, i)
    ensures FileData(m', d', i) == FileData(m, d, i)
  {
    hide UsedInode, ReadInode, BlockList, Entries, Gather, Find, Lookup;
    LookupUnfold(m, d, i, x);
    LookupUnfold(m', d', i, x);
    EntriesFrame(d, d', BlocksOf(m, d, i));
    GatherFrame(d, d', BlocksOf(m, d, i));
  }

  /** Insertion where one of the parent's blocks has a slot, whatever the parent is. */
  lemma SlotTaken(m: Meta, d: Disk, p: nat, child: nat, name: seq<byte>, kind: byte)
    requires Inv(m, d) && Addressable(m) && UsedInode(m, p) && HasSlotIn(d, BlocksOf(m, d, p), name)
    ensures var e := PlaceIn(d, BlocksOf(m, d, p), child, name, kind);
      && e.Some? && AddDirent(m, d, p, child, name, kind) == EntryAdded(m, SetAt(d, e.value.at, e.value.block))
      && var d' := SetAt(d, e.value.at, e.value.block);
         OthersKept(m, d, m, d', p) && Ino(m, d', p) == Ino(m, d, p)
  {
    hide Inv, UsedInode, ReadInode, BlockList, PlaceIn, SetAt, OthersKept, HasSlotIn;
    PlaceInIff(d, BlocksOf(m, d, p), child, name, kind);
    PlacedAt(d, BlocksOf(m, d, p), child, name, kind);
    var e := PlaceIn(d, BlocksOf(m, d, p), child, name, kind).value;
    PlaceKeepsOthers(m, d, p, e.at, e.block);
  }

  /** p was given the fresh block nb. */
  ghost predicate Grown(m: Meta, d: Disk, m': Meta, d': Disk, p: nat, nb: nat) {
    && Ino(m, d, p).extentCount < NUM_EXTENTS && Addressable(m) && Claims(m, m', [nb])
    && OthersKept(m, d, m', d', p) && SameOn(d, d', BlocksOf(m, d, p))
    && Ino(m', d', p) == GrowDir(Ino(m, d, p), nb) && BlocksOf(m', d', p) == BlocksOf(m, d, p) + [nb]
  }

  /** Insertion that needs a new block, whatever the parent is. */
  lemma BlockAdded(m: Meta, d: Disk, p: nat, child: nat, name: seq<byte>, kind: byte) returns (nb: nat)
    requires Inv(m, d) && Addressable(m) && UsedInode(m, p) && !HasSlotIn(d, BlocksOf(m, d, p), name)
    requires AddDirent(m, d, p, child, name, kind).EntryAdded?
    ensures var r := AddDirent(m, d, p, child, name, kind); Grown(m, d, r.m, r.d, p, nb)
  {
    hide Inv, UsedInode, ReadInode, BlockList, PlaceIn, AllocBlock, FreshBlock, SetAt, WriteInode, OthersKept, InodeFits, Claims, HasSlotIn,
      SameOn, GrowDir;
    var ino := Ino(m, d, p);
    PlaceInIff(d, BlocksOf(m, d, p), child, name, kind);
    var g := AllocBlock(m).value;
    nb := g.value;
    InvDataRegion(m, d);
    AllocBlockClaims(m);
    ClaimedBlock(m, g.m, nb);
    GrowFits(m, d, p, nb);
    GrowKind(ino, nb);
    NewBlockKeepsOthers(m, d, g.m, p, nb, FreshBlock(child, name, kind), GrowDir(ino, nb));
    GrownBlocks(ino, nb);
  }

  lemma GrowFits(m: Meta, d: Disk, p: nat, nb: nat)
    requires Ino(m, d, p).extentCount < NUM_EXTENTS && nb < BMP_MAXBLK * BITS_PER_BLOCK
    ensures InodeFits(GrowDir(Ino(m, d, p), nb))
  {
    hide ReadInode, InodeFits;
    var ino := Ino(m, d, p);
    ReadFits(d, m.sb.inodeTableStart, p);
    var grown := GrowDir(ino, nb);
    FitsAppend(ino, ino.extentCount, grown.extents[ino.extentCount], ino.extentCount + 1, grown.size, grown.blocksUsed);
  }

  lemma AddDirentKeepsOthers(m: Meta, d: Disk, p: nat, child: nat, name: seq<byte>, kind: byte)
    requires Inv(m, d) && UsedInode(m, p)
    requires Addressable(m) && AddDirent(m, d, p, child, name, kind).EntryAdded?
    ensures var r := AddDirent(m, d, p, child, name, kind); OthersKept(m, d, r.m, r.d, p)
  {
    hide Inv, UsedInode, ReadInode, BlockList, AddDirent, OthersKept, HasSlotIn;
    if HasSlotIn(d, BlocksOf(m, d, p), name) {
      SlotTaken(m, d, p, child, name, kind);
    } else {
      var nb := BlockAdded(m, d, p, child, name, kind);
    }
  }

  lemma InvDataRegion(m: Meta, d: Disk)
    requires Inv(m, d)
    ensures m.sb.dataStart <= m.sb.totalBlocks <= BMP_MAXBLK * BITS_PER_BLOCK
  {
  }

  lemma ClaimedBlock(m: Meta, m': Meta, b: nat)
    requires Addressable(m) && Claims(m, m', [b])
    ensures b < m.sb.totalBlocks
  {
    assert [b][0] == b;
  }

  /** The parent's entries as the file stage leaves them. */
  lemma StoredDir(m: Meta, d: Disk, m1: Meta, d1: Disk, n: nat, es: seq<Extent>, data: seq<byte>, p: nat, name: seq<byte>)
    requires |es| <= NUM_EXTENTS && FileStored(m, d, m1, d1, n, es, data) && UsedInode(m, p)
    ensures BlocksOf(m1, d1, p) == BlocksOf(m, d, p) && SameOn(d, d1, BlocksOf(m, d, p))
    ensures Entries(d1, BlocksOf(m, d, p)) == Entries(d, BlocksOf(m, d, p))
    ensures SlotIn(d1, BlocksOf(m, d, p), name) == SlotIn(d, BlocksOf(m, d, p), name)
    ensures HasSlotIn(d1, BlocksOf(m, d, p), name) == HasSlotIn(d, BlocksOf(m, d, p), name)
  {
    hide Inv, UsedInode, ReadInode, BlockList, NamesUnique, SameOn, Contents, Entries, FileInode, ZeroPast, SlotIn, HasSlotIn;
    AgreeDir(m, d, d1, p);
    SameTable(m, m1, d1, p);
    SlotInFrame(d, d1, BlocksOf(m, d, p), name);
  }

  /** The entries of the parent that come before the slot of the new record. */
  function Before(m: Meta, d: Disk, dest: Path): seq<Entry> {
    var bs := BlocksOf(m, d, ParentInode(m, d, dest));
    Entries(d, bs)[..SlotIn(d, bs, Base(dest))]
  }

  /** Name x in directory i is answered by the new record: it has the stored name, and no
      entry before it does. */
  ghost predicate Gains(m: Meta, d: Disk, dest: Path, i: nat, x: seq<byte>) {
    && i == ParentInode(m, d, dest) && Ino(m, d, i).kind == TYPE_DIR
    && NameEq(x, StoredName(Base(dest))) && Find(Before(m, d, dest), x) == 0
  }

  lemma CopyIntoDirLookups(m: Meta, d: Disk, data: seq<byte>, dest: Path, x: seq<byte>)
    requires Inv(m, d) && |data| < 0x8000_0000_0000_0000
    requires Addressable(m) && Copy(m, d, data, dest).Copied? && HEADER + |Base(dest)| <= BLOCK
    requires Ino(m, d, ParentInode(m, d, dest)).kind == TYPE_DIR
    ensures var r, p := Copy(m, d, data, dest), ParentInode(m, d, dest);
      Lookup(r.m, r.d, p, x) == if Gains(m, d, dest, p, x) then r.inum else Lookup(m, d, p, x)
  {
    hide Inv, UsedInode, ReadInode, AddDirent, Child, FileStored, Copy, DirLookup, ResolvePath, Find, BlockList, Entries,
      NameEq, Lookup, SlotIn, HasSlotIn, StoredName;
    var r, p, base := Copy(m, d, data, dest), ParentInode(m, d, dest), Base(dest);
    var m1, d1, es := CopyStages(m, d, data, dest);
    StoredLookup(m, d, m1, d1, r.inum, es, data, p, x);
    StoredDir(m, d, m1, d1, r.inum, es, data, p, base);
    StoredInv(m, d, m1, d1, r.inum, es, data);
    var k := AddDirentInserts(m1, d1, p, r.inum, base, TYPE_FILE);
    LookupUnfold(m, d, p, x);
    LookupUnfold(r.m, r.d, p, x);
    EntriesNonZero(d, BlocksOf(m, d, p));
    FindInserted(Entries(d, BlocksOf(m, d, p)), k, Stored(r.inum, base, TYPE_FILE), x);
  }

  /** After a copy, whatever its parent, every lookup answers as before, except the stored name
      in a parent directory where no earlier entry has it: that gives the new inode. */
  lemma CopyLookups(m: Meta, d: Disk, data: seq<byte>, dest: Path, i: nat, x: seq<byte>)
    requires Inv(m, d) && |data| < 0x8000_0000_0000_0000
    requires Addressable(m) && Copy(m, d, data, dest).Copied? && HEADER + |Base(dest)| <= BLOCK
    requires UsedInode(m, i)
    ensures var r := Copy(m, d, data, dest);
      Lookup(r.m, r.d, i, x) == if Gains(m, d, dest, i, x) then r.inum else Lookup(m, d, i, x)
  {
    hide Inv, UsedInode, ReadInode, AddDirent, Child, FileStored, Copy, DirLookup, ResolvePath, Find, BlockList, Entries,
      NameEq, Lookup, SlotIn, OthersKept;
    var r, p := Copy(m, d, data, dest), ParentInode(m, d, dest);
    if Ino(m, d, p).kind != TYPE_DIR {
      StrayCopyLookups(m, d, data, dest, i, x);
    } else if i == p {
      CopyIntoDirLookups(m, d, data, dest, x);
    } else {
      var m1, d1, es := CopyStages(m, d, data, dest);
      StoredLookup(m, d, m1, d1, r.inum, es, data, i, x);
      StoredInv(m, d, m1, d1, r.inum, es, data);
      StoredUsed(m, d, m1, d1, r.inum, es, data, i);
      AddDirentKeepsOthers(m1, d1, p, r.inum, Base(dest), TYPE_FILE);
      OthersLookup(m1, d1, r.m, r.d, p, i, x);
    }
  }

  /** A name of at most 255 bytes is stored whole, and a successful copy found it absent: its
      lookup gives the new inode. */
  lemma ShortNameGains(m: Meta, d: Disk, data: seq<byte>, dest: Path, i: nat, x: seq<byte>)
    requires Inv(m, d) && |data| < 0x8000_0000_0000_0000
    requires Addressable(m) && Copy(m, d, data, dest).Copied? && |Base(dest)| <= MAX_NAME
    ensures var p := ParentInode(m, d, dest);
      Gains(m, d, dest, i, x) <==> i == p && Ino(m, d, p).kind == TYPE_DIR && NameEq(x, Base(dest))
  {
    hide Inv, UsedInode, ReadInode, Copy, DirLookup, ResolvePath, Find, BlockList, Entries, NameEq, Lookup, SlotIn, Child;
    var p, bs := ParentInode(m, d, dest), BlocksOf(m, d, ParentInode(m, d, dest));
    assert StoredName(Base(dest)) == Base(dest);
    if Ino(m, d, p).kind == TYPE_DIR && NameEq(x, Base(dest)) {
      NewNameWasAbsent(m, d, data, dest, x);
      LookupUnfold(m, d, p, x);
      EntriesNonZero(d, bs);
      FindPrefixZero(Entries(d, bs), SlotIn(d, bs, Base(dest)), x);
    }
  }

  lemma LookupIsDirLookup(m: Meta, d: Disk, p: nat, x: seq<byte>)
    requires Ino(m, d, p).kind == TYPE_DIR
    ensures Lookup(m, d, p, x) == DirLookup(d, Ino(m, d, p), x)
  {
  }

  lemma StoredInv(m: Meta, d: Disk, m1: Meta, d1: Disk, n: nat, es: seq<Extent>, data: seq<byte>)
    requires |es| <= NUM_EXTENTS && FileStored(m, d, m1, d1, n, es, data)
    ensures Inv(m1, d1) && m1.sb.inodeTableStart == m.sb.inodeTableStart
    ensures 2 <= n < MAX_INODES && !UsedInode(m, n) && UsedInode(m1, n)
    ensures Ino(m1, d1, n) == FileInode(|data|, es) && Ino(m1, d1, n).kind == TYPE_FILE
    ensures NamesUnique(m, d) ==> NamesUnique(m1, d1)
  {
    hide Inv, Agree, NamesUnique, ReadInode, Contents, PadExtents;
  }

  lemma StoredUsed(m: Meta, d: Disk, m1: Meta, d1: Disk, n: nat, es: seq<Extent>, data: seq<byte>, i: nat)
    requires |es| <= NUM_EXTENTS && FileStored(m, d, m1, d1, n, es, data)
    ensures UsedInode(m1, i) <==> i == n || UsedInode(m, i)
  {
    hide Inv, Agree, NamesUnique, ReadInode, FileInode, Contents;
  }

  /** The copied inode is a plain file: it has no children, and its data is the copied
      data, as far as the allocated blocks reach. */
  lemma CopiedFile(m: Meta, d: Disk, data: seq<byte>, dest: Path)
    requires Inv(m, d) && |data| < 0x8000_0000_0000_0000
    requires Addressable(m) && Copy(m, d, data, dest).Copied?
    ensures var r := Copy(m, d, data, dest);
      && !UsedInode(m, r.inum) && r.inum != 0
      && Ino(r.m, r.d, r.inum).kind == TYPE_FILE && Ino(r.m, r.d, r.inum).size == |data|
      && FileData(r.m, r.d, r.inum) == data[..Min(|data|, BLOCK * BlocksNeeded(|data|))]
      && ZeroPast(r.d, BlocksOf(r.m, r.d, r.inum), |data|)
      && forall x :: Lookup(r.m, r.d, r.inum, x) == 0
  {
    hide Inv, UsedInode, ReadInode, AddDirent, Child, Copy, DirLookup, ResolvePath, Find, BlockList, Entries, Agree, NamesUnique,
      Contents, BlocksNeeded, Lookup, ZeroPast, FileInode;
    var r, p := Copy(m, d, data, dest), ParentInode(m, d, dest);
    var m1, d1, es := CopyStages(m, d, data, dest);
    StoredInv(m, d, m1, d1, r.inum, es, data);
    AddDirentKeepsOthers(m1, d1, p, r.inum, Base(dest), TYPE_FILE);
    OthersLookup(m1, d1, r.m, r.d, p, r.inum, []);
    FileInodeBlocks(|data|, es);
    ZeroPastFrame(d1, r.d, BlocksOf(m1, d1, r.inum), |data|);
    forall x ensures Lookup(r.m, r.d, r.inum, x) == 0 { LookupUnfold(r.m, r.d, r.inum, x); }
  }

  lemma FileInodeBlocks(size: nat, es: seq<Extent>)
    requires |es| <= NUM_EXTENTS
    ensures BlockList(FileInode(size, es)) == Flat(es)
    ensures FileInode(size, es).kind == TYPE_FILE && FileInode(size, es).size == size
  {
    LiveFileInode(size, es);
  }

  /** The rest of the new inode: mode 0644, one link, no times, owner or flags. */
  lemma CopiedAttributes(m: Meta, d: Disk, data: seq<byte>, dest: Path)
    requires Inv(m, d) && |data| < 0x8000_0000_0000_0000
    requires Addressable(m) && Copy(m, d, data, dest).Copied?
    ensures var i := Ino(Copy(m, d, data, dest).m, Copy(m, d, data, dest).d, Copy(m, d, data, dest).inum);
      && i.permissions == 6 * 64 + 4 * 8 + 4 && i.links == 1 && i.blocksUsed == BlocksNeeded(|data|)
      && i.ctime == i.mtime == i.uid == i.gid == i.flags == i.indirect == i.reserved == 0
  {
    hide Inv, UsedInode, ReadInode, AddDirent, Copy, DirLookup, ResolvePath, BlocksNeeded, FileStored, PadExtents, SameOn, BlockList;
    var r, p := Copy(m, d, data, dest), ParentInode(m, d, dest);
    var m1, d1, es := CopyStages(m, d, data, dest);
    StoredInv(m, d, m1, d1, r.inum, es, data);
    AddDirentKeepsOthers(m1, d1, p, r.inum, Base(dest), TYPE_FILE);
  }

  // ---- isolation ----

  /** The invariant survives a copy into a directory, and so do unique names. */
  lemma CopyKeepsInv(m: Meta, d: Disk, data: seq<byte>, dest: Path)
    requires Inv(m, d) && |data| < 0x8000_0000_0000_0000
    requires Addressable(m) && Copy(m, d, data, dest).Copied?
    requires Ino(m, d, ParentInode(m, d, dest)).kind == TYPE_DIR && HEADER + |Base(dest)| <= BLOCK
    ensures var r := Copy(m, d, data, dest);
      && Inv(r.m, r.d) && r.m.sb.inodeTableStart == m.sb.inodeTableStart
      && (forall i :: UsedInode(r.m, i) <==> i == r.inum || UsedInode(m, i))
      && (NamesUnique(m, d) && |Base(dest)| <= MAX_NAME ==> NamesUnique(r.m, r.d))
  {
    hide Inv, UsedInode, ReadInode, AddDirent, Child, Copy, DirLookup, ResolvePath, Find, BlockList, Entries, Agree, NamesUnique,
      Contents, FileStored, Lookup, FileInode;
    var r, p := Copy(m, d, data, dest), ParentInode(m, d, dest);
    var m1, d1, es := CopyStages(m, d, data, dest);
    StoredLookup(m, d, m1, d1, r.inum, es, data, p, Base(dest));
    StoredInv(m, d, m1, d1, r.inum, es, data);
    var k := AddDirentInserts(m1, d1, p, r.inum, Base(dest), TYPE_FILE);
    forall i: nat ensures UsedInode(r.m, i) <==> i == r.inum || UsedInode(m, i) {
      StoredUsed(m, d, m1, d1, r.inum, es, data, i);
    }
    if |Base(dest)| <= MAX_NAME {
      LookupIsDirLookup(m, d, p, Base(dest));
      LookupIsDirLookup(m1, d1, p, Base(dest));
      AddDirentIsMapUpdate(m1, d1, p, r.inum, Base(dest), TYPE_FILE);
    }
  }

  /** Whatever the parent, a copy puts one more inode to use. */
  lemma CopyUses(m: Meta, d: Disk, data: seq<byte>, dest: Path, i: nat)
    requires Inv(m, d) && |data| < 0x8000_0000_0000_0000
    requires Addressable(m) && Copy(m, d, data, dest).Copied?
    ensures var r := Copy(m, d, data, dest);
      r.m.sb.inodeTableStart == m.sb.inodeTableStart && (UsedInode(r.m, i) <==> i == r.inum || UsedInode(m, i))
  {
    hide Inv, UsedInode, ReadInode, AddDirent, Copy, DirLookup, ResolvePath, BlockList, FileStored, FileInode, NamesUnique, SameOn;
    var r, p := Copy(m, d, data, dest), ParentInode(m, d, dest);
    var m1, d1, es := CopyStages(m, d, data, dest);
    StoredInv(m, d, m1, d1, r.inum, es, data);
    StoredUsed(m, d, m1, d1, r.inum, es, data, i);
    AddDirentKeepsOthers(m1, d1, p, r.inum, Base(dest), TYPE_FILE);
  }

  /** Whatever the parent, every inode in use other than it keeps its fields and its bytes. */
  lemma CopyKeepsData(m: Meta, d: Disk, data: seq<byte>, dest: Path, i: nat)
    requires Inv(m, d) && |data| < 0x8000_0000_0000_0000
    requires Addressable(m) && Copy(m, d, data, dest).Copied?
    requires UsedInode(m, i) && i != ParentInode(m, d, dest)
    ensures var r := Copy(m, d, data, dest);
      && Ino(r.m, r.d, i) == Ino(m, d, i) && FileData(r.m, r.d, i) == FileData(m, d, i)
      && SameOn(d, r.d, BlocksOf(m, d, i))
  {
    hide Inv, UsedInode, ReadInode, AddDirent, Child, Copy, DirLookup, ResolvePath, Find, BlockList, Entries, Agree, NamesUnique,
      Contents, FileStored, Lookup, FileInode, At, SlotIn, HasSlotIn;
    var r, p := Copy(m, d, data, dest), ParentInode(m, d, dest);
    var m1, d1, es := CopyStages(m, d, data, dest);
    StoredLookup(m, d, m1, d1, r.inum, es, data, i, []);
    StoredDir(m, d, m1, d1, r.inum, es, data, i, []);
    StoredInv(m, d, m1, d1, r.inum, es, data);
    StoredUsed(m, d, m1, d1, r.inum, es, data, i);
    AddDirentKeepsOthers(m1, d1, p, r.inum, Base(dest), TYPE_FILE);
    OthersLookup(m1, d1, r.m, r.d, p, i, []);
  }

  lemma CopyKeepsParentKind(m: Meta, d: Disk, data: seq<byte>, dest: Path)
    requires Inv(m, d) && |data| < 0x8000_0000_0000_0000
    requires Addressable(m) && Copy(m, d, data, dest).Copied?
    ensures var r, p := Copy(m, d, data, dest), ParentInode(m, d, dest);
      Ino(r.m, r.d, p).kind == Ino(m, d, p).kind
  {
    hide Inv, UsedInode, ReadInode, AddDirent, Child, Copy, DirLookup, ResolvePath, Find, BlockList, Entries, Agree, NamesUnique,
      Contents, FileStored, Lookup, FileInode;
    var r, p := Copy(m, d, data, dest), ParentInode(m, d, dest);
    var m1, d1, es := CopyStages(m, d, data, dest);
    StoredLookup(m, d, m1, d1, r.inum, es, data, p, []);
    StoredInv(m, d, m1, d1, r.inum, es, data);
    AddDirentKeepsOthers(m1, d1, p, r.inum, Base(dest), TYPE_FILE);
  }

  /** An existing entry of the parent directory has the stored name of the copied file and comes
      after the new record, so that the new record hides it. */
  ghost predicate Shadows(m: Meta, d: Disk, dest: Path) {
    var p, x := ParentInode(m, d, dest), StoredName(Base(dest));
    x != [] && Gains(m, d, dest, p, x) && Lookup(m, d, p, x) != 0
  }

  lemma ShortNeverShadows(m: Meta, d: Disk, data: seq<byte>, dest: Path)
    requires Inv(m, d) && |data| < 0x8000_0000_0000_0000
    requires Addressable(m) && Copy(m, d, data, dest).Copied? && |Base(dest)| <= MAX_NAME
    ensures !Shadows(m, d, dest)
  {
    hide Inv, UsedInode, ReadInode, Copy, ResolvePath, Lookup, Before, NameEq;
    assert StoredName(Base(dest)) == Base(dest);
    if Gains(m, d, dest, ParentInode(m, d, dest), Base(dest)) { NewNameWasAbsent(m, d, data, dest, Base(dest)); }
  }

  lemma GainsFold(m: Meta, d: Disk, dest: Path, i: nat, x: seq<byte>)
    requires Gains(m, d, dest, i, x)
    ensures var y := StoredName(Base(dest));
      |x| == |y| && Gains(m, d, dest, i, y) && Lookup(m, d, i, x) == Lookup(m, d, i, y)
  {
    hide ReadInode, ResolvePath, Find, BlockList, Entries, Lookup, SlotIn, StoredName;
    var y := StoredName(Base(dest));
    FindFold(Before(m, d, dest), x, y);
    FindFold(Entries(d, BlocksOf(m, d, i)), x, y);
    LookupUnfold(m, d, i, x);
    LookupUnfold(m, d, i, y);
    assert |Fold(x)| == |Fold(y)|;
  }

  /** Whatever the parent: a path resolves as before, or to the copied file; and unless the new
      record hides an entry, every path that resolved keeps its inode. */
  lemma CopyKeepsPaths(m: Meta, d: Disk, data: seq<byte>, dest: Path, path: Path)
    requires Inv(m, d) && |data| < 0x8000_0000_0000_0000
    requires Addressable(m) && Copy(m, d, data, dest).Copied? && HEADER + |Base(dest)| <= BLOCK
    ensures var r := Copy(m, d, data, dest);
      && PathInode(r.m, r.d, path) in {0, r.inum, PathInode(m, d, path)}
      && (!Shadows(m, d, dest) && PathInode(m, d, path) != 0 ==> PathInode(r.m, r.d, path) == PathInode(m, d, path))
  {
    hide Inv, UsedInode, ReadInode, Lookup, Copy, ResolvePath, Gains, Closed, StoredName, FileData;
    var r := Copy(m, d, data, dest);
    CopiedFile(m, d, data, dest);
    InvClosed(m, d);
    forall i, x | UsedInode(m, i)
      ensures Lookup(r.m, r.d, i, x) in {r.inum, Lookup(m, d, i, x)}
      ensures !Shadows(m, d, dest) && x != [] && Lookup(m, d, i, x) != 0 ==> Lookup(r.m, r.d, i, x) == Lookup(m, d, i, x)
    {
      CopyLookups(m, d, data, dest, i, x);
      if Gains(m, d, dest, i, x) {
        GainsFold(m, d, dest, i, x);
        GainsParent(m, d, dest, i, x);
      }
    }
    NewLookups(m, d, r.m, r.d, r.inum, path);
    if !Shadows(m, d, dest) && PathInode(m, d, path) != 0 { KeptLookups(m, d, r.m, r.d, path); }
  }

  lemma GainsParent(m: Meta, d: Disk, dest: Path, i: nat, x: seq<byte>)
    requires Gains(m, d, dest, i, x)
    ensures i == ParentInode(m, d, dest)
  {
  }

  /** The copied name was not there before, in any spelling. */
  lemma NewNameWasAbsent(m: Meta, d: Disk, data: seq<byte>, dest: Path, x: seq<byte>)
    requires Inv(m, d) && |data| < 0x8000_0000_0000_0000
    requires Addressable(m) && Copy(m, d, data, dest).Copied? && NameEq(x, Base(dest))
    ensures Lookup(m, d, ParentInode(m, d, dest), x) == 0
  {
    hide Inv, UsedInode, ReadInode, Copy, FileStored, ResolvePath, AddDirent, Entries, BlockList, DirMap, Fold;
    var p := ParentInode(m, d, dest);
    var m1, d1, es := CopyStages(m, d, data, dest);
    FindIsMapLookup(Entries(d, BlocksOf(m, d, p)), x);
    FindIsMapLookup(Entries(d, BlocksOf(m, d, p)), Base(dest));
  }

  // ---- failure ----

  /** On every failing exit, also those of `add_dirent` after data and inode were written,
      the superblock and bitmap blocks are untouched and everything in use reads the same. */
  lemma FailedCopyAgrees(m: Meta, d: Disk, data: seq<byte>, dest: Path)
    requires Inv(m, d) && |data| < 0x8000_0000_0000_0000
    requires Addressable(m) && Copy(m, d, data, dest).Failed?
    ensures var d1 := Copy(m, d, data, dest).d;
      Agree(m, d, d1) && SameBelow(d, d1, m.sb.inodeTableStart)
  {
    hide Inv, UsedInode, ReadInode, BlocksNeeded, AllocInode, AllocExtents, StoreFile, AddDirent, ResolvePath, DirLookup,
      FileInode, Contents, NamesUnique, At;
    var d1 := Copy(m, d, data, dest).d;
    if d1 != d { FileStageStores(m, d, data); }
  }

  // ---- when the destination resolves ----

  /** If the parent is not a directory, no lookup changes at all. */
  lemma StrayCopyLookups(m: Meta, d: Disk, data: seq<byte>, dest: Path, i: nat, x: seq<byte>)
    requires Inv(m, d) && |data| < 0x8000_0000_0000_0000
    requires Addressable(m) && Copy(m, d, data, dest).Copied?
    requires Ino(m, d, ParentInode(m, d, dest)).kind != TYPE_DIR && UsedInode(m, i)
    ensures var r := Copy(m, d, data, dest);
      Lookup(r.m, r.d, i, x) == Lookup(m, d, i, x) && r.m.sb.inodeTableStart == m.sb.inodeTableStart
  {
    hide Inv, UsedInode, ReadInode, AddDirent, Child, FileStored, Copy, DirLookup, ResolvePath, BlockList, Entries, Lookup;
    var r, p := Copy(m, d, data, dest), ParentInode(m, d, dest);
    var m1, d1, es := CopyStages(m, d, data, dest);
    StoredLookup(m, d, m1, d1, r.inum, es, data, i, x);
    StoredLookup(m, d, m1, d1, r.inum, es, data, p, x);
    StoredInv(m, d, m1, d1, r.inum, es, data);
    StoredUsed(m, d, m1, d1, r.inum, es, data, i);
    AddDirentKeepsOthers(m1, d1, p, r.inum, Base(dest), TYPE_FILE);
    if i == p {
      LookupUnfold(m1, d1, p, x);
      LookupUnfold(r.m, r.d, p, x);
    } else {
      OthersLookup(m1, d1, r.m, r.d, p, i, x);
    }
  }

  lemma {:induction false} ShortNames(b: Block, off: nat)
    ensures forall i :: 0 <= i < |Walk(b, off)| ==> |Walk(b, off)[i].name| <= MAX_NAME
    decreases BLOCK - off
  {
    if HasHeader(off) && RecLen(b, off) != 0 { ShortNames(b, off + RecLen(b, off)); }
  }

  lemma {:induction false} ShortEntries(d: Disk, bs: seq<nat>)
    ensures forall i :: 0 <= i < |Entries(d, bs)| ==> |Entries(d, bs)[i].name| <= MAX_NAME
  {
    if bs != [] {
      ShortNames(At(d, bs[0]), 0);
      ShortEntries(d, bs[1..]);
    }
  }

  /** A name longer than 255 bytes is never found. */
  lemma LongNameNotFound(m: Meta, d: Disk, i: nat, x: seq<byte>)
    requires |x| > MAX_NAME
    ensures Lookup(m, d, i, x) == 0
  {
    hide ReadInode, BlockList, Entries, Find, Lookup;
    LookupUnfold(m, d, i, x);
    var es := Entries(d, BlocksOf(m, d, i));
    ShortEntries(d, BlocksOf(m, d, i));
    if Find(es, x) != 0 {
      var k := FindWitness(es, x);
    }
  }

  lemma PathLaw(m: Meta, d: Disk, p: Path)
    requires Base(p) != []
    ensures var c := PathInode(m, d, FullParent(p));
      PathInode(m, d, p) == if c == 0 then 0 else Lookup(m, d, c, Base(p))
  {
    hide Child, Resolve;
    ResolveIsLookupInParent(ChildStep(d, m.sb.inodeTableStart), p);
  }

  /** A successful copy can be found under its destination path exactly when the parent it
      used is a directory, the 256-byte parent buffer did not lead it elsewhere, and the
      name fits its one-byte length. */
  lemma CopyResolvesIff(m: Meta, d: Disk, data: seq<byte>, dest: Path)
    requires Inv(m, d) && |data| < 0x8000_0000_0000_0000
    requires Addressable(m) && Copy(m, d, data, dest).Copied?
    ensures var r, p := Copy(m, d, data, dest), ParentInode(m, d, dest);
      PathInode(r.m, r.d, dest) == r.inum <==>
        Ino(m, d, p).kind == TYPE_DIR && PathInode(m, d, FullParent(dest)) == p && |Base(dest)| <= MAX_NAME
  {
    hide Inv, UsedInode, ReadInode, Lookup, Copy, ResolvePath, FileStored, AddDirent, DirLookup, Gains, Shadows, Closed, FileData;
    var r, p, base := Copy(m, d, data, dest), ParentInode(m, d, dest), Base(dest);
    var m1, d1, es := CopyStages(m, d, data, dest);
    StoredInv(m, d, m1, d1, r.inum, es, data);
    PathLaw(r.m, r.d, dest);
    if |base| > MAX_NAME {
      LongNameNotFound(r.m, r.d, PathInode(r.m, r.d, FullParent(dest)), base);
    } else if Ino(m, d, p).kind != TYPE_DIR {
      forall i, x | UsedInode(m, i) ensures Lookup(m, r.d, i, x) == Lookup(m, d, i, x) {
        StrayCopyLookups(m, d, data, dest, i, x);
        LookupTable(m, r.m, r.d, i, x);
      }
      InvClosed(m, d);
      SameLookups(m, d, r.d, dest);
      StrayCopyLookups(m, d, data, dest, p, base);
      PathTable(m, r.m, r.d, dest);
    } else {
      var q := PathInode(m, d, FullParent(dest));
      ShortNeverShadows(m, d, data, dest);
      CopyKeepsPaths(m, d, data, dest, FullParent(dest));
      CopiedFile(m, d, data, dest);
      PathInUse(m, d, FullParent(dest));
      if q != 0 {
        CopyLookups(m, d, data, dest, q, base);
        ShortNameGains(m, d, data, dest, q, base);
        LookupInUse(m, d, q, base);
      }
    }
  }

  lemma LookupTable(m: Meta, m': Meta, d: Disk, i: nat, x: seq<byte>)
    requires m'.sb.inodeTableStart == m.sb.inodeTableStart
    ensures Lookup(m', d, i, x) == Lookup(m, d, i, x)
  {
  }

  lemma PathTable(m: Meta, m': Meta, d: Disk, p: Path)
    requires m'.sb.inodeTableStart == m.sb.inodeTableStart
    ensures PathInode(m', d, p) == PathInode(m, d, p)
  {
  }

  // ---- the free counters ----

  lemma AllocInodeCounter(m: Meta, n: nat)
    requires MetaOk(m, n) && AllocInode(m).Some?
    ensures var g := AllocInode(m).value;
      g.m.sb.freeInodes + 1 == m.sb.freeInodes && g.m.sb.freeBlocks == m.sb.freeBlocks
  {
    hide Bit, SetBit, CountClear, SbFits, TailZero, FirstClear;
    AllocInodeTakes(m, n);
    var g := AllocInode(m).value;
    InodeWasFree(m);
    CountSetBit(m.ibmp, g.value, MAX_INODES);
  }

  lemma InodeWasFree(m: Meta)
    requires m.sb.totalInodes == MAX_INODES && AllocInode(m).Some?
    ensures AllocInode(m).value.value < MAX_INODES && !Bit(m.ibmp, AllocInode(m).value.value)
    ensures AllocInode(m).value.m.ibmp == SetBit(m.ibmp, AllocInode(m).value.value)
  {
    hide Bit, SetBit;
  }

  lemma ClaimsCounter(m: Meta, m': Meta, bs: seq<nat>, n: nat)
    requires MetaOk(m, n) && Claims(m, m', bs)
    ensures m'.sb.freeBlocks + |bs| == m.sb.freeBlocks && m'.sb.freeInodes == m.sb.freeInodes
  {
    hide Bit, CountClear, SbFits, TailZero;
  }

  lemma AddDirentCounter(m: Meta, d: Disk, p: nat, child: nat, name: seq<byte>, kind: byte)
    requires Inv(m, d) && Addressable(m) && AddDirent(m, d, p, child, name, kind).EntryAdded?
    ensures var r := AddDirent(m, d, p, child, name, kind);
      && r.m.sb.freeInodes == m.sb.freeInodes
      && (r.m.sb.freeBlocks == m.sb.freeBlocks || r.m.sb.freeBlocks + 1 == m.sb.freeBlocks)
  {
    hide ReadInode, BlockList, PlaceIn, AllocBlock, FreshBlock, GrowDir, SetAt, WriteInode, Claims, MetaOk, InodesOk, NoSharing, DirsOk;
    if PlaceIn(d, BlockList(Ino(m, d, p)), child, name, kind).None? {
      DataRegion(m, |d|);
      AllocBlockClaims(m);
      ClaimsCounter(m, AllocBlock(m).value.m, [AllocBlock(m).value.value], |d|);
    }
  }

  /** Conservation: a successful copy takes exactly one inode and exactly the blocks of the
      file, plus at most one for the directory; no counter wraps. */
  lemma CopyCounters(m: Meta, d: Disk, data: seq<byte>, dest: Path)
    requires Inv(m, d) && |data| < 0x8000_0000_0000_0000
    requires Addressable(m) && Copy(m, d, data, dest).Copied?
    ensures var r := Copy(m, d, data, dest);
      && r.m.sb.freeInodes + 1 == m.sb.freeInodes
      && m.sb.freeBlocks - r.m.sb.freeBlocks in {BlocksNeeded(|data|), BlocksNeeded(|data|) + 1}
  {
    hide ReadInode, BlocksNeeded, AllocInode, AllocExtents, StoreFile, AddDirent, ResolvePath, DirLookup, MetaOk, InodesOk, NoSharing,
      DirsOk, Claims, FileStored, Flat;
    var gi := AllocInode(m).value;
    TakenAddressable(m);
    var ge := AllocExtents(gi.m, BlocksNeeded(|data|), 0, []).value;
    AllocInodeTakes(m, |d|);
    AllocInodeCounter(m, |d|);
    DataRegion(gi.m, |d|);
    EmptyExtents();
    var bs := AllocExtentsClaims(gi.m, BlocksNeeded(|data|), 0, []);
    ClaimsCounter(gi.m, ge.m, bs, |d|);
    FileStageStores(m, d, data);
    var d1 := StoreFile(m, d, gi.value, ge.value, data);
    StoredInv(m, d, ge.m, d1, gi.value, ge.value, data);
    AddDirentCounter(ge.m, d1, ParentInode(m, d, dest), gi.value, Base(dest), TYPE_FILE);
  }
}
