/** Exactly when one copy keeps what an image promises: its invariant, its unique names, the
    paths it resolves and the files it holds. */
module CopyExact {
  import opened Bytes
  import opened Bitmap
  import opened Volume
  import opened Metadata
  import opened Dirent
  import opened Extents
  import opened Alloc
  import opened Paths
  import opened CopySpec
  import opened Invariant
  import opened FileStage
  import opened DirStage
  import opened CopyTheorems
  import opened CopyResults

  // ---- the metadata after any copy ----

  ghost predicate BlocksAbove(m: Meta, d: Disk, i: nat) {
    forall k :: 0 <= k < |BlocksOf(m, d, i)| ==> m.sb.inodeTableStart <= BlocksOf(m, d, i)[k] < |d|
  }

  /** Metadata is consistent and no inode reaches below the inode table. */
  ghost predicate Flushable(m: Meta, d: Disk) {
    MetaOk(m, |d|) && forall i :: UsedInode(m, i) ==> BlocksAbove(m, d, i)
  }

  lemma InvBlocksAbove(m: Meta, d: Disk, i: nat)
    requires Inv(m, d) && UsedInode(m, i)
    ensures BlocksAbove(m, d, i)
  {
    hide Bit, CountClear, NoSharing, DirsOk, ReadInode, BlockList, SbFits, TailZero, Consecutive, Live;
    assert InodeOk(m, Ino(m, d, i));
    forall k | 0 <= k < |BlocksOf(m, d, i)| ensures m.sb.inodeTableStart <= BlocksOf(m, d, i)[k] < |d| {
      assert Owned(m, BlocksOf(m, d, i)[k]);
    }
  }

  lemma GrownAbove(m: Meta, d: Disk, m': Meta, d': Disk, p: nat, nb: nat)
    requires Inv(m, d) && UsedInode(m, p) && Grown(m, d, m', d', p, nb)
    ensures MetaOk(m', |d|) && BlocksAbove(m', d', p)
  {
    hide Bit, MetaOk, InodesOk, NoSharing, DirsOk, ReadInode, BlockList, GrowDir, SameOn, CountClear;
    InvBlocksAbove(m, d, p);
    ClaimsMetaOk(m, m', [nb], |d|);
    TableBelowData(m, |d|, 0);
    DataRegion(m, |d|);
    assert [nb][0] == nb;
  }

  /** Whatever the parent, the metadata of a successful insertion can be flushed. */
  lemma AddDirentFlushable(m: Meta, d: Disk, p: nat, child: nat, name: seq<byte>, kind: byte)
    requires Inv(m, d) && Addressable(m) && UsedInode(m, p) && AddDirent(m, d, p, child, name, kind).EntryAdded?
    ensures var r := AddDirent(m, d, p, child, name, kind); Flushable(r.m, r.d) && |r.d| == |d|
  {
    hide Inv, UsedInode, ReadInode, BlockList, AddDirent, SameOn, HasSlotIn, MetaOk, GrowDir, Claims;
    var r := AddDirent(m, d, p, child, name, kind);
    InvMeta(m, d);
    if HasSlotIn(d, BlocksOf(m, d, p), name) {
      SlotTaken(m, d, p, child, name, kind);
      InvBlocksAbove(m, d, p);
    } else {
      var nb := BlockAdded(m, d, p, child, name, kind);
      GrownAbove(m, d, r.m, r.d, p, nb);
    }
    forall i | UsedInode(r.m, i) ensures BlocksAbove(r.m, r.d, i) {
      if i != p { InvBlocksAbove(m, d, i); }
    }
  }

  lemma InvMeta(m: Meta, d: Disk)
    requires Inv(m, d)
    ensures MetaOk(m, |d|)
  {
  }

  lemma CopyFlushable(m: Meta, d: Disk, data: seq<byte>, dest: Path)
    requires Inv(m, d) && |data| < MAX_DATA && Addressable(m) && Copy(m, d, data, dest).Copied?
    ensures var r := Copy(m, d, data, dest); Flushable(r.m, r.d) && |r.d| == |d|
  {
    hide Inv, UsedInode, ReadInode, AddDirent, Copy, DirLookup, ResolvePath, FileStored, Flushable;
    var r, p := Copy(m, d, data, dest), ParentInode(m, d, dest);
    var m1, d1, es := CopyStages(m, d, data, dest);
    StoredInv(m, d, m1, d1, r.inum, es, data);
    StoredSize(m, d, m1, d1, r.inum, es, data);
    AddDirentFlushable(m1, d1, p, r.inum, Base(dest), TYPE_FILE);
  }

  lemma StoredSize(m: Meta, d: Disk, m1: Meta, d1: Disk, n: nat, es: seq<Extent>, data: seq<byte>)
    requires |es| <= NUM_EXTENTS && FileStored(m, d, m1, d1, n, es, data)
    ensures |d1| == |d|
  {
  }

  // ---- a parent that is no directory ----

  /** File i is shorter than 2^63 bytes and its blocks hold zeros past its end. */
  ghost predicate SealedFile(m: Meta, d: Disk, i: nat) {
    Ino(m, d, i).size < MAX_DATA && ZeroPast(d, BlocksOf(m, d, i), Ino(m, d, i).size)
  }

  /** Every file in use is zero past its end. */
  ghost predicate Sealed(m: Meta, d: Disk) {
    forall i :: UsedInode(m, i) && Ino(m, d, i).kind != TYPE_DIR ==> SealedFile(m, d, i)
  }

  lemma GrownContents(d: Disk, d': Disk, ino: Inode, nb: nat)
    requires ino.extentCount < NUM_EXTENTS && ino.size < MAX_DATA
    ensures |Contents(d', BlockList(ino) + [nb], GrowDir(ino, nb).size)| == |Contents(d, BlockList(ino), ino.size)| + BLOCK
  {
    hide BlockList, Gather;
  }

  /** A record put into a sealed file changes what the file reads as; if it took a new block,
      the file is 4096 bytes longer. */
  lemma AddDirentChangesFile(m: Meta, d: Disk, p: nat, child: nat, name: seq<byte>, kind: byte)
    requires Inv(m, d) && Addressable(m) && UsedInode(m, p) && SealedFile(m, d, p)
    requires 0 < child < 0x1_0000_0000 && HEADER + |name| <= BLOCK && AddDirent(m, d, p, child, name, kind).EntryAdded?
    ensures var r := AddDirent(m, d, p, child, name, kind);
      && FileData(r.m, r.d, p) != FileData(m, d, p)
      && (!HasSlotIn(d, BlocksOf(m, d, p), name) ==> |FileData(r.m, r.d, p)| == |FileData(m, d, p)| + BLOCK)
  {
    hide Inv, UsedInode, ReadInode, BlockList, AddDirent, SameOn, HasSlotIn, PlaceIn, SetAt, OthersKept, Contents, ZeroPast, GrowDir, Claims;
    var r, bs := AddDirent(m, d, p, child, name, kind), BlocksOf(m, d, p);
    InvBlocksAbove(m, d, p);
    if HasSlotIn(d, bs, name) {
      SlotTaken(m, d, p, child, name, kind);
      PlaceInFileChanges(d, bs, Ino(m, d, p).size, child, name, kind);
    } else {
      var nb := BlockAdded(m, d, p, child, name, kind);
      GrownContents(d, r.d, Ino(m, d, p), nb);
    }
  }

  lemma StoredSealed(m: Meta, d: Disk, m1: Meta, d1: Disk, n: nat, es: seq<Extent>, data: seq<byte>, p: nat)
    requires |es| <= NUM_EXTENTS && FileStored(m, d, m1, d1, n, es, data) && UsedInode(m, p) && SealedFile(m, d, p)
    ensures SealedFile(m1, d1, p)
  {
    hide UsedInode, ReadInode, BlockList, FileStored, ZeroPast, SlotIn, HasSlotIn, Entries, SameOn, Lookup, FileData;
    StoredDir(m, d, m1, d1, n, es, data, p, []);
    StoredLookup(m, d, m1, d1, n, es, data, p, []);
    ZeroPastFrame(d, d1, BlocksOf(m, d, p), Ino(m, d, p).size);
  }

  /** A copy below a sealed file, of whatever size, changes that file. */
  lemma StrayCopyChangesParent(m: Meta, d: Disk, data: seq<byte>, dest: Path)
    requires Inv(m, d) && |data| < MAX_DATA && HEADER + |Base(dest)| <= BLOCK
    requires Addressable(m) && Copy(m, d, data, dest).Copied?
    requires Ino(m, d, ParentInode(m, d, dest)).kind != TYPE_DIR && SealedFile(m, d, ParentInode(m, d, dest))
    ensures var r, p := Copy(m, d, data, dest), ParentInode(m, d, dest);
      && Ino(r.m, r.d, p).kind == Ino(m, d, p).kind && FileData(r.m, r.d, p) != FileData(m, d, p)
      && (!HasSlotIn(d, BlocksOf(m, d, p), Base(dest)) ==> |FileData(r.m, r.d, p)| == |FileData(m, d, p)| + BLOCK)
  {
    hide Inv, UsedInode, ReadInode, AddDirent, Copy, DirLookup, ResolvePath, FileStored, BlockList, FileData, HasSlotIn, SealedFile, SlotIn,
      Lookup, Entries, SameOn, FileInode;
    var r, p := Copy(m, d, data, dest), ParentInode(m, d, dest);
    var m1, d1, es := CopyStages(m, d, data, dest);
    StoredInv(m, d, m1, d1, r.inum, es, data);
    StoredLookup(m, d, m1, d1, r.inum, es, data, p, []);
    StoredDir(m, d, m1, d1, r.inum, es, data, p, Base(dest));
    StoredSealed(m, d, m1, d1, r.inum, es, data, p);
    AddDirentChangesFile(m1, d1, p, r.inum, Base(dest), TYPE_FILE);
    CopyKeepsParentKind(m, d, data, dest);
  }

  /** A copy into a directory keeps every file sealed, the new one included. */
  lemma CopyKeepsSealed(m: Meta, d: Disk, data: seq<byte>, dest: Path)
    requires Inv(m, d) && Sealed(m, d) && |data| < MAX_DATA
    requires Addressable(m) && Copy(m, d, data, dest).Copied?
    requires Ino(m, d, ParentInode(m, d, dest)).kind == TYPE_DIR
    ensures var r := Copy(m, d, data, dest); Sealed(r.m, r.d)
  {
    hide Inv, UsedInode, ReadInode, Copy, ResolvePath, BlockList, FileData, ZeroPast, SameOn, Lookup;
    var r, p := Copy(m, d, data, dest), ParentInode(m, d, dest);
    CopiedFile(m, d, data, dest);
    CopyKeepsParentKind(m, d, data, dest);
    forall i | UsedInode(r.m, i) && Ino(r.m, r.d, i).kind != TYPE_DIR ensures SealedFile(r.m, r.d, i) {
      CopyUses(m, d, data, dest, i);
      if i != r.inum {
        CopyKeepsData(m, d, data, dest, i);
        ZeroPastFrame(d, r.d, BlocksOf(m, d, i), Ino(m, d, i).size);
      }
    }
  }

  // ---- the invariant ----

  lemma StrayDirsOk(m: Meta, d: Disk, m': Meta, d': Disk, p: nat)
    requires Inv(m, d) && OthersKept(m, d, m', d', p) && Ino(m, d, p).kind != TYPE_DIR
    ensures DirsOk(m', d') && Ino(m', d', ROOT).kind == TYPE_DIR
  {
    hide ReadInode, BlockList, MetaOk, NoSharing, InodesOk, Tiled, Entries, At, Bit;
    RootInUse(m, d);
    forall i | UsedInode(m', i) && Ino(m', d', i).kind == TYPE_DIR ensures DirOk(m', d', BlocksOf(m', d', i)) {
      assert i != p && DirOk(m, d, BlocksOf(m, d, i));
      EntriesFrame(d, d', BlocksOf(m, d, i));
    }
  }

  /** A new block continues the extents of an inode. */
  predicate GrowsEvenly(ino: Inode) {
    ino.size / BLOCK % 0x1_0000_0000 == ino.blocksUsed
  }

  /** For a consistent file this says that its last block is full. */
  lemma FileGrowsEvenly(m: Meta, ino: Inode)
    requires Addressable(m) && InodeOk(m, ino) && ino.kind == TYPE_FILE
    ensures GrowsEvenly(ino) <==> ino.size % BLOCK == 0
  {
    hide BlocksOk, Consecutive, BlockList, Live;
    var q := ino.size / BLOCK;
    assert (ino.size + BLOCK - 1) / BLOCK == if ino.size % BLOCK == 0 then q else q + 1;
  }

  lemma ConsecutiveLast(es: seq<Extent>, e: Extent)
    requires Consecutive(es + [e])
    ensures e.fileBlock == |Flat(es)|
  {
    assert (es + [e])[|es|] == e && (es + [e])[..|es|] == es;
  }

  lemma NeededGrows(size: nat)
    requires BlocksNeeded(size) < 0xFFFF_FFFF && size < 0x1_0000_0000_0000_0000
    ensures BlocksNeeded((size + BLOCK) % 0x1_0000_0000_0000_0000) == BlocksNeeded(size) + 1
  {
    var n := (size + BLOCK - 1) / BLOCK;
    if size + BLOCK < 0x1_0000_0000_0000_0000 {
      assert (size + BLOCK + BLOCK - 1) / BLOCK == n + 1;
    } else {
      var s := size + BLOCK - 0x1_0000_0000_0000_0000;
      assert (s + BLOCK - 1) / BLOCK == n + 1 - 0x10_0000_0000_0000;
      assert (n + 1 - 0x10_0000_0000_0000) % 0x1_0000_0000 == (n + 1) % 0x1_0000_0000;
    }
  }

  lemma OwnedDistinct(m: Meta, ino: Inode, n: nat)
    requires MetaOk(m, n) && Addressable(m) && InodeOk(m, ino)
    ensures |BlockList(ino)| <= m.sb.totalBlocks
  {
    hide BlockList, Consecutive, Live, Bit, MetaOk;
    var bs := BlockList(ino);
    assert forall k :: 0 <= k < |bs| ==> Owned(m, bs[k]);
    DistinctBelow(bs, m.sb.totalBlocks);
  }

  /** A file that was given a directory block is still consistent exactly when it grew evenly. */
  lemma GrownStrayOk(m: Meta, m': Meta, ino: Inode, nb: nat, n: nat)
    requires MetaOk(m, n) && Addressable(m) && Claims(m, m', [nb]) && MetaOk(m', n) && Addressable(m')
    requires InodeOk(m, ino) && ino.kind != TYPE_DIR && ino.extentCount < NUM_EXTENTS && ino.size < 0x1_0000_0000_0000_0000
    ensures InodeOk(m', GrowDir(ino, nb)) <==> GrowsEvenly(ino)
  {
    hide Live, Flat, Bit, MetaOk, Consecutive, CountClear, BlockList, BlocksNeeded;
    DataRegion(m, n);
    var bs, e := BlockList(ino), Extent(nb, 1, ino.size / BLOCK % 0x1_0000_0000);
    BlockListIsFlat(ino);
    assert [nb][0] == nb;
    ClaimsMetaOk(m, m', [nb], n);
    OwnedDistinct(m, ino, n);
    GrownBlocks(ino, nb);
    NeededGrowsIf(ino);
    assert forall k :: 0 <= k < |bs| ==> Owned(m, bs[k]);
    assert BlocksOk(m', bs + [nb]);
    if GrowsEvenly(ino) { ConsecutiveAppend(Live(ino), e); }
    if Consecutive(Live(ino) + [e]) { ConsecutiveLast(Live(ino), e); }
  }

  lemma NeededGrowsIf(ino: Inode)
    requires ino.size < 0x1_0000_0000_0000_0000
    ensures BlocksNeeded(ino.size) < 0xFFFF_FFFF ==>
      BlocksNeeded((ino.size + BLOCK) % 0x1_0000_0000_0000_0000) == BlocksNeeded(ino.size) + 1
  {
    hide BlocksNeeded;
    if BlocksNeeded(ino.size) < 0xFFFF_FFFF { NeededGrows(ino.size); }
  }

  lemma ReadSize(d: Disk, table: nat, i: nat)
    ensures ReadInode(d, table, i).size < 0x1_0000_0000_0000_0000
  {
    hide ReadInode;
    ReadFits(d, table, i);
    FitsSize(ReadInode(d, table, i));
  }

  lemma GrownInvIff(m: Meta, d: Disk, m': Meta, d': Disk, p: nat, nb: nat)
    requires Inv(m, d) && UsedInode(m, p) && Ino(m, d, p).kind != TYPE_DIR && Grown(m, d, m', d', p, nb)
    ensures Inv(m', d') <==> GrowsEvenly(Ino(m, d, p))
  {
    hide ReadInode, BlockList, MetaOk, DirsOk, Bit, SameOn, GrowDir, InodeOk, NoSharing, GrowsEvenly, Claims;
    var ino := Ino(m, d, p);
    GrownAbove(m, d, m', d', p, nb);
    LayoutAddressable(m', |d|);
    ReadSize(d, m.sb.inodeTableStart, p);
    GrownStrayOk(m, m', ino, nb, |d|);
    StrayDirsOk(m, d, m', d', p);
    ClaimsMetaOk(m, m', [nb], |d|);
    NewlyOwned(m, m', nb);
    ClaimedKeepsLayout(m, m', [nb]);
    assert Extends(m, m');
    GrownNoSharing(m, d, m', d', p, nb);
    if InodeOk(m', GrowDir(ino, nb)) { KeptInodesOk(m, d, m', d', p); }
  }

  lemma NewlyOwned(m: Meta, m': Meta, nb: nat)
    requires Addressable(m) && Claims(m, m', [nb])
    ensures !Owned(m, nb)
  {
    assert [nb][0] == nb;
  }

  lemma SlotKeepsInv(m: Meta, d: Disk, d': Disk, p: nat)
    requires Inv(m, d) && Ino(m, d, p).kind != TYPE_DIR
    requires OthersKept(m, d, m, d', p) && Ino(m, d', p) == Ino(m, d, p)
    ensures Inv(m, d')
  {
    hide ReadInode, BlockList, MetaOk, DirsOk, Bit, SameOn, InodeOk, NoSharing;
    StrayDirsOk(m, d, m, d', p);
    assert forall i :: UsedInode(m, i) ==> Ino(m, d', i) == Ino(m, d, i);
    SameBlocksNoSharing(m, d, d');
  }

  lemma AddDirentInvIff(m: Meta, d: Disk, p: nat, child: nat, name: seq<byte>, kind: byte)
    requires Inv(m, d) && Addressable(m) && UsedInode(m, p) && AddDirent(m, d, p, child, name, kind).EntryAdded?
    requires Ino(m, d, p).kind != TYPE_DIR
    ensures var r := AddDirent(m, d, p, child, name, kind);
      Inv(r.m, r.d) <==> HasSlotIn(d, BlocksOf(m, d, p), name) || GrowsEvenly(Ino(m, d, p))
  {
    hide Inv, UsedInode, ReadInode, BlockList, AddDirent, HasSlotIn, OthersKept, GrowsEvenly, Grown;
    var r := AddDirent(m, d, p, child, name, kind);
    if HasSlotIn(d, BlocksOf(m, d, p), name) {
      SlotTaken(m, d, p, child, name, kind);
      SlotKeepsInv(m, d, r.d, p);
    } else {
      var nb := BlockAdded(m, d, p, child, name, kind);
      GrownInvIff(m, d, r.m, r.d, p, nb);
    }
  }

  /** Exactly when a copy keeps the invariant: its parent is a directory, or the file it treats
      as one has a slot in its bytes, or grows by a block behind a full last one. */
  lemma CopyInvIff(m: Meta, d: Disk, data: seq<byte>, dest: Path)
    requires Inv(m, d) && |data| < MAX_DATA && HEADER + |Base(dest)| <= BLOCK
    requires Addressable(m) && Copy(m, d, data, dest).Copied?
    ensures var r, p := Copy(m, d, data, dest), ParentInode(m, d, dest);
      && (Inv(r.m, r.d) <==>
            Ino(m, d, p).kind == TYPE_DIR || HasSlotIn(d, BlocksOf(m, d, p), Base(dest)) || GrowsEvenly(Ino(m, d, p)))
      && (Ino(m, d, p).kind == TYPE_FILE ==> (GrowsEvenly(Ino(m, d, p)) <==> Ino(m, d, p).size % BLOCK == 0))
  {
    hide Inv, UsedInode, ReadInode, AddDirent, Copy, DirLookup, ResolvePath, FileStored, BlockList, FileData, HasSlotIn, GrowsEvenly, SlotIn,
      Lookup, Entries, SameOn, FileInode;
    var r, p := Copy(m, d, data, dest), ParentInode(m, d, dest);
    var m1, d1, es := CopyStages(m, d, data, dest);
    if Ino(m, d, p).kind == TYPE_DIR {
      CopyKeepsInv(m, d, data, dest);
    } else {
      StoredInv(m, d, m1, d1, r.inum, es, data);
      StoredLookup(m, d, m1, d1, r.inum, es, data, p, []);
      StoredDir(m, d, m1, d1, r.inum, es, data, p, Base(dest));
      AddDirentInvIff(m1, d1, p, r.inum, Base(dest), TYPE_FILE);
      if Ino(m, d, p).kind == TYPE_FILE {
        UsedInodeOk(m, d, p);
        FileGrowsEvenly(m, Ino(m, d, p));
      }
    }
  }

  lemma UsedInodeOk(m: Meta, d: Disk, i: nat)
    requires Inv(m, d) && Addressable(m) && UsedInode(m, i)
    ensures InodeOk(m, Ino(m, d, i))
  {
    hide ReadInode, InodeOk, Bit, MetaOk, NoSharing, DirsOk;
  }

  // ---- unique names ----

  lemma StrayKeepsUnique(m: Meta, d: Disk, m': Meta, d': Disk, p: nat)
    requires OthersKept(m, d, m', d', p) && NamesUnique(m, d) && Ino(m, d, p).kind != TYPE_DIR
    ensures NamesUnique(m', d')
  {
    hide ReadInode, BlockList, Bit, Entries, At, Unique;
    forall i | UsedInode(m', i) && Ino(m', d', i).kind == TYPE_DIR ensures Unique(Entries(d', BlocksOf(m', d', i))) {
      assert i != p;
      EntriesFrame(d, d', BlocksOf(m, d, i));
    }
  }

  lemma InsertedUniqueIff(es: seq<Entry>, es': seq<Entry>, k: nat, e: Entry)
    requires InsertedAt(es, es', k, e) && Unique(es)
    ensures Unique(es') <==> Absent(es, e.name)
  {
    hide NameEq;
    InsertedSplit(es, es', k, e);
    if Absent(es, e.name) { InsertKeepsUnique(es[..k], es[k..], e); }
    if Unique(es') {
      forall i | 0 <= i < |es| ensures !NameEq(es[i].name, e.name) {
        if i < k { assert es'[i] == es[i] && es'[k] == e; } else {
          assert es'[i + 1] == es[i] && es'[k] == e;
          NameEqSym(es[i].name, e.name);
        }
      }
    }
  }

  lemma AddDirentUniqueIff(m: Meta, d: Disk, p: nat, child: nat, name: seq<byte>, kind: byte)
    requires Inv(m, d) && NamesUnique(m, d) && UsedInode(m, p) && Ino(m, d, p).kind == TYPE_DIR
    requires UsedInode(m, child) && child != 0 && HEADER + |name| <= BLOCK && kind == Ino(m, d, child).kind
    requires Addressable(m) && AddDirent(m, d, p, child, name, kind).EntryAdded?
    ensures var r := AddDirent(m, d, p, child, name, kind);
      NamesUnique(r.m, r.d) <==> Lookup(m, d, p, StoredName(name)) == 0
  {
    hide Inv, UsedInode, ReadInode, BlockList, Entries, Find, Absent, AddDirent, Unique, NamesUnique, SameOn, Lookup, StoredName, SlotIn,
      InsertedAt;
    var r := AddDirent(m, d, p, child, name, kind);
    var k := AddDirentInserts(m, d, p, child, name, kind);
    var es, es' := Entries(d, BlocksOf(m, d, p)), Entries(r.d, BlocksOf(r.m, r.d, p));
    UniqueAt(m, d, p);
    InsertedUniqueIff(es, es', k, Stored(child, name, kind));
    EntriesNonZero(d, BlocksOf(m, d, p));
    FindZeroIsAbsent(es, StoredName(name));
    LookupUnfold(m, d, p, StoredName(name));
    if Unique(es') { KeptUnique(m, d, r.m, r.d, p); }
    if NamesUnique(r.m, r.d) { UniqueAt(r.m, r.d, p); }
  }

  /** Names stay unique exactly when no entry of the parent directory has the name that is
      stored: the first length modulo 256 bytes of the name asked for. */
  lemma CopyNamesUniqueIff(m: Meta, d: Disk, data: seq<byte>, dest: Path)
    requires Inv(m, d) && NamesUnique(m, d) && |data| < MAX_DATA && HEADER + |Base(dest)| <= BLOCK
    requires Addressable(m) && Copy(m, d, data, dest).Copied?
    ensures var r, p := Copy(m, d, data, dest), ParentInode(m, d, dest);
      NamesUnique(r.m, r.d) <==> Ino(m, d, p).kind != TYPE_DIR || Lookup(m, d, p, StoredName(Base(dest))) == 0
  {
    hide Inv, UsedInode, ReadInode, AddDirent, Copy, DirLookup, ResolvePath, FileStored, BlockList, NamesUnique, Lookup, StoredName, OthersKept,
      FileInode, FileData;
    var r, p, base := Copy(m, d, data, dest), ParentInode(m, d, dest), Base(dest);
    var m1, d1, es := CopyStages(m, d, data, dest);
    StoredInv(m, d, m1, d1, r.inum, es, data);
    StoredLookup(m, d, m1, d1, r.inum, es, data, p, StoredName(base));
    if Ino(m, d, p).kind == TYPE_DIR {
      AddDirentUniqueIff(m1, d1, p, r.inum, base, TYPE_FILE);
    } else {
      AddDirentKeepsOthers(m1, d1, p, r.inum, base, TYPE_FILE);
      StrayKeepsUnique(m1, d1, r.m, r.d, p);
    }
  }

  // ---- paths ----

  /** Every path that resolved before still leads to the same inode. */
  ghost predicate PathsKept(m: Meta, d: Disk, m': Meta, d': Disk) {
    forall p :: PathInode(m, d, p) != 0 ==> PathInode(m', d', p) == PathInode(m, d, p)
  }

  lemma ShadowedPath(m: Meta, d: Disk, data: seq<byte>, dest: Path) returns (q: Path)
    requires Inv(m, d) && |data| < MAX_DATA && HEADER + |Base(dest)| <= BLOCK
    requires Addressable(m) && Copy(m, d, data, dest).Copied? && Shadows(m, d, dest)
    ensures var r := Copy(m, d, data, dest); PathInode(m, d, q) != 0 && PathInode(r.m, r.d, q) != PathInode(m, d, q)
  {
    hide Inv, UsedInode, ReadInode, Lookup, Copy, ResolvePath, Gains, FileData, AddDirent, DirLookup, FileStored;
    var r, p, x := Copy(m, d, data, dest), ParentInode(m, d, dest), StoredName(Base(dest));
    var m1, d1, es := CopyStages(m, d, data, dest);
    if PathInode(r.m, r.d, Parent(dest)) != p { return Parent(dest); }
    ParentNonEmpty(dest);
    q := Parent(dest) + [SLASH] + x;
    JoinParts(Parent(dest), x);
    PathLaw(m, d, q);
    PathLaw(r.m, r.d, q);
    CopyLookups(m, d, data, dest, p, x);
    LookupInUse(m, d, p, x);
    CopiedFile(m, d, data, dest);
  }

  lemma ParentNonEmpty(dest: Path)
    ensures Parent(dest) != []
  {
  }

  /** Paths keep their inodes exactly when the new record hides no entry. */
  lemma CopyKeepsPathsIff(m: Meta, d: Disk, data: seq<byte>, dest: Path)
    requires Inv(m, d) && |data| < MAX_DATA && HEADER + |Base(dest)| <= BLOCK
    requires Addressable(m) && Copy(m, d, data, dest).Copied?
    ensures var r := Copy(m, d, data, dest); PathsKept(m, d, r.m, r.d) <==> !Shadows(m, d, dest)
  {
    hide Inv, UsedInode, ReadInode, Copy, ResolvePath, Shadows, PathInode;
    var r := Copy(m, d, data, dest);
    if Shadows(m, d, dest) {
      var q := ShadowedPath(m, d, data, dest);
    } else {
      forall p | PathInode(m, d, p) != 0 ensures PathInode(r.m, r.d, p) == PathInode(m, d, p) {
        CopyKeepsPaths(m, d, data, dest, p);
      }
    }
  }

  /** After any copy lookups still lead from inodes in use to inodes in use. */
  lemma CopyClosed(m: Meta, d: Disk, data: seq<byte>, dest: Path)
    requires Inv(m, d) && |data| < MAX_DATA && HEADER + |Base(dest)| <= BLOCK
    requires Addressable(m) && Copy(m, d, data, dest).Copied?
    ensures var r := Copy(m, d, data, dest); Closed(r.m, r.d)
  {
    hide Inv, UsedInode, ReadInode, Copy, ResolvePath, Lookup, Gains, FileData;
    var r := Copy(m, d, data, dest);
    CopiedFile(m, d, data, dest);
    RootInUse(m, d);
    CopyUses(m, d, data, dest, ROOT);
    CopyUses(m, d, data, dest, r.inum);
    forall i, x | UsedInode(r.m, i) && Lookup(r.m, r.d, i, x) != 0 ensures UsedInode(r.m, Lookup(r.m, r.d, i, x)) {
      CopyUses(m, d, data, dest, i);
      CopyLookups(m, d, data, dest, i, x);
      LookupInUse(m, d, i, x);
      CopyUses(m, d, data, dest, Lookup(m, d, i, x));
    }
  }
}
