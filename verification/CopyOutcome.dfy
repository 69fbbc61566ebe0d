/** Every exit of a copy, exactly: when it succeeds, and for which reason it fails otherwise. */
module CopyOutcome {
  import opened Bytes
  import opened Bitmap
  import opened Volume
  import opened Metadata
  import opened Dirent
  import opened Extents
  import opened Alloc
  import opened Paths
  import opened CopySpec
  import opened Invariant
  import opened FileStage
  import opened CopyTheorems
  import opened CopyResults
  import opened Runs
  import opened Space

  // ---- inserting a record ----

  /** A data block is free. */
  ghost predicate BlockFree(m: Meta)
    requires Addressable(m)
  {
    exists b :: m.sb.dataStart <= b < m.sb.totalBlocks && !Bit(m.bbmp, b)
  }

  /** Insertion succeeds exactly when some block of the directory has a slot, or the directory has
      fewer than ten extents and a data block is free. Otherwise it says which of the two failed. */
  lemma AddDirentIff(m: Meta, d: Disk, p: nat, child: nat, name: seq<byte>, kind: byte)
    requires Addressable(m)
    ensures var r, ino := AddDirent(m, d, p, child, name, kind), Ino(m, d, p);
      var slot := HasSlotIn(d, BlockList(ino), name);
      && (r.EntryAdded? <==> slot || (ino.extentCount < 10 && BlockFree(m)))
      && (r == Refused(DirectoryOutOfExtents) <==> !slot && ino.extentCount >= 10)
      && (r == Refused(NoSpaceForDirectory) <==> !slot && ino.extentCount < 10 && !BlockFree(m))
  {
    hide ReadInode, BlockList, HasSlotIn, PlaceIn, AllocBlock, Bit, FreshBlock, GrowDir;
    PlaceInIff(d, BlockList(Ino(m, d, p)), child, name, kind);
    AllocBlockIff(m);
  }

  /** A directory has a slot exactly when a record of one of its blocks has room for the name. */
  lemma DirSlotIff(m: Meta, d: Disk, p: nat, name: seq<byte>)
    requires Inv(m, d) && UsedInode(m, p) && Ino(m, d, p).kind == TYPE_DIR && HEADER + |name| <= BLOCK
    ensures var bs := BlocksOf(m, d, p);
      HasSlotIn(d, bs, name) <==> exists k :: 0 <= k < |bs| && HasRoom(At(d, bs[k]), 0, |name|)
  {
    hide ReadInode, BlockList, HasSlotIn, HasSlot, HasRoom, Tiled, At, Bit, MetaOk, InodesOk, NoSharing, Entries;
    var bs := BlocksOf(m, d, p);
    HasSlotInIff(d, bs, name);
    assert DirOk(m, d, bs);
    forall k | 0 <= k < |bs| ensures HasSlot(At(d, bs[k]), 0, name) <==> HasRoom(At(d, bs[k]), 0, |name|) {
      HasSlotIff(At(d, bs[k]), 0, name);
    }
    if HasSlotIn(d, bs, name) {
      var k :| 0 <= k < |bs| && HasSlot(At(d, bs[k]), 0, name);
      assert HasRoom(At(d, bs[k]), 0, |name|);
    }
    if k :| 0 <= k < |bs| && HasRoom(At(d, bs[k]), 0, |name|) { assert HasSlot(At(d, bs[k]), 0, name); }
  }

  // ---- free blocks by count ----

  lemma {:induction false} CountPositive(bmp: seq<byte>, n: nat)
    requires n <= 8 * |bmp|
    ensures CountClear(bmp, n) > 0 <==> exists b :: 0 <= b < n && !Bit(bmp, b)
  {
    hide Bit;
    if n > 0 { CountPositive(bmp, n - 1); }
  }

  lemma BlockFreeIff(m: Meta, n: nat)
    requires MetaOk(m, n) && Addressable(m)
    ensures BlockFree(m) <==> m.sb.freeBlocks > 0
  {
    hide Bit, CountClear, SbFits, TailZero;
    CountPositive(m.bbmp, m.sb.totalBlocks);
  }

  lemma InodeFreeIff(m: Meta, n: nat)
    requires MetaOk(m, n)
    ensures AllocInode(m).Some? <==> exists i :: 2 <= i < 1024 && !UsedInode(m, i)
  {
    hide Bit, CountClear, SbFits, TailZero, AllocInode;
    AllocInodeIff(m);
    if i :| 2 <= i < 1024 && !UsedInode(m, i) { assert !Bit(m.ibmp, i); }
    if i :| 2 <= i < m.sb.totalInodes && !Bit(m.ibmp, i) { assert !UsedInode(m, i); }
  }

  // ---- the copy ----

  /** What a copy finds, in the order in which it looks. */
  datatype Checks = Checks(
    named: bool, parent: bool, absent: bool, inode: bool, space: bool, slot: bool, extents: bool, block: bool)

  /** The name is not empty, the parent path resolves, the name is absent, an inode is free, there
      is room for the data, the directory has a slot, it has fewer than ten extents, and a block
      remains once the data has its own. */
  ghost function Finds(m: Meta, d: Disk, data: seq<byte>, dest: Path): Checks
    requires Addressable(m)
  {
    var p, n := PathInode(m, d, Parent(dest)), BlocksNeeded(|data|);
    Checks(Base(dest) != [], p != 0, DirLookup(d, Ino(m, d, p), Base(dest)) == 0,
             exists i :: 2 <= i < 1024 && !UsedInode(m, i), HasSpace(m, n),
             HasSlotIn(d, BlocksOf(m, d, p), Base(dest)), Ino(m, d, p).extentCount < 10, n < m.sb.freeBlocks)
  }

  /** The reason of a failure, or none. */
  ghost function Verdict(f: Checks): Option<Failure> {
    if !f.named then Some(InvalidDest)
    else if !f.parent then Some(ParentNotFound)
    else if !f.absent then Some(AlreadyExists)
    else if !f.inode then Some(NoFreeInode)
    else if !f.space then Some(NoSpaceForData)
    else if f.slot then None
    else if !f.extents then Some(DirectoryOutOfExtents)
    else if !f.block then Some(NoSpaceForDirectory)
    else None
  }

  lemma InsertStage(m: Meta, d: Disk, data: seq<byte>, p: nat, base: seq<byte>)
    requires Inv(m, d) && |data| < MAX_DATA && Addressable(m) && UsedInode(m, p) && AllocInode(m).Some?
    requires AllocExtents(AllocInode(m).value.m, BlocksNeeded(|data|), 0, []).Some?
    ensures var gi := AllocInode(m).value;
      var ge := AllocExtents(gi.m, BlocksNeeded(|data|), 0, []).value;
      |ge.value| <= NUM_EXTENTS
      && var d1 := StoreFile(m, d, gi.value, ge.value, data);
         && Ino(ge.m, d1, p) == Ino(m, d, p)
         && HasSlotIn(d1, BlocksOf(m, d, p), base) == HasSlotIn(d, BlocksOf(m, d, p), base)
         && (BlockFree(ge.m) <==> BlocksNeeded(|data|) < m.sb.freeBlocks)
  {
    hide AllocInode, AllocExtents, BlocksNeeded, StoreFile, FileStored, Inv, UsedInode, ReadInode, BlockList, HasSlotIn, BlockFree, SlotIn, Entries,
      SameOn, Lookup, FileData, MetaOk, Claims, FileInode;
    var gi := AllocInode(m).value;
    TakenAddressable(m);
    var ge := AllocExtents(gi.m, BlocksNeeded(|data|), 0, []).value;
    FileStageStores(m, d, data);
    var d1 := StoreFile(m, d, gi.value, ge.value, data);
    StoredDir(m, d, ge.m, d1, gi.value, ge.value, data, p, base);
    StoredLookup(m, d, ge.m, d1, gi.value, ge.value, data, p, []);
    InvMetaOk(m, d);
    AllocInodeTakes(m, |d|);
    AllocInodeCounter(m, |d|);
    DataRegion(gi.m, |d|);
    EmptyExtents();
    var bs := AllocExtentsClaims(gi.m, BlocksNeeded(|data|), 0, []);
    ClaimsCounter(gi.m, ge.m, bs, |d|);
    ClaimsMetaOk(gi.m, ge.m, bs, |d|);
    BlockFreeIff(ge.m, |d|);
  }

  lemma InvMetaOk(m: Meta, d: Disk)
    requires Inv(m, d)
    ensures MetaOk(m, |d|)
  {
  }

  /** A copy succeeds exactly when all it looks for is there, and otherwise fails for the first
      thing that is missing; up to the data it then has not changed the image. */
  lemma CopyOutcomeIff(m: Meta, d: Disk, data: seq<byte>, dest: Path)
    requires Inv(m, d) && |data| < MAX_DATA && Addressable(m)
    ensures var r, v := Copy(m, d, data, dest), Verdict(Finds(m, d, data, dest));
      && (r.Copied? <==> v == None)
      && (r.Failed? ==> v == Some(r.why))
      && (r.Failed? && r.why !in {DirectoryOutOfExtents, NoSpaceForDirectory} ==> r.d == d)
  {
    hide Inv, UsedInode, ReadInode, BlocksNeeded, AllocInode, AllocExtents, StoreFile, AddDirent, ResolvePath, DirLookup, HasSlotIn, HasSpace,
      BlockFree, BlockList, MetaOk;
    var p, base, n := PathInode(m, d, Parent(dest)), Base(dest), BlocksNeeded(|data|);
    InvMetaOk(m, d);
    InodeFreeIff(m, |d|);
    CopyLacksSpaceIff(m, d, data, dest);
    PathInUse(m, d, Parent(dest));
    if base != [] && p != 0 && DirLookup(d, Ino(m, d, p), base) == 0 && AllocInode(m).Some? {
      var gi := AllocInode(m).value;
      TakenAddressable(m);
      if AllocExtents(gi.m, n, 0, []).Some? {
        var ge := AllocExtents(gi.m, n, 0, []).value;
        InsertStage(m, d, data, p, base);
        AddDirentIff(ge.m, StoreFile(m, d, gi.value, ge.value, data), p, gi.value, base, TYPE_FILE);
      }
    }
  }

  /** The two failures after the data was written leave the file behind, on blocks and in an inode
      that stay marked free. */
  lemma LateFailureWrites(m: Meta, d: Disk, data: seq<byte>, dest: Path) returns (n: nat)
    requires Inv(m, d) && |data| < MAX_DATA && Addressable(m) && Copy(m, d, data, dest).Failed?
    requires Copy(m, d, data, dest).why in {DirectoryOutOfExtents, NoSpaceForDirectory}
    ensures var d1 := Copy(m, d, data, dest).d;
      && 2 <= n < 1024 && !UsedInode(m, n) && (forall i :: 2 <= i < n ==> UsedInode(m, i))
      && Ino(m, d1, n).kind == TYPE_FILE && Ino(m, d1, n).size == |data|
      && FileData(m, d1, n) == data[..Min(|data|, BLOCK * BlocksNeeded(|data|))]
  {
    hide Inv, UsedInode, ReadInode, BlocksNeeded, AllocInode, AllocExtents, StoreFile, AddDirent, ResolvePath, DirLookup, Agree, NamesUnique,
      Contents, FileInode, SameBelow, ZeroPast, BlockList, MetaOk;
    InvMetaOk(m, d);
    var gi := AllocInode(m).value;
    n := gi.value;
    AllocInodeTakes(m, |d|);
    LowestInode(m, |d|);
    TakenAddressable(m);
    var ge := AllocExtents(gi.m, BlocksNeeded(|data|), 0, []).value;
    FileStageStores(m, d, data);
    FileInodeBlocks(|data|, ge.value);
  }

  lemma LowestInode(m: Meta, n: nat)
    requires MetaOk(m, n) && AllocInode(m).Some?
    ensures forall i :: 2 <= i < AllocInode(m).value.value ==> UsedInode(m, i)
    ensures AllocInode(m).value.value < 1024
  {
    hide Bit, CountClear, SbFits, TailZero, AllocInode;
    AllocInodeIff(m);
  }

  // ---- the run ----

  /** The same for a whole run on a consistent image. */
  lemma RunOutcomeIff(d: Disk, data: seq<byte>, dest: Path)
    requires Image(d) && |data| < MAX_DATA
    ensures Addressable(Load(d))
    ensures var r, v := CopyRun(d, data, dest), Verdict(Finds(Load(d), d, data, dest));
      && (r.Ran? <==> v == None) && (r.Aborted? ==> v == Some(r.why)) && !r.NotTotfs?
  {
    hide Load, Inv, Copy, Flush, Finds, Verdict;
    ImageAddressable(d);
    CopyOutcomeIff(Load(d), d, data, dest);
  }

  /** A disk without the magic number is left alone. */
  lemma NotTotfsIff(d: Disk, data: seq<byte>, dest: Path)
    requires Addressable(Load(d))
    ensures CopyRun(d, data, dest).NotTotfs? <==> Load(d).sb.magic != 0x544F5446
    ensures CopyRun(d, data, dest).NotTotfs? ==> CopyRun(d, data, dest).d == d
  {
    hide Load, Copy, Flush;
  }
}
