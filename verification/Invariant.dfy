/** The invariant of a ToTFS image and its frame rule. */
module Invariant {
  import opened Bitmap
  import opened Volume
  import opened Metadata
  import opened Dirent
  import opened Extents
  import opened Alloc
  import opened CopySpec

  ghost predicate UsedInode(m: Meta, i: nat) {
    i < MAX_INODES && Bit(m.ibmp, i)
  }

  function Ino(m: Meta, d: Disk, i: nat): Inode {
    ReadInode(d, m.sb.inodeTableStart, i)
  }

  function BlocksOf(m: Meta, d: Disk, i: nat): seq<nat> {
    BlockList(Ino(m, d, i))
  }

  /** A data block marked used. */
  ghost predicate Owned(m: Meta, b: nat)
    requires Addressable(m)
  {
    m.sb.dataStart <= b < m.sb.totalBlocks && Bit(m.bbmp, b)
  }

  /** Distinct data blocks, all marked used. */
  ghost predicate BlocksOk(m: Meta, bs: seq<nat>)
    requires Addressable(m)
  {
    NoDup(bs) && forall k :: 0 <= k < |bs| ==> Owned(m, bs[k])
  }

  /** The extents of an inode are consecutive, cover exactly what its size asks for, and
      name distinct data blocks that are marked used. */
  ghost predicate InodeOk(m: Meta, ino: Inode)
    requires Addressable(m)
  {
    && ino.extentCount <= NUM_EXTENTS
    && Consecutive(Live(ino))
    && BlocksOk(m, BlockList(ino))
    && ino.blocksUsed == |BlockList(ino)|
    && (ino.kind == TYPE_FILE ==> ino.blocksUsed == BlocksNeeded(ino.size))
    && (ino.kind == TYPE_DIR ==> ino.size == BLOCK * ino.blocksUsed)
  }

  /** An entry names an inode in use and gives its type. */
  ghost predicate EntryOk(m: Meta, d: Disk, e: Entry) {
    UsedInode(m, e.ino) && e.kind == Ino(m, d, e.ino).kind
  }

  /** Every block of a directory is tiled by its records and every entry is in order. */
  ghost predicate DirOk(m: Meta, d: Disk, bs: seq<nat>) {
    && AllTiled(d, bs)
    && forall k :: 0 <= k < |Entries(d, bs)| ==> EntryOk(m, d, Entries(d, bs)[k])
  }

  ghost predicate MetaOk(m: Meta, n: nat) {
    && Layout(m.sb, n) && SbFits(m.sb) && TailZero(m)
    && m.sb.freeBlocks == CountClear(m.bbmp, m.sb.totalBlocks)
    && m.sb.freeInodes == CountClear(m.ibmp, MAX_INODES)
    && (forall b :: 0 <= b < m.sb.dataStart ==> Bit(m.bbmp, b))
    && UsedInode(m, 0) && UsedInode(m, ROOT)
  }

  ghost predicate InodesOk(m: Meta, d: Disk)
    requires Addressable(m)
  {
    forall i :: UsedInode(m, i) ==> InodeOk(m, Ino(m, d, i))
  }

  /** No block belongs to two inodes. */
  ghost predicate NoSharing(m: Meta, d: Disk) {
    forall i, j :: UsedInode(m, i) && UsedInode(m, j) && i != j ==> Disjoint(BlocksOf(m, d, i), BlocksOf(m, d, j))
  }

  ghost predicate DirsOk(m: Meta, d: Disk) {
    forall i :: UsedInode(m, i) && Ino(m, d, i).kind == TYPE_DIR ==> DirOk(m, d, BlocksOf(m, d, i))
  }

  ghost predicate Inv(m: Meta, d: Disk) {
    && MetaOk(m, |d|)
    && InodesOk(m, d)
    && NoSharing(m, d)
    && DirsOk(m, d)
    && Ino(m, d, ROOT).kind == TYPE_DIR
  }

  /** No directory holds two names that are equal ignoring case. */
  ghost predicate NamesUnique(m: Meta, d: Disk) {
    forall i :: UsedInode(m, i) && Ino(m, d, i).kind == TYPE_DIR ==> Unique(Entries(d, BlocksOf(m, d, i)))
  }

  /** What a disk says to a later run: metadata blocks hold m, and the invariant holds. */
  ghost predicate Image(d: Disk) {
    Inv(Load(d), d)
  }

  // ---- frame ----

  /** Everything in use according to m reads the same on both disks. */
  ghost predicate Agree(m: Meta, d: Disk, d': Disk) {
    && |d'| == |d|
    && (forall i :: UsedInode(m, i) ==> Ino(m, d', i) == Ino(m, d, i))
    && (forall i :: UsedInode(m, i) ==> SameOn(d, d', BlocksOf(m, d, i)))
  }

  lemma AgreeDir(m: Meta, d: Disk, d': Disk, i: nat)
    requires Agree(m, d, d') && UsedInode(m, i)
    ensures BlocksOf(m, d', i) == BlocksOf(m, d, i)
    ensures Entries(d', BlocksOf(m, d, i)) == Entries(d, BlocksOf(m, d, i))
    ensures Gather(d', BlocksOf(m, d, i)) == Gather(d, BlocksOf(m, d, i))
    ensures AllTiled(d, BlocksOf(m, d, i)) ==> AllTiled(d', BlocksOf(m, d, i))
  {
    hide ReadInode, BlockList, Entries, Gather, Tiled, At;
    EntriesFrame(d, d', BlocksOf(m, d, i));
    GatherFrame(d, d', BlocksOf(m, d, i));
  }

  lemma InvFrame(m: Meta, d: Disk, d': Disk)
    requires Inv(m, d) && Agree(m, d, d')
    ensures Inv(m, d')
    ensures NamesUnique(m, d) ==> NamesUnique(m, d')
  {
    hide ReadInode, BlockList, Entries, Gather, Tiled, At, InodeOk, Disjoint, Unique, MetaOk, Bit, AllTiled;
    assert m.sb.totalBlocks <= BMP_MAXBLK * BITS_PER_BLOCK by { LayoutAddressable(m, |d|); }
    assert UsedInode(m, ROOT) by { RootUsed(m, |d|); }
    forall i | UsedInode(m, i)
      ensures BlocksOf(m, d', i) == BlocksOf(m, d, i)
      ensures Ino(m, d', i).kind == TYPE_DIR ==> DirOk(m, d', BlocksOf(m, d', i))
      ensures NamesUnique(m, d) && Ino(m, d', i).kind == TYPE_DIR ==> Unique(Entries(d', BlocksOf(m, d', i)))
    {
      AgreeDir(m, d, d', i);
    }
  }

  lemma LayoutAddressable(m: Meta, n: nat)
    requires MetaOk(m, n)
    ensures Addressable(m)
  {
  }

  lemma RootUsed(m: Meta, n: nat)
    requires MetaOk(m, n)
    ensures UsedInode(m, ROOT) && UsedInode(m, 0)
  {
  }
}
