/** The first half of a copy: an inode and data blocks are taken, the data and the inode are
    written. Afterwards the invariant holds for the larger allocation state, and everything
    that was in use reads as before. */
module FileStage {
  import opened Bytes
  import opened Bitmap
  import opened Volume
  import opened Metadata
  import opened Dirent
  import opened Extents
  import opened Alloc
  import opened CopySpec
  import opened Invariant

  // ---- allocation keeps the metadata consistent ----

  /** m' has one more inode than m, namely n, and nothing else changed. */
  ghost predicate TakesInode(m: Meta, m': Meta, n: nat) {
    && 2 <= n < MAX_INODES && !UsedInode(m, n)
    && m'.bbmp == m.bbmp
    && m'.sb == m.sb.(freeInodes := m'.sb.freeInodes)
    && forall j :: UsedInode(m', j) <==> j == n || UsedInode(m, j)
  }

  lemma AllocInodeTakes(m: Meta, n: nat)
    requires MetaOk(m, n) && AllocInode(m).Some?
    ensures var g := AllocInode(m).value; TakesInode(m, g.m, g.value) && MetaOk(g.m, n)
  {
    hide Bit, SetBit, CountClear, SbFits, TailZero;
    var g := AllocInode(m).value;
    forall j | 0 <= j < MAX_INODES ensures Bit(g.m.ibmp, j) == (j == g.value || Bit(m.ibmp, j)) {
      BitSetBit(m.ibmp, g.value, j);
    }
    CountSetBit(m.ibmp, g.value, MAX_INODES);
    SbFitsCounters(m.sb, m.sb.freeBlocks, g.m.sb.freeInodes);
    assert g.m.sb == m.sb.(freeBlocks := m.sb.freeBlocks, freeInodes := g.m.sb.freeInodes);
    TailKept(m, g.m);
  }

  lemma TailKept(m: Meta, m': Meta)
    requires m'.sb.blockBitmapBlocks == m.sb.blockBitmapBlocks && TailZero(m)
    requires forall k :: MapBlocks(m.sb) * BLOCK <= k < BMP_MAXBLK * BLOCK ==> m'.bbmp[k] == m.bbmp[k]
    ensures TailZero(m')
  {
  }

  lemma ClaimsMetaOk(m: Meta, m': Meta, bs: seq<nat>, n: nat)
    requires MetaOk(m, n) && Claims(m, m', bs)
    ensures MetaOk(m', n)
    ensures forall i :: UsedInode(m', i) == UsedInode(m, i)
    ensures forall b :: Owned(m, b) ==> Owned(m', b)
    ensures forall k :: 0 <= k < |bs| ==> Owned(m', bs[k]) && !Owned(m, bs[k])
  {
    hide Bit, CountClear, SbFits, TailZero;
    SbFitsCounters(m.sb, m'.sb.freeBlocks, m.sb.freeInodes);
    assert m'.sb == m.sb.(freeBlocks := m'.sb.freeBlocks, freeInodes := m.sb.freeInodes);
    TailKept(m, m');
  }

  // ---- the new inode ----

  lemma LiveFileInode(size: nat, es: seq<Extent>)
    requires |es| <= NUM_EXTENTS
    ensures Live(FileInode(size, es)) == es
  {
  }

  lemma FileInodeFits(size: nat, es: seq<Extent>, hi: nat)
    requires |es| <= NUM_EXTENTS && Consecutive(es) && size < 0x8000_0000_0000_0000
    requires |Flat(es)| == BlocksNeeded(size) && hi < 0x1_0000_0000
    requires forall k :: 0 <= k < |Flat(es)| ==> Flat(es)[k] < hi
    ensures InodeFits(FileInode(size, es))
  {
    hide Flat, InodeFits;
    var ino := FileInode(size, es);
    forall k | 0 <= k < NUM_EXTENTS ensures ExtentInRange(ino.extents[k]) {
      if k < |es| {
        FlatAt(es, k, 0);
        FlatTake(es, k);
        FlatPrefix(es, k + 1);
      }
    }
    assert 1 <= Pow256(32);
    InRangeFits(ino);
  }

  // ---- nothing in use is touched ----

  /** The inode table lies below the data region. */
  lemma TableBelowData(m: Meta, n: nat, i: nat)
    requires MetaOk(m, n) && i < MAX_INODES
    ensures m.sb.inodeTableStart + i / PER_BLOCK < m.sb.dataStart <= n
  {
    hide Bit, CountClear, SbFits, TailZero;
  }

  /** A write to blocks that are free, followed by a write of a free inode slot, is
      invisible to everything in use. */
  lemma FreeWritesAgree(m: Meta, d: Disk, d1: Disk, n: nat, ino: Inode, bs: seq<nat>)
    requires Inv(m, d) && n < MAX_INODES && !UsedInode(m, n) && |d1| == |d|
    requires forall k :: 0 <= k < |bs| ==> m.sb.dataStart <= bs[k] && !Owned(m, bs[k])
    requires forall b :: b !in bs ==> At(d1, b) == At(d, b)
    ensures Agree(m, d, WriteInode(d1, m.sb.inodeTableStart, n, ino))
  {
    hide DecodeInode, EncodeInode, BlockList, Bit, MetaOk, NoSharing, DirsOk, At, Splice, Consecutive;
    var table := m.sb.inodeTableStart;
    var d2 := WriteInode(d1, table, n, ino);
    LayoutAddressable(m, |d|);
    forall i: nat | UsedInode(m, i) ensures Ino(m, d2, i) == Ino(m, d, i) {
      TableBelowData(m, |d|, i);
      assert table + i / PER_BLOCK !in bs;
      ReadOther(d1, table, n, ino, i);
    }
    forall i | UsedInode(m, i) ensures SameOn(d, d2, BlocksOf(m, d, i)) {
      hide ReadInode;
      var own := BlocksOf(m, d, i);
      assert InodeOk(m, Ino(m, d, i));
      forall k | 0 <= k < |own| ensures At(d2, own[k]) == At(d, own[k]) {
        assert Owned(m, own[k]);
        TableBelowData(m, |d|, n);
        WriteInodeOther(d1, table, n, ino, own[k]);
      }
    }
  }

  lemma WriteInodeOther(d: Disk, table: nat, n: nat, ino: Inode, b: nat)
    requires b != table + n / PER_BLOCK
    ensures At(WriteInode(d, table, n, ino), b) == At(d, b)
  {
    hide EncodeInode;
  }

  // ---- the invariant for the larger state ----

  /** m' uses everything m uses. */
  ghost predicate Extends(m: Meta, m': Meta)
    requires Addressable(m) && Addressable(m')
  {
    && m'.sb.inodeTableStart == m.sb.inodeTableStart
    && m'.sb.dataStart == m.sb.dataStart && m'.sb.totalBlocks == m.sb.totalBlocks
    && (forall i :: UsedInode(m, i) ==> UsedInode(m', i))
    && (forall b :: Owned(m, b) ==> Owned(m', b))
  }

  lemma InodeOkExtends(m: Meta, m': Meta, ino: Inode)
    requires Addressable(m) && Addressable(m') && Extends(m, m') && InodeOk(m, ino)
    ensures InodeOk(m', ino)
  {
    hide Consecutive, Live, BlockList, Bit;
  }

  lemma DirOkExtends(m: Meta, m': Meta, d: Disk, bs: seq<nat>)
    requires Addressable(m) && Addressable(m') && Extends(m, m') && DirOk(m, d, bs)
    ensures DirOk(m', d, bs)
  {
    hide Entries, AllTiled;
  }

  /** Adding one inode whose blocks nobody else owns. */
  lemma AddInode(m: Meta, m': Meta, d: Disk, n: nat)
    requires Inv(m, d) && MetaOk(m', |d|) && Extends(m, m')
    requires n < MAX_INODES && !UsedInode(m, n)
    requires forall i :: UsedInode(m', i) <==> i == n || UsedInode(m, i)
    requires InodeOk(m', Ino(m', d, n)) && Ino(m', d, n).kind == TYPE_FILE
    requires forall k :: 0 <= k < |BlocksOf(m', d, n)| ==> !Owned(m, BlocksOf(m', d, n)[k])
    ensures Inv(m', d)
    ensures NamesUnique(m, d) ==> NamesUnique(m', d)
  {
    hide ReadInode, BlockList, Consecutive, Live, Bit, MetaOk, DirOk, Entries, Unique;
    LayoutAddressable(m, |d|);
    LayoutAddressable(m', |d|);
    RootUsed(m, |d|);
    forall i | UsedInode(m, i)
      ensures InodeOk(m', Ino(m', d, i))
      ensures Ino(m', d, i).kind == TYPE_DIR ==> DirOk(m', d, BlocksOf(m', d, i))
    {
      InodeOkExtends(m, m', Ino(m, d, i));
      if Ino(m, d, i).kind == TYPE_DIR { DirOkExtends(m, m', d, BlocksOf(m, d, i)); }
    }
    forall i | UsedInode(m, i)
      ensures Disjoint(BlocksOf(m', d, i), BlocksOf(m', d, n)) && Disjoint(BlocksOf(m', d, n), BlocksOf(m', d, i))
    {
      assert InodeOk(m, Ino(m, d, i));
      var a, b := BlocksOf(m, d, i), BlocksOf(m', d, n);
      assert forall k :: 0 <= k < |a| ==> Owned(m, a[k]);
    }
  }

  /** The superblock and the bitmaps on disk are untouched. */
  ghost predicate SameBelow(d: Disk, d': Disk, hi: nat) {
    forall b :: 0 <= b < hi ==> At(d', b) == At(d, b)
  }

  /** The part of the data that the file's blocks reach. */
  function Covered(data: seq<byte>): seq<byte> {
    data[..Min(|data|, BLOCK * BlocksNeeded(|data|))]
  }

  /** What the file stage achieves: n and the blocks of es are new, the file is stored on
      them, and everything in use before reads the same. */
  ghost predicate FileStored(m: Meta, d: Disk, m': Meta, d': Disk, n: nat, es: seq<Extent>, data: seq<byte>)
    requires |es| <= NUM_EXTENTS
  {
    && Inv(m', d') && Agree(m, d, d')
    && (NamesUnique(m, d) ==> NamesUnique(m', d'))
    && m'.sb.inodeTableStart == m.sb.inodeTableStart
    && SameBelow(d, d', m.sb.inodeTableStart)
    && 2 <= n < MAX_INODES && !UsedInode(m, n)
    && (forall i :: UsedInode(m', i) <==> i == n || UsedInode(m, i))
    && Ino(m', d', n) == FileInode(|data|, es)
    && Contents(d', Flat(es), |data|) == Covered(data)
    && ZeroPast(d', Flat(es), |data|)
  }

  lemma StoredContents(d: Disk, table: nat, n: nat, es: seq<Extent>, data: seq<byte>, lo: nat)
    requires |es| <= NUM_EXTENTS && NoDup(Flat(es)) && table + n / PER_BLOCK < lo
    requires forall k :: 0 <= k < |Flat(es)| ==> lo <= Flat(es)[k] < |d|
    ensures var d1 := WriteData(d, Flat(es), data);
      var d2 := WriteInode(d1, table, n, FileInode(|data|, es));
      && Contents(d2, Flat(es), |data|) == data[..Min(|data|, BLOCK * |Flat(es)|)]
      && ZeroPast(d2, Flat(es), |data|)
  {
    hide Flat, WriteInode, FileInode, ZeroPast;
    var d1 := WriteData(d, Flat(es), data);
    var d2 := WriteInode(d1, table, n, FileInode(|data|, es));
    forall k | 0 <= k < |Flat(es)| ensures At(d2, Flat(es)[k]) == At(d1, Flat(es)[k]) {
      WriteInodeOther(d1, table, n, FileInode(|data|, es), Flat(es)[k]);
    }
    GatherFrame(d1, d2, Flat(es));
    GatherWritten(d, Flat(es), data);
    WrittenZeroPast(d, Flat(es), data);
    ZeroPastFrame(d1, d2, Flat(es), |data|);
  }

  lemma FileInodeOk(m: Meta, size: nat, es: seq<Extent>)
    requires Addressable(m) && |es| <= NUM_EXTENTS && Consecutive(es)
    requires |Flat(es)| == BlocksNeeded(size) && BlocksOk(m, Flat(es))
    ensures InodeOk(m, FileInode(size, es)) && BlockList(FileInode(size, es)) == Flat(es)
    ensures FileInode(size, es).kind == TYPE_FILE && FileInode(size, es).size == size
  {
    hide Flat, Consecutive, BlocksOk, PadExtents;
    LiveFileInode(size, es);
  }

  lemma FileStageStores(m: Meta, d: Disk, data: seq<byte>)
    requires Inv(m, d) && |data| < 0x8000_0000_0000_0000
    requires Addressable(m) && AllocInode(m).Some?
    requires AllocExtents(AllocInode(m).value.m, BlocksNeeded(|data|), 0, []).Some?
    ensures var gi := AllocInode(m).value;
      var ge := AllocExtents(gi.m, BlocksNeeded(|data|), 0, []).value;
      |ge.value| <= NUM_EXTENTS
      && FileStored(m, d, ge.m, StoreFile(m, d, gi.value, ge.value, data), gi.value, ge.value, data)
  {
    hide AllocInode, AllocExtents, Flat, Consecutive, MetaOk, Bit, ReadInode, WriteInode, BlocksNeeded,
      InodesOk, DirsOk, NoSharing, Live, NamesUnique, WriteData, Contents, BlockList, FileInode, ZeroPast;
    var gi := AllocInode(m).value;
    var n := gi.value;
    AllocInodeTakes(m, |d|);
    LayoutAddressable(gi.m, |d|);
    DataRegion(m, |d|);
    EmptyExtents();
    var bs := AllocExtentsClaims(gi.m, BlocksNeeded(|data|), 0, []);
    var ge := AllocExtents(gi.m, BlocksNeeded(|data|), 0, []).value;
    var es, m2, table := ge.value, ge.m, m.sb.inodeTableStart;
    assert Flat(es) == bs;
    ClaimsMetaOk(gi.m, m2, bs, |d|);
    LayoutAddressable(m2, |d|);
    FileInodeFits(|data|, es, m.sb.totalBlocks);
    var d1 := WriteData(d, bs, data);
    var d2 := StoreFile(m, d, n, es, data);
    forall b | b !in bs ensures At(d1, b) == At(d, b) { WriteDataOther(d, bs, data, b); }
    FreeWritesAgree(m, d, d1, n, FileInode(|data|, es), bs);
    InvFrame(m, d, d2);
    TableBelowData(m, |d|, n);
    ReadWritten(d1, table, n, FileInode(|data|, es));
    FileInodeOk(m2, |data|, es);
    AddInode(m, m2, d2, n);
    StoredContents(d, table, n, es, data, m.sb.dataStart);
    forall b | 0 <= b < table ensures At(d2, b) == At(d, b) {
      WriteInodeOther(d1, table, n, FileInode(|data|, es), b);
    }
  }

  lemma EmptyExtents()
    ensures Consecutive([]) && Flat([]) == []
  {
  }

  lemma DataRegion(m: Meta, n: nat)
    requires MetaOk(m, n)
    ensures m.sb.dataStart <= m.sb.totalBlocks <= n && m.sb.totalBlocks <= BMP_MAXBLK * BITS_PER_BLOCK
  {
  }
}
