/** Block-level access of tools/totcopy.c: the inode table, and loading and flushing the
    superblock and the two bitmaps. */
module Metadata {
  import opened Bytes
  import opened Volume

  // ---- blocks ----

  /** A block of the image; past its end there is nothing to read. */
  function At(d: Disk, b: nat): Block {
    if b < |d| then d[b] else Zeros(BLOCK)
  }

  /** Writing a block; the image is never extended. */
  function SetAt(d: Disk, b: nat, block: Block): (r: Disk)
    ensures |r| == |d|
  {
    if b < |d| then d[b := block] else d
  }

  // ---- inode table ----

  function ReadInode(d: Disk, table: nat, i: nat): Inode {
    var off := (i % PER_BLOCK) * INODE_SIZE;
    DecodeInode(At(d, table + i / PER_BLOCK)[off..off + INODE_SIZE])
  }

  function WriteInode(d: Disk, table: nat, i: nat, ino: Inode): (r: Disk)
    ensures |r| == |d|
  {
    var b := table + i / PER_BLOCK;
    SetAt(d, b, Splice(At(d, b), (i % PER_BLOCK) * INODE_SIZE, EncodeInode(ino)))
  }

  lemma ReadWritten(d: Disk, table: nat, i: nat, ino: Inode)
    requires table + i / PER_BLOCK < |d| && InodeFits(ino)
    ensures ReadInode(WriteInode(d, table, i, ino), table, i) == ino
  {
    hide DecodeInode, EncodeInode;
    DecodeEncodeInode(ino);
  }

  lemma ReadOther(d: Disk, table: nat, i: nat, ino: Inode, j: nat)
    requires i != j
    ensures ReadInode(WriteInode(d, table, i, ino), table, j) == ReadInode(d, table, j)
  {
    hide DecodeInode, EncodeInode;
    var b, c := i / PER_BLOCK, j / PER_BLOCK;
    if b == c && table + b < |d| {
      var oi, oj := (i % PER_BLOCK) * INODE_SIZE, (j % PER_BLOCK) * INODE_SIZE;
      assert oi + INODE_SIZE <= oj || oj + INODE_SIZE <= oi;
      var old_, new_ := d[table + b], WriteInode(d, table, i, ino)[table + b];
      assert new_[oj..oj + INODE_SIZE] == old_[oj..oj + INODE_SIZE];
    }
  }

  lemma ReadFits(d: Disk, table: nat, i: nat)
    ensures InodeFits(ReadInode(d, table, i))
  {
    var off := (i % PER_BLOCK) * INODE_SIZE;
    DecodedInodeFits(At(d, table + i / PER_BLOCK)[off..off + INODE_SIZE]);
  }

  // ---- cached metadata ----

  datatype Meta = Meta(sb: Superblock, ibmp: Block, bbmp: BlockMap)

  function MapBlocks(sb: Superblock): (n: nat)
    ensures n <= BMP_MAXBLK
  {
    if sb.blockBitmapBlocks == 0 then 1 else Min(sb.blockBitmapBlocks % 0x1_0000_0000, BMP_MAXBLK)
  }

  /** How many bitmap blocks are loaded and flushed: the superblock's number in 32 bits, but one
      for zero and at most 64. */
  lemma MapBlocksCases(sb: Superblock)
    ensures sb.blockBitmapBlocks == 0 ==> MapBlocks(sb) == 1
    ensures 1 <= sb.blockBitmapBlocks <= 64 ==> MapBlocks(sb) == sb.blockBitmapBlocks
    ensures 64 <= sb.blockBitmapBlocks < 0x1_0000_0000 ==> MapBlocks(sb) == 64
    ensures sb.blockBitmapBlocks == 0x1_0000_0000 ==> MapBlocks(sb) == 0
  {
  }

  function LoadSb(d: Disk): Superblock {
    DecodeSb(At(d, 0)[..INODE_SIZE])
  }

  function LoadMap(d: Disk, start: nat, n: nat): BlockMap {
    seq(BMP_MAXBLK * BLOCK, k requires 0 <= k < BMP_MAXBLK * BLOCK =>
      if k / BLOCK < n then At(d, start + k / BLOCK)[k % BLOCK] else 0)
  }

  function Load(d: Disk): Meta {
    var sb := LoadSb(d);
    Meta(sb, At(d, sb.inodeBitmapStart), LoadMap(d, sb.blockBitmapStart, MapBlocks(sb)))
  }

  /** Block i of the cached block bitmap. */
  function MapSlice(bmp: BlockMap, i: nat): Block
    requires i < BMP_MAXBLK
  {
    bmp[i * BLOCK..(i + 1) * BLOCK]
  }

  function FlushMap(d: Disk, bmp: BlockMap, start: nat, n: nat): (r: Disk)
    requires n <= BMP_MAXBLK
    ensures |r| == |d|
    ensures forall b :: 0 <= b < |d| ==>
      r[b] == if start <= b < start + n then MapSlice(bmp, b - start) else d[b]
  {
    if n == 0 then d else SetAt(FlushMap(d, bmp, start, n - 1), start + n - 1, MapSlice(bmp, n - 1))
  }

  function Flush(m: Meta, d: Disk): (r: Disk)
    ensures |r| == |d|
  {
    var d1 := SetAt(d, m.sb.inodeBitmapStart, m.ibmp);
    SetAt(FlushMap(d1, m.bbmp, m.sb.blockBitmapStart, MapBlocks(m.sb)), 0,
          Splice(Zeros(BLOCK), 0, EncodeSb(m.sb)))
  }

  // ---- layout ----

  /** The regions in the order mktotfs lays them out, for a disk of n blocks. */
  ghost predicate Layout(sb: Superblock, n: nat) {
    && sb.magic == MAGIC
    && sb.inodeBitmapStart == INODE_BITMAP_BLK
    && sb.blockBitmapStart == BLOCK_BITMAP_BLK
    && 1 <= sb.blockBitmapBlocks <= BMP_MAXBLK
    && sb.inodeTableStart == BLOCK_BITMAP_BLK + sb.blockBitmapBlocks
    && sb.inodeTableBlocks == INODE_TABLE_BLKS
    && sb.dataStart == sb.inodeTableStart + INODE_TABLE_BLKS
    && sb.totalInodes == MAX_INODES
    && sb.dataStart <= sb.totalBlocks <= n
    && sb.totalBlocks <= sb.blockBitmapBlocks * BITS_PER_BLOCK
  }

  /** Bytes of the cache past the on-disk bitmap stay zero. */
  ghost predicate TailZero(m: Meta) {
    forall k :: MapBlocks(m.sb) * BLOCK <= k < BMP_MAXBLK * BLOCK ==> m.bbmp[k] == 0
  }

  lemma LoadFlushedMap(d: Disk, m: Meta, r: Disk)
    requires Layout(m.sb, |d|) && TailZero(m) && |r| == |d|
    requires forall k :: 0 <= k < m.sb.blockBitmapBlocks ==> r[BLOCK_BITMAP_BLK + k] == MapSlice(m.bbmp, k)
    ensures LoadMap(r, BLOCK_BITMAP_BLK, MapBlocks(m.sb)) == m.bbmp
  {
    var back := LoadMap(r, BLOCK_BITMAP_BLK, MapBlocks(m.sb));
    forall k | 0 <= k < BMP_MAXBLK * BLOCK ensures back[k] == m.bbmp[k] {
      var q := k / BLOCK;
      if q < MapBlocks(m.sb) {
        assert r[BLOCK_BITMAP_BLK + q] == MapSlice(m.bbmp, q);
        assert k == q * BLOCK + k % BLOCK;
      }
    }
  }

  lemma FlushBlocks(m: Meta, d: Disk)
    requires Layout(m.sb, |d|)
    ensures Flush(m, d)[0] == Splice(Zeros(BLOCK), 0, EncodeSb(m.sb))
    ensures Flush(m, d)[INODE_BITMAP_BLK] == m.ibmp
    ensures forall k :: 0 <= k < m.sb.blockBitmapBlocks ==>
      Flush(m, d)[BLOCK_BITMAP_BLK + k] == MapSlice(m.bbmp, k)
    ensures forall b :: m.sb.inodeTableStart <= b < |d| ==> Flush(m, d)[b] == d[b]
  {
    hide EncodeSb, MapSlice;
  }

  lemma LoadStoredSb(sb: Superblock, r: Disk)
    requires |r| > 0 && SbFits(sb) && r[0] == Splice(Zeros(BLOCK), 0, EncodeSb(sb))
    ensures LoadSb(r) == sb
  {
    assert r[0][..INODE_SIZE] == EncodeSb(sb);
    DecodeEncodeSb(sb);
  }

  /** Flushing and loading again restores the superblock and both bitmaps exactly, and
      neither touches the inode table or the data region. */
  lemma LoadFlush(m: Meta, d: Disk)
    requires Layout(m.sb, |d|) && SbFits(m.sb) && TailZero(m)
    ensures Load(Flush(m, d)) == m
    ensures forall b :: m.sb.inodeTableStart <= b < |d| ==> Flush(m, d)[b] == d[b]
  {
    var r := Flush(m, d);
    FlushBlocks(m, d);
    LoadStoredSb(m.sb, r);
    LoadFlushedMap(d, m, r);
  }
}
