/** tools/mktotfs.c: the initial image. */
module Mkfs {
  import opened Bytes
  import opened Bitmap
  import opened Volume
  import opened Metadata
  import opened Dirent
  import opened OnDisk
  import opened Extents
  import opened Alloc
  import opened CopySpec
  import opened Invariant
  import opened Runs

  // ---- layout arithmetic ----

  /** A volume: its number of blocks and of block-bitmap blocks. */
  datatype Shape = Shape(total: nat, maps: nat)

  function ShapeOf(partSize: nat): Shape {
    var total := partSize / BLOCK;
    var n := (total + BITS_PER_BLOCK - 1) / BITS_PER_BLOCK % 0x1_0000_0000;
    Shape(total, if n < 1 then 1 else n)
  }

  /** Block number of the inode table, in 32 bits. */
  function TableStart(s: Shape): (n: nat)
    ensures s.maps < BITS_PER_BLOCK ==> n == BLOCK_BITMAP_BLK + s.maps
  {
    (BLOCK_BITMAP_BLK + s.maps) % 0x1_0000_0000
  }

  /** Block number of the first data block, in 32 bits. */
  function DataStart(s: Shape): (n: nat)
    ensures s.maps < BITS_PER_BLOCK ==> n == BLOCK_BITMAP_BLK + s.maps + INODE_TABLE_BLKS
  {
    (TableStart(s) + INODE_TABLE_BLKS) % 0x1_0000_0000
  }

  predicate Accepted(partSize: nat) {
    partSize >= BLOCK * (DATA_START_BLK + 2)
  }

  /** The metadata ends inside the volume and inside the first bitmap block. */
  predicate Sized(s: Shape) {
    && 1 <= s.maps && s.total <= s.maps * BITS_PER_BLOCK
    && BLOCK_BITMAP_BLK + s.maps + INODE_TABLE_BLKS < Min(s.total, BITS_PER_BLOCK)
  }

  // "TaterTOS64v3"
  const LABEL: seq<byte> := [84, 97, 116, 101, 114, 84, 79, 83, 54, 52, 118, 51]

  function NewSb(s: Shape): Superblock
    requires Sized(s)
  {
    Superblock(MAGIC, VERSION, BLOCK, 12, s.total, MAX_INODES,
               s.total - (DataStart(s) + 1), MAX_INODES - 2,
               INODE_BITMAP_BLK, 1, BLOCK_BITMAP_BLK, s.maps,
               TableStart(s), INODE_TABLE_BLKS, DataStart(s),
               ROOT, INODE_SIZE, FromLE(LABEL), 0)
  }

  function RootInode(dataStart: nat): Inode {
    Inode(TYPE_DIR, 493, 2, BLOCK, 1, 0, 0, 0, 0, 1, 0, 0, PadExtents([Extent(dataStart, 1, 0)]), 0)
  }

  const DOT: seq<byte> := [46]
  const DOTDOT: seq<byte> := [46, 46]

  function RootBlock(): Block {
    PutRecord(PutRecord(Zeros(BLOCK), 0, ROOT, 12, DOT, TYPE_DIR), 12, ROOT, BLOCK - 12, DOTDOT, TYPE_DIR)
  }

  function ZeroBlocks(d: Disk, start: nat, n: nat): (r: Disk)
    ensures |r| == |d|
    ensures forall b :: 0 <= b < |d| ==> r[b] == if start <= b < start + n then Zeros(BLOCK) else d[b]
  {
    if n == 0 then d else SetAt(ZeroBlocks(d, start, n - 1), start + n - 1, Zeros(BLOCK))
  }

  function SbBlock(sb: Superblock): Block {
    Splice(Zeros(BLOCK), 0, EncodeSb(sb))
  }

  function RootTable(root: Inode): Block {
    Splice(Zeros(BLOCK), INODE_SIZE, EncodeInode(root))
  }

  /** Inodes 0 and 1 are taken. */
  function NewInodeMap(): Block {
    SetBit(SetBit(Zeros(BLOCK), 0), 1)
  }

  /** Blocks 0 to `last` are taken. */
  function FirstMap(last: nat): Block
    requires last < BITS_PER_BLOCK
  {
    SetRun(Zeros(BLOCK), 0, last + 1)
  }

  /** The blocks mktotfs writes, in its order. */
  function Format(d: Disk, s: Shape): (r: Disk)
    requires Sized(s)
    ensures |r| == |d|
  {
    var table, data := TableStart(s), DataStart(s);
    var d1 := SetAt(d, 0, SbBlock(NewSb(s)));
    var d2 := SetAt(d1, INODE_BITMAP_BLK, NewInodeMap());
    var d3 := SetAt(d2, BLOCK_BITMAP_BLK, FirstMap(data));
    var d4 := ZeroBlocks(d3, BLOCK_BITMAP_BLK + 1, s.maps - 1);
    var d5 := ZeroBlocks(d4, table, INODE_TABLE_BLKS);
    var d6 := SetAt(d5, table, RootTable(RootInode(data)));
    SetAt(d6, data, RootBlock())
  }

  /** The volume fits its image and the bitmap cache of the copy tool. */
  ghost predicate FitsTool(d: Disk, s: Shape) {
    Sized(s) && s.maps <= BMP_MAXBLK && s.total <= |d|
  }

  /** The most bitmap blocks with which the metadata still ends in the first of them. */
  const MAX_MAPS := BITS_PER_BLOCK - 1 - BLOCK_BITMAP_BLK - INODE_TABLE_BLKS

  /** The regions are in order, inside the volume and marked in one bitmap block exactly up to
      MAX_MAPS bitmap blocks of volume; there are never more bitmap blocks than needed, and at
      most 64 for a volume the copy tool can cache. */
  lemma LayoutArithmetic(partSize: nat)
    requires Accepted(partSize)
    ensures var s := ShapeOf(partSize);
      && s.total * 4096 <= partSize < (s.total + 1) * 4096
      && (Sized(s) <==> s.total <= MAX_MAPS * BITS_PER_BLOCK)
      && (s.maps - 1) * BITS_PER_BLOCK < s.total
      && (s.total <= BMP_MAXBLK * BITS_PER_BLOCK ==> s.maps <= BMP_MAXBLK)
  {
    var s := ShapeOf(partSize);
    var n := (s.total + BITS_PER_BLOCK - 1) / BITS_PER_BLOCK;
    assert (n - 1) * BITS_PER_BLOCK < s.total <= n * BITS_PER_BLOCK;
    assert s.maps <= n;
    assert s.maps < n ==> s.maps * BITS_PER_BLOCK < s.total;
  }

  /** The smallest partition accepted is the one whose volume has a block left once the metadata
      and the root directory have theirs. */
  lemma AcceptedIff(partSize: nat)
    requires partSize / 4096 <= 32768
    ensures Accepted(partSize) <==> DataStart(ShapeOf(partSize)) + 1 < partSize / 4096
    ensures Accepted(partSize) <==> partSize >= 69 * 4096
  {
  }

  /** One block more, and the metadata no longer ends in the first bitmap block. */
  lemma MetadataOutgrowsMap()
    ensures var partSize := (MAX_MAPS * BITS_PER_BLOCK + 1) * BLOCK;
      Accepted(partSize) && !Sized(ShapeOf(partSize)) && DataStart(ShapeOf(partSize)) == BITS_PER_BLOCK
  {
    LayoutArithmetic((MAX_MAPS * BITS_PER_BLOCK + 1) * BLOCK);
  }

  // ---- the metadata a copy run will load ----

  function NewBlockMap(last: nat): BlockMap
    requires last < BITS_PER_BLOCK
  {
    SetRun(Zeros(BMP_MAXBLK * BLOCK), 0, last + 1)
  }

  function NewMeta(s: Shape): Meta
    requires Sized(s)
  {
    Meta(NewSb(s), NewInodeMap(), NewBlockMap(DataStart(s)))
  }

  lemma {:induction false} SetRunPrefix(bmp: seq<byte>, w: nat, n: nat)
    requires n <= 8 * w && w <= |bmp|
    ensures SetRun(bmp, 0, n)[..w] == SetRun(bmp[..w], 0, n)
    decreases n
  {
    if n > 0 {
      SetRunPrefix(bmp, w, n - 1);
      var a := SetRun(bmp, 0, n - 1);
      assert a[(n - 1) / 8] == a[..w][(n - 1) / 8];
      assert SetBit(a, n - 1)[..w] == SetBit(a[..w], n - 1);
    }
  }

  lemma NewMapSlices(last: nat, k: nat)
    requires last < BITS_PER_BLOCK && k < BMP_MAXBLK
    ensures MapSlice(NewBlockMap(last), k) == if k == 0 then FirstMap(last) else Zeros(BLOCK)
  {
    hide SetRun, Zeros;
    var z := Zeros(BMP_MAXBLK * BLOCK);
    var s := MapSlice(NewBlockMap(last), k);
    if k == 0 {
      SetRunPrefix(z, BLOCK, last + 1);
      assert z[..BLOCK] == Zeros(BLOCK);
    } else {
      forall j | 0 <= j < BLOCK ensures s[j] == 0 {
        SetRunBytes(z, 0, last + 1, k * BLOCK + j);
        assert s[j] == NewBlockMap(last)[k * BLOCK + j];
      }
    }
  }

  lemma BitZeros(n: nat, i: nat)
    requires i < 8 * n
    ensures !Bit(Zeros(n), i)
  {
    BitOfZero(i % 8);
  }

  lemma {:induction false} CountZeros(w: nat, n: nat)
    requires n <= 8 * w
    ensures CountClear(Zeros(w), n) == n
  {
    hide Bit;
    if n > 0 {
      CountZeros(w, n - 1);
      BitZeros(w, n - 1);
    }
  }

  lemma {:induction false} LeBound(s: seq<byte>, w: nat)
    requires |s| <= w
    ensures FromLE(s) < Pow256(w)
  {
    ToFromLE(s);
    PowMonotone(|s|, w);
  }

  lemma {:induction false} PowMonotone(a: nat, b: nat)
    requires a <= b
    ensures Pow256(a) <= Pow256(b)
    decreases b
  {
    if a < b { PowMonotone(a, b - 1); }
  }

  lemma NewSbFits(s: Shape)
    requires Sized(s) && s.maps <= BMP_MAXBLK
    ensures SbFits(NewSb(s))
  {
    hide Pow256, FromLE;
    PowValues();
    SbWidth();
    LeBound(LABEL, 32);
    assert 1 <= Pow256(112);
    var f := SbFields(NewSb(s));
    forall i | 0 <= i < 19 ensures f[i] < Pow256(SB_WIDTHS[i]) {
      if i < 4 { assert SB_WIDTHS[i] == 4; }
      else if i < 15 { assert SB_WIDTHS[i] == 8; }
      else if i < 17 { assert SB_WIDTHS[i] == 4; }
    }
  }

  lemma NewInodeMapBits(i: nat)
    requires i < MAX_INODES
    ensures Bit(NewInodeMap(), i) == (i == 0 || i == ROOT)
  {
    hide Bit, SetBit, Zeros;
    var z := Zeros(BLOCK);
    BitZeros(BLOCK, i);
    BitSetBit(z, 0, i);
    BitSetBit(SetBit(z, 0), 1, i);
  }

  lemma NewInodeCount()
    ensures CountClear(NewInodeMap(), MAX_INODES) == MAX_INODES - 2
  {
    hide Bit, SetBit, Zeros, CountClear;
    var z := Zeros(BLOCK);
    CountZeros(BLOCK, MAX_INODES);
    BitZeros(BLOCK, 0);
    BitZeros(BLOCK, 1);
    CountSetBit(z, 0, MAX_INODES);
    BitSetBit(z, 0, 1);
    CountSetBit(SetBit(z, 0), 1, MAX_INODES);
  }

  lemma NewBlockMapBits(last: nat, b: nat)
    requires last < BITS_PER_BLOCK && b < BMP_MAXBLK * BITS_PER_BLOCK
    ensures Bit(NewBlockMap(last), b) == (b <= last)
  {
    hide Bit, SetRun, Zeros;
    BitSetRun(Zeros(BMP_MAXBLK * BLOCK), 0, last + 1, b);
    BitZeros(BMP_MAXBLK * BLOCK, b);
  }

  lemma NewBlockCount(last: nat, total: nat)
    requires last < BITS_PER_BLOCK && last < total <= BMP_MAXBLK * BITS_PER_BLOCK
    ensures CountClear(NewBlockMap(last), total) == total - (last + 1)
  {
    hide Bit, SetRun, Zeros, CountClear;
    var z := Zeros(BMP_MAXBLK * BLOCK);
    CountZeros(BMP_MAXBLK * BLOCK, total);
    forall k | 0 <= k < last + 1 ensures !Bit(z, k) { BitZeros(BMP_MAXBLK * BLOCK, k); }
    CountSetRun(z, 0, last + 1, total);
  }

  lemma NewTailZero(s: Shape)
    requires Sized(s) && s.maps <= BMP_MAXBLK
    ensures TailZero(NewMeta(s))
  {
    hide SetRun, Zeros, NewInodeMap, FromLE;
    var m := NewMeta(s);
    forall k | MapBlocks(m.sb) * BLOCK <= k < BMP_MAXBLK * BLOCK ensures m.bbmp[k] == 0 {
      SetRunBytes(Zeros(BMP_MAXBLK * BLOCK), 0, DataStart(s) + 1, k);
    }
  }

  lemma NewMetaOk(d: Disk, s: Shape)
    requires FitsTool(d, s)
    ensures
      && MetaOk(NewMeta(s), |d|)
      && (forall i :: UsedInode(NewMeta(s), i) <==> i == 0 || i == ROOT)
      && Bit(NewMeta(s).bbmp, DataStart(s))
  {
    hide Bit, NewInodeMap, NewBlockMap, CountClear, SbFits, TailZero, FromLE;
    var m := NewMeta(s);
    NewSbFits(s);
    NewTailZero(s);
    NewInodeCount();
    NewBlockCount(DataStart(s), s.total);
    forall b | 0 <= b < s.total ensures Bit(m.bbmp, b) == (b <= DataStart(s)) { NewBlockMapBits(DataStart(s), b); }
    forall i | 0 <= i < MAX_INODES ensures Bit(m.ibmp, i) == (i == 0 || i == ROOT) { NewInodeMapBits(i); }
  }

  // ---- the blocks on disk ----

  lemma FormatBlocks(d: Disk, s: Shape)
    requires Sized(s) && s.total <= |d|
    ensures var r := Format(d, s);
      && r[0] == SbBlock(NewSb(s))
      && r[INODE_BITMAP_BLK] == NewInodeMap()
      && r[BLOCK_BITMAP_BLK] == FirstMap(DataStart(s))
      && (forall b :: BLOCK_BITMAP_BLK < b < TableStart(s) ==> r[b] == Zeros(BLOCK))
      && r[TableStart(s)] == RootTable(RootInode(DataStart(s)))
      && r[DataStart(s)] == RootBlock()
  {
    hide SbBlock, RootTable, RootInode, RootBlock, FirstMap, NewInodeMap, NewSb, Zeros;
  }

  lemma FormatLoads(d: Disk, s: Shape)
    requires FitsTool(d, s)
    ensures Load(Format(d, s)) == NewMeta(s)
  {
    hide Format, DecodeSb, EncodeSb, FirstMap, NewInodeMap, NewBlockMap, MetaOk, LoadMap, Bit, MapSlice, Splice, Zeros, RootBlock,
      RootInode, RootTable;
    var r, m := Format(d, s), NewMeta(s);
    NewMetaOk(d, s);
    MetaParts(m, |d|);
    FormatBlocks(d, s);
    LoadStoredSb(m.sb, r);
    forall k | 0 <= k < m.sb.blockBitmapBlocks ensures r[BLOCK_BITMAP_BLK + k] == MapSlice(m.bbmp, k) {
      NewMapSlices(DataStart(s), k);
    }
    LoadFlushedMap(d, m, r);
  }

  lemma MetaParts(m: Meta, n: nat)
    requires MetaOk(m, n)
    ensures Layout(m.sb, n) && SbFits(m.sb) && TailZero(m)
  {
  }

  // ---- root ----

  lemma RootBlockEntries()
    ensures Tiled(RootBlock(), 0)
    ensures Walk(RootBlock(), 0) == [Entry(ROOT, DOT, TYPE_DIR), Entry(ROOT, DOTDOT, TYPE_DIR)]
  {
    hide FromLE, ToLE, PutRecord, RecInode, RecLen, NameLen, RecName, Walk;
    var a := PutRecord(Zeros(BLOCK), 0, ROOT, 12, DOT, TYPE_DIR);
    var b := PutRecord(a, 12, ROOT, BLOCK - 12, DOTDOT, TYPE_DIR);
    ReadPutRecord(Zeros(BLOCK), 0, ROOT, 12, DOT, TYPE_DIR);
    ReadPutRecord(a, 12, ROOT, BLOCK - 12, DOTDOT, TYPE_DIR);
    assert DOT[..1] == DOT && DOTDOT[..2] == DOTDOT;
    WalkEnd(b);
    ConsRecord(b, 12, BLOCK - 12, Entry(ROOT, DOTDOT, TYPE_DIR));
    KeepsPrefixRecord(a, b, 0, 12);
    ConsRecord(b, 0, 12, Entry(ROOT, DOT, TYPE_DIR));
  }

  lemma WalkEnd(b: Block)
    ensures Walk(b, BLOCK) == [] && Tiled(b, BLOCK)
  {
  }

  lemma RootInodeFacts(data: nat)
    requires data < BITS_PER_BLOCK
    ensures InodeFits(RootInode(data)) && BlockList(RootInode(data)) == [data]
    ensures Live(RootInode(data)) == [Extent(data, 1, 0)] && Consecutive(Live(RootInode(data)))
  {
    hide InodeFits;
    var es := [Extent(data, 1, 0)];
    assert Live(RootInode(data)) == es;
    assert es[..0] == [] && es == [] + es;
    FlatAppend([], es[0]);
    assert Flat([]) == [] && ExtentBlocks(es[0]) == [data];
    assert 1 <= Pow256(32);
    InRangeFits(RootInode(data));
  }

  lemma TableSlots(block: Block, root: Inode)
    requires InodeFits(root) && block == RootTable(root)
    ensures DecodeInode(block[..INODE_SIZE]) == ZERO_INODE
    ensures DecodeInode(block[INODE_SIZE..2 * INODE_SIZE]) == root
  {
    hide EncodeInode, DecodeInode;
    DecodeZeroInode(block[..INODE_SIZE]);
    DecodeEncodeInode(root);
  }

  lemma FormatInodes(d: Disk, s: Shape)
    requires FitsTool(d, s)
    ensures var r, m := Format(d, s), NewMeta(s);
      Ino(m, r, 0) == ZERO_INODE && Ino(m, r, ROOT) == RootInode(DataStart(s))
  {
    hide Format, DecodeInode, RootInode, NewInodeMap, FirstMap, SbBlock, RootBlock, RootTable, InodeFits, Live, Consecutive;
    var r, table := Format(d, s), TableStart(s);
    FormatBlocks(d, s);
    RootInodeFacts(DataStart(s));
    TableSlots(r[table], RootInode(DataStart(s)));
  }

  lemma ZeroSlot(block: Block, root: Inode, k: nat)
    requires k < 16 && k != 1 && block == RootTable(root)
    ensures DecodeInode(block[k * 256..(k + 1) * 256]) == ZERO_INODE
  {
    hide EncodeInode, DecodeInode;
    DecodeZeroInode(block[k * 256..(k + 1) * 256]);
  }

  /** Every inode but the root directory's is zero on disk. */
  lemma FormatTable(d: Disk, s: Shape, i: nat)
    requires FitsTool(d, s) && i < 1024 && i != ROOT
    ensures Ino(NewMeta(s), Format(d, s), i) == ZERO_INODE
  {
    hide DecodeInode, RootInode, NewInodeMap, FirstMap, SbBlock, RootBlock, RootTable, FromLE, NewBlockMap;
    var r, table := Format(d, s), TableStart(s);
    FormatBlocks(d, s);
    var off := (i % PER_BLOCK) * INODE_SIZE;
    if i / PER_BLOCK == 0 {
      ZeroSlot(r[table], RootInode(DataStart(s)), i % PER_BLOCK);
    } else {
      assert r[table + i / PER_BLOCK] == Zeros(BLOCK);
      DecodeZeroInode(r[table + i / PER_BLOCK][off..off + INODE_SIZE]);
    }
  }

  /** Data blocks other than the root directory's are left alone. */
  lemma FormatElsewhere(d: Disk, s: Shape, b: nat)
    requires Sized(s) && DataStart(s) < b < |d|
    ensures Format(d, s)[b] == d[b]
  {
    hide SbBlock, RootTable, RootInode, RootBlock, FirstMap, NewInodeMap, NewSb, Zeros;
  }

  /** The root directory: mode 0755, two links, one block. */
  lemma FormatRootInode(d: Disk, s: Shape)
    requires FitsTool(d, s)
    ensures var i := Ino(NewMeta(s), Format(d, s), 1);
      && i.kind == 2 && i.permissions == 7 * 64 + 5 * 8 + 5 && i.links == 2 && i.size == 4096 && i.blocksUsed == 1
      && i.ctime == i.mtime == i.uid == i.gid == i.flags == i.indirect == i.reserved == 0
      && i.extentCount == 1 && i.extents[0] == Extent(DataStart(s), 1, 0)
      && (forall k :: 1 <= k < 10 ==> i.extents[k] == Extent(0, 0, 0))
  {
    hide Format, NewMeta, ReadInode;
    FormatInodes(d, s);
  }

  lemma ZeroInodeOk(m: Meta)
    requires Addressable(m)
    ensures InodeOk(m, ZERO_INODE) && BlockList(ZERO_INODE) == []
  {
  }

  lemma OneBlockEntries(d: Disk, b: nat)
    ensures Entries(d, [b]) == Walk(At(d, b), 0)
    ensures AllTiled(d, [b]) <==> Tiled(At(d, b), 0)
  {
    hide Walk, Tiled, At;
    assert [b][1..] == [] && [b][0] == b;
    assert Entries(d, [b]) == Walk(At(d, b), 0) + Entries(d, []);
  }

  lemma FormatRoot(d: Disk, s: Shape)
    requires FitsTool(d, s)
    ensures var r := Format(d, s);
      && AllTiled(r, [DataStart(s)])
      && Entries(r, [DataStart(s)]) == [Entry(ROOT, DOT, TYPE_DIR), Entry(ROOT, DOTDOT, TYPE_DIR)]
  {
    hide Format, Walk, Tiled, RootBlock, RootInode, RootTable, FirstMap, NewInodeMap, SbBlock, Zeros, Entries, AllTiled, NewSb;
    FormatBlocks(d, s);
    RootBlockEntries();
    OneBlockEntries(Format(d, s), DataStart(s));
  }

  lemma TwoNames()
    ensures Unique([Entry(ROOT, DOT, TYPE_DIR), Entry(ROOT, DOTDOT, TYPE_DIR)])
  {
    assert |Fold(DOT)| != |Fold(DOTDOT)|;
  }

  lemma RootInodeOk(m: Meta, data: nat)
    requires Addressable(m) && data < BITS_PER_BLOCK && Owned(m, data)
    ensures InodeOk(m, RootInode(data)) && BlockList(RootInode(data)) == [data]
  {
    hide RootInode, Live, Consecutive, BlockList, InodeFits, Bit;
    RootInodeFacts(data);
    RootKind(data);
  }

  /** An image that uses just inode 0 and a consistent root directory is consistent. */
  lemma RootOnlyInv(m: Meta, d: Disk, data: nat)
    requires MetaOk(m, |d|) && (forall i :: UsedInode(m, i) <==> i == 0 || i == ROOT)
    requires Addressable(m) && data < BITS_PER_BLOCK && Owned(m, data)
    requires Ino(m, d, 0) == ZERO_INODE && Ino(m, d, ROOT) == RootInode(data)
    requires AllTiled(d, [data]) && Entries(d, [data]) == [Entry(ROOT, DOT, TYPE_DIR), Entry(ROOT, DOTDOT, TYPE_DIR)]
    ensures Inv(m, d) && NamesUnique(m, d) && BlocksOf(m, d, ROOT) == [data]
  {
    hide MetaOk, UsedInode, ReadInode, RootInode, BlockList, InodeOk, AllTiled, Entries, Unique;
    RootInodeOk(m, data);
    ZeroInodeOk(m);
    RootKind(data);
    TwoNames();
  }

  /** Every partition that fits the copy tool is formatted into a consistent image with
      unique names, whose root directory holds "." and "..". */
  lemma FormatIsImage(d: Disk, s: Shape)
    requires FitsTool(d, s)
    ensures
      && UniqueImage(Format(d, s))
      && Load(Format(d, s)) == NewMeta(s)
      && BlocksOf(NewMeta(s), Format(d, s), ROOT) == [DataStart(s)]
      && Entries(Format(d, s), [DataStart(s)]) == [Entry(ROOT, DOT, TYPE_DIR), Entry(ROOT, DOTDOT, TYPE_DIR)]
  {
    hide Format, NewMeta, MetaOk, UsedInode, ReadInode, RootInode, Bit, Load, BlockList, AllTiled, Entries, Inv, NamesUnique;
    NewMetaOk(d, s);
    FormatLoads(d, s);
    FormatInodes(d, s);
    LayoutAddressable(NewMeta(s), |d|);
    NewMetaRegion(s);
    FormatRoot(d, s);
    RootOnlyInv(NewMeta(s), Format(d, s), DataStart(s));
  }

  /** The files of a fresh image, of which there are none, are zero past their ends. */
  lemma FormatSealed(d: Disk, s: Shape)
    requires FitsTool(d, s)
    ensures SealedImage(Format(d, s))
  {
    hide Format, NewMeta, MetaOk, UsedInode, ReadInode, RootInode, Load, BlockList, Inv, NamesUnique, AllTiled, Entries;
    FormatIsImage(d, s);
    NewMetaOk(d, s);
    FormatInodes(d, s);
    RootKind(DataStart(s));
    LayoutAddressable(NewMeta(s), |d|);
    ZeroInodeOk(NewMeta(s));
  }

  lemma NewMetaRegion(s: Shape)
    requires Sized(s)
    ensures NewMeta(s).sb.dataStart == DataStart(s) && NewMeta(s).sb.totalBlocks == s.total
  {
  }

  lemma RootKind(data: nat)
    ensures RootInode(data).kind == TYPE_DIR && RootInode(data).size == BLOCK && RootInode(data).blocksUsed == 1
    ensures RootInode(data).extentCount == 1
  {
  }

  // ---- free count for any bitmap size ----

  /** The on-disk bit of block b, in a bitmap of any number of blocks. */
  predicate DiskBit(d: Disk, b: nat) {
    Bit(At(d, BLOCK_BITMAP_BLK + b / BITS_PER_BLOCK), b % BITS_PER_BLOCK)
  }

  function DiskClear(d: Disk, n: nat): nat {
    if n == 0 then 0 else DiskClear(d, n - 1) + if DiskBit(d, n - 1) then 0 else 1
  }

  lemma FormatBit(d: Disk, s: Shape, b: nat)
    requires Sized(s) && s.total <= |d|
    requires b < s.total
    ensures DiskBit(Format(d, s), b) == (b <= DataStart(s))
  {
    hide Format, SbBlock, RootTable, RootInode, RootBlock, NewInodeMap, SetRun, NewSb, Bit, Zeros;
    var r, k := Format(d, s), b / BITS_PER_BLOCK;
    FormatBlocks(d, s);
    assert k < s.maps;
    if k == 0 {
      BitSetRun(Zeros(BLOCK), 0, DataStart(s) + 1, b);
      BitZeros(BLOCK, b);
      assert At(r, BLOCK_BITMAP_BLK) == SetRun(Zeros(BLOCK), 0, DataStart(s) + 1);
    } else {
      BitZeros(BLOCK, b % BITS_PER_BLOCK);
      assert At(r, BLOCK_BITMAP_BLK + k) == Zeros(BLOCK);
    }
  }

  lemma {:induction false} FormatClear(d: Disk, s: Shape, n: nat)
    requires Sized(s) && s.total <= |d|
    requires n <= s.total
    ensures DiskClear(Format(d, s), n) == if n <= DataStart(s) then 0 else n - (DataStart(s) + 1)
  {
    hide Format, DiskBit;
    if n > 0 {
      FormatClear(d, s, n - 1);
      FormatBit(d, s, n - 1);
    }
  }

  /** free_blocks is the number of clear bits on disk for every partition whose metadata
      ends inside the first bitmap block, whatever the number of bitmap blocks. */
  lemma FormatFreeCount(d: Disk, s: Shape)
    requires Sized(s) && s.total <= |d|
    ensures NewSb(s).freeBlocks == DiskClear(Format(d, s), s.total)
  {
    hide Format, DiskClear;
    FormatClear(d, s, s.total);
  }

  // ---- the superblock on disk ----

  lemma {:induction false} LabelBytes(a: seq<byte>, n: nat)
    ensures ToLE(FromLE(a), |a| + n) == a + Zeros(n)
  {
    if a == [] {
      ZeroBytes(n);
      assert a + Zeros(n) == Zeros(n);
    } else {
      LabelBytes(a[1..], n);
      DivMod256(a[0], FromLE(a[1..]));
      assert a + Zeros(n) == [a[0]] + (a[1..] + Zeros(n));
    }
  }

  lemma {:induction false} ZeroBytes(n: nat)
    ensures ToLE(0, n) == Zeros(n)
  {
    if n > 0 {
      ZeroBytes(n - 1);
      assert Zeros(n) == [0] + Zeros(n - 1);
    }
  }

  lemma LabelText()
    ensures |LABEL| == 12 && forall i :: 0 <= i < 12 ==> LABEL[i] == "TaterTOS64v3"[i] as int
  {
  }

  /** The superblock mktotfs writes, at the offsets of the header file. */
  lemma FormatSuperblock(d: Disk, s: Shape)
    requires FitsTool(d, s)
    ensures var b := Format(d, s)[0][..256];
      && LE(b, 0x00, 4) == 0x544F5446 && LE(b, 0x04, 4) == 1 && LE(b, 0x08, 4) == 4096 && Pow2(LE(b, 0x0C, 4)) == 4096
      && LE(b, 0x10, 8) == s.total && LE(b, 0x18, 8) == 1024
      && LE(b, 0x20, 8) == s.total - 67 - s.maps && LE(b, 0x28, 8) == 1022
      && LE(b, 0x30, 8) == 1 && LE(b, 0x38, 8) == 1 && LE(b, 0x40, 8) == 2 && LE(b, 0x48, 8) == s.maps
      && LE(b, 0x50, 8) == 2 + s.maps && LE(b, 0x58, 8) == 64 && LE(b, 0x60, 8) == 66 + s.maps
      && LE(b, 0x68, 4) == 1 && LE(b, 0x6C, 4) == 256
      && (forall i :: 0 <= i < 32 ==> b[0x70 + i] == if i < 12 then "TaterTOS64v3"[i] as int else 0)
  {
    hide Format, LE, FromLE, NewMeta, LoadMap, LABEL;
    FormatLoads(d, s);
    NewMetaSb(s);
    var b := Format(d, s)[0][..256];
    assert LoadSb(Format(d, s)) == NewSb(s);
    SuperblockFields(b);
    assert Pow2(12) == 4096 by { assert Pow2(4) == 16 && Pow2(8) == 256 by { assert Pow2(4) == 16; assert Pow2(8) == 2 * (2 * (2 * (2 * Pow2(4)))); } assert Pow2(12) == 2 * (2 * (2 * (2 * Pow2(8)))); }
    LabelAt(b);
  }

  lemma NewMetaSb(s: Shape)
    requires Sized(s)
    ensures NewMeta(s).sb == NewSb(s)
  {
  }

  lemma LabelAt(b: seq<byte>)
    requires |b| == 256 && LE(b, 0x70, 32) == FromLE(LABEL)
    ensures forall i :: 0 <= i < 32 ==> b[0x70 + i] == if i < 12 then "TaterTOS64v3"[i] as int else 0
  {
    hide FromLE, ToLE, LABEL;
    LabelText();
    ToFromLE(b[0x70..0x90]);
    LabelBytes(LABEL, 20);
    forall i | 0 <= i < 32 ensures b[0x70 + i] == if i < 12 then "TaterTOS64v3"[i] as int else 0 {
      assert b[0x70 + i] == b[0x70..0x90][i];
    }
  }
}
