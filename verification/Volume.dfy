/** The on-disk format of src/kernel/fs/totfs.h: blocks, superblock, inodes, and the
    metadata that tools/totcopy.c keeps in memory between load and flush. */
module Volume {
  import opened Bytes

  const BLOCK := 4096
  const INODE_SIZE := 256
  const PER_BLOCK := 16
  const MAGIC := 0x544F5446
  const VERSION := 1
  const TYPE_FILE := 1
  const TYPE_DIR := 2
  const NUM_EXTENTS := 10
  const MAX_INODES := 1024
  const ROOT := 1
  const INODE_BITMAP_BLK := 1
  const BLOCK_BITMAP_BLK := 2
  const INODE_TABLE_BLKS := 64
  const DATA_START_BLK := 67
  const BMP_MAXBLK := 64
  const BITS_PER_BLOCK := 32768

  type Block = s: seq<byte> | |s| == BLOCK witness Zeros(BLOCK)
  type BlockMap = s: seq<byte> | |s| == BMP_MAXBLK * BLOCK witness Zeros(BMP_MAXBLK * BLOCK)
  type Disk = seq<Block>

  // ---- superblock ----

  datatype Superblock = Superblock(
    magic: nat, version: nat, blockSize: nat, log2Block: nat,
    totalBlocks: nat, totalInodes: nat, freeBlocks: nat, freeInodes: nat,
    inodeBitmapStart: nat, inodeBitmapBlocks: nat, blockBitmapStart: nat, blockBitmapBlocks: nat,
    inodeTableStart: nat, inodeTableBlocks: nat, dataStart: nat,
    rootInode: nat, inodeSize: nat, volumeLabel: nat, reserved: nat)

  const SB_WIDTHS: seq<nat> := [4, 4, 4, 4] + [8, 8, 8, 8] + [8, 8, 8, 8] + [8, 8, 8] + [4, 4, 32, 112]

  function SbFields(sb: Superblock): (f: seq<nat>)
    ensures |f| == 19
  {
    [sb.magic, sb.version, sb.blockSize, sb.log2Block,
     sb.totalBlocks, sb.totalInodes, sb.freeBlocks, sb.freeInodes,
     sb.inodeBitmapStart, sb.inodeBitmapBlocks, sb.blockBitmapStart, sb.blockBitmapBlocks,
     sb.inodeTableStart, sb.inodeTableBlocks, sb.dataStart,
     sb.rootInode, sb.inodeSize, sb.volumeLabel, sb.reserved]
  }

  function SbOf(f: seq<nat>): Superblock
    requires |f| == 19
  {
    Superblock(f[0], f[1], f[2], f[3], f[4], f[5], f[6], f[7], f[8], f[9],
               f[10], f[11], f[12], f[13], f[14], f[15], f[16], f[17], f[18])
  }

  lemma SumConcat(a: seq<nat>, b: seq<nat>)
    ensures Sum(a + b) == Sum(a) + Sum(b)
  {
    if a == [] { assert a + b == b; } else {
      SumConcat(a[1..], b);
      assert (a + b)[1..] == a[1..] + b;
    }
  }

  lemma Sum4(a: nat, b: nat, c: nat, d: nat)
    ensures Sum([a, b, c, d]) == a + b + c + d
  {
    assert [a, b, c, d][1..] == [b, c, d];
    Sum3(b, c, d);
  }

  lemma Sum3(a: nat, b: nat, c: nat)
    ensures Sum([a, b, c]) == a + b + c
  {
    assert Sum([c]) == c + Sum([]);
    assert [b, c][1..] == [c];
    assert Sum([b, c]) == b + Sum([c]);
    assert [a, b, c][1..] == [b, c];
  }

  lemma SbWidth()
    ensures |SB_WIDTHS| == 19 && Sum(SB_WIDTHS) == INODE_SIZE
  {
    Sum4(4, 4, 4, 4);
    Sum4(8, 8, 8, 8);
    Sum3(8, 8, 8);
    Sum4(4, 4, 32, 112);
    SumConcat([4, 4, 4, 4], [8, 8, 8, 8]);
    SumConcat([4, 4, 4, 4] + [8, 8, 8, 8], [8, 8, 8, 8]);
    SumConcat([4, 4, 4, 4] + [8, 8, 8, 8] + [8, 8, 8, 8], [8, 8, 8]);
    SumConcat([4, 4, 4, 4] + [8, 8, 8, 8] + [8, 8, 8, 8] + [8, 8, 8], [4, 4, 32, 112]);
  }

  ghost predicate SbFits(sb: Superblock) {
    Fits(SB_WIDTHS, SbFields(sb))
  }

  function EncodeSb(sb: Superblock): (s: seq<byte>)
    ensures |s| == INODE_SIZE
  {
    SbWidth();
    Pack(SB_WIDTHS, SbFields(sb))
  }

  function DecodeSb(s: seq<byte>): Superblock
    requires |s| == INODE_SIZE
  {
    SbWidth();
    SbOf(Unpack(SB_WIDTHS, s))
  }

  lemma DecodeEncodeSb(sb: Superblock)
    requires SbFits(sb)
    ensures DecodeSb(EncodeSb(sb)) == sb
  {
    SbWidth();
    UnpackPack(SB_WIDTHS, SbFields(sb));
  }

  /** Lowering the counters keeps every field in range. */
  lemma SbFitsCounters(sb: Superblock, fb: nat, fi: nat)
    requires SbFits(sb) && fb < 0x1_0000_0000_0000_0000 && fi < 0x1_0000_0000_0000_0000
    ensures SbFits(sb.(freeBlocks := fb, freeInodes := fi))
  {
    hide Pow256;
    PowValues();
    SbWidth();
    var old_, new_ := SbFields(sb), SbFields(sb.(freeBlocks := fb, freeInodes := fi));
    forall i | 0 <= i < 19 ensures new_[i] < Pow256(SB_WIDTHS[i]) {
      if i == 6 || i == 7 { assert SB_WIDTHS[i] == 8; } else { assert new_[i] == old_[i]; }
    }
  }

  // ---- inodes ----

  datatype Extent = Extent(start: nat, count: nat, fileBlock: nat)
  type ExtentArray = s: seq<Extent> | |s| == NUM_EXTENTS witness seq(NUM_EXTENTS, _ => Extent(0, 0, 0))

  datatype Inode = Inode(
    kind: nat, permissions: nat, links: nat, size: nat, blocksUsed: nat,
    ctime: nat, mtime: nat, uid: nat, gid: nat, extentCount: nat, flags: nat, indirect: nat,
    extents: ExtentArray, reserved: nat)

  const ZERO_INODE := Inode(0, 0, 0, 0, 0, 0, 0, 0, 0, 0, 0, 0, seq(NUM_EXTENTS, _ => Extent(0, 0, 0)), 0)

  /** The extents in use: `extents[0 .. extent_count]`. */
  function Live(ino: Inode): (es: seq<Extent>) {
    ino.extents[..Min(ino.extentCount, NUM_EXTENTS)]
  }

  function ExtWidths(n: nat): (w: seq<nat>)
    ensures |w| == 3 * n
    ensures forall k :: 0 <= k < 3 * n ==> w[k] == if k % 3 == 0 then 8 else 4
  {
    if n == 0 then [] else ExtWidths(n - 1) + [8, 4, 4]
  }

  lemma {:induction false} SumExtWidths(n: nat)
    ensures Sum(ExtWidths(n)) == 16 * n
  {
    if n > 0 {
      SumExtWidths(n - 1);
      SumConcat(ExtWidths(n - 1), [8, 4, 4]);
      Sum3(8, 4, 4);
    }
  }

  const INODE_WIDTHS: seq<nat> :=
    [2, 2, 4, 8] + [8, 8, 8, 4] + [4, 4, 4, 8] + ExtWidths(NUM_EXTENTS) + [32]

  lemma InodeWidth()
    ensures |INODE_WIDTHS| == 43 && Sum(INODE_WIDTHS) == INODE_SIZE
  {
    Sum4(2, 2, 4, 8);
    Sum4(8, 8, 8, 4);
    Sum4(4, 4, 4, 8);
    SumExtWidths(NUM_EXTENTS);
    SumConcat([2, 2, 4, 8], [8, 8, 8, 4]);
    SumConcat([2, 2, 4, 8] + [8, 8, 8, 4], [4, 4, 4, 8]);
    SumConcat([2, 2, 4, 8] + [8, 8, 8, 4] + [4, 4, 4, 8], ExtWidths(NUM_EXTENTS));
    SumConcat([2, 2, 4, 8] + [8, 8, 8, 4] + [4, 4, 4, 8] + ExtWidths(NUM_EXTENTS), [32]);
    assert Sum([32]) == 32;
  }

  function ExtFields(es: ExtentArray): (f: seq<nat>)
    ensures |f| == 30
  {
    seq(30, k requires 0 <= k < 30 =>
      if k % 3 == 0 then es[k / 3].start else if k % 3 == 1 then es[k / 3].count else es[k / 3].fileBlock)
  }

  function InodeFields(i: Inode): (f: seq<nat>)
    ensures |f| == 43
  {
    [i.kind, i.permissions, i.links, i.size] + [i.blocksUsed, i.ctime, i.mtime, i.uid]
    + [i.gid, i.extentCount, i.flags, i.indirect] + ExtFields(i.extents) + [i.reserved]
  }

  function InodeOf(f: seq<nat>): Inode
    requires |f| == 43
  {
    Inode(f[0], f[1], f[2], f[3], f[4], f[5], f[6], f[7], f[8], f[9], f[10], f[11],
          seq(NUM_EXTENTS, k requires 0 <= k < NUM_EXTENTS => Extent(f[12 + 3 * k], f[13 + 3 * k], f[14 + 3 * k])),
          f[42])
  }

  lemma InodeOfFields(i: Inode)
    ensures InodeOf(InodeFields(i)) == i
  {
    hide Pow256;
    var f := InodeFields(i);
    forall k | 0 <= k < NUM_EXTENTS
      ensures f[12 + 3 * k] == i.extents[k].start && f[13 + 3 * k] == i.extents[k].count
      ensures f[14 + 3 * k] == i.extents[k].fileBlock
    {
      var e := ExtFields(i.extents);
      assert f[12 + 3 * k] == e[3 * k] && f[13 + 3 * k] == e[3 * k + 1] && f[14 + 3 * k] == e[3 * k + 2];
    }
    assert InodeOf(f).extents == i.extents;
  }

  lemma FieldsOfInodeOf(f: seq<nat>)
    requires |f| == 43
    ensures InodeFields(InodeOf(f)) == f
  {
    var g := InodeFields(InodeOf(f));
    forall k | 0 <= k < 43 ensures g[k] == f[k] {
      if 12 <= k < 42 {
        assert g[k] == ExtFields(InodeOf(f).extents)[k - 12];
      }
    }
  }

  ghost predicate InodeFits(i: Inode) {
    Fits(INODE_WIDTHS, InodeFields(i))
  }

  function EncodeInode(i: Inode): (s: seq<byte>)
    ensures |s| == INODE_SIZE
  {
    InodeWidth();
    Pack(INODE_WIDTHS, InodeFields(i))
  }

  function DecodeInode(s: seq<byte>): Inode
    requires |s| == INODE_SIZE
  {
    InodeWidth();
    InodeOf(Unpack(INODE_WIDTHS, s))
  }

  lemma DecodeEncodeInode(i: Inode)
    requires InodeFits(i)
    ensures DecodeInode(EncodeInode(i)) == i
  {
    InodeWidth();
    UnpackPack(INODE_WIDTHS, InodeFields(i));
    InodeOfFields(i);
  }

  lemma DecodedInodeFits(s: seq<byte>)
    requires |s| == INODE_SIZE
    ensures InodeFits(DecodeInode(s))
  {
    InodeWidth();
    PackUnpack(INODE_WIDTHS, s);
    FieldsOfInodeOf(Unpack(INODE_WIDTHS, s));
  }

  lemma DecodeZeroInode(s: seq<byte>)
    requires |s| == INODE_SIZE && forall k :: 0 <= k < |s| ==> s[k] == 0
    ensures DecodeInode(s) == ZERO_INODE
  {
    InodeWidth();
    UnpackZeros(INODE_WIDTHS, s);
    assert DecodeInode(s).extents == ZERO_INODE.extents;
  }

  /** The C field widths, spelled out. */
  ghost predicate InRange(i: Inode) {
    && i.kind < 0x1_0000 && i.permissions < 0x1_0000 && i.links < 0x1_0000_0000
    && i.size < 0x1_0000_0000_0000_0000 && i.blocksUsed < 0x1_0000_0000_0000_0000
    && i.ctime < 0x1_0000_0000_0000_0000 && i.mtime < 0x1_0000_0000_0000_0000
    && i.uid < 0x1_0000_0000 && i.gid < 0x1_0000_0000 && i.extentCount < 0x1_0000_0000
    && i.flags < 0x1_0000_0000 && i.indirect < 0x1_0000_0000_0000_0000
    && (forall k :: 0 <= k < NUM_EXTENTS ==> ExtentInRange(i.extents[k]))
    && i.reserved < Pow256(32)
  }

  ghost predicate ExtentInRange(e: Extent) {
    e.start < 0x1_0000_0000_0000_0000 && e.count < 0x1_0000_0000 && e.fileBlock < 0x1_0000_0000
  }

  lemma FitsConcat(a: seq<nat>, b: seq<nat>, x: seq<nat>, y: seq<nat>)
    requires |a| == |x| && |b| == |y|
    ensures Fits(a + b, x + y) <==> Fits(a, x) && Fits(b, y)
  {
    hide Pow256;
    if Fits(a + b, x + y) {
      forall i | 0 <= i < |a| ensures x[i] < Pow256(a[i]) { assert (x + y)[i] == x[i] && (a + b)[i] == a[i]; }
      forall i | 0 <= i < |b| ensures y[i] < Pow256(b[i]) { assert (x + y)[|a| + i] == y[i] && (a + b)[|a| + i] == b[i]; }
    }
  }

  lemma Fits4(w: seq<nat>, v: seq<nat>)
    requires |w| == 4 && |v| == 4
    ensures Fits(w, v) <==> v[0] < Pow256(w[0]) && v[1] < Pow256(w[1]) && v[2] < Pow256(w[2]) && v[3] < Pow256(w[3])
  {
    hide Pow256;
  }

  lemma ExtFits(es: ExtentArray)
    ensures Fits(ExtWidths(NUM_EXTENTS), ExtFields(es)) <==> forall k :: 0 <= k < NUM_EXTENTS ==> ExtentInRange(es[k])
  {
    hide Pow256, ExtWidths;
    PowValues();
    var w, f := ExtWidths(NUM_EXTENTS), ExtFields(es);
    if Fits(w, f) {
      forall k | 0 <= k < NUM_EXTENTS ensures ExtentInRange(es[k]) {
        assert f[3 * k] == es[k].start && f[3 * k + 1] == es[k].count && f[3 * k + 2] == es[k].fileBlock;
      }
    }
  }

  /** An inode can be stored without loss exactly when its fields fit their C types. */
  lemma FitsIff(i: Inode)
    ensures InodeFits(i) <==> InRange(i)
  {
    hide Pow256, Fits, ExtFields, ExtWidths;
    PowValues();
    var a, b, c, e := [i.kind, i.permissions, i.links, i.size], [i.blocksUsed, i.ctime, i.mtime, i.uid],
      [i.gid, i.extentCount, i.flags, i.indirect], ExtFields(i.extents);
    var w := ExtWidths(NUM_EXTENTS);
    FitsConcat([2, 2, 4, 8], [8, 8, 8, 4], a, b);
    FitsConcat([2, 2, 4, 8] + [8, 8, 8, 4], [4, 4, 4, 8], a + b, c);
    FitsConcat([2, 2, 4, 8] + [8, 8, 8, 4] + [4, 4, 4, 8], w, a + b + c, e);
    FitsConcat([2, 2, 4, 8] + [8, 8, 8, 4] + [4, 4, 4, 8] + w, [32], a + b + c + e, [i.reserved]);
    Fits4([2, 2, 4, 8], a);
    Fits4([8, 8, 8, 4], b);
    Fits4([4, 4, 4, 8], c);
    ExtFits(i.extents);
    FitsOne(32, i.reserved);
  }

  lemma FitsOne(w: nat, v: nat)
    ensures Fits([w], [v]) <==> v < Pow256(w)
  {
    hide Pow256;
    assert [w][0] == w && [v][0] == v;
  }

  lemma FitsSize(i: Inode)
    requires InodeFits(i)
    ensures i.size < 0x1_0000_0000_0000_0000
  {
    hide InodeFits;
    FitsIff(i);
  }

  lemma InRangeFits(i: Inode)
    requires InRange(i)
    ensures InodeFits(i)
  {
    FitsIff(i);
  }

  /** Appending an extent to an inode read from disk keeps every field in range. */
  lemma FitsAppend(i: Inode, k: nat, e: Extent, count: nat, size: nat, used: nat)
    requires InodeFits(i) && k < NUM_EXTENTS && ExtentInRange(e) && count < 0x1_0000_0000
    requires size < 0x1_0000_0000_0000_0000 && used < 0x1_0000_0000_0000_0000
    ensures InodeFits(i.(extents := i.extents[k := e], extentCount := count, size := size, blocksUsed := used))
  {
    hide InodeFits, Pow256;
    FitsIff(i);
    FitsIff(i.(extents := i.extents[k := e], extentCount := count, size := size, blocksUsed := used));
  }
}
