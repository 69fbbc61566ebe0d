/** Where each field of the on-disk structs lies, as the offsets in src/kernel/fs/totfs.h say. */
module OnDisk {
  import opened Bytes
  import opened Volume
  import opened Dirent

  /** The little-endian number of w bytes at an offset. */
  function LE(s: seq<byte>, off: nat, w: nat): nat
    requires off + w <= |s|
  {
    FromLE(s[off..off + w])
  }

  lemma SumNothing(ws: seq<nat>)
    ensures Sum(ws[..0]) == 0
  {
  }

  lemma SbWidths()
    ensures var w := SB_WIDTHS;
      && |w| == 19 && w[0] == w[1] == w[2] == w[3] == w[15] == w[16] == 4
      && w[4] == w[5] == w[6] == w[7] == w[8] == w[9] == w[10] == w[11] == w[12] == w[13] == w[14] == 8
      && w[17] == 32 && w[18] == 112
  {
  }

  lemma SbOffsets()
    ensures var w := SB_WIDTHS;
      && |w| == 19 && Sum(w[..0]) == 0 && Sum(w[..1]) == 4 && Sum(w[..2]) == 8 && Sum(w[..3]) == 12 && Sum(w[..4]) == 16 && Sum(w[..5]) == 24 && Sum(w[..6]) == 32 && Sum(w[..7]) == 40 && Sum(w[..8]) == 48 && Sum(w[..9]) == 56 && Sum(w[..10]) == 64 && Sum(w[..11]) == 72 && Sum(w[..12]) == 80 && Sum(w[..13]) == 88 && Sum(w[..14]) == 96 && Sum(w[..15]) == 104 && Sum(w[..16]) == 108 && Sum(w[..17]) == 112 && Sum(w[..18]) == 144
  {
    hide Sum, SB_WIDTHS;
    SbWidths();
    var w := SB_WIDTHS;
    SumNothing(w);
    forall k | 0 <= k < 18 ensures Sum(w[..k + 1]) == Sum(w[..k]) + w[k] { SumTake(w, k); }
    assert Sum(w[..1]) == 4 && Sum(w[..2]) == 8 && Sum(w[..3]) == 12 && Sum(w[..4]) == 16 && Sum(w[..5]) == 24 && Sum(w[..6]) == 32;
    assert Sum(w[..7]) == 40 && Sum(w[..8]) == 48 && Sum(w[..9]) == 56 && Sum(w[..10]) == 64 && Sum(w[..11]) == 72 && Sum(w[..12]) == 80;
    assert Sum(w[..13]) == 88 && Sum(w[..14]) == 96 && Sum(w[..15]) == 104 && Sum(w[..16]) == 108 && Sum(w[..17]) == 112 && Sum(w[..18]) == 144;
  }

  lemma SbField(s: seq<byte>, k: nat)
    requires |s| == 256 && k < 19
    ensures |SB_WIDTHS| == 19 && Sum(SB_WIDTHS) == 256 && Sum(SB_WIDTHS[..k]) + SB_WIDTHS[k] <= 256
    ensures Unpack(SB_WIDTHS, s)[k] == LE(s, Sum(SB_WIDTHS[..k]), SB_WIDTHS[k])
  {
    hide FromLE, Unpack, Sum, SB_WIDTHS;
    SbWidth();
    UnpackField(SB_WIDTHS, s, k);
  }

  /** The superblock, field by field. */
  lemma SuperblockFields(s: seq<byte>)
    requires |s| == 256
    ensures var sb := DecodeSb(s);
      && sb.magic == LE(s, 0x00, 4)
      && sb.version == LE(s, 0x04, 4)
      && sb.blockSize == LE(s, 0x08, 4)
      && sb.log2Block == LE(s, 0x0C, 4)
      && sb.totalBlocks == LE(s, 0x10, 8)
      && sb.totalInodes == LE(s, 0x18, 8)
      && sb.freeBlocks == LE(s, 0x20, 8)
      && sb.freeInodes == LE(s, 0x28, 8)
      && sb.inodeBitmapStart == LE(s, 0x30, 8)
      && sb.inodeBitmapBlocks == LE(s, 0x38, 8)
      && sb.blockBitmapStart == LE(s, 0x40, 8)
      && sb.blockBitmapBlocks == LE(s, 0x48, 8)
      && sb.inodeTableStart == LE(s, 0x50, 8)
      && sb.inodeTableBlocks == LE(s, 0x58, 8)
      && sb.dataStart == LE(s, 0x60, 8)
      && sb.rootInode == LE(s, 0x68, 4)
      && sb.inodeSize == LE(s, 0x6C, 4)
      && sb.volumeLabel == LE(s, 0x70, 32)
      && sb.reserved == LE(s, 0x90, 112)
  {
    hide LE, Unpack, Sum, SB_WIDTHS;
    SbWidth();
    SbOffsets();
    SbWidths();
    forall k | 0 <= k < 19
      ensures Sum(SB_WIDTHS[..k]) + SB_WIDTHS[k] <= 256 && Unpack(SB_WIDTHS, s)[k] == LE(s, Sum(SB_WIDTHS[..k]), SB_WIDTHS[k])
    {
      SbField(s, k);
    }
  }

  lemma InodeWidths()
    ensures var w := INODE_WIDTHS;
      && |w| == 43 && w[0] == w[1] == 2 && w[2] == w[7] == w[8] == w[9] == w[10] == 4
      && w[3] == w[4] == w[5] == w[6] == w[11] == 8
  {
    hide ExtWidths;
  }

  lemma InodeOffsets()
    ensures var w := INODE_WIDTHS; |w| == 43 && Sum(w[..0]) == 0 && Sum(w[..1]) == 2 && Sum(w[..2]) == 4 && Sum(w[..3]) == 8 && Sum(w[..4]) == 16 && Sum(w[..5]) == 24 && Sum(w[..6]) == 32 && Sum(w[..7]) == 40 && Sum(w[..8]) == 44 && Sum(w[..9]) == 48 && Sum(w[..10]) == 52 && Sum(w[..11]) == 56 && Sum(w[..12]) == 64
  {
    hide Sum, INODE_WIDTHS;
    InodeWidths();
    var w := INODE_WIDTHS;
    SumNothing(w);
    forall k | 0 <= k < 12 ensures Sum(w[..k + 1]) == Sum(w[..k]) + w[k] { SumTake(w, k); }
    assert Sum(w[..1]) == 2 && Sum(w[..2]) == 4 && Sum(w[..3]) == 8 && Sum(w[..4]) == 16 && Sum(w[..5]) == 24 && Sum(w[..6]) == 32;
    assert Sum(w[..7]) == 40 && Sum(w[..8]) == 44 && Sum(w[..9]) == 48 && Sum(w[..10]) == 52 && Sum(w[..11]) == 56 && Sum(w[..12]) == 64;
  }

  lemma ExtentWidths(k: nat)
    requires k < 10
    ensures var w := INODE_WIDTHS;
      |w| == 43 && w[12 + 3 * k] == 8 && w[13 + 3 * k] == 4 && w[14 + 3 * k] == 4 && w[42] == 32
  {
    hide ExtWidths;
    var e := ExtWidths(NUM_EXTENTS);
    assert INODE_WIDTHS[12 + 3 * k] == e[3 * k] && INODE_WIDTHS[13 + 3 * k] == e[3 * k + 1] && INODE_WIDTHS[14 + 3 * k] == e[3 * k + 2];
  }

  lemma {:induction false} ExtentOffset(k: nat)
    requires k <= 10
    ensures |INODE_WIDTHS| == 43 && Sum(INODE_WIDTHS[..12 + 3 * k]) == 0x40 + 16 * k
  {
    hide Sum, INODE_WIDTHS;
    if k == 0 {
      InodeOffsets();
    } else {
      ExtentOffset(k - 1);
      ExtentWidths(k - 1);
      SumTake(INODE_WIDTHS, 9 + 3 * k);
      SumTake(INODE_WIDTHS, 10 + 3 * k);
      SumTake(INODE_WIDTHS, 11 + 3 * k);
    }
  }

  lemma InodeField(s: seq<byte>, k: nat)
    requires |s| == 256 && k < 43
    ensures |INODE_WIDTHS| == 43 && Sum(INODE_WIDTHS) == 256 && Sum(INODE_WIDTHS[..k]) + INODE_WIDTHS[k] <= 256
    ensures Unpack(INODE_WIDTHS, s)[k] == LE(s, Sum(INODE_WIDTHS[..k]), INODE_WIDTHS[k])
  {
    hide FromLE, Unpack, Sum, INODE_WIDTHS;
    InodeWidth();
    UnpackField(INODE_WIDTHS, s, k);
  }

  /** An inode, field by field. */
  lemma InodeFieldsAt(s: seq<byte>)
    requires |s| == 256
    ensures var i := DecodeInode(s);
      && i.kind == LE(s, 0x00, 2)
      && i.permissions == LE(s, 0x02, 2)
      && i.links == LE(s, 0x04, 4)
      && i.size == LE(s, 0x08, 8)
      && i.blocksUsed == LE(s, 0x10, 8)
      && i.ctime == LE(s, 0x18, 8)
      && i.mtime == LE(s, 0x20, 8)
      && i.uid == LE(s, 0x28, 4)
      && i.gid == LE(s, 0x2C, 4)
      && i.extentCount == LE(s, 0x30, 4)
      && i.flags == LE(s, 0x34, 4)
      && i.indirect == LE(s, 0x38, 8)
  {
    hide LE, Unpack, Sum, INODE_WIDTHS;
    InodeWidth();
    InodeOffsets();
    InodeWidths();
    forall k | 0 <= k < 43
      ensures Sum(INODE_WIDTHS[..k]) + INODE_WIDTHS[k] <= 256
      ensures Unpack(INODE_WIDTHS, s)[k] == LE(s, Sum(INODE_WIDTHS[..k]), INODE_WIDTHS[k])
    {
      InodeField(s, k);
    }
  }

  /** Its extents, 16 bytes each. */
  lemma ExtentFieldsAt(s: seq<byte>, k: nat)
    requires |s| == 256 && k < 10
    ensures var e := DecodeInode(s).extents[k];
      && e.start == LE(s, 0x40 + 16 * k, 8) && e.count == LE(s, 0x48 + 16 * k, 4) && e.fileBlock == LE(s, 0x4C + 16 * k, 4)
  {
    hide LE, Unpack, Sum, INODE_WIDTHS;
    InodeWidth();
    ExtentOffset(k);
    ExtentWidths(k);
    SumTake(INODE_WIDTHS, 12 + 3 * k);
    SumTake(INODE_WIDTHS, 13 + 3 * k);
    InodeField(s, 12 + 3 * k);
    InodeField(s, 13 + 3 * k);
    InodeField(s, 14 + 3 * k);
  }

  /** A directory record is the packed struct of inode, rec_len, name_len and file_type, followed by
      the name. */
  lemma RecordBytes(b: Block, off: nat, ino: nat, recLen: nat, name: seq<byte>, kind: byte)
    requires off + 8 + |name| <= 4096
    ensures PutRecord(b, off, ino, recLen, name, kind)[off..off + 8 + |name|]
         == Pack([4, 2, 1, 1], [ino, recLen, |name| % 256, kind]) + name
  {
    hide ToLE;
    PackFour(ino, recLen, |name| % 256, kind);
    assert name[..Min(|name|, BLOCK - off - HEADER)] == name;
  }

  lemma PackFour(a: nat, b: nat, c: byte, d: byte)
    ensures Pack([4, 2, 1, 1], [a, b, c, d]) == ToLE(a, 4) + ToLE(b, 2) + [c, d]
  {
    hide ToLE;
    assert [4, 2, 1, 1][1..] == [2, 1, 1] && [a, b, c, d][1..] == [b, c, d];
    assert [2, 1, 1][1..] == [1, 1] && [b, c, d][1..] == [c, d];
    assert [1, 1][1..] == [1] && [c, d][1..] == [d] && [1][1..] == [] && [d][1..] == [];
    OneByte(c);
    OneByte(d);
    assert Pack([], []) == [];
    assert Pack([1], [d]) == [d];
    assert Pack([1, 1], [c, d]) == [c] + [d];
    assert Pack([2, 1, 1], [b, c, d]) == ToLE(b, 2) + ([c] + [d]);
  }

  lemma OneByte(c: byte)
    ensures ToLE(c, 1) == [c]
  {
    assert ToLE(0, 0) == [];
  }
}
