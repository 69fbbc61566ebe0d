/** tools/mktotfs.c as a program, and the runs that start from its image. */
module Mktotfs {
  import opened Bytes
  import opened Bitmap
  import opened Volume
  import opened Metadata
  import opened Extents
  import opened Alloc
  import opened Paths
  import opened CopySpec
  import opened Invariant
  import opened Runs
  import opened Space
  import opened CopyOutcome
  import opened Mkfs
  import opened Totcopy

  method PutBlock(image: array<Block>, b: nat, block: Block)
    modifies image
    ensures image[..] == SetAt(old(image[..]), b, block)
  {
    if b < image.Length { image[b] := block; }
  }

  method PutZeros(image: array<Block>, start: nat, n: nat)
    modifies image
    ensures image[..] == ZeroBlocks(old(image[..]), start, n)
  {
    hide SetAt, Zeros;
    ghost var d := image[..];
    ZeroNothing(d, start);
    for i := 0 to n
      invariant image[..] == ZeroBlocks(d, start, i)
    {
      PutBlock(image, start + i, Zeros(BLOCK));
    }
  }

  lemma ZeroNothing(d: Disk, start: nat)
    ensures ZeroBlocks(d, start, 0) == d
  {
  }

  method UsedMap(last: nat) returns (block: Block)
    requires last < BITS_PER_BLOCK
    ensures block == FirstMap(last)
  {
    hide SetBit;
    var bmp := new byte[BLOCK](_ => 0);
    assert bmp[..] == Zeros(BLOCK);
    for i := 0 to last + 1
      invariant bmp[..] == SetRun(Zeros(BLOCK), 0, i)
    {
      SetBitInPlace(bmp, i);
    }
    block := bmp[..];
  }

  /** Formats a partition; refuses one that is too small. The metadata must end inside the
      first bitmap block, as the program's one-block buffer assumes. */
  method FormatTool(image: array<Block>, partSize: nat) returns (ok: bool)
    requires Accepted(partSize) ==> Sized(ShapeOf(partSize))
    modifies image
    ensures ok == Accepted(partSize)
    ensures image[..] == if ok then Format(old(image[..]), ShapeOf(partSize)) else old(image[..])
  {
    hide SbBlock, RootTable, RootInode, RootBlock, FirstMap, NewInodeMap, NewSb, ZeroBlocks, SetAt, ShapeOf;
    if partSize < BLOCK * (DATA_START_BLK + 2) { return false; }
    var s := ShapeOf(partSize);
    var table, data := TableStart(s), DataStart(s);
    PutBlock(image, 0, SbBlock(NewSb(s)));
    PutBlock(image, INODE_BITMAP_BLK, NewInodeMap());
    var used := UsedMap(data);
    PutBlock(image, BLOCK_BITMAP_BLK, used);
    PutZeros(image, BLOCK_BITMAP_BLK + 1, s.maps - 1);
    PutZeros(image, table, INODE_TABLE_BLKS);
    PutBlock(image, table, RootTable(RootInode(data)));
    PutBlock(image, data, RootBlock());
    return true;
  }

  /** The partition is accepted, fits its image and can be cached by the copy tool. */
  ghost predicate Usable(d: Disk, partSize: nat) {
    Accepted(partSize) && partSize / BLOCK <= |d| && partSize / BLOCK <= BMP_MAXBLK * BITS_PER_BLOCK
  }

  lemma UsableFits(d: Disk, partSize: nat)
    requires Usable(d, partSize)
    ensures FitsTool(d, ShapeOf(partSize))
  {
    LayoutArithmetic(partSize);
  }

  function Formatted(d: Disk, partSize: nat): Disk
    requires Usable(d, partSize)
  {
    UsableFits(d, partSize);
    Format(d, ShapeOf(partSize))
  }

  lemma FormattedImage(d: Disk, partSize: nat)
    requires Usable(d, partSize)
    ensures UniqueImage(Formatted(d, partSize)) && SealedImage(Formatted(d, partSize))
  {
    hide Format, UniqueImage, SealedImage, ShapeOf;
    UsableFits(d, partSize);
    FormatIsImage(d, ShapeOf(partSize));
    FormatSealed(d, ShapeOf(partSize));
  }

  /** No two block positions of any inodes in use name the same block. */
  ghost predicate OneOwnerEach(d: Disk) {
    forall i, k, j, l :: SameBlock(Load(d), d, i, k, j, l) ==> i == j && k == l
  }

  lemma ImageOneOwner(d: Disk)
    requires Image(d)
    ensures OneOwnerEach(d)
  {
    hide Load, SameBlock, Inv;
    forall i, k, j, l | SameBlock(Load(d), d, i, k, j, l) ensures i == j && k == l { OneOwner(Load(d), d, i, k, j, l); }
  }

  /** The whole-run theorem: from any formatted partition that the copy tool can cache, after any
      sequence of copies, successful or failed, the image is consistent, its names are unique,
      its files are sealed, and no block has two owners. */
  lemma FormattedRuns(d: Disk, partSize: nat, ops: seq<Op>)
    requires Usable(d, partSize) && AllSizes(ops) && AllAimed(Formatted(d, partSize), ops)
    ensures var r := AfterAll(Formatted(d, partSize), ops); UniqueImage(r) && SealedImage(r) && OneOwnerEach(r)
  {
    hide Usable, Formatted, UniqueImage, SealedImage, AfterAll, AllAimed, AllSizes, OneOwnerEach, AnswersKept, Image;
    var f := Formatted(d, partSize);
    FormattedImage(d, partSize);
    UniqueIsImage(f);
    AllRunsKeep(f, ops);
    ImageOneOwner(AfterAll(f, ops));
  }

  /** And exactly: starting from a formatted partition, every copy of the sequence keeps the
      names unique and every answer if and only if every successful copy was well aimed. */
  lemma FormattedRunsIff(d: Disk, partSize: nat, ops: seq<Op>)
    requires Usable(d, partSize) && AllSizes(ops)
    ensures AllKept(Formatted(d, partSize), ops) <==> AllAimed(Formatted(d, partSize), ops)
  {
    hide Usable, Formatted, UniqueImage, SealedImage, AllKept, AllAimed, AllSizes;
    FormattedImage(d, partSize);
    AllRunsKeepIff(Formatted(d, partSize), ops);
  }

  lemma NewMetaSuffix(s: Shape)
    requires Sized(s) && s.maps <= BMP_MAXBLK
    ensures SuffixFree(NewMeta(s))
  {
    hide Bit, NewBlockMap, NewInodeMap, FromLE;
    var m := NewMeta(s);
    forall b | 0 <= b < s.total ensures Bit(m.bbmp, b) <==> b < DataStart(s) + 1 { NewBlockMapBits(DataStart(s), b); }
    assert FreeFrom(m, DataStart(s) + 1);
  }

  lemma FormattedSuffix(d: Disk, partSize: nat)
    requires Usable(d, partSize)
    ensures SuffixFree(Load(Formatted(d, partSize)))
  {
    hide Format, NewMeta, Load, SuffixFree, UniqueImage, ShapeOf, BlocksOf, Entries;
    UsableFits(d, partSize);
    FormatIsImage(d, ShapeOf(partSize));
    NewMetaSuffix(ShapeOf(partSize));
  }

  /** With the two tools alone a volume is never fragmented: after any sequence of copies, a run
      fails for lack of data space exactly when it passes its checks, gets an inode, and needs
      more blocks than free_blocks says. */
  lemma FormattedSpaceIff(d: Disk, partSize: nat, ops: seq<Op>, data: seq<byte>, dest: Path)
    requires Usable(d, partSize) && AllSizes(ops) && AllAimed(Formatted(d, partSize), ops)
    ensures var r := AfterAll(Formatted(d, partSize), ops);
      var m, p := Load(r), ParentOf(r, dest);
      && Addressable(m)
      && (CopyRun(r, data, dest).Aborted? && CopyRun(r, data, dest).why == NoSpaceForData <==>
            && Base(dest) != [] && p != 0 && DirLookup(r, Ino(m, r, p), Base(dest)) == 0
            && AllocInode(m).Some? && BlocksNeeded(|data|) > m.sb.freeBlocks)
  {
    hide Usable, Formatted, UniqueImage, SealedImage, AfterAll, AllAimed, AllSizes, Load, CopyRun, Ino, AllocInode, BlocksNeeded, DirLookup,
      AnswersKept, SuffixFree, Image, ParentOf;
    var f := Formatted(d, partSize);
    FormattedImage(d, partSize);
    UniqueIsImage(f);
    FormattedSuffix(d, partSize);
    AllRunsKeep(f, ops);
    RunsKeepSuffix(f, ops);
    ImageAddressable(AfterAll(f, ops));
    RunSpaceIff(AfterAll(f, ops), data, dest);
  }

  /** And exactly when a further copy succeeds: the name is new, its parent resolves, an inode is
      free, the blocks counted as free are enough for the data, and the directory has a slot, or
      fewer than ten extents and one more free block. */
  lemma FormattedCopyIff(d: Disk, partSize: nat, ops: seq<Op>, data: seq<byte>, dest: Path)
    requires Usable(d, partSize) && AllSizes(ops) && AllAimed(Formatted(d, partSize), ops) && |data| < MAX_DATA
    ensures var r := AfterAll(Formatted(d, partSize), ops);
      var m, p, n := Load(r), ParentOf(r, dest), BlocksNeeded(|data|);
      && Addressable(m)
      && (CopyRun(r, data, dest).Ran? <==>
            && Base(dest) != [] && p != 0 && DirLookup(r, Ino(m, r, p), Base(dest)) == 0
            && (exists i :: 2 <= i < 1024 && !UsedInode(m, i)) && n <= m.sb.freeBlocks
            && (HasSlotIn(r, BlocksOf(m, r, p), Base(dest)) || (Ino(m, r, p).extentCount < 10 && n < m.sb.freeBlocks)))
  {
    hide Usable, Formatted, UniqueImage, SealedImage, AfterAll, AllAimed, AllSizes, Load, CopyRun, Ino, UsedInode, BlocksNeeded, DirLookup,
      AnswersKept, SuffixFree, Image, HasSlotIn, BlocksOf, HasSpace, MetaOk;
    var f := Formatted(d, partSize);
    var r := AfterAll(f, ops);
    FormattedImage(d, partSize);
    UniqueIsImage(f);
    FormattedSuffix(d, partSize);
    AllRunsKeep(f, ops);
    RunsKeepSuffix(f, ops);
    ImageMeta(r);
    RunOutcomeIff(r, data, dest);
    SuffixHasSpace(Load(r), BlocksNeeded(|data|), |r|);
  }

  lemma UniqueIsImage(d: Disk)
    requires UniqueImage(d)
    ensures Image(d)
  {
  }

  /** Position k of inode i and position l of inode j hold the same block. */
  ghost predicate SameBlock(m: Meta, d: Disk, i: nat, k: nat, j: nat, l: nat) {
    && UsedInode(m, i) && UsedInode(m, j)
    && k < |BlocksOf(m, d, i)| && l < |BlocksOf(m, d, j)|
    && BlocksOf(m, d, i)[k] == BlocksOf(m, d, j)[l]
  }

  /** In a consistent state every block position is in the data region, is marked used, and
      is the only one holding its block. */
  lemma OneOwner(m: Meta, d: Disk, i: nat, k: nat, j: nat, l: nat)
    requires Inv(m, d) && SameBlock(m, d, i, k, j, l)
    ensures i == j && k == l
    ensures Addressable(m) && Owned(m, BlocksOf(m, d, i)[k])
  {
    hide ReadInode, BlockList, Consecutive, Live, Bit, MetaOk, DirsOk;
    LayoutAddressable(m, |d|);
    assert InodeOk(m, Ino(m, d, i));
    assert i != j ==> Disjoint(BlocksOf(m, d, i), BlocksOf(m, d, j));
  }
}
