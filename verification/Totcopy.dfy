/** tools/totcopy.c: the image, the cached superblock and bitmaps, and the operations that
    change them in place. Each method is proved equal to its function in CopySpec; an
    `exit(1)` is a `None` or `Refused`/`Failed` result. */
module Totcopy {
  import opened Bytes
  import opened Bitmap
  import opened Volume
  import opened Metadata
  import opened Dirent
  import opened Extents
  import opened Alloc
  import opened Paths
  import opened CopySpec

  // ---- bitmaps ----

  method SetBitInPlace(bmp: array<byte>, i: nat)
    requires i < 8 * bmp.Length
    modifies bmp
    ensures bmp[..] == SetBit(old(bmp[..]), i)
  {
    bmp[i / 8] := SetByteBit(bmp[i / 8], i % 8);
  }

  predicate TestBit(bmp: array<byte>, i: nat)
    requires i < 8 * bmp.Length
    reads bmp
    ensures TestBit(bmp, i) == Bit(bmp[..], i)
  {
    BitOf(bmp[i / 8], i % 8)
  }

  // ---- names and paths ----

  method NamesEqual(a: seq<byte>, b: seq<byte>) returns (eq: bool)
    ensures eq == NameEq(a, b)
  {
    if |a| != |b| {
      assert |Fold(a)| != |Fold(b)|;
      return false;
    }
    for i := 0 to |a|
      invariant forall k :: 0 <= k < i ==> Upper(a[k]) == Upper(b[k])
    {
      if Upper(a[i]) != Upper(b[i]) {
        assert Fold(a)[i] != Fold(b)[i];
        return false;
      }
    }
    assert Fold(a) == Fold(b);
    return true;
  }

  method FindLastSlash(path: Path) returns (lastSlash: int)
    ensures lastSlash == LastSlash(path)
  {
    lastSlash := -1;
    for i := 0 to |path|
      invariant -1 <= lastSlash < i
      invariant lastSlash >= 0 ==> path[lastSlash] == SLASH
      invariant forall k :: lastSlash < k < i ==> path[k] != SLASH
    {
      if path[i] == SLASH { lastSlash := i; }
    }
  }

  /** Cuts a path at its last slash; the parent goes into a 256-byte buffer. */
  method SplitPath(path: Path) returns (parent: Path, base: Path)
    ensures parent == Parent(path) && base == Base(path)
  {
    hide LastSlash, Parent, Base, SkipSlashes;
    var lastSlash := FindLastSlash(path);
    if lastSlash <= 0 {
      parent := [SLASH];
      var skip := SkipFrom(path, 0);
      base := path[skip..];
      assert path[0..] == path;
      RootParts(path);
    } else {
      var plen := if lastSlash >= PARENT_MAX then PARENT_MAX - 1 else lastSlash;
      parent := path[..plen];
      base := path[lastSlash + 1..];
      DeepParts(path);
    }
  }

  lemma SkipNone(p: Path)
    requires p == [] || p[0] != SLASH
    ensures SkipSlashes(p) == p
  {
  }

  lemma SkipOne(p: Path)
    requires p != [] && p[0] == SLASH
    ensures SkipSlashes(p) == SkipSlashes(p[1..])
  {
  }

  lemma RootParent(path: Path)
    requires LastSlash(path) <= 0
    ensures Parent(path) == [SLASH]
  {
    hide LastSlash;
    assert FullParent(path) == [SLASH];
    assert [SLASH][..1] == [SLASH];
  }

  lemma RootParts(path: Path)
    requires LastSlash(path) <= 0
    ensures Parent(path) == [SLASH] && Base(path) == SkipSlashes(path)
  {
    hide LastSlash, SkipSlashes, Parent;
    RootParent(path);
    var s := LastSlash(path);
    if s == 0 {
      SkipOne(path);
      SkipNone(path[1..]);
    } else {
      assert path[0..] == path;
      SkipNone(path);
    }
  }

  lemma DeepParts(path: Path)
    requires LastSlash(path) > 0
    ensures Base(path) == path[LastSlash(path) + 1..]
    ensures Parent(path) == path[..if LastSlash(path) >= PARENT_MAX then PARENT_MAX - 1 else LastSlash(path)]
  {
    hide LastSlash;
    var s := LastSlash(path);
    assert path[..s][..Min(s, PARENT_MAX - 1)] == path[..Min(s, PARENT_MAX - 1)];
  }

  /** Skips the slashes of a path from index i on. */
  method SkipFrom(path: Path, i: nat) returns (j: nat)
    requires i <= |path|
    ensures i <= j <= |path| && path[j..] == SkipSlashes(path[i..])
  {
    j := i;
    while j < |path| && path[j] == SLASH
      invariant i <= j <= |path|
      invariant SkipSlashes(path[j..]) == SkipSlashes(path[i..])
    {
      assert path[j..][1..] == path[j + 1..];
      j := j + 1;
    }
  }

  /** Length of the component that starts at index i. */
  method ComponentAt(path: Path, i: nat) returns (n: nat)
    requires i <= |path|
    ensures n == CompLen(path[i..])
  {
    n := 0;
    while i + n < |path| && path[i + n] != SLASH
      invariant i + n <= |path|
      invariant CompLen(path[i..]) == n + CompLen(path[i + n..])
    {
      assert path[i + n..][1..] == path[i + n + 1..];
      n := n + 1;
    }
  }

  /** The record walk of `dir_lookup` over one block. */
  method FindInBlock(block: Block, name: seq<byte>) returns (child: nat)
    ensures child == Find(Walk(block, 0), name)
  {
    hide Walk, RecLen, RecInode, RecName;
    var off := 0;
    while off + 8 <= BLOCK && RecLen(block, off) != 0
      invariant Find(Walk(block, 0), name) == Find(Walk(block, off), name)
      decreases BLOCK - off
    {
      FindHead(block, off, name);
      if RecInode(block, off) != 0 {
        var eq := NamesEqual(RecName(block, off), name);
        if eq { return RecInode(block, off); }
      }
      off := off + RecLen(block, off);
    }
    WalkStops(block, off);
    return 0;
  }

  // ---- the tool ----

  class Tool {
    const img: array<Block>
    const inodeBmp: array<byte>
    const blockBmp: array<byte>
    var sb: Superblock

    ghost predicate Valid() {
      inodeBmp.Length == BLOCK && blockBmp.Length == BMP_MAXBLK * BLOCK && inodeBmp != blockBmp
    }

    /** The cached metadata. */
    ghost function Mem(): Meta
      requires Valid()
      reads this, inodeBmp, blockBmp
    {
      Meta(sb, inodeBmp[..], blockBmp[..])
    }

    constructor (image: array<Block>)
      ensures Valid() && img == image
      ensures fresh(inodeBmp) && fresh(blockBmp)
      ensures forall k :: 0 <= k < blockBmp.Length ==> blockBmp[k] == 0
    {
      img := image;
      inodeBmp := new byte[BLOCK](_ => 0);
      blockBmp := new byte[BMP_MAXBLK * BLOCK](_ => 0);
      sb := DecodeSb(Zeros(INODE_SIZE));
    }

    method ReadBlock(b: nat) returns (block: Block)
      ensures block == At(img[..], b)
    {
      if b < img.Length { block := img[b]; } else { block := Zeros(BLOCK); }
    }

    method WriteBlock(b: nat, block: Block)
      modifies img
      ensures img[..] == SetAt(old(img[..]), b, block)
    {
      if b < img.Length { img[b] := block; }
    }

    method ReadInodeAt(i: nat) returns (ino: Inode)
      ensures ino == ReadInode(img[..], sb.inodeTableStart, i)
    {
      var off := (i % PER_BLOCK) * INODE_SIZE;
      var block := ReadBlock(sb.inodeTableStart + i / PER_BLOCK);
      ino := DecodeInode(block[off..off + INODE_SIZE]);
    }

    method WriteInodeAt(i: nat, ino: Inode)
      modifies img
      ensures img[..] == WriteInode(old(img[..]), sb.inodeTableStart, i, ino)
    {
      var b := sb.inodeTableStart + i / PER_BLOCK;
      var block := ReadBlock(b);
      WriteBlock(b, Splice(block, (i % PER_BLOCK) * INODE_SIZE, EncodeInode(ino)));
    }

    // ---- allocation ----

    method TakeInode() returns (r: Option<nat>)
      requires Valid()
      modifies this`sb, inodeBmp
      ensures match AllocInode(old(Mem()))
              case None => r == None && Mem() == old(Mem())
              case Some(g) => r == Some(g.value) && Mem() == g.m
    {
      var i := 2;
      while i < sb.totalInodes && i < BLOCK * 8
        invariant 2 <= i
        invariant FirstClear(inodeBmp[..], 2, Min(sb.totalInodes, BITS_PER_BLOCK))
               == FirstClear(inodeBmp[..], i, Min(sb.totalInodes, BITS_PER_BLOCK))
      {
        if !TestBit(inodeBmp, i) {
          SetBitInPlace(inodeBmp, i);
          sb := sb.(freeInodes := Sub64(sb.freeInodes, 1));
          return Some(i);
        }
        i := i + 1;
      }
      return None;
    }

    /** Marks a run of blocks used, bit by bit. */
    method MarkRun(start: nat, run: nat)
      requires Valid() && Addressable(Mem()) && start + run <= sb.totalBlocks
      modifies this`sb, blockBmp
      ensures Mem() == Claim(old(Mem()), start, run)
    {
      hide SetBit;
      for j := 0 to run
        invariant sb == old(sb) && blockBmp[..] == SetRun(old(blockBmp[..]), start, j)
      {
        SetBitInPlace(blockBmp, start + j);
      }
      sb := sb.(freeBlocks := Sub64(sb.freeBlocks, run));
    }

    method TakeBlock() returns (r: Option<nat>)
      requires Valid() && Addressable(Mem())
      modifies this`sb, blockBmp
      ensures match AllocBlock(old(Mem()))
              case None => r == None && Mem() == old(Mem())
              case Some(g) => r == Some(g.value) && Mem() == g.m
    {
      var i := sb.dataStart;
      while i < sb.totalBlocks
        invariant FirstClear(blockBmp[..], sb.dataStart, sb.totalBlocks) == FirstClear(blockBmp[..], i, sb.totalBlocks)
      {
        if !TestBit(blockBmp, i) {
          MarkRun(i, 1);
          return Some(i);
        }
        i := i + 1;
      }
      return None;
    }

    method TakeRun(count: nat) returns (r: Option<Run>)
      requires Valid() && Addressable(Mem()) && count > 0
      modifies this`sb, blockBmp
      ensures match AllocRun(old(Mem()), count)
              case None => r == None && Mem() == old(Mem())
              case Some(g) => r == Some(g.value) && Mem() == g.m
    {
      var run := Run(0, 0);
      var i := sb.dataStart;
      ScanInVolume(Mem(), count);
      while i < sb.totalBlocks
        invariant run.len < count
        invariant Scan(blockBmp[..], sb.dataStart, sb.totalBlocks, Run(0, 0), count)
               == Scan(blockBmp[..], i, sb.totalBlocks, run, count)
      {
        if !TestBit(blockBmp, i) {
          run := Run(if run.len == 0 then i else run.start, run.len + 1);
          if run.len >= count {
            MarkRun(run.start, run.len);
            return Some(run);
          }
        } else {
          run := Run(run.start, 0);
        }
        i := i + 1;
      }
      if run.len > 0 {
        MarkRun(run.start, run.len);
        return Some(run);
      }
      return None;
    }

    // ---- lookup ----

    method LookupName(dir: Inode, name: seq<byte>) returns (child: nat)
      ensures child == DirLookup(img[..], dir, name)
    {
      hide Flat, Walk, Find, At, Entries;
      ghost var d, es, flat := img[..], Live(dir), BlockList(dir);
      EmptyFlat(es);
      for e := 0 to Min(dir.extentCount, NUM_EXTENTS)
        invariant |Flat(es[..e])| <= |flat|
        invariant Find(Entries(d, flat), name) == Find(Entries(d, flat[|Flat(es[..e])|..]), name)
      {
        FlatTake(es, e);
        FlatPrefix(es, e + 1);
        for b := 0 to dir.extents[e].count
          invariant |Flat(es[..e])| + b <= |flat|
          invariant Find(Entries(d, flat), name) == Find(Entries(d, flat[|Flat(es[..e])| + b..]), name)
        {
          ghost var pos := |Flat(es[..e])| + b;
          FlatAt(es, e, b);
          var block := ReadBlock(dir.extents[e].start + b);
          LookupStep(d, flat, pos, name);
          child := FindInBlock(block, name);
          if child != 0 { return; }
        }
      }
      FindNothing(d, flat, name);
      return 0;
    }

    method ResolveInode(path: Path) returns (i: nat)
      ensures i == ResolvePath(img[..], sb.inodeTableStart, path)
    {
      hide DirLookup, ReadInode, CompLen, SkipSlashes, ResolveFrom;
      if path == [] { return 0; }
      ghost var step := ChildStep(img[..], sb.inodeTableStart);
      var at := SkipFrom(path, 0);
      assert path[0..] == path;
      i := ROOT;
      while at < |path|
        invariant at <= |path| && (at < |path| ==> path[at] != SLASH)
        invariant ResolveFrom(step, ROOT, SkipSlashes(path)) == ResolveFrom(step, i, path[at..])
        decreases |path| - at
      {
        var n := ComponentAt(path, at);
        assert path[at..][..n] == path[at..at + n] && path[at..][n..] == path[at + n..];
        ResolveStep(step, i, path[at..]);
        var dir := ReadInodeAt(i);
        if dir.kind != TYPE_DIR { return 0; }
        var child := LookupName(dir, path[at..at + n]);
        assert child == step(i, path[at..at + n]);
        if child == 0 { return 0; }
        i := child;
        at := SkipFrom(path, at + n);
      }
      ResolveDone(step, i);
    }

    // ---- reading a file out ----

    method GetFile(path: Path) returns (r: GetResult)
      requires sb == LoadSb(img[..])
      ensures r == Get(img[..], path)
    {
      var inum := ResolveInode(path);
      if inum == 0 { return NotFound; }
      var ino := ReadInodeAt(inum);
      if ino.kind == TYPE_DIR { return IsDirectory; }
      var out := ReadExtents(ino);
      return Content(out);
    }

    method ReadExtents(ino: Inode) returns (out: seq<byte>)
      ensures out == Contents(img[..], BlockList(ino), ino.size)
    {
      hide Flat, At, ReadSoFar, Contents;
      ghost var d, es, flat := img[..], Live(ino), BlockList(ino);
      EmptyFlat(es);
      ReadNothing(d, flat, ino.size);
      var remaining: nat := ino.size;
      out := [];
      var e := 0;
      while e < Min(ino.extentCount, NUM_EXTENTS) && remaining > 0
        invariant 0 <= e <= |es| && |Flat(es[..e])| <= |flat|
        invariant ReadSoFar(d, flat, ino.size, |Flat(es[..e])|, out, remaining)
               || (remaining == 0 && out == Contents(d, flat, ino.size))
      {
        FlatTake(es, e);
        FlatPrefix(es, e + 1);
        var b := 0;
        while b < ino.extents[e].count && remaining > 0
          invariant 0 <= b <= es[e].count
          invariant ReadSoFar(d, flat, ino.size, |Flat(es[..e])| + b, out, remaining)
        {
          FlatAt(es, e, b);
          var block := ReadBlock(ino.extents[e].start + b);
          var n := if remaining < BLOCK then remaining else BLOCK;
          ReadOneMore(d, flat, ino.size, |Flat(es[..e])| + b, out, remaining);
          out := out + block[..n];
          remaining := remaining - n;
          b := b + 1;
        }
        if remaining == 0 { ReadDone(d, flat, ino.size, |Flat(es[..e])| + b, out); }
        e := e + 1;
      }
      if remaining == 0 && out != Contents(d, flat, ino.size) {
        ReadDone(d, flat, ino.size, |Flat(es[..e])|, out);
      } else if remaining > 0 {
        ReadAll(d, flat, ino.size, out, remaining);
      }
    }

    // ---- adding a directory record ----

    method InsertRecord(dir: nat, child: nat, name: seq<byte>, kind: byte) returns (why: Option<Failure>)
      requires Valid() && Addressable(Mem())
      modifies this`sb, blockBmp, img
      ensures match AddDirent(old(Mem()), old(img[..]), dir, child, name, kind)
              case EntryAdded(m, d) => why == None && Mem() == m && img[..] == d
              case Refused(w) => why == Some(w) && img[..] == old(img[..])
    {
      hide AllocBlock, ReadInode, FreshBlock, PlaceIn, Flat, SetAt, WriteInode;
      var ino := ReadInodeAt(dir);
      var placed := PlaceInDirectory(ino, child, name, kind);
      if placed { return None; }
      if ino.extentCount >= NUM_EXTENTS { return Some(DirectoryOutOfExtents); }
      if AllocBlock(Mem()).Some? { AllocBlockTable(Mem()); }
      var g := TakeBlock();
      if g.None? { return Some(NoSpaceForDirectory); }
      WriteBlock(g.value, FreshBlock(child, name, kind));
      WriteInodeAt(dir, GrowDir(ino, g.value));
      return None;
    }

    /** Tries every block of the directory in turn. */
    method PlaceInDirectory(dir: Inode, child: nat, name: seq<byte>, kind: byte) returns (placed: bool)
      modifies img
      ensures match PlaceIn(old(img[..]), BlockList(dir), child, name, kind)
              case None => !placed && img[..] == old(img[..])
              case Some(e) => placed && img[..] == SetAt(old(img[..]), e.at, e.block)
    {
      hide Flat, Place, PlaceIn, At, SetAt;
      ghost var d, es, flat := img[..], Live(dir), BlockList(dir);
      EmptyFlat(es);
      for e := 0 to Min(dir.extentCount, NUM_EXTENTS)
        invariant img[..] == d && |Flat(es[..e])| <= |flat|
        invariant PlaceIn(d, flat, child, name, kind) == PlaceIn(d, flat[|Flat(es[..e])|..], child, name, kind)
      {
        FlatTake(es, e);
        FlatPrefix(es, e + 1);
        for b := 0 to dir.extents[e].count
          invariant img[..] == d && |Flat(es[..e])| + b <= |flat|
          invariant PlaceIn(d, flat, child, name, kind) == PlaceIn(d, flat[|Flat(es[..e])| + b..], child, name, kind)
        {
          ghost var pos := |Flat(es[..e])| + b;
          FlatAt(es, e, b);
          PlaceInStep(d, flat, pos, child, name, kind);
          var bnum := dir.extents[e].start + b;
          var block := ReadBlock(bnum);
          var buf := ToBuffer(block);
          placed := PlaceInBuffer(buf, child, name, kind);
          if placed {
            WriteBlock(bnum, buf[..]);
            return;
          }
        }
      }
      PlaceInNothing(d, flat, child, name, kind);
      return false;
    }

    // ---- copying a file in ----

    method CopyFile(data: seq<byte>, dest: Path) returns (r: CopyStatus)
      requires Valid() && Addressable(Mem())
      modifies this`sb, inodeBmp, blockBmp, img
      ensures match Copy(old(Mem()), old(img[..]), data, dest)
              case Copied(m, d, n) => r == Done(n) && Mem() == m && img[..] == d
              case Failed(d, why) => r == Gave(why) && img[..] == d
    {
      hide AllocInode, AllocExtents, ReadInode, ResolvePath, DirLookup, AddDirent, StoreFile, Flat, LastSlash;
      var parent, base := SplitPath(dest);
      if |base| == 0 { return Gave(InvalidDest); }
      var parentInum := ResolveInode(parent);
      if parentInum == 0 { return Gave(ParentNotFound); }
      var parentDir := ReadInodeAt(parentInum);
      var existing := LookupName(parentDir, base);
      if existing != 0 { return Gave(AlreadyExists); }
      r := CopyUnder(data, parentInum, base);
    }

    method CopyUnder(data: seq<byte>, parent: nat, base: seq<byte>) returns (r: CopyStatus)
      requires Valid() && Addressable(Mem())
      modifies this`sb, inodeBmp, blockBmp, img
      ensures match CopyInto(old(Mem()), old(img[..]), data, parent, base)
              case Copied(m, d, n) => r == Done(n) && Mem() == m && img[..] == d
              case Failed(d, why) => r == Gave(why) && img[..] == d
    {
      hide AllocExtents, AddDirent, Flat, WriteData, WriteInode, FileInode, FirstClear, SetBit;
      var n := TakeInode();
      if n.None? { return Gave(NoFreeInode); }
      AllocExtentsBound(Mem(), BlocksNeeded(|data|), 0, []);
      ghost var m1 := Mem();
      var es := TakeExtents(BlocksNeeded(|data|));
      if es.None? { return Gave(NoSpaceForData); }
      AllocExtentsTable(m1, BlocksNeeded(|data|), 0, []);
      WriteFileData(es.value, data);
      WriteInodeAt(n.value, FileInode(|data|, es.value));
      var why := InsertRecord(parent, n.value, base, TYPE_FILE);
      if why.Some? { return Gave(why.value); }
      return Done(n.value);
    }

    method TakeExtents(blocks: nat) returns (r: Option<seq<Extent>>)
      requires Valid() && Addressable(Mem())
      modifies this`sb, blockBmp
      ensures match AllocExtents(old(Mem()), blocks, 0, [])
              case None => r == None
              case Some(g) => r == Some(g.value) && Mem() == g.m
    {
      hide AllocRun;
      var remaining: nat, logical: nat, es: seq<Extent> := blocks, 0, [];
      while remaining > 0
        invariant Valid() && Addressable(Mem()) && inodeBmp[..] == old(inodeBmp[..]) && |es| <= NUM_EXTENTS
        invariant AllocExtents(old(Mem()), blocks, 0, []) == AllocExtents(Mem(), remaining, logical, es)
      {
        if |es| >= NUM_EXTENTS { return None; }
        var g := TakeRun(remaining);
        if g.None? { return None; }
        es := es + [Extent(g.value.start, g.value.len, logical)];
        logical := logical + g.value.len;
        remaining := remaining - g.value.len;
      }
      return Some(es);
    }

    method WriteFileData(es: seq<Extent>, data: seq<byte>)
      modifies img
      ensures img[..] == WriteData(old(img[..]), Flat(es), data)
    {
      hide Flat, SetAt, WriteData, Chunk, Zeros;
      ghost var d, flat := img[..], Flat(es);
      var written := 0;
      EmptyFlat(es);
      WriteNothing(d, flat, data);
      for e := 0 to |es|
        invariant |Flat(es[..e])| <= |flat| && written == Min(BLOCK * |Flat(es[..e])|, |data|)
        invariant img[..] == WriteData(d, flat[..|Flat(es[..e])|], data)
      {
        FlatTake(es, e);
        FlatPrefix(es, e + 1);
        for b := 0 to es[e].count
          invariant |Flat(es[..e])| + b <= |flat| && written == Min(BLOCK * (|Flat(es[..e])| + b), |data|)
          invariant img[..] == WriteData(d, flat[..|Flat(es[..e])| + b], data)
        {
          ghost var pos := |Flat(es[..e])| + b;
          FlatAt(es, e, b);
          var chunk := |data| - written;
          if chunk > BLOCK { chunk := BLOCK; }
          PaddedChunk(data, pos, written, chunk);
          WriteDataStep(d, flat, pos, data);
          WriteBlock(es[e].start + b, data[written..written + chunk] + Zeros(BLOCK - chunk));
          written := written + chunk;
        }
      }
      assert flat[..|flat|] == flat;
    }

    // ---- load and flush ----

    method FlushMetadata()
      requires Valid()
      modifies img
      ensures img[..] == Flush(Mem(), old(img[..]))
    {
      hide MapBlocks, SetAt, EncodeSb, MapSlice;
      WriteBlock(sb.inodeBitmapStart, inodeBmp[..]);
      ghost var d1 := img[..];
      var n := MapBlocks(sb);
      for i := 0 to n
        invariant img[..] == FlushMap(d1, blockBmp[..], sb.blockBitmapStart, i)
      {
        SliceOfArray(blockBmp[..], i);
        WriteBlock(sb.blockBitmapStart + i, blockBmp[i * BLOCK..(i + 1) * BLOCK]);
      }
      WriteBlock(0, Splice(Zeros(BLOCK), 0, EncodeSb(sb)));
    }

    /** The first half of `main`: superblock, magic check, bitmaps. */
    method LoadMetadata() returns (ok: bool)
      requires Valid() && forall k :: 0 <= k < blockBmp.Length ==> blockBmp[k] == 0
      modifies this`sb, inodeBmp, blockBmp
      ensures sb == LoadSb(img[..]) && ok == (sb.magic == MAGIC)
      ensures ok ==> Mem() == Load(img[..])
    {
      hide DecodeSb, MapBlocks, At, LoadMap;
      var first := ReadBlock(0);
      sb := DecodeSb(first[..INODE_SIZE]);
      if sb.magic != MAGIC { return false; }
      var inodeBlock := ReadBlock(sb.inodeBitmapStart);
      FillFrom(inodeBmp, 0, inodeBlock);
      assert inodeBmp[..] == inodeBlock;
      var n := MapBlocks(sb);
      LoadMapNothing(img[..], sb.blockBitmapStart, blockBmp[..]);
      for i := 0 to n
        invariant sb == LoadSb(img[..]) && inodeBmp[..] == inodeBlock
        invariant blockBmp[..] == LoadMap(img[..], sb.blockBitmapStart, i)
      {
        var block := ReadBlock(sb.blockBitmapStart + i);
        FillFrom(blockBmp, i * BLOCK, block);
        LoadMapStep(img[..], sb.blockBitmapStart, i, blockBmp[..]);
      }
      return true;
    }
  }

  datatype CopyStatus = Done(inum: nat) | Gave(why: Failure)

  /** One run of the tool in copy mode. */
  method CopyTool(image: array<Block>, data: seq<byte>, dest: Path) returns (r: Option<CopyStatus>)
    requires Addressable(Load(image[..]))
    modifies image
    ensures match CopyRun(old(image[..]), data, dest)
            case Ran(d, n) => image[..] == d && r == Some(Done(n))
            case Aborted(d, why) => image[..] == d && r == Some(Gave(why))
            case NotTotfs(d) => image[..] == d && r == None
  {
    hide Load, LoadSb, Copy, Flush;
    var tool := new Tool(image);
    var ok := tool.LoadMetadata();
    LoadedSb(image[..]);
    if !ok { return None; }
    var s := tool.CopyFile(data, dest);
    if s.Done? { tool.FlushMetadata(); }
    return Some(s);
  }

  lemma LoadedSb(d: Disk)
    ensures Load(d).sb == LoadSb(d)
  {
  }

  // ---- buffers ----

  method ToBuffer(block: Block) returns (buf: array<byte>)
    ensures fresh(buf) && buf.Length == BLOCK && buf[..] == block
  {
    buf := new byte[BLOCK](k requires 0 <= k < BLOCK => block[k]);
  }

  lemma PlaceInStep(d: Disk, flat: seq<nat>, pos: nat, child: nat, name: seq<byte>, kind: byte)
    requires pos < |flat|
    ensures PlaceIn(d, flat[pos..], child, name, kind) ==
      match Place(At(d, flat[pos]), 0, child, name, kind)
      case Some(r) => Some(Edit(flat[pos], r))
      case None => PlaceIn(d, flat[pos + 1..], child, name, kind)
  {
    hide Place, At;
    assert flat[pos..][0] == flat[pos] && flat[pos..][1..] == flat[pos + 1..];
  }

  lemma PlaceInNothing(d: Disk, flat: seq<nat>, child: nat, name: seq<byte>, kind: byte)
    ensures PlaceIn(d, flat[|flat|..], child, name, kind) == None
  {
  }

  lemma WriteNothing(d: Disk, flat: seq<nat>, data: seq<byte>)
    ensures WriteData(d, flat[..0], data) == d
  {
  }

  lemma WriteDataStep(d: Disk, flat: seq<nat>, pos: nat, data: seq<byte>)
    requires pos < |flat|
    ensures WriteData(d, flat[..pos + 1], data) == SetAt(WriteData(d, flat[..pos], data), flat[pos], Chunk(data, pos))
  {
    hide SetAt, Chunk;
    assert flat[..pos + 1][..pos] == flat[..pos];
  }

  /** The padded buffer of one loop round is the chunk of that block. */
  lemma PaddedChunk(data: seq<byte>, pos: nat, written: nat, chunk: nat)
    requires written == Min(BLOCK * pos, |data|) && chunk == Min(|data| - written, BLOCK)
    ensures data[written..written + chunk] + Zeros(BLOCK - chunk) == Chunk(data, pos)
    ensures written + chunk == Min(BLOCK * (pos + 1), |data|)
  {
  }

  /** `memcpy(buf + off, chunk, |chunk|)` in place. */
  method FillFrom(buf: array<byte>, off: nat, chunk: seq<byte>)
    requires off + |chunk| <= buf.Length
    modifies buf
    ensures buf[..] == Splice(old(buf[..]), off, chunk)
  {
    for k := 0 to |chunk|
      invariant forall j :: 0 <= j < buf.Length ==>
        buf[j] == if off <= j < off + k then chunk[j - off] else old(buf[j])
    {
      buf[off + k] := chunk[k];
    }
    assert buf[..] == Splice(old(buf[..]), off, chunk);
  }

  /** The record walk of `add_dirent` over one block buffer, edited in place. */
  method PlaceInBuffer(buf: array<byte>, child: nat, name: seq<byte>, kind: byte) returns (placed: bool)
    requires buf.Length == BLOCK
    modifies buf
    ensures match Place(old(buf[..]), 0, child, name, kind)
            case None => !placed && buf[..] == old(buf[..])
            case Some(r) => placed && buf[..] == r
  {
    hide RecLen, RecInode, NameLen, Footprint, Needed, Place, PutRecord, PutRecLen, Slack;
    ghost var b := buf[..];
    var off, needed := 0, Needed(|name|);
    while off + 8 <= BLOCK && RecLen(buf[..], off) != 0
      invariant buf[..] == b && Place(b, 0, child, name, kind) == Place(b, off, child, name, kind)
      decreases BLOCK - off
    {
      PlaceStep(b, off, child, name, kind);
      var len := RecLen(buf[..], off);
      if RecInode(buf[..], off) == 0 && len >= needed {
        StoreRecord(buf, off, child, len, name, kind);
        return true;
      }
      var actual := Footprint(NameLen(buf[..], off));
      var slack := Slack(len, actual);
      if slack >= needed && HasHeader(off + actual) {
        StoreRecLen(buf, off, actual);
        StoreRecord(buf, off + actual, child, slack, name, kind);
        return true;
      }
      off := off + len;
    }
    PlaceStops(b, off, child, name, kind);
    return false;
  }

  lemma PlaceStops(b: Block, off: nat, child: nat, name: seq<byte>, kind: byte)
    requires !HasHeader(off) || RecLen(b, off) == 0
    ensures Place(b, off, child, name, kind) == None
  {
  }

  method StoreRecLen(buf: array<byte>, off: nat, recLen: nat)
    requires buf.Length == BLOCK && HasHeader(off)
    modifies buf
    ensures buf[..] == PutRecLen(old(buf[..]), off, recLen)
  {
    FillFrom(buf, off + 4, ToLE(recLen, 2));
  }

  method StoreRecord(buf: array<byte>, off: nat, child: nat, recLen: nat, name: seq<byte>, kind: byte)
    requires buf.Length == BLOCK && HasHeader(off)
    modifies buf
    ensures buf[..] == PutRecord(old(buf[..]), off, child, recLen, name, kind)
  {
    var room := Min(|name|, BLOCK - off - HEADER);
    FillFrom(buf, off, Header(child, recLen, |name| % 256, kind) + name[..room]);
  }

  lemma SliceOfArray(s: seq<byte>, i: nat)
    requires |s| == BMP_MAXBLK * BLOCK && i < BMP_MAXBLK
    ensures s[i * BLOCK..(i + 1) * BLOCK] == MapSlice(s, i)
  {
  }

  lemma LoadMapNothing(d: Disk, start: nat, r: seq<byte>)
    requires |r| == BMP_MAXBLK * BLOCK && forall k :: 0 <= k < |r| ==> r[k] == 0
    ensures r == LoadMap(d, start, 0)
  {
  }

  lemma LoadMapStep(d: Disk, start: nat, i: nat, r: seq<byte>)
    requires i < BMP_MAXBLK && |r| == BMP_MAXBLK * BLOCK
    requires r == Splice(LoadMap(d, start, i), i * BLOCK, At(d, start + i))
    ensures r == LoadMap(d, start, i + 1)
  {
    hide At;
    var a, b := LoadMap(d, start, i), LoadMap(d, start, i + 1);
    forall k | 0 <= k < BMP_MAXBLK * BLOCK ensures r[k] == b[k] {
      if i * BLOCK <= k < (i + 1) * BLOCK {
        assert r[k] == r[i * BLOCK..i * BLOCK + BLOCK][k - i * BLOCK];
        assert k / BLOCK == i && k % BLOCK == k - i * BLOCK;
      } else {
        assert r[k] == a[k];
      }
    }
  }

  lemma AllocBlockTable(m: Meta)
    requires Addressable(m) && AllocBlock(m).Some?
    ensures AllocBlock(m).value.m.sb.inodeTableStart == m.sb.inodeTableStart
  {
  }

  lemma AllocRunTable(m: Meta, count: nat)
    requires Addressable(m) && count > 0 && AllocRun(m, count).Some?
    ensures AllocRun(m, count).value.m.sb.inodeTableStart == m.sb.inodeTableStart
  {
    hide Scan;
  }

  lemma {:induction false} AllocExtentsTable(m: Meta, remaining: nat, logical: nat, es: seq<Extent>)
    requires Addressable(m)
    ensures var g := AllocExtents(m, remaining, logical, es);
      g.Some? ==> g.value.m.sb.inodeTableStart == m.sb.inodeTableStart
    decreases remaining
  {
    hide AllocRun;
    if remaining > 0 && |es| < NUM_EXTENTS && AllocRun(m, remaining).Some? {
      var g := AllocRun(m, remaining).value;
      AllocRunTable(m, remaining);
      AllocExtentsTable(g.m, remaining - g.value.len, logical + g.value.len,
                        es + [Extent(g.value.start, g.value.len, logical)]);
    }
  }

  // ---- loop invariants of the readers ----

  lemma FindNothing(d: Disk, flat: seq<nat>, name: seq<byte>)
    ensures Find(Entries(d, flat[|flat|..]), name) == 0
  {
  }

  lemma LookupStep(d: Disk, flat: seq<nat>, pos: nat, name: seq<byte>)
    requires pos < |flat|
    ensures var c := Find(Walk(At(d, flat[pos]), 0), name);
      Find(Entries(d, flat[pos..]), name) == if c != 0 then c else Find(Entries(d, flat[pos + 1..]), name)
  {
    hide Walk, Find, At;
    assert flat[pos..][0] == flat[pos] && flat[pos..][1..] == flat[pos + 1..];
    WalkInodesNonZero(At(d, flat[pos]), 0);
    FindConcat(Walk(At(d, flat[pos]), 0), Entries(d, flat[pos + 1..]), name);
  }

  lemma EmptyFlat(es: seq<Extent>)
    ensures Flat(es[..0]) == [] && es[..|es|] == es
  {
  }

  lemma FindHead(b: Block, off: nat, name: seq<byte>)
    requires HasHeader(off) && RecLen(b, off) != 0
    ensures Find(Walk(b, off), name) ==
      if RecInode(b, off) != 0 && NameEq(RecName(b, off), name) then RecInode(b, off)
      else Find(Walk(b, off + RecLen(b, off)), name)
  {
    hide RecInode, RecLen, NameLen, RecName, Walk;
    WalkStep(b, off);
    var next := Walk(b, off + RecLen(b, off));
    if RecInode(b, off) != 0 { assert (HeadEntries(b, off) + next)[1..] == next; } else { assert HeadEntries(b, off) + next == next; }
  }

  lemma WalkStops(b: Block, off: nat)
    requires !HasHeader(off) || RecLen(b, off) == 0
    ensures Walk(b, off) == []
  {
  }

  /** `out` holds the first `pos` blocks, cut at `size`; `remaining` bytes are missing. */
  ghost predicate ReadSoFar(d: Disk, flat: seq<nat>, size: nat, pos: nat, out: seq<byte>, remaining: nat) {
    && pos <= |flat|
    && out == Gather(d, flat[..pos])[..Min(size, BLOCK * pos)]
    && remaining == size - Min(size, BLOCK * pos)
  }

  lemma ReadNothing(d: Disk, flat: seq<nat>, size: nat)
    ensures ReadSoFar(d, flat, size, 0, [], size)
  {
  }

  lemma ReadAll(d: Disk, flat: seq<nat>, size: nat, out: seq<byte>, remaining: nat)
    requires ReadSoFar(d, flat, size, |flat|, out, remaining)
    ensures out == Contents(d, flat, size)
  {
    assert flat[..|flat|] == flat;
  }

  lemma ReadOneMore(d: Disk, flat: seq<nat>, size: nat, pos: nat, out: seq<byte>, remaining: nat)
    requires ReadSoFar(d, flat, size, pos, out, remaining) && pos < |flat| && remaining > 0
    ensures var n := if remaining < BLOCK then remaining else BLOCK;
      ReadSoFar(d, flat, size, pos + 1, out + At(d, flat[pos])[..n], remaining - n)
  {
    hide At;
    var n := if remaining < BLOCK then remaining else BLOCK;
    assert flat[..pos + 1][..pos] == flat[..pos];
    var g := Gather(d, flat[..pos]);
    assert Gather(d, flat[..pos + 1]) == g + At(d, flat[pos]);
    assert out == g;
    assert (g + At(d, flat[pos]))[..BLOCK * pos + n] == g + At(d, flat[pos])[..n];
  }

  lemma {:induction false} GatherPrefix(d: Disk, flat: seq<nat>, pos: nat)
    requires pos <= |flat|
    ensures Gather(d, flat)[..BLOCK * pos] == Gather(d, flat[..pos])
    decreases |flat|
  {
    if pos == |flat| { assert flat[..pos] == flat; } else {
      var init := flat[..|flat| - 1];
      GatherPrefix(d, init, pos);
      assert init[..pos] == flat[..pos];
      assert Gather(d, flat)[..BLOCK * pos] == Gather(d, init)[..BLOCK * pos];
    }
  }

  lemma ReadDone(d: Disk, flat: seq<nat>, size: nat, pos: nat, out: seq<byte>)
    requires ReadSoFar(d, flat, size, pos, out, 0)
    ensures out == Contents(d, flat, size)
  {
    GatherPrefix(d, flat, pos);
    assert Gather(d, flat)[..size] == Gather(d, flat)[..BLOCK * pos][..size];
  }
}
